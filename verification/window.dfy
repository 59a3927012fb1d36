/** Building the model's input from an encoded text: keep the trailing
    context window, then left-pad it with zeros to the fixed width the
    model was trained with. */
module Window {

  /** Python's open-ended slice `s[a:]`: a negative start counts from the
      end and is clamped at the front; a non-negative start is clamped at
      the back. The result is always a suffix of `s`. */
  function SliceFrom<T>(s: seq<T>, a: int): (r: seq<T>)
    ensures |r| <= |s|
    ensures r == s[|s| - |r|..]
    ensures a < 0 ==> |r| == (if -a < |s| then -a else |s|)
    ensures a >= 0 ==> |r| == (if a < |s| then |s| - a else 0)
  {
    if a < 0 then
      s[(if |s| + a < 0 then 0 else |s| + a)..]
    else
      s[(if a < |s| then a else |s|)..]
  }

  /** `sequence[-(max_len - 1):]`, for every integer `max_len`. With
      `max_len == 1` the start is `-0`, which Python reads as `0`, so the
      whole sequence survives instead of none of it. */
  function Truncate(s: seq<nat>, maxLen: int): (r: seq<nat>)
    ensures |r| <= |s|
    ensures r == s[|s| - |r|..]
    ensures maxLen >= 2 ==> |r| == (if |s| < maxLen - 1 then |s| else maxLen - 1)
    ensures maxLen == 1 ==> r == s
    ensures maxLen <= 0 ==> |r| == (if 1 - maxLen < |s| then |s| - (1 - maxLen) else 0)
  {
    SliceFrom(s, -(maxLen - 1))
  }

  /** A run of `k` padding indices. */
  function Zeros(k: nat): (z: seq<nat>)
    ensures |z| == k
  {
    if k == 0 then [] else [0] + Zeros(k - 1)
  }

  /** `pad_sequences([s], maxlen=n, padding="pre")` for one sequence that
      already fits: padding on the left, the sequence unchanged on the
      right. */
  function PadPre(s: seq<nat>, n: nat): (r: seq<nat>)
    requires |s| <= n
    ensures |r| == n
    ensures r[..n - |s|] == Zeros(n - |s|)
    ensures forall i :: 0 <= i < n - |s| ==> r[i] == 0
    ensures r[n - |s|..] == s
  {
    ZerosAreZero(n - |s|);
    Zeros(n - |s|) + s
  }

  /** Every padding index is zero. */
  lemma {:induction false} ZerosAreZero(k: nat)
    ensures forall i :: 0 <= i < k ==> Zeros(k)[i] == 0
    decreases k
  {
    if k > 0 {
      ZerosAreZero(k - 1);
      assert forall i :: 0 < i < k ==> Zeros(k)[i] == Zeros(k - 1)[i - 1];
    }
  }

  /** The array handed to the model: the truncated sequence behind as many
      padding zeros as it falls short of the context window `maxLen - 1`.
      This is `PadPre(Truncate(s, maxLen), maxLen - 1)` written out, so that
      a round does not carry `PadPre`'s contract along;
      `Generation.ScoresOfPaddedWindow` proves the two the same. */
  function ModelInput(s: seq<nat>, maxLen: int): (x: seq<nat>)
    requires maxLen >= 2
    ensures |x| == maxLen - 1
  {
    var t := Truncate(s, maxLen);
    Zeros(maxLen - 1 - |t|) + t
  }

  /** Whatever the length of the encoded text, the model sees exactly the
      last `maxLen - 1` indices of it when the text is long enough, and
      otherwise zeros followed by the whole text. */
  lemma ModelInputIsRightAlignedTail(s: seq<nat>, maxLen: int)
    requires maxLen >= 2
    ensures |s| >= maxLen - 1 ==> ModelInput(s, maxLen) == s[|s| - (maxLen - 1)..]
    ensures |s| < maxLen - 1 ==> ModelInput(s, maxLen)[maxLen - 1 - |s|..] == s
    ensures forall i :: 0 <= i < maxLen - 1 - |s| ==> ModelInput(s, maxLen)[i] == 0
  {
    var t := Truncate(s, maxLen);
    if |s| >= maxLen - 1 {
      assert |t| == maxLen - 1;
      assert Zeros(0) == [];
      assert ModelInput(s, maxLen) == [] + t;
    } else {
      assert t == s;
      ZerosAreZero(maxLen - 1 - |s|);
    }
  }
}
