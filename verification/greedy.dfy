/** Greedy decoding: the position of the highest score, ties going to the
    earliest position, as `np.argmax` resolves them. */
module Greedy {

  /** `i` holds a maximal score and every earlier position scores strictly
      less, so `i` is the first maximum. */
  ghost predicate IsFirstMax(scores: seq<int>, i: int) {
    && 0 <= i < |scores|
    && (forall j :: 0 <= j < |scores| ==> scores[j] <= scores[i])
    && (forall j :: 0 <= j < i ==> scores[j] < scores[i])
  }

  /** At most one position is the first maximum. */
  lemma FirstMaxUnique(scores: seq<int>, i: int, k: int)
    requires IsFirstMax(scores, i) && IsFirstMax(scores, k)
    ensures i == k
  {
    assert scores[i] == scores[k];
  }

  /** The decoding choice as a function: scan all but the last score, and
      let the last one win only if it is strictly larger. The choice is
      the first maximum. */
  function ArgMaxFirst(scores: seq<int>): (i: nat)
    requires |scores| > 0
    ensures IsFirstMax(scores, i)
    decreases |scores|
  {
    if |scores| == 1 then 0
    else
      var init := scores[..|scores| - 1];
      var k := ArgMaxFirst(init);
      assert forall j :: 0 <= j < |init| ==> scores[j] == init[j];
      if scores[|scores| - 1] > scores[k] then |scores| - 1 else k
  }

  /** A position is the first maximum exactly when it is the one
      `ArgMaxFirst` picks. */
  lemma ArgMaxFirstCharacterised(scores: seq<int>, i: int)
    requires |scores| > 0
    ensures IsFirstMax(scores, i) <==> i == ArgMaxFirst(scores)
  {
    if IsFirstMax(scores, i) {
      FirstMaxUnique(scores, i, ArgMaxFirst(scores));
    }
  }

  /** The left-to-right scan `np.argmax` performs: a later score replaces
      the best so far only when it is strictly larger. */
  method ArgMaxScan(scores: seq<int>) returns (best: nat)
    requires |scores| > 0
    ensures IsFirstMax(scores, best)
    ensures best == ArgMaxFirst(scores)
  {
    best := 0;
    var k := 1;
    while k < |scores|
      invariant best < k <= |scores|
      invariant forall j :: 0 <= j < k ==> scores[j] <= scores[best]
      invariant forall j :: 0 <= j < best ==> scores[j] < scores[best]
    {
      if scores[k] > scores[best] {
        best := k;
      }
      k := k + 1;
    }
    FirstMaxUnique(scores, best, ArgMaxFirst(scores));
  }
}
