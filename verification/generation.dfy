/** The greedy generation of the request handler: re-encode the
    accumulated text, feed the trailing window to the model, take the
    first best index, turn it back into a word and append it, at most
    `numWords` times, stopping early when the text encodes to nothing,
    when the model returns no scores, or when the chosen index names no
    word. */
module Generation {
  import opened Options
  import opened Window
  import opened Greedy
  import opened Vocabulary
  import opened BoundedLoop

  /** The loaded artifact: the tokenizer's encoder and its `word_index`, the
      network's scoring function, and `max_len`. The encoder and the network
      are opaque; scores are integers standing in for probabilities. */
  datatype Predictor = Predictor(
    encode: string -> seq<nat>,
    predict: seq<nat> -> seq<int>,
    wordIndex: seq<Entry>,
    maxLen: int)

  /** The values `range(n)` yields: `0, 1, ..., n - 1`, and none when
      `n <= 0`. */
  function Range(n: int): (r: seq<int>)
    ensures forall i :: 0 <= i < |r| ==> r[i] == i
    ensures forall v :: v in r <==> 0 <= v < n
    decreases if n < 0 then 0 else n
  {
    if n <= 0 then []
    else
      var p := Range(n - 1);
      assert |p| > 0 ==> p[|p| - 1] in p;
      assert n - 1 > 0 ==> n - 2 in p;
      p + [n - 1]
  }

  /** The number of rounds `for _ in range(numWords)` runs. */
  function Rounds(numWords: int): nat {
    if numWords < 0 then 0 else numWords
  }

  /** `Rounds` counts the values `range(numWords)` yields. */
  lemma RoundsCountsRange(numWords: int)
    ensures Rounds(numWords) == |Range(numWords)|
  {
    var r := Range(numWords);
    assert |r| > 0 ==> r[|r| - 1] in r;
    assert numWords > 0 ==> numWords - 1 in r;
  }

  /** The score vector the model returns for the encoding of `text`. */
  function Scores(m: Predictor, text: string): seq<int>
    requires m.maxLen >= 2
  {
    m.predict(ModelInput(m.encode(text), m.maxLen))
  }

  /** The model is asked about the encoding truncated to the window and
      then pre-padded to the window's width, as the handler builds it. */
  lemma ScoresOfPaddedWindow(m: Predictor, text: string)
    requires m.maxLen >= 2
    ensures |Truncate(m.encode(text), m.maxLen)| <= m.maxLen - 1
    ensures Scores(m, text) == m.predict(PadPre(Truncate(m.encode(text), m.maxLen), m.maxLen - 1))
  {
    var s := m.encode(text);
    var t := Truncate(s, m.maxLen);
    assert ModelInput(s, m.maxLen) == PadPre(t, m.maxLen - 1);
  }

  /** One round of the loop on the accumulated `text`. */
  function Step(m: Predictor, text: string): (r: StepResult)
    requires m.maxLen >= 2
    ensures r == Stop(NoKnownWords) <==> m.encode(text) == []
    ensures r == Stop(EmptyScores) <==> m.encode(text) != [] && Scores(m, text) == []
  {
    var s := m.encode(text);
    if |s| == 0 then Stop(NoKnownWords)
    else
      var scores := m.predict(ModelInput(s, m.maxLen));
      if |scores| == 0 then Stop(EmptyScores)
      else
        match LookupWord(m.wordIndex, ArgMaxFirst(scores))
        case None => Stop(UnknownIndex)
        case Some(w) => Next(w)
  }

  /** A round that gets past the encoding and the scores picks the first
      best-scoring index. It stops exactly when no vocabulary entry
      carries that index, and otherwise appends the word of the first
      entry that does. */
  lemma StepDecodesFirstMax(m: Predictor, text: string)
    requires m.maxLen >= 2
    ensures Step(m, text) == Stop(UnknownIndex) <==>
      m.encode(text) != []
      && (exists i :: IsFirstMax(Scores(m, text), i)
            && forall j :: 0 <= j < |m.wordIndex| ==> m.wordIndex[j].index != i)
    ensures Step(m, text).Next? <==>
      m.encode(text) != []
      && (exists i, p :: IsFirstMax(Scores(m, text), i) && IsFirstMatch(m.wordIndex, i, p))
    ensures Step(m, text).Next? ==>
      exists i, p :: IsFirstMax(Scores(m, text), i)
        && IsFirstMatch(m.wordIndex, i, p) && m.wordIndex[p].word == Step(m, text).word
  {
    var scores := Scores(m, text);
    if m.encode(text) != [] && scores != [] {
      var k := ArgMaxFirst(scores);
      LookupWordFirstMatch(m.wordIndex, k);
      forall i | IsFirstMax(scores, i)
        ensures i == k
      {
        FirstMaxUnique(scores, i, k);
      }
    }
  }

  /** A stopping round is explained by its text: the text encodes to
      nothing, or the model gives no scores for it, or its first
      best-scoring index names no word. */
  lemma StopExplained(m: Predictor, text: string, why: Reason)
    requires m.maxLen >= 2
    requires Step(m, text) == Stop(why)
    ensures why == NoKnownWords ==> m.encode(text) == []
    ensures why == EmptyScores ==> m.encode(text) != [] && Scores(m, text) == []
    ensures why == UnknownIndex ==>
      exists i :: IsFirstMax(Scores(m, text), i)
        && forall j :: 0 <= j < |m.wordIndex| ==> m.wordIndex[j].index != i
  {
    StepDecodesFirstMax(m, text);
  }

  /** The round as a value the loop can be run with. */
  function RoundOf(m: Predictor): string -> StepResult
    requires m.maxLen >= 2
  {
    text => Step(m, text)
  }

  /** The whole generation for a request of `numWords` words. */
  function Generate(m: Predictor, seed: string, numWords: int): (r: Run)
    requires m.maxLen >= 2
    ensures |r.words| <= Rounds(numWords)
    ensures r.halt == Exhausted <==> |r.words| == Rounds(numWords)
    ensures numWords <= 0 ==> r == Run([], Exhausted)
  {
    Unroll(RoundOf(m), seed, Rounds(numWords))
  }

  /** The text the handler renders, or `None` when the request fails
      inside `np.argmax`. */
  function GeneratedText(m: Predictor, seed: string, numWords: int): (t: Option<string>)
    requires m.maxLen >= 2
    ensures numWords <= 0 ==> t == Some(seed)
  {
    assert seed + Spaced([]) == seed;
    Rendered(seed, Generate(m, seed, numWords))
  }
}
