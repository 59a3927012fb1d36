/** Facts about a whole generation request, stated through the rounds of
    the loop. */
module GenerationFacts {
  import opened Options
  import opened Greedy
  import opened Vocabulary
  import opened BoundedLoop
  import opened Generation

  /** A run is the generation's result exactly when every appended word
      comes from a completed round and the run ends for the reason the
      first stopping round gives, or after `numWords` rounds. */
  lemma GenerateCharacterised(m: Predictor, seed: string, numWords: int, r: Run)
    requires m.maxLen >= 2
    ensures IsRunOf(RoundOf(m), seed, Rounds(numWords), r) <==> r == Generate(m, seed, numWords)
  {
    UnrollCharacterised(RoundOf(m), seed, Rounds(numWords), r);
  }

  /** Every completed round saw a non-empty encoding and a non-empty score
      vector, and appended the word of the first entry carrying the first
      best-scoring index. */
  lemma CompletedRound(m: Predictor, seed: string, numWords: int, k: nat)
    requires m.maxLen >= 2
    requires k < |Generate(m, seed, numWords).words|
    ensures var words := Generate(m, seed, numWords).words;
      var text := seed + Spaced(words[..k]);
      && m.encode(text) != []
      && Scores(m, text) != []
      && exists i, p :: IsFirstMax(Scores(m, text), i)
          && IsFirstMatch(m.wordIndex, i, p) && m.wordIndex[p].word == words[k]
  {
    var words := Generate(m, seed, numWords).words;
    var text := seed + Spaced(words[..k]);
    UnrollIsRun(RoundOf(m), seed, Rounds(numWords));
    TraceStepAt(RoundOf(m), seed, words, k);
    assert Step(m, text) == Next(words[k]);
    StepDecodesFirstMax(m, text);
  }

  /** An early end is explained by the text reached: it encodes to
      nothing, or the model gives no scores for it, or its first
      best-scoring index names no word. */
  lemma HaltExplained(m: Predictor, seed: string, numWords: int)
    requires m.maxLen >= 2
    ensures var r := Generate(m, seed, numWords);
      var text := seed + Spaced(r.words);
      && (r.halt == Stopped(NoKnownWords) ==> m.encode(text) == [])
      && (r.halt == Stopped(EmptyScores) ==> m.encode(text) != [] && Scores(m, text) == [])
      && (r.halt == Stopped(UnknownIndex) ==>
            exists i :: IsFirstMax(Scores(m, text), i)
              && forall j :: 0 <= j < |m.wordIndex| ==> m.wordIndex[j].index != i)
  {
    var r := Generate(m, seed, numWords);
    var text := seed + Spaced(r.words);
    UnrollIsRun(RoundOf(m), seed, Rounds(numWords));
    if r.halt.Stopped? {
      assert RoundOf(m)(text) == Stop(r.halt.reason);
      StopExplained(m, text, r.halt.reason);
      if r.halt.reason == UnknownIndex {
        var i :| IsFirstMax(Scores(m, text), i)
          && forall j :: 0 <= j < |m.wordIndex| ==> m.wordIndex[j].index != i;
      }
    }
  }

  /** A seed with no known word ends a request for any positive number of
      words at once, with the seed returned unchanged. */
  lemma NoKnownWordsInSeed(m: Predictor, seed: string, numWords: int)
    requires m.maxLen >= 2
    requires numWords > 0 && m.encode(seed) == []
    ensures Generate(m, seed, numWords) == Run([], Stopped(NoKnownWords))
    ensures GeneratedText(m, seed, numWords) == Some(seed)
  {
    assert seed + Spaced([]) == seed;
  }

  /** A seed with a known word gets all `numWords` words when appending a
      word never makes the text encode to nothing, and every text with a
      known word gets scores whose first best index names a word. */
  lemma KnownWordsGiveAllWords(m: Predictor, seed: string, numWords: int)
    requires m.maxLen >= 2
    requires m.encode(seed) != []
    requires forall t :: m.encode(t) != [] ==> Step(m, t).Next?
    requires forall t, w :: m.encode(t) != [] ==> m.encode(t + " " + w) != []
    ensures |Generate(m, seed, numWords).words| == Rounds(numWords)
    ensures Generate(m, seed, numWords).halt == Exhausted
  {
    PreservedRunsAllRounds(RoundOf(m), t => m.encode(t) != [], seed, Rounds(numWords));
  }

  /** Once a round has stopped the generation, a request for more words
      returns the same result. */
  lemma StoppedStaysStopped(m: Predictor, seed: string, numWords: int, more: int)
    requires m.maxLen >= 2
    requires numWords <= more
    requires Generate(m, seed, numWords).halt.Stopped?
    ensures Generate(m, seed, more) == Generate(m, seed, numWords)
  {
    StopIsFinal(RoundOf(m), seed, Rounds(numWords), Rounds(more));
  }

  /** Asking for one more word keeps the words already generated and adds
      at most one; a request that fails inside `np.argmax` also fails when
      asked for one more word. */
  lemma OneMoreWordKeepsWords(m: Predictor, seed: string, numWords: int)
    requires m.maxLen >= 2
    ensures var r := Generate(m, seed, numWords);
      var r' := Generate(m, seed, numWords + 1);
      && |r.words| <= |r'.words| <= |r.words| + 1
      && r'.words[..|r.words|] == r.words
      && (r.halt == Stopped(EmptyScores) ==> r' == r)
  {
    var a := Rounds(numWords);
    if Rounds(numWords + 1) == a + 1 {
      OneMoreRound(RoundOf(m), seed, a);
    } else {
      assert Rounds(numWords + 1) == a;
    }
  }

  /** Asking for one more word returns the same text, or that text with
      `" " + word` appended. */
  lemma OneMoreWord(m: Predictor, seed: string, numWords: int)
    requires m.maxLen >= 2
    ensures var t := GeneratedText(m, seed, numWords);
      var t' := GeneratedText(m, seed, numWords + 1);
      var n := |Generate(m, seed, numWords).words|;
      var words' := Generate(m, seed, numWords + 1).words;
      && (t'.Some? ==> t.Some?)
      && (t'.Some? && |words'| == n ==> t' == t)
      && (t'.Some? && |words'| > n ==> t'.value == t.value + " " + words'[n])
  {
    var a := Rounds(numWords);
    if Rounds(numWords + 1) == a + 1 {
      OneMoreRoundRendered(RoundOf(m), seed, a);
    } else {
      assert Rounds(numWords + 1) == a;
    }
  }

  /** Three words with indices 1 to 3, a window of three tokens, and a
      model that always scores index 3 highest: the seed "i am" continues
      as "i am happy". */
  lemma HappyExample()
    ensures var m := Predictor(
        (text: string) => if text == "i am" then [1, 2] else [],
        (x: seq<nat>) => [0, 1, 2, 9],
        [Entry("i", 1), Entry("am", 2), Entry("happy", 3)],
        4);
      GeneratedText(m, "i am", 1) == Some("i am happy")
  {
    var m := Predictor(
      (text: string) => if text == "i am" then [1, 2] else [],
      (x: seq<nat>) => [0, 1, 2, 9],
      [Entry("i", 1), Entry("am", 2), Entry("happy", 3)],
      4);
    var scores: seq<int> := [0, 1, 2, 9];
    assert m.encode("i am") == [1, 2];
    assert Scores(m, "i am") == scores;
    assert IsFirstMax(scores, 3);
    FirstMaxUnique(scores, 3, ArgMaxFirst(scores));
    assert LookupWord(m.wordIndex, 3) == Some("happy");
    assert Step(m, "i am") == Next("happy");
    assert Unroll(RoundOf(m), "i am happy", 0) == Run([], Exhausted);
    assert Generate(m, "i am", 1) == Run(["happy"], Exhausted);
    assert Spaced(["happy"]) == " happy";
    assert "i am" + " happy" == "i am happy";
  }
}
