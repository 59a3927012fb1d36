/** The generation loop written the way the request handler runs it: one
    mutable text, a counted loop, a `break` when the text encodes to
    nothing or the chosen index names no word, and a failed request when
    the model returns no scores, where `np.argmax` raises. */
module Handler {
  import opened Options
  import opened Window
  import opened Greedy
  import opened Vocabulary
  import opened BoundedLoop
  import opened Generation

  /** The body of one round: encode the whole text, keep the trailing
      window, pre-pad it, score it, scan for the first best index, scan
      the vocabulary for its word. */
  method Round(m: Predictor, text: string) returns (step: StepResult)
    requires m.maxLen >= 2
    ensures step == Step(m, text)
  {
    var sequence := m.encode(text);
    if |sequence| == 0 {
      return Stop(NoKnownWords);
    }
    sequence := Truncate(sequence, m.maxLen);
    var padded := PadPre(sequence, m.maxLen - 1);
    var prediction := m.predict(padded);
    ScoresOfPaddedWindow(m, text);
    if |prediction| == 0 {
      return Stop(EmptyScores);
    }
    var nextIndex := ArgMaxScan(prediction);
    var nextWord := FindWord(m.wordIndex, nextIndex);
    if nextWord.None? {
      return Stop(UnknownIndex);
    }
    step := Next(nextWord.value);
  }

  /** The handler's loop: the text grows in place by `" " + word`, each
      round re-encodes all of it, and a stopping round breaks out.
      `remaining` counts the rounds `range(numWords)` has still to give. */
  method GenerateLoop(m: Predictor, seed: string, numWords: int) returns (text: string, halt: Halt)
    requires m.maxLen >= 2
    ensures text == seed + Spaced(Generate(m, seed, numWords).words)
    ensures halt == Generate(m, seed, numWords).halt
    ensures halt != Stopped(EmptyScores) ==> GeneratedText(m, seed, numWords) == Some(text)
    ensures halt == Stopped(EmptyScores) ==> GeneratedText(m, seed, numWords) == None
  {
    text := seed;
    halt := Exhausted;
    ghost var done: seq<string> := [];
    var remaining := Rounds(numWords);
    assert seed + Spaced([]) == seed;
    while remaining > 0
      invariant |done| + remaining == Rounds(numWords)
      invariant text == seed + Spaced(done)
      invariant IsTrace(RoundOf(m), seed, done)
      invariant halt == Exhausted
    {
      var step := Round(m, text);
      if step.Stop? {
        halt := Stopped(step.reason);
        break;
      }
      ghost var word := step.word;
      TraceExtends(RoundOf(m), seed, done, text, word);
      text := text + " " + step.word;
      done := done + [word];
      remaining := remaining - 1;
    }
    assert Run(done, halt) == Generate(m, seed, numWords) by {
      UnrollCharacterised(RoundOf(m), seed, Rounds(numWords), Run(done, halt));
    }
  }
}
