/** The shape of the generation loop, independent of what one round
    computes: at most `rounds` rounds on a growing text, each appending
    `" " + word` or stopping the loop for a reason. */
module BoundedLoop {
  import opened Options

  /** Why a round stops the loop. */
  datatype Reason =
    | NoKnownWords   // the text encodes to no vocabulary index
    | UnknownIndex   // the chosen index names no word
    | EmptyScores    // the model returned no scores

  /** Why the loop ended: all rounds ran, or one round stopped it. */
  datatype Halt = Exhausted | Stopped(reason: Reason)

  /** One round either yields the next word or stops the loop. */
  datatype StepResult = Next(word: string) | Stop(reason: Reason)

  /** The words one loop appended, in order, and why it ended. */
  datatype Run = Run(words: seq<string>, halt: Halt)

  /** The text appended for `words`: each word preceded by one space. */
  function Spaced(words: seq<string>): string {
    if |words| == 0 then "" else " " + words[0] + Spaced(words[1..])
  }

  /** The text a finished loop hands back: the seed with the appended
      words, or `None` when a round failed for want of scores (where
      `np.argmax` raises). */
  function Rendered(seed: string, r: Run): (t: Option<string>)
    ensures t.None? <==> r.halt == Stopped(EmptyScores)
    ensures t.Some? ==> |seed| <= |t.value| && t.value[..|seed|] == seed
  {
    if r.halt == Stopped(EmptyScores) then None else Some(seed + Spaced(r.words))
  }

  /** The rounds still to run on the accumulated `text`. */
  function Unroll(step: string -> StepResult, text: string, remaining: nat): (r: Run)
    ensures |r.words| <= remaining
    ensures r.halt == Exhausted <==> |r.words| == remaining
    decreases remaining
  {
    if remaining == 0 then Run([], Exhausted)
    else
      match step(text)
      case Stop(why) => Run([], Stopped(why))
      case Next(w) =>
        var r := Unroll(step, text + " " + w, remaining - 1);
        Run([w] + r.words, r.halt)
  }

  /** Appending `words` one by one to `text` is what the rounds do: the
      round on `text` yields the first word, the round on the text with
      that word appended yields the second, and so on. */
  ghost predicate IsTrace(step: string -> StepResult, text: string, words: seq<string>)
    decreases |words|
  {
    |words| == 0
    || (step(text) == Next(words[0]) && IsTrace(step, text + " " + words[0], words[1..]))
  }

  /** `r` is what `rounds` rounds from `seed` must produce: every appended
      word comes from a completed round, the loop ends early exactly when
      a round stops it, and then for that round's reason. */
  ghost predicate IsRunOf(step: string -> StepResult, seed: string, rounds: nat, r: Run) {
    && IsTrace(step, seed, r.words)
    && |r.words| <= rounds
    && (r.halt == Exhausted <==> |r.words| == rounds)
    && (r.halt.Stopped? ==> step(seed + Spaced(r.words)) == Stop(r.halt.reason))
  }

  /** Spacing one more word at the end, as `generated_text += " " + word`
      does. */
  lemma {:induction false} SpacedSnoc(ws: seq<string>, w: string)
    ensures Spaced(ws + [w]) == Spaced(ws) + " " + w
    decreases |ws|
  {
    if |ws| > 0 {
      assert (ws + [w])[1..] == ws[1..] + [w];
      SpacedSnoc(ws[1..], w);
    } else {
      assert ws + [w] == [w];
    }
  }

  /** The `k`-th word of a trace is what the round yields on the text
      built from the words before it. */
  lemma {:induction false} TraceStepAt(step: string -> StepResult, text: string, words: seq<string>, k: nat)
    requires IsTrace(step, text, words)
    requires k < |words|
    ensures step(text + Spaced(words[..k])) == Next(words[k])
    decreases k
  {
    if k == 0 {
      assert text + Spaced(words[..0]) == text;
    } else {
      TraceStepAt(step, text + " " + words[0], words[1..], k - 1);
      assert words[..k] == [words[0]] + words[1..][..k - 1];
      assert text + Spaced(words[..k]) == text + " " + words[0] + Spaced(words[1..][..k - 1]);
    }
  }

  /** A trace extended by the word the next round yields is a trace. */
  lemma {:induction false} TraceSnoc(step: string -> StepResult, text: string, words: seq<string>, w: string)
    requires IsTrace(step, text, words)
    requires step(text + Spaced(words)) == Next(w)
    ensures IsTrace(step, text, words + [w])
    decreases |words|
  {
    if |words| == 0 {
      assert text + Spaced(words) == text;
      assert words + [w] == [w];
      assert IsTrace(step, text + " " + w, []);
    } else {
      var next := text + " " + words[0];
      assert text + Spaced(words) == next + Spaced(words[1..]);
      TraceSnoc(step, next, words[1..], w);
      assert (words + [w])[1..] == words[1..] + [w];
    }
  }

  /** One more completed round on the accumulated text: the trace grows by
      the round's word and the text by `" " + word`. */
  lemma TraceExtends(step: string -> StepResult, seed: string, done: seq<string>, text: string, w: string)
    requires IsTrace(step, seed, done)
    requires text == seed + Spaced(done)
    requires step(text) == Next(w)
    ensures IsTrace(step, seed, done + [w])
    ensures text + " " + w == seed + Spaced(done + [w])
  {
    TraceSnoc(step, seed, done, w);
    SpacedSnoc(done, w);
  }

  /** The unrolled loop meets the round-by-round description. */
  lemma {:induction false} UnrollIsRun(step: string -> StepResult, text: string, remaining: nat)
    ensures IsRunOf(step, text, remaining, Unroll(step, text, remaining))
    decreases remaining
  {
    var r := Unroll(step, text, remaining);
    if remaining > 0 && step(text).Next? {
      var w := step(text).word;
      var next := text + " " + w;
      var rest := Unroll(step, next, remaining - 1);
      UnrollIsRun(step, next, remaining - 1);
      assert r.words == [w] + rest.words;
      assert r.words[1..] == rest.words;
      assert text + Spaced(r.words) == next + Spaced(rest.words);
    } else {
      assert text + Spaced([]) == text;
    }
  }

  /** Two traces from the same text agree on their common length. */
  lemma {:induction false} TracePrefix(step: string -> StepResult, text: string, a: seq<string>, b: seq<string>)
    requires IsTrace(step, text, a) && IsTrace(step, text, b)
    requires |a| <= |b|
    ensures a == b[..|a|]
    decreases |a|
  {
    if |a| > 0 {
      TracePrefix(step, text + " " + a[0], a[1..], b[1..]);
      assert a == [a[0]] + a[1..];
      assert b[..|a|] == [b[0]] + b[1..][..|a| - 1];
    }
  }

  /** When one trace is shorter than another, the round after it yields a
      word: a loop that stopped there could not have continued. */
  lemma ShorterTraceContinues(step: string -> StepResult, text: string, a: seq<string>, b: seq<string>)
    requires IsTrace(step, text, a) && IsTrace(step, text, b)
    requires |a| < |b|
    ensures step(text + Spaced(a)) == Next(b[|a|])
  {
    TracePrefix(step, text, a, b);
    TraceStepAt(step, text, b, |a|);
  }

  /** At most one run fits the description. */
  lemma RunUnique(step: string -> StepResult, seed: string, rounds: nat, r1: Run, r2: Run)
    requires IsRunOf(step, seed, rounds, r1) && IsRunOf(step, seed, rounds, r2)
    ensures r1 == r2
  {
    if |r1.words| <= |r2.words| {
      TracePrefix(step, seed, r1.words, r2.words);
    } else {
      TracePrefix(step, seed, r2.words, r1.words);
    }
    if |r1.words| < |r2.words| {
      ShorterTraceContinues(step, seed, r1.words, r2.words);
    } else if |r2.words| < |r1.words| {
      ShorterTraceContinues(step, seed, r2.words, r1.words);
    } else {
      assert r1.words == r2.words;
      assert r1.halt == r2.halt;
    }
  }

  /** A run fits the round-by-round description exactly when it is the
      one the unrolled loop computes. */
  lemma UnrollCharacterised(step: string -> StepResult, seed: string, rounds: nat, r: Run)
    ensures IsRunOf(step, seed, rounds, r) <==> r == Unroll(step, seed, rounds)
  {
    UnrollIsRun(step, seed, rounds);
    if IsRunOf(step, seed, rounds, r) {
      RunUnique(step, seed, rounds, r, Unroll(step, seed, rounds));
    }
  }

  /** Once a round has stopped the loop, granting more rounds changes
      nothing. */
  lemma StopIsFinal(step: string -> StepResult, seed: string, rounds: nat, more: nat)
    requires rounds <= more
    requires Unroll(step, seed, rounds).halt.Stopped?
    ensures Unroll(step, seed, more) == Unroll(step, seed, rounds)
  {
    var r := Unroll(step, seed, rounds);
    UnrollIsRun(step, seed, rounds);
    UnrollIsRun(step, seed, more);
    assert IsRunOf(step, seed, more, r);
    RunUnique(step, seed, more, r, Unroll(step, seed, more));
  }

  /** A word list one longer than another that it extends renders as that
      other one followed by `" " + word`. */
  lemma GrowByOne(a: seq<string>, b: seq<string>)
    requires |b| == |a| + 1 && b[..|a|] == a
    ensures Spaced(b) == Spaced(a) + " " + b[|a|]
  {
    assert b == a + [b[|a|]];
    SpacedSnoc(a, b[|a|]);
  }

  /** A loop that used all its rounds keeps its words when granted one
      more: the extra round can only add to them. */
  lemma ExhaustedKeepsWords(step: string -> StepResult, seed: string, rounds: nat)
    requires Unroll(step, seed, rounds).halt == Exhausted
    ensures var r := Unroll(step, seed, rounds);
      var r' := Unroll(step, seed, rounds + 1);
      |r.words| <= |r'.words| && r'.words[..|r.words|] == r.words
  {
    var r := Unroll(step, seed, rounds);
    var r' := Unroll(step, seed, rounds + 1);
    UnrollIsRun(step, seed, rounds);
    UnrollIsRun(step, seed, rounds + 1);
    if |r'.words| < |r.words| {
      ShorterTraceContinues(step, seed, r'.words, r.words);
    } else {
      TracePrefix(step, seed, r.words, r'.words);
    }
  }

  /** One more round appends at most one word and keeps the words already
      appended; when it appends one, the text grows by `" " + word`. */
  lemma OneMoreRound(step: string -> StepResult, seed: string, rounds: nat)
    ensures var r := Unroll(step, seed, rounds);
      var r' := Unroll(step, seed, rounds + 1);
      && |r.words| <= |r'.words| <= |r.words| + 1
      && r'.words[..|r.words|] == r.words
      && (r.halt.Stopped? ==> r' == r)
      && (|r'.words| > |r.words| ==>
            seed + Spaced(r'.words) == seed + Spaced(r.words) + " " + r'.words[|r.words|])
  {
    var r := Unroll(step, seed, rounds);
    var r' := Unroll(step, seed, rounds + 1);
    if r.halt.Stopped? {
      StopIsFinal(step, seed, rounds, rounds + 1);
      assert r'.words[..|r.words|] == r.words;
    } else {
      ExhaustedKeepsWords(step, seed, rounds);
      if |r'.words| > |r.words| {
        GrowByOne(r.words, r'.words);
      }
    }
  }

  /** One more round hands back the same text, or that text with
      `" " + word` appended; a loop that failed for want of scores fails
      with one more round too. */
  lemma OneMoreRoundRendered(step: string -> StepResult, seed: string, rounds: nat)
    ensures var r := Unroll(step, seed, rounds);
      var r' := Unroll(step, seed, rounds + 1);
      var t := Rendered(seed, r);
      var t' := Rendered(seed, r');
      && (t'.Some? ==> t.Some?)
      && (t'.Some? && |r'.words| == |r.words| ==> t' == t)
      && (t'.Some? && |r'.words| > |r.words| ==> t'.value == t.value + " " + r'.words[|r.words|])
  {
    var r := Unroll(step, seed, rounds);
    var r' := Unroll(step, seed, rounds + 1);
    OneMoreRound(step, seed, rounds);
    if |r'.words| == |r.words| {
      assert r'.words == r.words;
    }
  }

  /** When the seed has a property `P`, and on every text with `P` the
      round yields a word and the text with that word appended has `P`
      again, the loop runs all its rounds. */
  lemma {:induction false} PreservedRunsAllRounds(
    step: string -> StepResult, P: string -> bool, seed: string, rounds: nat)
    requires P(seed)
    requires forall t :: P(t) ==> step(t).Next? && P(t + " " + step(t).word)
    ensures Unroll(step, seed, rounds).halt == Exhausted
    ensures |Unroll(step, seed, rounds).words| == rounds
    decreases rounds
  {
    if rounds > 0 {
      var next := seed + " " + step(seed).word;
      assert step(seed).Next? && P(next);
      PreservedRunsAllRounds(step, P, next, rounds - 1);
    }
  }
}
