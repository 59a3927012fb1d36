# Next word predictor: the greedy generation loop

The web handler of the next word predictor takes a seed text and a word
count. It then extends the text one word at a time. Each round does the
following:

- re-encodes the whole accumulated text with the tokenizer;
- keeps the last `max_len - 1` indices;
- pre-pads them with zeros to exactly `max_len - 1`;
- asks the network for a score vector;
- takes the first position of the highest score (`np.argmax`);
- finds the vocabulary word carrying that index by scanning `word_index` in its iteration order;
- appends `" " + word`.

The loop runs at most `num_words` rounds (none when `num_words <= 0`). It stops early when:

- the text encodes to nothing;
- the chosen index names no word.

This project models that loop as pure functions and proves what it does.
The tokenizer's encoder and the network are opaque function values inside
a `Predictor`, and the scores are integers.

Modules, following the steps of one round:

- `Options`: the `Option` type.
- `Window`: Python's `s[-(max_len-1):]` slice (`Truncate`), pre-padding (`PadPre`), and the model input built from the two.
- `Greedy`: first-maximum selection (`ArgMaxFirst`, a function; `ArgMaxScan`, the left-to-right scan).
- `Vocabulary`: `word_index` as an ordered sequence of entries. It holds the first-match reverse lookup (`LookupWord`, `FindWord`) and an inverse map proved equivalent to it (`InverseIndex`).
- `BoundedLoop`: the loop shape over any round function. It holds:
  - the unrolled loop (`Unroll`);
  - a round-by-round description of a correct run (`IsTrace`, `IsRunOf`);
  - the proofs that the two agree and that a stop is final.
- `Generation`: the rounds `range(num_words)` gives (`Range`, `Rounds`), one round (`Step`), the whole request (`Generate`), and the rendered text (`GeneratedText`).
- `GenerationFacts`: the request-level properties.
- `Handler`: the loop written imperatively, with a mutable text, a counted `while` loop and `break`s. It is proved equal to `Generate`.

Decisions:

- `max_len`:
  - `Truncate` models the slice for every integer `max_len`. That includes `max_len == 1`, where Python reads `-0` as `0` and keeps the whole list.
  - Everything that runs a round requires `max_len >= 2`. Below that, `pad_sequences` would be called with `maxlen <= 0`, and Keras code is not part of this model.
- Empty score vector: `np.argmax` raises on it. The model makes this a third stop reason, `EmptyScores`, under which no text is returned (`GeneratedText` is `None`).
- Negative `num_words`: `range` gives no round for it, and the seed comes back unchanged.

## Model

| member | source | states |
|---|---|---|
| Window.Truncate | app.py:105 | The kept indices are a suffix of the encoding. For `max_len >= 2` its length is `min(len, max_len - 1)`. For `max_len == 1` the whole encoding is kept. For `max_len <= 0` a prefix of `1 - max_len` indices is dropped. |
| Window.SliceFrom | app.py:105 | Python's `s[a:]`: always a suffix. It has `min(-a, len)` elements for a negative start and `len - a` elements (at least 0) for a non-negative one. |
| Window.PadPre | app.py:107-111 | The padded input has exactly the requested width. Every position in front of the sequence holds the padding value 0, and the sequence follows unchanged. |
| Window.ZerosAreZero | app.py:107-111 | The padding run consists of zeros only. |
| Window.ModelInput | app.py:105-111 | The array given to the model always has length `max_len - 1`. |
| Window.ModelInputIsRightAlignedTail | app.py:105-111 | A long enough encoding gives exactly its last `max_len - 1` indices. A shorter one gives zeros followed by the whole encoding unchanged. |
| Greedy.FirstMaxUnique | app.py:114 | At most one position is a first maximum: the tie-break determines the choice. |
| Greedy.ArgMaxFirst | app.py:114 | The chosen index is the first maximum: it scores at least as high as every index and strictly higher than every earlier one. |
| Greedy.ArgMaxFirstCharacterised | app.py:114 | An index is the first maximum if and only if it is the chosen one. |
| Greedy.ArgMaxScan | app.py:114 | The left-to-right scan, where only a strictly larger score replaces the best, returns the first maximum. |
| Vocabulary.LookupWord | app.py:116-120 | The lookup finds nothing exactly when no entry carries the index. |
| Vocabulary.LookupWordFirstMatch | app.py:116-120 | A word the lookup finds is the word of the first entry in iteration order that carries the index, as the `break` makes it. |
| Vocabulary.FindWord | app.py:116-120 | The scan with an early `break` finds what the first-match lookup finds. |
| Vocabulary.InverseIndex | app.py:116-120 | An index-to-word map that holds a key exactly when some entry carries that index. |
| Vocabulary.InverseIndexAgrees | app.py:116-120 | A map lookup gives the same answer as the linear scan, with the earliest entry winning on shared indices. |
| Generation.Range | app.py:98 | `range(n)` yields `0, 1, ..., n - 1` in order, and a value occurs in it exactly when `0 <= value < n`. |
| Generation.RoundsCountsRange | app.py:98 | The number of rounds is the number of values `range(num_words)` yields. |
| Generation.ScoresOfPaddedWindow | app.py:105-113 | The model is asked about the encoding truncated to the window and then pre-padded to the window's width, and the truncated sequence always fits. |
| Generation.Step | app.py:99-125 | A round stops for want of known words exactly when the text encodes to nothing. It fails for want of scores exactly when the encoding is non-empty and the model returns no scores. |
| Generation.StepDecodesFirstMax | app.py:113-123 | A round with a non-empty encoding stops for an unknown index exactly when the scores have a first maximum that no entry carries. It yields a word exactly when some entry carries that first maximum, and the word is that of the first such entry. |
| Generation.StopExplained | app.py:99-123 | A stopping round is explained by its text: the text encodes to nothing, or gets no scores, or its first best index names no word. |
| Generation.Generate | app.py:96-125 | At most `max(num_words, 0)` words are appended, the number of rounds `range(num_words)` gives. The loop runs out of rounds exactly when every round appended a word. For `num_words <= 0` nothing is appended. |
| Generation.GeneratedText | app.py:96-127 | For `num_words <= 0` the seed comes back unchanged. |
| BoundedLoop.Rendered | app.py:96-127 | The returned text always starts with the seed. No text is returned exactly when a round found no scores. |
| BoundedLoop.Unroll | app.py:98-125 | The loop appends at most `rounds` words, and it exhausts its rounds exactly when it appended that many. |
| BoundedLoop.SpacedSnoc | app.py:125 | Appending one more word extends the text by exactly `" " + word`. |
| BoundedLoop.TraceStepAt | app.py:98-125 | The `k`-th appended word is what the round yields on the seed with the first `k` words appended. |
| BoundedLoop.TraceSnoc | app.py:98-125 | A sequence of completed rounds, extended by the word the next round yields, is again a sequence of completed rounds. |
| BoundedLoop.TraceExtends | app.py:125 | After one more completed round, the trace grows by that round's word and the text by exactly `" " + word`. |
| BoundedLoop.ExhaustedKeepsWords | app.py:98-125 | A loop that ran all its rounds keeps every word it appended when granted one more round. |
| BoundedLoop.UnrollIsRun | app.py:98-125 | The unrolled loop meets the round-by-round description of a run. |
| BoundedLoop.TracePrefix | app.py:98-125 | Two sequences of completed rounds from the same text agree on their common length. |
| BoundedLoop.ShorterTraceContinues | app.py:98-125 | A round after a shorter sequence of completed rounds yields a word, so a loop cannot stop there. |
| BoundedLoop.RunUnique | app.py:98-125 | At most one run meets the round-by-round description. |
| BoundedLoop.UnrollCharacterised | app.py:98-125 | A run meets the round-by-round description if and only if it is the unrolled loop. |
| BoundedLoop.StopIsFinal | app.py:101-102 | After a round has stopped the loop, granting more rounds changes nothing. |
| BoundedLoop.OneMoreRound | app.py:98-125 | One more round keeps the words so far and appends at most one. A stopped loop is unchanged. An appended word extends the text by `" " + word`. |
| BoundedLoop.OneMoreRoundRendered | app.py:96-127 | With one more round, the returned text is the same, or the same with `" " + word` appended. A failure with fewer rounds implies a failure with more. |
| BoundedLoop.PreservedRunsAllRounds | app.py:98-125 | When the seed has a property that makes every round yield a word and that survives appending that word, the loop appends exactly `rounds` words. |
| GenerationFacts.GenerateCharacterised | app.py:96-125 | A run is the request's result exactly when every appended word comes from a completed round. The run ends after `num_words` rounds or at the first stopping round, for that round's reason. |
| GenerationFacts.CompletedRound | app.py:99-125 | Each appended word came from a round that saw a non-empty encoding and non-empty scores. It is the word of the first entry carrying the first best index. |
| GenerationFacts.HaltExplained | app.py:99-123 | An early end is explained by the text reached. That text encodes to nothing, or gets no scores, or its first best index names no word. |
| GenerationFacts.NoKnownWordsInSeed | app.py:99-102 | A seed without known words ends any positive request at once, with nothing appended. |
| GenerationFacts.KnownWordsGiveAllWords | app.py:98-125 | A seed with a known word gets exactly `max(num_words, 0)` words, one per round `range(num_words)` gives, when these two conditions hold: appending a word never makes the text encode to nothing, and every text with a known word gets scores whose first best index names a word. |
| GenerationFacts.StoppedStaysStopped | app.py:101-102 | After a stop, asking for more words gives the same result. |
| GenerationFacts.OneMoreWordKeepsWords | app.py:98-125 | For every word count, asking for one more word keeps the words already generated and appends at most one. A request that fails for want of scores fails again. |
| GenerationFacts.OneMoreWord | app.py:96-127 | For every word count, asking for one more word returns the same text or that text with `" " + word` appended. A failure with fewer words implies a failure with more. |
| GenerationFacts.HappyExample | app.py:96-127 | A concrete request: seed `"i am"`, one word, and a model whose highest score is index 3 (`"happy"`) gives `"i am happy"`. |
| Handler.Round | app.py:99-125 | The imperative round body (encode, truncate, pad, predict, scan, look up) computes `Step`. |
| Handler.GenerateLoop | app.py:96-127 | The mutable loop with `break`s ends with the seed plus the generated words, and for the same reason as `Generate`. Its text is the rendered result unless the scores ran out, where the request fails. |

## Left out

- Flask setup, routing, form parsing and the HTML template (app.py:1-9, 24-94, 129-139). These are web plumbing around the loop.
- Failures of `int()` on the word count. These are request parsing, outside the loop. The count is taken as an integer.
- `str.strip()` on the seed. Its whitespace rules are Python's; the seed is taken as already stripped.
- Loading `model.pkl` with `pickle` (app.py:14-19). This is file I/O. The model, tokenizer and `max_len` are the fields of a `Predictor`.
- The internals of `texts_to_sequences`: lowercasing, filtering and dropping unknown words. This is the Keras tokenizer. `encode` is an opaque function value.
- The network and `model.predict`. They compute floating-point scores. `predict` is an opaque function returning integer scores, which keeps only their order. This loses NaN: `np.argmax` returns the position of the first NaN in a score vector, and integer scores cannot express that case.
- `pad_sequences` with `maxlen <= 0`, reached when `max_len <= 1`. Keras code is not part of this model, so every member that runs a round requires `max_len >= 2`. `Truncate` alone covers every `max_len`.
- The `int32` dtype of `pad_sequences`. Indices are unbounded naturals here. No wrap-around is modelled, because tokenizer indices stay far below 2^31.
- Determinism needs no lemma. Every operation is a pure function of its inputs.
