/** The tokenizer's `word_index`, read in its iteration order, and the
    reverse lookup from a predicted index back to a word. */
module Vocabulary {
  import opened Options

  /** One `word -> index` pair of the vocabulary. */
  datatype Entry = Entry(word: string, index: nat)

  /** Position `p` is the first entry whose index is `idx`. */
  ghost predicate IsFirstMatch(entries: seq<Entry>, idx: nat, p: int) {
    && 0 <= p < |entries|
    && entries[p].index == idx
    && (forall j :: 0 <= j < p ==> entries[j].index != idx)
  }

  /** The word of the first entry carrying `idx`, or `None` when no entry
      carries it. */
  function LookupWord(entries: seq<Entry>, idx: nat): (r: Option<string>)
    ensures r.None? <==> forall j :: 0 <= j < |entries| ==> entries[j].index != idx
  {
    if |entries| == 0 then None
    else if entries[0].index == idx then Some(entries[0].word)
    else
      assert forall j :: 0 < j < |entries| ==> entries[j] == entries[1..][j - 1];
      LookupWord(entries[1..], idx)
  }

  /** When the lookup finds a word, it is the word of the first entry
      carrying `idx`. */
  lemma {:induction false} LookupWordFirstMatch(entries: seq<Entry>, idx: nat)
    ensures LookupWord(entries, idx).Some? ==>
      exists p :: IsFirstMatch(entries, idx, p) && entries[p].word == LookupWord(entries, idx).value
  {
    if |entries| > 0 && entries[0].index != idx {
      var rest := entries[1..];
      LookupWordFirstMatch(rest, idx);
      assert forall j :: 0 < j < |entries| ==> entries[j] == rest[j - 1];
      if LookupWord(rest, idx).Some? {
        var p :| IsFirstMatch(rest, idx, p) && rest[p].word == LookupWord(rest, idx).value;
        assert IsFirstMatch(entries, idx, p + 1);
      }
    } else if |entries| > 0 {
      assert IsFirstMatch(entries, idx, 0);
    }
  }

  /** The linear scan over `word_index.items()` that stops at the first
      match. */
  method FindWord(entries: seq<Entry>, idx: nat) returns (found: Option<string>)
    ensures found == LookupWord(entries, idx)
  {
    found := None;
    var k := 0;
    while k < |entries|
      invariant k <= |entries|
      invariant LookupWord(entries, idx) == LookupWord(entries[k..], idx)
    {
      if entries[k].index == idx {
        found := Some(entries[k].word);
        return;
      }
      assert entries[k..][1..] == entries[k + 1..];
      k := k + 1;
    }
  }

  /** An index-to-word map built once from the entries; the earliest entry
      wins where several share an index. */
  function InverseIndex(entries: seq<Entry>): (inv: map<nat, string>)
    ensures forall idx :: idx in inv <==> exists j :: 0 <= j < |entries| && entries[j].index == idx
  {
    if |entries| == 0 then map[]
    else
      var rest := InverseIndex(entries[1..]);
      assert forall j :: 0 < j < |entries| ==> entries[j] == entries[1..][j - 1];
      rest[entries[0].index := entries[0].word]
  }

  /** Looking an index up in the inverse map gives exactly what the linear
      scan finds, so the map may replace the scan. */
  lemma {:induction false} InverseIndexAgrees(entries: seq<Entry>, idx: nat)
    ensures LookupWord(entries, idx)
      == (var inv := InverseIndex(entries); if idx in inv then Some(inv[idx]) else None)
  {
    if |entries| > 0 && entries[0].index != idx {
      InverseIndexAgrees(entries[1..], idx);
    }
  }
}
