/** Flat arrays of interleaved keys and values, as overlays, writes and store
    updates all pass them. */
module KeyValues {
  import opened Words

  /** `m` after writing each pair of `kvs` in turn. */
  function Written(m: map<Word, Word>, kvs: seq<Word>): map<Word, Word>
    requires |kvs| % 2 == 0
  {
    if kvs == [] then m
    else
      var n := |kvs| - 2;
      Written(m, kvs[..n])[kvs[n] := kvs[n + 1]]
  }

  /** The last pair for a key decides its value, and a key without one keeps its own. */
  lemma {:induction false} LastPairWins(m: map<Word, Word>, before: seq<Word>, key: Word, value: Word, after: seq<Word>)
    requires |before| % 2 == 0 && |after| % 2 == 0
    requires forall j | 0 <= 2 * j < |after| :: after[2 * j] != key
    ensures key in Written(m, before + [key, value] + after)
    ensures Written(m, before + [key, value] + after)[key] == value
    decreases |after|
  {
    var kvs := before + [key, value] + after;
    if after == [] {
      assert kvs == before + [key, value];
      assert kvs[..|before|] == before;
    } else {
      var n := |after| - 2;
      assert kvs[..|kvs| - 2] == before + [key, value] + after[..n];
      assert after[2 * (n / 2)] != key;
      LastPairWins(m, before, key, value, after[..n]);
    }
  }

  lemma {:induction false} UnwrittenKept(m: map<Word, Word>, kvs: seq<Word>, key: Word)
    requires |kvs| % 2 == 0 && forall j | 0 <= 2 * j < |kvs| :: kvs[2 * j] != key
    ensures key in Written(m, kvs) <==> key in m
    ensures key in m ==> Written(m, kvs)[key] == m[key]
  {
    if kvs == [] {
    } else {
      var n := |kvs| - 2;
      assert kvs[2 * (n / 2)] != key;
      UnwrittenKept(m, kvs[..n], key);
    }
  }
}
