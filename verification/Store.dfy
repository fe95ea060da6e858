/** The persistent store and the cache that evaluations keep over it. */
module Store {
  import opened Words
  import opened Ops
  import opened KeyValues

  // ----- namespaces -----

  type Address = a: int | 0 <= a < Pow2(160)

  /** The 64 bytes that are hashed: the namespace, then the sender padded to a
      word. */
  function Preimage(namespace: Word, sender: Address): (b: seq<Byte>)
    ensures |b| == 64
  {
    ToBytes(namespace, 32) + seq<Byte>(12, _ => 0) + ToBytes(sender, 20)
  }

  /** The namespace is the first word and the sender the second. */
  lemma PreimageWords(namespace: Word, sender: Address)
    ensures Val(Preimage(namespace, sender)[..32]) == namespace
    ensures Val(Preimage(namespace, sender)[32..]) == sender
  {
    hide ToBytes, Pow2, Val;
    var p, zeros := Preimage(namespace, sender), seq<Byte>(12, _ => 0);
    assert p[..32] == ToBytes(namespace, 32) && p[32..] == zeros + ToBytes(sender, 20);
    WordRoundTrip(namespace);
    AddressRoundTrip(sender);
    ValConcat(zeros, ToBytes(sender, 20));
    ZerosValue(12);
  }

  lemma {:induction false} ZerosValue(n: nat)
    ensures Val(seq<Byte>(n, _ => 0)) == 0
  {
    if n == 0 {
    } else {
      ZerosValue(n - 1);
      assert seq<Byte>(n, _ => 0)[..n - 1] == seq<Byte>(n - 1, _ => 0);
    }
  }

  /** Distinct namespaces or senders have distinct preimages. */
  lemma PreimageInjective(n: Word, s: Address, n': Word, s': Address)
    requires Preimage(n, s) == Preimage(n', s')
    ensures n == n' && s == s'
  {
    hide ToBytes, Pow2;
    var p := Preimage(n, s);
    assert p[..32] == ToBytes(n, 32) && p[44..] == ToBytes(s, 20);
    assert p[..32] == ToBytes(n', 32) && p[44..] == ToBytes(s', 20);
    WordRoundTrip(n);
    WordRoundTrip(n');
    AddressRoundTrip(s);
    AddressRoundTrip(s');
  }

  lemma AddressRoundTrip(s: Address)
    ensures Val(ToBytes(s, 20)) == s
  {
    ValToBytes(s, 20);
    DivModUnique(s, 0, s, Pow2(160));
  }

  function Qualified(hash: seq<Byte> -> Word, namespace: Word, sender: Address): Word {
    hash(Preimage(namespace, sender))
  }

  /** Fills a zeroed buffer with two slice copies and hashes it. */
  method QualifyNamespace(hash: seq<Byte> -> Word, stateNamespace: Word, sender: Address) returns (qualified: Word)
    ensures qualified == Qualified(hash, stateNamespace, sender)
    ensures exists b: seq<Byte> ::
              |b| == 64 && Val(b[..32]) == stateNamespace && Val(b[32..]) == sender && qualified == hash(b)
  {
    var combined := new Byte[64](_ => 0);
    var namespaceBytes, senderBytes := ToBytes(stateNamespace, 32), ToBytes(sender, 20);
    forall i | 0 <= i < 32 {
      combined[i] := namespaceBytes[i];
    }
    forall i | 44 <= i < 64 {
      combined[i] := senderBytes[i - 44];
    }
    hide ToBytes;
    assert combined[..] == Preimage(stateNamespace, sender);
    hide Val, Preimage;
    PreimageWords(stateNamespace, sender);
    qualified := hash(combined[..]);
  }

  // ----- the store -----

  datatype StoreError = OddSetLength(length: nat)

  /** One accepted call of `set`. */
  datatype SetCall = SetCall(namespace: Word, sender: Address, kvs: seq<Word>)

  class RainterpreterStore {
    const hash: seq<Byte> -> Word
    var sStore: map<Word, map<Word, Word>>
    /** The `Set` events, oldest first. */
    var events: seq<(Word, Word, Word)>
    /** Every call that did not revert, oldest first. */
    ghost var history: seq<SetCall>

    constructor (hash: seq<Byte> -> Word)
      ensures this.hash == hash && sStore == map[] && events == [] && history == []
      ensures Consistent()
    {
      this.hash, sStore, events, history := hash, map[], [], [];
    }

    /** A mapping reads as zero where nothing was written. */
    function Slots(namespace: Word): map<Word, Word>
      reads this`sStore
    {
      if namespace in sStore then sStore[namespace] else map[]
    }

    method Set(namespace: Word, sender: Address, kvs: seq<Word>) returns (r: Option<StoreError>)
      requires Consistent()
      modifies this
      ensures Consistent()
      ensures |kvs| % 2 != 0 ==>
                r == Some(OddSetLength(|kvs|)) && history == old(history) && sStore == old(sStore) && events == old(events)
      ensures |kvs| % 2 == 0 ==>
                && r == None
                && history == old(history) + [SetCall(namespace, sender, kvs)]
                && Slots(Qualified(hash, namespace, sender)) == Written(old(Slots(Qualified(hash, namespace, sender))), kvs)
                && (forall ns | ns != Qualified(hash, namespace, sender) :: Slots(ns) == old(Slots(ns)))
                && events == old(events) + EventsOf(Qualified(hash, namespace, sender), kvs)
    {
      hide Written, EventsOf, Qualified, Preimage, Replay;
      if |kvs| % 2 != 0 {
        return Some(OddSetLength(|kvs|));
      }
      var qualified := QualifyNamespace(hash, namespace, sender);
      WriteAll(qualified, kvs);
      history := history + [SetCall(namespace, sender, kvs)];
      forall ns: Word
        ensures Slots(ns) == Replay(hash, history, ns)
      {
        HistoryStep(old(history), SetCall(namespace, sender, kvs), ns);
        assert old(Slots(ns)) == Replay(hash, old(history), ns);
      }
      r := None;
    }

    /** Writes each pair to one namespace, emitting an event for each. */
    method WriteAll(qualified: Word, kvs: seq<Word>)
      requires |kvs| % 2 == 0
      modifies this`sStore, this`events
      ensures Slots(qualified) == Written(old(Slots(qualified)), kvs)
      ensures forall ns | ns != qualified :: Slots(ns) == old(Slots(ns))
      ensures events == old(events) + EventsOf(qualified, kvs)
    {
      hide Written, EventsOf, Pow2;
      ghost var slots, earlier := Slots(qualified), events;
      ghost var written, emitted := slots, [];
      NoPairs(slots, kvs, qualified);
      var i := 0;
      while i < |kvs|
        invariant i <= |kvs| && i % 2 == 0
        invariant written == Written(slots, kvs[..i]) && emitted == EventsOf(qualified, kvs[..i])
        invariant Slots(qualified) == written && events == earlier + emitted
        invariant forall ns | ns != qualified :: Slots(ns) == old(Slots(ns))
      {
        var key, value := kvs[i], kvs[i + 1];
        PairsPush(slots, kvs, i, qualified);
        events := events + [(qualified, key, value)];
        sStore := sStore[qualified := Slots(qualified)[key := value]];
        written, emitted := written[key := value], emitted + [(qualified, key, value)];
        i := i + 2;
      }
      assert kvs[..i] == kvs;
    }

    method Get(namespace: Word, key: Word) returns (value: Word)
      requires Consistent()
      ensures value == At(Replay(hash, history, namespace), key)
    {
      value := At(Slots(namespace), key);
    }

    /** The slots of every namespace are what its own calls wrote. */
    ghost predicate Consistent()
      reads this
    {
      && (forall c | c in history :: |c.kvs| % 2 == 0)
      && forall ns: Word :: Slots(ns) == Replay(hash, history, ns)
    }

    lemma HistoryStep(before: seq<SetCall>, c: SetCall, ns: Word)
      requires |c.kvs| % 2 == 0 && forall d | d in before :: |d.kvs| % 2 == 0
      ensures Replay(hash, before + [c], ns) ==
              if ns == Qualified(hash, c.namespace, c.sender)
              then Written(Replay(hash, before, ns), c.kvs) else Replay(hash, before, ns)
    {
      assert (before + [c])[..|before|] == before;
    }
  }

  lemma NoPairs(m: map<Word, Word>, kvs: seq<Word>, namespace: Word)
    ensures Written(m, kvs[..0]) == m && EventsOf(namespace, kvs[..0]) == []
  {}

  lemma PairsPush(m: map<Word, Word>, kvs: seq<Word>, i: nat, namespace: Word)
    requires |kvs| % 2 == 0 && i % 2 == 0 && i < |kvs|
    ensures i + 2 <= |kvs|
    ensures Written(m, kvs[..i + 2]) == Written(m, kvs[..i])[kvs[i] := kvs[i + 1]]
    ensures EventsOf(namespace, kvs[..i + 2]) == EventsOf(namespace, kvs[..i]) + [(namespace, kvs[i], kvs[i + 1])]
  {
    assert kvs[..i + 2][..i] == kvs[..i];
  }

  function At(slots: map<Word, Word>, key: Word): Word {
    if key in slots then slots[key] else 0
  }

  function EventsOf(namespace: Word, kvs: seq<Word>): seq<(Word, Word, Word)>
    requires |kvs| % 2 == 0
  {
    if kvs == [] then []
    else
      var n := |kvs| - 2;
      EventsOf(namespace, kvs[..n]) + [(namespace, kvs[n], kvs[n + 1])]
  }

  /** One event for each pair, in order. */
  lemma {:induction false} EventsAt(namespace: Word, kvs: seq<Word>, j: nat)
    requires |kvs| % 2 == 0 && 2 * j < |kvs|
    ensures |EventsOf(namespace, kvs)| == |kvs| / 2
    ensures EventsOf(namespace, kvs)[j] == (namespace, kvs[2 * j], kvs[2 * j + 1])
  {
    var n := |kvs| - 2;
    if 2 * j == n {
      EventsCount(namespace, kvs[..n]);
    } else {
      EventsAt(namespace, kvs[..n], j);
    }
  }

  lemma {:induction false} EventsCount(namespace: Word, kvs: seq<Word>)
    requires |kvs| % 2 == 0
    ensures |EventsOf(namespace, kvs)| == |kvs| / 2
  {
    if kvs == [] {
    } else {
      EventsCount(namespace, kvs[..|kvs| - 2]);
    }
  }

  /** The slots of one qualified namespace after a history of calls. */
  ghost function Replay(hash: seq<Byte> -> Word, history: seq<SetCall>, ns: Word): map<Word, Word>
    requires forall c | c in history :: |c.kvs| % 2 == 0
  {
    if history == [] then map[]
    else
      var n := |history| - 1;
      var before := Replay(hash, history[..n], ns);
      if ns == Qualified(hash, history[n].namespace, history[n].sender)
      then Written(before, history[n].kvs) else before
  }

  // ----- isolation -----

  /** Everything one sender wrote to one namespace, in order. */
  function OwnWrites(history: seq<SetCall>, namespace: Word, sender: Address): (kvs: seq<Word>)
    requires forall c | c in history :: |c.kvs| % 2 == 0
    ensures |kvs| % 2 == 0
  {
    if history == [] then []
    else
      var n := |history| - 1;
      var c := history[n];
      var before := OwnWrites(history[..n], namespace, sender);
      if c.namespace == namespace && c.sender == sender then before + c.kvs else before
  }

  /** The value of the last pair in `kvs` for `key`, if there is one. */
  function LastWrite(kvs: seq<Word>, key: Word): Option<Word>
    requires |kvs| % 2 == 0
  {
    if kvs == [] then None
    else if kvs[|kvs| - 2] == key then Some(kvs[|kvs| - 1])
    else LastWrite(kvs[..|kvs| - 2], key)
  }

  lemma {:induction false} WrittenConcat(m: map<Word, Word>, a: seq<Word>, b: seq<Word>)
    requires |a| % 2 == 0 && |b| % 2 == 0
    ensures Written(m, a + b) == Written(Written(m, a), b)
  {
    if b == [] {
      assert a + b == a;
    } else {
      assert (a + b)[..|a + b| - 2] == a + b[..|b| - 2];
      WrittenConcat(m, a, b[..|b| - 2]);
    }
  }

  lemma {:induction false} WrittenAt(m: map<Word, Word>, kvs: seq<Word>, key: Word)
    requires |kvs| % 2 == 0
    ensures key in Written(m, kvs) <==> key in m || LastWrite(kvs, key).Some?
    ensures LastWrite(kvs, key).Some? ==> Written(m, kvs)[key] == LastWrite(kvs, key).value
    ensures LastWrite(kvs, key).None? && key in m ==> Written(m, kvs)[key] == m[key]
  {
    if kvs == [] {
    } else {
      WrittenAt(m, kvs[..|kvs| - 2], key);
    }
  }

  /** No other pair in the history hashes to the same qualified namespace. */
  ghost predicate CollisionFree(hash: seq<Byte> -> Word, history: seq<SetCall>, namespace: Word, sender: Address) {
    forall c | c in history ::
      Qualified(hash, c.namespace, c.sender) == Qualified(hash, namespace, sender) ==>
        Preimage(c.namespace, c.sender) == Preimage(namespace, sender)
  }

  lemma {:induction false} ReplayIsOwnWrites(hash: seq<Byte> -> Word, history: seq<SetCall>, namespace: Word, sender: Address)
    requires forall c | c in history :: |c.kvs| % 2 == 0
    requires CollisionFree(hash, history, namespace, sender)
    ensures Replay(hash, history, Qualified(hash, namespace, sender)) == Written(map[], OwnWrites(history, namespace, sender))
  {
    if history == [] {
    } else {
      var n := |history| - 1;
      var c := history[n];
      ReplayIsOwnWrites(hash, history[..n], namespace, sender);
      if Qualified(hash, c.namespace, c.sender) == Qualified(hash, namespace, sender) {
        PreimageInjective(c.namespace, c.sender, namespace, sender);
        WrittenConcat(map[], OwnWrites(history[..n], namespace, sender), c.kvs);
      }
    }
  }

  /** Isolation over whole runs: whatever anyone else set in between, a key of a
      qualified namespace reads as the last value that this sender wrote to it in
      this namespace, or zero. */
  lemma Isolation(hash: seq<Byte> -> Word, history: seq<SetCall>, namespace: Word, sender: Address, key: Word)
    requires forall c | c in history :: |c.kvs| % 2 == 0
    requires CollisionFree(hash, history, namespace, sender)
    ensures At(Replay(hash, history, Qualified(hash, namespace, sender)), key) ==
              match LastWrite(OwnWrites(history, namespace, sender), key)
              case Some(value) => value
              case None => 0
  {
    ReplayIsOwnWrites(hash, history, namespace, sender);
    WrittenAt(map[], OwnWrites(history, namespace, sender), key);
  }
}
