/** The in-memory cache of an evaluation is invisible: every read sees what a
    plain store would show, and persisting the cache leaves the store as if every
    write had gone to it directly. */
module StateCache {
  import opened Words
  import opened Bytecode
  import opened Ops
  import opened KeyValues
  import opened Semantics
  import opened Store

  datatype StateOp = Get(key: Word) | Set(key: Word, value: Word)

  /** What an evaluation does: reads go through the cache and fill it, writes
      stay in it. Returns the values read and the cache left behind. */
  function Cached(slots: map<Word, Word>, kv: map<Word, Word>, ops: seq<StateOp>): (seq<Word>, map<Word, Word>) {
    if ops == [] then ([], kv)
    else
      var (seen, cache) := Cached(slots, kv, ops[..|ops| - 1]);
      match ops[|ops| - 1]
      case Set(key, value) => (seen, cache[key := value])
      case Get(key) =>
        var value := if key in cache then cache[key] else At(slots, key);
        (seen + [value], cache[key := value])
  }

  /** A plain store: reads read it and writes write it. */
  function Plain(slots: map<Word, Word>, ops: seq<StateOp>): (seq<Word>, map<Word, Word>) {
    if ops == [] then ([], slots)
    else
      var (seen, now) := Plain(slots, ops[..|ops| - 1]);
      match ops[|ops| - 1]
      case Set(key, value) => (seen, now[key := value])
      case Get(key) => (seen + [At(now, key)], now)
  }

  /** What a plain store reads: after a write to a key, and no other write to it since,
      the value written; with no write to it at all, what the store began with. */
  lemma PlainReadsLatest(slots: map<Word, Word>, before: seq<StateOp>, key: Word, value: Word, since: seq<StateOp>)
    requires forall j, v | 0 <= j < |since| :: since[j] != Set(key, v)
    ensures var seen := Plain(slots, before + [Set(key, value)] + since + [Get(key)]).0;
            seen != [] && seen[|seen| - 1] == value
    ensures var seen := Plain(slots, since + [Get(key)]).0;
            seen != [] && seen[|seen| - 1] == At(slots, key)
  {
    assert (before + [Set(key, value)] + [])[..|before|] == before;
    assert before + [Set(key, value)] + [] == before + [Set(key, value)];
    KeptSince(slots, before + [Set(key, value)], key, since);
    KeptSince(slots, [], key, since);
    assert [] + since == since;
    var all := before + [Set(key, value)] + since;
    assert (all + [Get(key)])[..|all|] == all;
    assert (since + [Get(key)])[..|since|] == since;
    assert (before + [Set(key, value)])[..|before|] == before;
  }

  lemma {:induction false} KeptSince(slots: map<Word, Word>, before: seq<StateOp>, key: Word, since: seq<StateOp>)
    requires forall j, v | 0 <= j < |since| :: since[j] != Set(key, v)
    ensures At(Plain(slots, before + since).1, key) == At(Plain(slots, before).1, key)
    decreases |since|
  {
    if since == [] {
      assert before + since == before;
    } else {
      var n := |since| - 1;
      assert (before + since)[..|before + since| - 1] == before + since[..n];
      KeptSince(slots, before, key, since[..n]);
    }
  }

  /** The cached evaluation is what the machine does: over a store that shows `slots`,
      `get` takes the key off the stack and gives the value a cached read sees, `set`
      takes the key and the value under it, and both leave the cached evaluation's
      cache. */
  lemma MachineUsesTheCache(env: Env, rank: seq<nat>, src: nat, operand: nat, f: Frame, slots: map<Word, Word>)
    requires Ranked(env, rank) && src < |env.sources|
    requires forall key: Word :: env.store(key) == At(slots, key)
    ensures |f.stack| >= 1 ==>
              var key := f.stack[|f.stack| - 1];
              var (seen, cache) := Cached(slots, f.kv, [Get(key)]);
              |seen| == 1 && EffectOf(env, rank, src, StateGet, operand, f) == Some(Effect(1, seen, cache, f.calls))
    ensures |f.stack| >= 2 ==>
              var key, value := f.stack[|f.stack| - 1], f.stack[|f.stack| - 2];
              var (seen, cache) := Cached(slots, f.kv, [Set(key, value)]);
              seen == [] && EffectOf(env, rank, src, StateSet, operand, f) == Some(Effect(2, [], cache, f.calls))
  {
    hide Ranked, Index, OpInputs, OpOutputs;
    if |f.stack| >= 1 {
      var get := [Get(f.stack[|f.stack| - 1])];
      assert get[..0] == [] && Cached(slots, f.kv, get[..0]) == ([], f.kv);
      assert Cached(slots, f.kv, get).0 == [Lookup(env, f.kv, f.stack[|f.stack| - 1])];
    }
    if |f.stack| >= 2 {
      var set' := [Set(f.stack[|f.stack| - 1], f.stack[|f.stack| - 2])];
      assert set'[..0] == [] && Cached(slots, f.kv, set'[..0]) == ([], f.kv);
    }
  }

  /** Two stores read the same everywhere. */
  ghost predicate SameReads(a: map<Word, Word>, b: map<Word, Word>) {
    forall key: Word :: At(a, key) == At(b, key)
  }

  lemma {:induction false} CachedIsPlain(slots: map<Word, Word>, kv: map<Word, Word>, ops: seq<StateOp>)
    ensures Cached(slots, kv, ops).0 == Plain(slots + kv, ops).0
    ensures SameReads(slots + Cached(slots, kv, ops).1, Plain(slots + kv, ops).1)
  {
    if ops == [] {
    } else {
      CachedIsPlain(slots, kv, ops[..|ops| - 1]);
      var cache, now := Cached(slots, kv, ops[..|ops| - 1]).1, Plain(slots + kv, ops[..|ops| - 1]).1;
      match ops[|ops| - 1]
      case Set(key, value) => ReadsAfterSet(slots, cache, now, key, value);
      case Get(key) => ReadsAfterGet(slots, cache, now, key);
    }
  }

  lemma ReadsAfterSet(slots: map<Word, Word>, cache: map<Word, Word>, now: map<Word, Word>, key: Word, value: Word)
    requires SameReads(slots + cache, now)
    ensures SameReads(slots + cache[key := value], now[key := value])
  {
    var cache', now' := cache[key := value], now[key := value];
    forall other: Word
      ensures At(slots + cache', other) == At(now', other)
    {
      assert At(slots + cache, other) == At(now, other);
    }
  }

  lemma ReadsAfterGet(slots: map<Word, Word>, cache: map<Word, Word>, now: map<Word, Word>, key: Word)
    requires SameReads(slots + cache, now)
    ensures (if key in cache then cache[key] else At(slots, key)) == At(now, key)
    ensures SameReads(slots + cache[key := At(now, key)], now)
  {
    assert At(slots + cache, key) == At(now, key);
    var cache' := cache[key := At(now, key)];
    forall other: Word
      ensures At(slots + cache', other) == At(now, other)
    {
      assert At(slots + cache, other) == At(now, other);
    }
  }

  lemma {:induction false} WrittenOver(m: map<Word, Word>, kvs: seq<Word>)
    requires |kvs| % 2 == 0
    ensures Written(m, kvs) == m + Written(map[], kvs)
  {
    if kvs == [] {
    } else {
      WrittenOver(m, kvs[..|kvs| - 2]);
    }
  }

  /** The write-back cache refines the plain store. For any overlay and any gets
      and sets, the values read are those of a store to which the overlay was
      applied first; and once the cache's pairs are persisted, in whatever order
      they come, the store reads everywhere as if overlay and sets had been
      applied to it directly. Keys that were only read change nothing. */
  lemma WriteBackRefinesPlain(slots: map<Word, Word>, overlay: seq<Word>, ops: seq<StateOp>, pairs: seq<Word>)
    requires |overlay| % 2 == 0 && |pairs| % 2 == 0
    requires Written(map[], pairs) == Cached(slots, Written(map[], overlay), ops).1
    ensures Cached(slots, Written(map[], overlay), ops).0 == Plain(Written(slots, overlay), ops).0
    ensures SameReads(Written(slots, pairs), Plain(Written(slots, overlay), ops).1)
  {
    CachedIsPlain(slots, Written(map[], overlay), ops);
    WrittenOver(slots, overlay);
    WrittenOver(slots, pairs);
  }

  // ----- whole runs -----

  /** The same program over another store. */
  function Over(env: Env, store: Word -> Word): Env {
    env.(store := store)
  }

  /** Cache and store together show the same values. */
  ghost predicate SameView(env: Env, kv: map<Word, Word>, env': Env, kv': map<Word, Word>) {
    forall key: Word :: Lookup(env, kv, key) == Lookup(env', kv', key)
  }

  /** A run sees the store only through the cache: if cache and store together
      show the same values at the start, two runs produce the same stacks and
      calls and show the same values at the end. */
  lemma {:induction false} RunsSeeTheView(
      env: Env, store: Word -> Word, rank: seq<nat>, src: nat, k: nat, inputs: seq<Word>,
      kv: map<Word, Word>, kv': map<Word, Word>)
    requires Ranked(env, rank) && Ranked(Over(env, store), rank)
    requires src < |env.sources| && k <= |env.sources[src].ops|
    requires SameView(env, kv, Over(env, store), kv')
    ensures SameFrames(env, store, Exec(env, rank, src, k, inputs, kv), Exec(Over(env, store), rank, src, k, inputs, kv'))
    decreases rank[src], 1, k
  {
    hide Ranked, SameView, EffectOf, Step, Over;
    if k > 0 {
      RunsSeeTheView(env, store, rank, src, k - 1, inputs, kv, kv');
      SameProgram(env, store, rank, src, k - 1);
      var f, f' := Exec(env, rank, src, k - 1, inputs, kv), Exec(Over(env, store), rank, src, k - 1, inputs, kv');
      if f.Some? {
        StepSeesTheView(env, store, rank, src, env.sources[src].ops[k - 1], f.value, f'.value);
      }
    } else {
      SameProgram(env, store, rank, src, 0);
    }
  }

  lemma SameProgram(env: Env, store: Word -> Word, rank: seq<nat>, src: nat, k: nat)
    requires Ranked(env, rank) && src < |env.sources| && k <= |env.sources[src].ops|
    ensures Over(env, store).sources == env.sources && Over(env, store).constants == env.constants
    ensures |rank| == |env.sources|
    ensures k < |env.sources[src].ops| ==>
              && CallDescends(env, rank, src, env.sources[src].ops[k])
              && CallDescends(Over(env, store), rank, src, env.sources[src].ops[k])
  {}

  lemma StepSeesTheView(env: Env, store: Word -> Word, rank: seq<nat>, src: nat, op: Op, f: Frame, f': Frame)
    requires Ranked(env, rank) && Ranked(Over(env, store), rank) && src < |env.sources|
    requires CallDescends(env, rank, src, op) && CallDescends(Over(env, store), rank, src, op)
    requires SameFrames(env, store, Some(f), Some(f'))
    ensures SameFrames(env, store, Step(env, rank, src, op, f), Step(Over(env, store), rank, src, op, f'))
    decreases rank[src], 0, 2
  {
    hide Ranked, EffectOf, SameView, Over, Index;
    SameProgram(env, store, rank, src, 0);
    OverKeepsTable(env, store);
    if op.opcode < |env.fs| {
      OpSeesTheView(env, store, rank, src, env.fs[op.opcode], op.operand, f, f');
    }
  }

  lemma OverKeepsTable(env: Env, store: Word -> Word)
    ensures Over(env, store).fs == env.fs
  {}

  ghost predicate SameFrames(env: Env, store: Word -> Word, f: Option<Frame>, f': Option<Frame>) {
    && f.Some? == f'.Some?
    && (f.Some? ==>
          && f.value.stack == f'.value.stack && f.value.calls == f'.value.calls
          && SameView(env, f.value.kv, Over(env, store), f'.value.kv))
  }

  /** Two effects differ at most in how cache and store share the values. */
  ghost predicate SameEffects(env: Env, store: Word -> Word, e: Option<Effect>, e': Option<Effect>) {
    && e.Some? == e'.Some?
    && (e.Some? ==>
          && e.value.take == e'.value.take && e.value.give == e'.value.give && e.value.calls == e'.value.calls
          && SameView(env, e.value.kv, Over(env, store), e'.value.kv))
  }

  lemma OpSeesTheView(
      env: Env, store: Word -> Word, rank: seq<nat>, src: nat, impl: OpImpl, operand: nat, f: Frame, f': Frame)
    requires Ranked(env, rank) && Ranked(Over(env, store), rank) && src < |env.sources|
    requires impl.CallSource? && Index(operand) < |rank| ==> rank[Index(operand)] < rank[src]
    requires SameFrames(env, store, Some(f), Some(f'))
    ensures SameEffects(env, store, EffectOf(env, rank, src, impl, operand, f),
                        EffectOf(Over(env, store), rank, src, impl, operand, f'))
    decreases rank[src], 0, 1
  {
    SameProgram(env, store, rank, src, 0);
    if impl.CallSource? {
      CallSeesTheView(env, store, rank, src, impl, operand, f, f');
    } else {
      hide Ranked, Exec, Run, SameView, Lookup, Over, Top, Index, OpInputs, OpOutputs;
      if impl.StateGet? && |f.stack| >= 1 {
        var key := f.stack[|f.stack| - 1];
        WriteKeepsView(env, f.kv, Over(env, store), f'.kv, key, Lookup(env, f.kv, key));
      } else if impl.StateSet? && |f.stack| >= 2 {
        WriteKeepsView(env, f.kv, Over(env, store), f'.kv, f.stack[|f.stack| - 1], f.stack[|f.stack| - 2]);
      }
    }
  }

  lemma CallSeesTheView(
      env: Env, store: Word -> Word, rank: seq<nat>, src: nat, impl: OpImpl, operand: nat, f: Frame, f': Frame)
    requires Ranked(env, rank) && Ranked(Over(env, store), rank) && src < |env.sources|
    requires impl.CallSource? && (Index(operand) < |rank| ==> rank[Index(operand)] < rank[src])
    requires SameFrames(env, store, Some(f), Some(f'))
    ensures SameEffects(env, store, EffectOf(env, rank, src, impl, operand, f),
                        EffectOf(Over(env, store), rank, src, impl, operand, f'))
    decreases rank[src], 0, 0
  {
    hide Ranked, Exec, Run, EffectOf, SameView, Lookup, Over, Top, Index, OpInputs, OpOutputs, CallDescends;
    SameProgram(env, store, rank, src, 0);
    CallEffect(env, rank, src, operand, f);
    CallEffect(Over(env, store), rank, src, operand, f');
    var callee := Index(operand);
    if callee < |env.sources| && OpInputs(operand) <= |f.stack| {
      var args := Top(f.stack, OpInputs(operand));
      RunsSeeTheView(env, store, rank, callee, |env.sources[callee].ops|, args, f.kv, f'.kv);
      RunIsExec(env, rank, callee, args, f.kv);
      RunIsExec(Over(env, store), rank, callee, args, f'.kv);
    }
  }

  lemma WriteKeepsView(env: Env, kv: map<Word, Word>, env': Env, kv': map<Word, Word>, key: Word, value: Word)
    requires SameView(env, kv, env', kv')
    ensures SameView(env, kv[key := value], env', kv'[key := value])
    ensures Lookup(env, kv, key) == Lookup(env', kv', key)
  {
    var after, after' := kv[key := value], kv'[key := value];
    forall other: Word
      ensures Lookup(env, after, other) == Lookup(env', after', other)
    {
      assert Lookup(env, kv, other) == Lookup(env', kv', other);
    }
  }

  /** Overlaying state is the same as storing it first: the run over the updated
      store with an empty cache has the same stacks and calls, and shows the same
      values afterwards. */
  lemma OverlayIsStoredState(env: Env, rank: seq<nat>, src: nat, inputs: seq<Word>, kv: map<Word, Word>)
    requires Ranked(env, rank) && src < |env.sources|
    ensures var stored := (key: Word) => Lookup(env, kv, key);
            && Ranked(Over(env, stored), rank)
            && SameFrames(env, stored, Run(env, rank, src, inputs, kv), Run(Over(env, stored), rank, src, inputs, map[]))
  {
    var stored := (key: Word) => Lookup(env, kv, key);
    assert forall i, k | 0 <= i < |env.sources| && 0 <= k < |env.sources[i].ops| ::
        CallDescends(env, rank, i, env.sources[i].ops[k]) ==> CallDescends(Over(env, stored), rank, i, env.sources[i].ops[k]);
    RunsSeeTheView(env, stored, rank, src, |env.sources[src].ops|, inputs, kv, map[]);
  }

  // ----- one evaluation after another -----

  /** A program over the store as it is after a history of `set` calls, under the
      namespace that its evaluations read. */
  ghost function Stored(env: Env, hash: seq<Byte> -> Word, history: seq<SetCall>, ns: Word): Env
    requires forall c | c in history :: |c.kvs| % 2 == 0
  {
    Over(env, (key: Word) => At(Replay(hash, history, ns), key))
  }

  /** Persisting what an evaluation returned loses nothing. The cache that a run
      leaves, set in whatever order its pairs come by the sender whose namespace was
      read, makes the stored state show what cache and store together showed; so the
      next run, from an empty cache, has the same stacks and calls as if the first
      had gone on with its cache, and shows the same values when it ends. */
  lemma PersistedRunsCompose(
      env: Env, hash: seq<Byte> -> Word, history: seq<SetCall>, namespace: Word, sender: Address, rank: seq<nat>,
      first: nat, second: nat, inputs: seq<Word>, inputs': seq<Word>, kv: map<Word, Word>, pairs: seq<Word>)
    requires (forall c | c in history :: |c.kvs| % 2 == 0) && |pairs| % 2 == 0
    requires first < |env.sources| && second < |env.sources|
    requires var now := Stored(env, hash, history, Qualified(hash, namespace, sender));
             && Ranked(now, rank)
             && var ran := Run(now, rank, first, inputs, kv);
                ran.Some? && Written(map[], pairs) == ran.value.kv
    ensures var ns := Qualified(hash, namespace, sender);
            var now, next := Stored(env, hash, history, ns), Stored(env, hash, history + [SetCall(namespace, sender, pairs)], ns);
            && Ranked(next, rank)
            && var kv' := Run(now, rank, first, inputs, kv).value.kv;
               && SameView(now, kv', next, map[])
               && SameFrames(now, next.store, Run(now, rank, second, inputs', kv'), Run(next, rank, second, inputs', map[]))
  {
    hide Run, Exec, Step, EffectOf, Replay;
    var ns, call := Qualified(hash, namespace, sender), SetCall(namespace, sender, pairs);
    var now, next := Stored(env, hash, history, ns), Stored(env, hash, history + [call], ns);
    var kv' := Run(now, rank, first, inputs, kv).value.kv;
    ReplayPush(hash, history, call);
    WrittenOver(Replay(hash, history, ns), pairs);
    SameRanks(now, next.store, rank);
    assert Over(now, next.store) == next;
    RunIsExec(now, rank, second, inputs', kv');
    RunIsExec(next, rank, second, inputs', map[]);
    RunsSeeTheView(now, next.store, rank, second, |env.sources[second].ops|, inputs', kv', map[]);
  }

  lemma ReplayPush(hash: seq<Byte> -> Word, history: seq<SetCall>, call: SetCall)
    requires |call.kvs| % 2 == 0 && forall c | c in history :: |c.kvs| % 2 == 0
    ensures var ns := Qualified(hash, call.namespace, call.sender);
            Replay(hash, history + [call], ns) == Written(Replay(hash, history, ns), call.kvs)
  {
    assert (history + [call])[..|history|] == history;
  }

  lemma SameRanks(env: Env, store: Word -> Word, rank: seq<nat>)
    requires Ranked(env, rank)
    ensures Ranked(Over(env, store), rank)
  {
    forall i, k | 0 <= i < |env.sources| && 0 <= k < |env.sources[i].ops|
      ensures CallDescends(Over(env, store), rank, i, env.sources[i].ops[k])
    {
      assert CallDescends(env, rank, i, env.sources[i].ops[k]);
    }
  }
}
