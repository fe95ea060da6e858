/** Which slots of a stack keep their values, and for how long. */
module Highwater {
  import opened Words
  import opened Bytecode
  import opened Ops
  import opened Integrity
  import opened Semantics
  import opened Soundness

  /** Everything strictly under a slot that was read keeps its value for the rest
      of the run. */
  lemma UnderReadIsImmutable(
      env: Env, rank: seq<nat>, src: nat, k: nat, m: nat, inputs: seq<Word>, kv: map<Word, Word>)
    requires Deployable(env, rank) && src < |env.sources| && k < m <= |env.sources[src].ops|
    requires |inputs| == env.sources[src].inputs
    requires var op := env.sources[src].ops[k]; op.opcode < |env.fs| && env.fs[op.opcode].StackRead?
    ensures Exec(env, rank, src, k + 1, inputs, kv).Some? && Exec(env, rank, src, m, inputs, kv).Some?
    ensures var s := Exec(env, rank, src, k + 1, inputs, kv).value.stack;
            var t := Exec(env, rank, src, m, inputs, kv).value.stack;
            var read := Index(env.sources[src].ops[k].operand);
            read <= |s| && read <= |t| && t[..read] == s[..read]
  {
    hide Exec, Step, WalkAt, WalkTo, Ranked;
    var source := env.sources[src];
    BelowHighwaterIsImmutable(env, rank, src, k + 1, m, inputs, kv);
    ReadRaises(ContextOf(env), source, k);
    var read := Index(source.ops[k].operand);
    var h := WalkAt(ContextOf(env), source, k + 1).readHighwater;
    var s := Exec(env, rank, src, k + 1, inputs, kv).value.stack;
    var t := Exec(env, rank, src, m, inputs, kv).value.stack;
    assert t[..h][..read] == t[..read] && s[..h][..read] == s[..read];
  }

  lemma ReadRaises(c: Context, source: Source, k: nat)
    requires CheckSource(c, source).Ok? && k < |source.ops|
    requires source.ops[k].opcode < |c.fs| && c.fs[source.ops[k].opcode].StackRead?
    ensures Index(source.ops[k].operand) <= WalkAt(c, source, k + 1).readHighwater
  {
    WalkStep(c, source, k);
  }

  /** The whole stack that a group of outputs completes is a prefix of every later
      stack of the run. */
  lemma GroupIsImmutable(
      env: Env, rank: seq<nat>, src: nat, k: nat, m: nat, inputs: seq<Word>, kv: map<Word, Word>)
    requires Deployable(env, rank) && src < |env.sources| && k < m <= |env.sources[src].ops|
    requires |inputs| == env.sources[src].inputs && OpOutputs(env.sources[src].ops[k].operand) > 1
    ensures Exec(env, rank, src, k + 1, inputs, kv).Some? && Exec(env, rank, src, m, inputs, kv).Some?
    ensures Exec(env, rank, src, k + 1, inputs, kv).value.stack <= Exec(env, rank, src, m, inputs, kv).value.stack
  {
    hide Exec, Step, WalkAt, WalkTo, Ranked;
    var source := env.sources[src];
    BelowHighwaterIsImmutable(env, rank, src, k + 1, m, inputs, kv);
    GroupRaises(ContextOf(env), source, k);
    NeverStuck(env, rank, src, k + 1, inputs, kv);
  }

  lemma GroupRaises(c: Context, source: Source, k: nat)
    requires CheckSource(c, source).Ok? && k < |source.ops| && OpOutputs(source.ops[k].operand) > 1
    ensures WalkAt(c, source, k + 1).readHighwater == WalkAt(c, source, k + 1).stackIndex
  {
    WalkStep(c, source, k);
  }

  // ----- unconsumed slots -----

  /** The lowest slot that op `k` of an accepted source takes, or the first free one. */
  function Floor(c: Context, source: Source, k: nat): int
    requires CheckSource(c, source).Ok? && k < |source.ops|
  {
    WalkAt(c, source, k).stackIndex - OpInputs(source.ops[k].operand)
  }

  /** A slot that no op from `k` up to `m` takes has the same value after both. */
  lemma {:induction false} UnconsumedSlotSurvives(
      env: Env, rank: seq<nat>, src: nat, k: nat, m: nat, s: nat, inputs: seq<Word>, kv: map<Word, Word>)
    requires Deployable(env, rank) && src < |env.sources| && k <= m <= |env.sources[src].ops|
    requires |inputs| == env.sources[src].inputs
    requires s < WalkAt(ContextOf(env), env.sources[src], k).stackIndex
    requires forall j | k <= j < m :: s < Floor(ContextOf(env), env.sources[src], j)
    ensures Keeps(env, rank, src, k, m, s, inputs, kv)
    decreases m - k
  {
    hide Ranked, CheckSource, Accepted, WalkTo, WalkAt, Step, EffectOf;
    NeverStuck(env, rank, src, k, inputs, kv);
    if k == m {
    } else {
      UnconsumedSlotSurvives(env, rank, src, k, m - 1, s, inputs, kv);
      NeverStuck(env, rank, src, m - 1, inputs, kv);
      NeverStuck(env, rank, src, m, inputs, kv);
      SourceAccepted(env, rank, src);
      ExecStep(env, rank, src, m - 1, inputs, kv);
      var f := Exec(env, rank, src, m - 1, inputs, kv).value;
      var e, w := StepEffect(env, rank, src, m - 1, f);
      assert s < Floor(ContextOf(env), env.sources[src], m - 1);
    }
  }

  /** Slot `s` holds the same value after `m` ops as after `k`. */
  ghost predicate Keeps(
      env: Env, rank: seq<nat>, src: nat, k: nat, m: nat, s: nat, inputs: seq<Word>, kv: map<Word, Word>)
    requires Ranked(env, rank) && src < |env.sources| && k <= m <= |env.sources[src].ops|
  {
    var f, g := Exec(env, rank, src, k, inputs, kv), Exec(env, rank, src, m, inputs, kv);
    && f.Some? && g.Some?
    && s < |f.value.stack| && s < |g.value.stack| && g.value.stack[s] == f.value.stack[s]
  }

  // ----- a slot that was read and then overwritten -----

  /** Two constants, a read of slot 1, and an op that takes two items. */
  function ConsumingSource(): Source {
    Source([Op(0, 0x10_0000), Op(0, 0x10_0000), Op(1, 0x10_0001), Op(2, 0x12_0000)], 3, 0, 2)
  }

  /** The op table has a constant read, a stack read and an op that turns two
      items into a zero. */
  function ConsumingEnv(constant: Word, store: Word -> Word): Env {
    Env([ConstantRead, StackRead, Other(_ => Some((2, 1)), (_, _) => [0])], [ConsumingSource()], [constant], store)
  }

  /** Accepted bytecode can read slot 1 and then consume and overwrite it. */
  lemma ReadSlotCanChange(constant: Word, store: Word -> Word)
    requires constant != 0
    ensures var env := ConsumingEnv(constant, store);
            && Deployable(env, [0])
            && Exec(env, [0], 0, 3, [], map[]) == Some(Copies(constant, 3))
            && Exec(env, [0], 0, 4, [], map[]) == Some(Frame([constant, 0], map[], []))
  {
    hide Pow2;
    var env, source := ConsumingEnv(constant, store), ConsumingSource();
    ConsumingAccepted(env, constant);
    PushStep(env, constant, 0);
    PushStep(env, constant, 1);
    PushStep(env, constant, 2);
    OverwriteStep(env, constant);
    assert Exec(env, [0], 0, 1, [], map[]) == Some(Copies(constant, 1));
    assert Exec(env, [0], 0, 2, [], map[]) == Some(Copies(constant, 2));
  }

  function Copies(constant: Word, n: nat): Frame {
    Frame(seq<Word>(n, _ => constant), map[], [])
  }

  lemma ConsumingAccepted(env: Env, constant: Word)
    requires env == ConsumingEnv(constant, env.store)
    ensures Deployable(env, [0])
  {
    var c, source := ContextOf(env), ConsumingSource();
    assert WalkTo(c, source, 1) == Ok(Walk(1, 1, 0, 1));
    assert WalkTo(c, source, 2) == Ok(Walk(2, 2, 0, 2));
    assert WalkTo(c, source, 3) == Ok(Walk(3, 3, 1, 3));
    assert WalkTo(c, source, 4) == Ok(Walk(2, 3, 1, 4));
  }

  lemma PushStep(env: Env, constant: Word, k: nat)
    requires env == ConsumingEnv(constant, env.store) && k < 3 && Ranked(env, [0])
    ensures Step(env, [0], 0, env.sources[0].ops[k], Copies(constant, k)) == Some(Copies(constant, k + 1))
  {
    var f := Copies(constant, k);
    assert f.stack[..k - 0] + [constant] == Copies(constant, k + 1).stack;
    assert Apply(3, f, Effect(0, [constant], map[], [])) == Some(Copies(constant, k + 1));
  }

  lemma OverwriteStep(env: Env, constant: Word)
    requires env == ConsumingEnv(constant, env.store) && Ranked(env, [0])
    ensures Step(env, [0], 0, env.sources[0].ops[3], Copies(constant, 3)) == Some(Frame([constant, 0], map[], []))
  {
    var f := Copies(constant, 3);
    assert f.stack[..3 - 2] + Reverse([0]) == [constant, 0];
    assert Apply(3, f, Effect(2, Reverse([0]), map[], [])) == Some(Frame([constant, 0], map[], []));
  }
}
