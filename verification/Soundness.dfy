/** What acceptance buys: accepted bytecode never gets stuck, its stack heights
    are the ones the integrity walk simulated, and nothing below the highwater
    ever changes. */
module Soundness {
  import opened Words
  import opened Bytecode
  import opened Ops
  import opened Integrity
  import opened Semantics

  ghost predicate Deployable(env: Env, rank: seq<nat>) {
    && Ranked(env, rank)
    && Accepted(ContextOf(env))
    && forall i | 0 <= i < |env.fs| :: Honest(env.fs[i])
  }

  /** The walk of an accepted source, which is defined at every op. */
  function WalkAt(c: Context, source: Source, k: nat): Walk
    requires CheckSource(c, source).Ok? && k <= |source.ops|
  {
    WalkDefined(c, source, k);
    WalkTo(c, source, k).value
  }

  lemma WalkDefined(c: Context, source: Source, k: nat)
    requires CheckSource(c, source).Ok? && k <= |source.ops|
    ensures WalkTo(c, source, k).Ok?
  {
    if WalkTo(c, source, k).Err? {
      WalkErrorPersists(c, source, k, |source.ops|);
    }
  }

  lemma WalkStep(c: Context, source: Source, k: nat)
    requires CheckSource(c, source).Ok? && k < |source.ops|
    ensures CheckOp(c, source.ops[k], WalkAt(c, source, k)) == Ok(WalkAt(c, source, k + 1))
  {
    WalkDefined(c, source, k + 1);
  }

  /** Along any accepted walk the highwater only rises, never passes the stack,
      and the recorded peak only rises and covers the stack. */
  lemma {:induction false} WalkMonotone(c: Context, source: Source, k: nat, m: nat)
    requires CheckSource(c, source).Ok? && k <= m <= |source.ops|
    ensures WalkAt(c, source, k).readHighwater <= WalkAt(c, source, m).readHighwater
    ensures WalkAt(c, source, m).readHighwater <= WalkAt(c, source, m).stackIndex <= WalkAt(c, source, m).stackMaxIndex
    ensures WalkAt(c, source, k).stackMaxIndex <= WalkAt(c, source, m).stackMaxIndex
    decreases m
  {
    if m == 0 {
    } else {
      WalkMonotone(c, source, if k < m then k else m - 1, m - 1);
      WalkStep(c, source, m - 1);
    }
  }

  /** The declared allocation is the exact peak: no height exceeds it and some
      height reaches it. The final height is the declared output count. */
  lemma AllocationIsPeak(c: Context, source: Source)
    requires CheckSource(c, source).Ok?
    ensures forall k | 0 <= k <= |source.ops| :: WalkAt(c, source, k).stackIndex <= source.allocation
    ensures exists k | 0 <= k <= |source.ops| :: WalkAt(c, source, k).stackIndex == source.allocation
    ensures WalkAt(c, source, |source.ops|).stackIndex == source.outputs
  {
    forall k | 0 <= k <= |source.ops|
      ensures WalkAt(c, source, k).stackIndex <= source.allocation
    {
      WalkMonotone(c, source, k, k);
      WalkMonotone(c, source, k, |source.ops|);
    }
    var k := PeakReached(c, source, |source.ops|);
  }

  /** An accepted source's counts are in the order the structural check asks for. */
  lemma AcceptedIsSized(c: Context, source: Source)
    requires CheckSource(c, source).Ok?
    ensures source.inputs <= source.outputs <= source.allocation
  {
    hide CheckOp;
    WalkMonotone(c, source, 0, |source.ops|);
    assert WalkAt(c, source, 0) == NewState(source.inputs);
  }

  lemma {:induction false} PeakReached(c: Context, source: Source, m: nat) returns (k: nat)
    requires CheckSource(c, source).Ok? && m <= |source.ops|
    ensures k <= m && WalkAt(c, source, k).stackIndex == WalkAt(c, source, m).stackMaxIndex
  {
    if m == 0 {
      k := 0;
    } else {
      k := PeakReached(c, source, m - 1);
      WalkStep(c, source, m - 1);
      if WalkAt(c, source, m).stackMaxIndex != WalkAt(c, source, m - 1).stackMaxIndex {
        k := m;
      }
    }
  }

  // ----- the checked machine follows the walk -----

  /** `f` is where the walk says the source should be after `k` ops. */
  ghost predicate Tracks(env: Env, src: nat, k: nat, f: Frame)
    requires Accepted(ContextOf(env)) && src < |env.sources| && k <= |env.sources[src].ops|
  {
    |f.stack| == WalkAt(ContextOf(env), env.sources[src], k).stackIndex
  }

  /** Integrity soundness. From its declared inputs, every source of accepted,
      acyclic bytecode runs every op without getting stuck, at exactly the
      heights that the deploy-time walk computed. */
  lemma {:induction false} NeverStuck(env: Env, rank: seq<nat>, src: nat, k: nat, inputs: seq<Word>, kv: map<Word, Word>)
    requires Deployable(env, rank) && src < |env.sources| && k <= |env.sources[src].ops|
    requires |inputs| == env.sources[src].inputs
    ensures Exec(env, rank, src, k, inputs, kv).Some?
    ensures Tracks(env, src, k, Exec(env, rank, src, k, inputs, kv).value)
    decreases rank[src], 3, k
  {
    var c, source := ContextOf(env), env.sources[src];
    AllocationIsPeak(c, source);
    if k == 0 {
      assert WalkAt(c, source, 0).stackIndex <= source.allocation;
    } else {
      NeverStuck(env, rank, src, k - 1, inputs, kv);
      StepNotStuck(env, rank, src, k - 1, Exec(env, rank, src, k - 1, inputs, kv).value);
    }
  }

  /** Where the walk admits an op, the op takes and gives what it declared. */
  lemma EffectIsDeclared(env: Env, rank: seq<nat>, src: nat, impl: OpImpl, operand: nat, f: Frame, w: Walk)
    requires Deployable(env, rank) && src < |env.sources| && Honest(impl)
    requires impl.CallSource? && Index(operand) < |rank| ==> rank[Index(operand)] < rank[src]
    requires |f.stack| == w.stackIndex
    requires Declares(ContextOf(env), impl, operand, w).Ok?
    requires var d := Declares(ContextOf(env), impl, operand, w).value;
             d.inputs == OpInputs(operand) && d.outputs == OpOutputs(operand) && d.inputs <= |f.stack|
    ensures EffectOf(env, rank, src, impl, operand, f).Some?
    ensures var d := Declares(ContextOf(env), impl, operand, w).value;
            var e := EffectOf(env, rank, src, impl, operand, f).value;
            e.take == d.inputs && |e.give| == d.outputs
    decreases rank[src], 0
  {
    assert |rank| == |env.sources|;
    hide Ranked, Accepted, CheckSource, Run;
    match impl
    case CallSource =>
      RunCompletes(env, rank, Index(operand), Top(f.stack, OpInputs(operand)), f.kv);
    case Other(io, run) =>
      var d := Declares(ContextOf(env), impl, operand, w).value;
      assert |run(operand, Top(f.stack, d.inputs))| == d.outputs;
    case _ =>
  }

  /** A call names a source, brings its inputs and asks for no more outputs than
      it has. */
  predicate CallMatches(env: Env, operand: nat) {
    && Index(operand) < |env.sources|
    && OpInputs(operand) == env.sources[Index(operand)].inputs
    && OpOutputs(operand) <= env.sources[Index(operand)].outputs
  }

  lemma StepEffect(env: Env, rank: seq<nat>, src: nat, k: nat, f: Frame) returns (e: Effect, w: Walk)
    requires Deployable(env, rank) && src < |env.sources| && k < |env.sources[src].ops|
    requires Tracks(env, src, k, f)
    ensures w == WalkAt(ContextOf(env), env.sources[src], k) && w.stackIndex == |f.stack|
    ensures e.take <= |f.stack| && w.readHighwater <= |f.stack| - e.take
    ensures e.take == OpInputs(env.sources[src].ops[k].operand)
    ensures |e.give| == OpOutputs(env.sources[src].ops[k].operand)
    ensures |f.stack| - e.take + |e.give| == WalkAt(ContextOf(env), env.sources[src], k + 1).stackIndex
    ensures var op := env.sources[src].ops[k];
            && op.opcode < |env.fs|
            && CallDescends(env, rank, src, op)
            && EffectOf(env, rank, src, env.fs[op.opcode], op.operand, f) == Some(e)
            && Step(env, rank, src, op, f) == Apply(env.sources[src].allocation, f, e)
            && (env.fs[op.opcode].CallSource? ==> CallMatches(env, op.operand))
    decreases rank[src], 1
  {
    var c, source := ContextOf(env), env.sources[src];
    var op := source.ops[k];
    w := WalkAt(c, source, k);
    WalkStep(c, source, k);
    assert CallDescends(env, rank, src, op);
    var impl := env.fs[op.opcode];
    DeclaredHighwater(c, impl, op.operand, w);
    EffectIsDeclared(env, rank, src, impl, op.operand, f, w);
    e := EffectOf(env, rank, src, impl, op.operand, f).value;
  }

  lemma DeclaredHighwater(c: Context, impl: OpImpl, operand: nat, w: Walk)
    requires Declares(c, impl, operand, w).Ok?
    ensures w.readHighwater <= Declares(c, impl, operand, w).value.highwater
  {}

  lemma StepNotStuck(env: Env, rank: seq<nat>, src: nat, k: nat, f: Frame)
    requires Deployable(env, rank) && src < |env.sources| && k < |env.sources[src].ops|
    requires Tracks(env, src, k, f)
    ensures Step(env, rank, src, env.sources[src].ops[k], f).Some?
    ensures Tracks(env, src, k + 1, Step(env, rank, src, env.sources[src].ops[k], f).value)
    decreases rank[src], 2
  {
    var e, w := StepEffect(env, rank, src, k, f);
    AllocationIsPeak(ContextOf(env), env.sources[src]);
    assert WalkAt(ContextOf(env), env.sources[src], k + 1).stackIndex <= env.sources[src].allocation;
  }

  /** A whole source completes and ends with exactly its declared outputs. */
  lemma RunCompletes(env: Env, rank: seq<nat>, src: nat, inputs: seq<Word>, kv: map<Word, Word>)
    requires Deployable(env, rank) && src < |env.sources| && |inputs| == env.sources[src].inputs
    ensures Run(env, rank, src, inputs, kv).Some?
    ensures |Run(env, rank, src, inputs, kv).value.stack| == env.sources[src].outputs
    decreases rank[src], 4
  {
    NeverStuck(env, rank, src, |env.sources[src].ops|, inputs, kv);
    AllocationIsPeak(ContextOf(env), env.sources[src]);
  }

  // ----- the highwater -----

  /** One op leaves everything below the highwater it starts from, and the one
      it ends with, as it was. */
  lemma StepKeepsBelow(env: Env, rank: seq<nat>, src: nat, k: nat, f: Frame)
    requires Deployable(env, rank) && src < |env.sources| && k < |env.sources[src].ops|
    requires Tracks(env, src, k, f)
    ensures Step(env, rank, src, env.sources[src].ops[k], f).Some?
    ensures var g := Step(env, rank, src, env.sources[src].ops[k], f).value;
            var h := WalkAt(ContextOf(env), env.sources[src], k).readHighwater;
            h <= |f.stack| && h <= |g.stack| && g.stack[..h] == f.stack[..h]
  {
    var e, w := StepEffect(env, rank, src, k, f);
    StepNotStuck(env, rank, src, k, f);
    var g := Step(env, rank, src, env.sources[src].ops[k], f).value;
    assert g.stack[..|f.stack| - e.take] == f.stack[..|f.stack| - e.take];
    assert g.stack[..w.readHighwater] == g.stack[..|f.stack| - e.take][..w.readHighwater];
  }

  /** Every slot below the highwater after `k` ops keeps its value for the rest
      of the run. */
  lemma {:induction false} BelowHighwaterIsImmutable(
      env: Env, rank: seq<nat>, src: nat, k: nat, m: nat, inputs: seq<Word>, kv: map<Word, Word>)
    requires Deployable(env, rank) && src < |env.sources| && k <= m <= |env.sources[src].ops|
    requires |inputs| == env.sources[src].inputs
    ensures Exec(env, rank, src, k, inputs, kv).Some? && Exec(env, rank, src, m, inputs, kv).Some?
    ensures var h := WalkAt(ContextOf(env), env.sources[src], k).readHighwater;
            var s := Exec(env, rank, src, k, inputs, kv).value.stack;
            var t := Exec(env, rank, src, m, inputs, kv).value.stack;
            h <= |s| && h <= |t| && t[..h] == s[..h]
    decreases m - k
  {
    hide Ranked, Accepted, CheckSource, Step, WalkTo, WalkAt, Exec;
    var c, source := ContextOf(env), env.sources[src];
    SourceAccepted(env, rank, src);
    NeverStuck(env, rank, src, k, inputs, kv);
    WalkMonotone(c, source, k, k);
    if k < m {
      BelowHighwaterIsImmutable(env, rank, src, k, m - 1, inputs, kv);
      NeverStuck(env, rank, src, m - 1, inputs, kv);
      WalkMonotone(c, source, k, m - 1);
      ExecStep(env, rank, src, m - 1, inputs, kv);
      var f := Exec(env, rank, src, m - 1, inputs, kv).value;
      StepKeepsBelow(env, rank, src, m - 1, f);
      SamePrefix(Exec(env, rank, src, k, inputs, kv).value.stack, f.stack, Exec(env, rank, src, m, inputs, kv).value.stack,
                 WalkAt(c, source, k).readHighwater, WalkAt(c, source, m - 1).readHighwater);
    }
  }

  lemma SourceAccepted(env: Env, rank: seq<nat>, src: nat)
    requires Deployable(env, rank) && src < |env.sources|
    ensures CheckSource(ContextOf(env), env.sources[src]).Ok? && Ranked(env, rank)
  {}

  lemma ExecStep(env: Env, rank: seq<nat>, src: nat, k: nat, inputs: seq<Word>, kv: map<Word, Word>)
    requires Ranked(env, rank) && src < |env.sources| && k < |env.sources[src].ops|
    requires Exec(env, rank, src, k, inputs, kv).Some?
    ensures CallDescends(env, rank, src, env.sources[src].ops[k])
    ensures Exec(env, rank, src, k + 1, inputs, kv)
         == Step(env, rank, src, env.sources[src].ops[k], Exec(env, rank, src, k, inputs, kv).value)
  {
    hide Step;
  }

  lemma SamePrefix(s: seq<Word>, mid: seq<Word>, t: seq<Word>, h: nat, wider: nat)
    requires h <= wider && h <= |s| && wider <= |mid| && wider <= |t|
    requires mid[..h] == s[..h] && t[..wider] == mid[..wider]
    ensures t[..h] == s[..h]
  {
    assert t[..h] == t[..wider][..h] == mid[..wider][..h] == mid[..h];
  }

  /** Source inputs are immutable: they are the bottom of the final stack. */
  lemma InputsSurvive(env: Env, rank: seq<nat>, src: nat, inputs: seq<Word>, kv: map<Word, Word>)
    requires Deployable(env, rank) && src < |env.sources| && |inputs| == env.sources[src].inputs
    ensures Run(env, rank, src, inputs, kv).Some?
    ensures inputs <= Run(env, rank, src, inputs, kv).value.stack
  {
    BelowHighwaterIsImmutable(env, rank, src, 0, |env.sources[src].ops|, inputs, kv);
  }
}
