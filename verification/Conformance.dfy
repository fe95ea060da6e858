/** What the integrity check decides, said without it: a program is accepted
    exactly when every run of every source keeps to what its bytecode declares. */
module Conformance {
  import opened Words
  import opened Bytecode
  import opened Ops
  import opened Integrity
  import opened Semantics
  import opened Soundness
  import opened Highwater

  // ----- runs, with no reference to the check -----

  /** The stack height after `k` ops of a run that has not got stuck. */
  ghost function Height(env: Env, rank: seq<nat>, src: nat, k: nat, inputs: seq<Word>, kv: map<Word, Word>): nat
    requires Ranked(env, rank) && src < |env.sources| && k <= |env.sources[src].ops|
    requires Exec(env, rank, src, k, inputs, kv).Some?
  {
    |Exec(env, rank, src, k, inputs, kv).value.stack|
  }

  /** No op gets stuck: not on its operand, its stack, a call, or for want of room. */
  ghost predicate Completes(env: Env, rank: seq<nat>, src: nat, inputs: seq<Word>, kv: map<Word, Word>)
    requires Ranked(env, rank) && src < |env.sources|
  {
    forall k | 0 <= k <= |env.sources[src].ops| :: Exec(env, rank, src, k, inputs, kv).Some?
  }

  predicate IsRead(env: Env, op: Op) {
    op.opcode < |env.fs| && env.fs[op.opcode].StackRead?
  }

  /** Op `k` takes and gives as many items as its bytes say. */
  ghost predicate KeepsCounts(env: Env, rank: seq<nat>, src: nat, k: nat, inputs: seq<Word>, kv: map<Word, Word>)
    requires Ranked(env, rank) && src < |env.sources| && k < |env.sources[src].ops|
  {
    var f, op := Exec(env, rank, src, k, inputs, kv), env.sources[src].ops[k];
    && f.Some? && op.opcode < |env.fs| && CallDescends(env, rank, src, op)
    && var e := EffectOf(env, rank, src, env.fs[op.opcode], op.operand, f.value);
       e.Some? && e.value.take == OpInputs(op.operand) && |e.value.give| == OpOutputs(op.operand)
  }

  /** Op `k` takes no input of the source, nothing under a slot that was read, and
      nothing of the stack that a group of outputs completed. */
  ghost predicate SparesProtected(env: Env, rank: seq<nat>, src: nat, k: nat, inputs: seq<Word>, kv: map<Word, Word>)
    requires Ranked(env, rank) && src < |env.sources| && k < |env.sources[src].ops|
    requires Completes(env, rank, src, inputs, kv)
  {
    var ops := env.sources[src].ops;
    var floor := Height(env, rank, src, k, inputs, kv) - OpInputs(ops[k].operand);
    && |inputs| <= floor
    && (forall j | 0 <= j < k && IsRead(env, ops[j]) :: Index(ops[j].operand) <= floor)
    && (forall j | 0 <= j < k && OpOutputs(ops[j].operand) > 1 :: Height(env, rank, src, j + 1, inputs, kv) <= floor)
  }

  /** The run keeps to the header and to every op's declared counts. */
  ghost predicate Conforms(env: Env, rank: seq<nat>, src: nat, inputs: seq<Word>, kv: map<Word, Word>)
    requires Ranked(env, rank) && src < |env.sources|
  {
    var source := env.sources[src];
    && Completes(env, rank, src, inputs, kv)
    && (forall k | 0 <= k < |source.ops| ::
          KeepsCounts(env, rank, src, k, inputs, kv) && SparesProtected(env, rank, src, k, inputs, kv))
    && (exists k | 0 <= k <= |source.ops| :: Height(env, rank, src, k, inputs, kv) == source.allocation)
    && Height(env, rank, src, |source.ops|, inputs, kv) == source.outputs
  }

  ghost predicate AllConform(env: Env, rank: seq<nat>)
    requires Ranked(env, rank)
  {
    forall src, inputs: seq<Word>, kv: map<Word, Word> |
      0 <= src < |env.sources| && |inputs| == env.sources[src].inputs :: Conforms(env, rank, src, inputs, kv)
  }

  // ----- accepted programs conform -----

  lemma AcceptedConforms(env: Env, rank: seq<nat>, src: nat, inputs: seq<Word>, kv: map<Word, Word>)
    requires Deployable(env, rank) && src < |env.sources| && |inputs| == env.sources[src].inputs
    ensures Conforms(env, rank, src, inputs, kv)
  {
    hide Ranked, Accepted, CheckSource, WalkTo, WalkAt, Exec, EffectOf, Honest, KeepsCounts, SparesProtected;
    var c, source := ContextOf(env), env.sources[src];
    SourceAccepted(env, rank, src);
    AllocationIsPeak(c, source);
    forall k | 0 <= k <= |source.ops|
      ensures Exec(env, rank, src, k, inputs, kv).Some?
      ensures Height(env, rank, src, k, inputs, kv) == WalkAt(c, source, k).stackIndex
    {
      NeverStuck(env, rank, src, k, inputs, kv);
    }
    forall k | 0 <= k < |source.ops|
      ensures KeepsCounts(env, rank, src, k, inputs, kv) && SparesProtected(env, rank, src, k, inputs, kv)
    {
      AcceptedOpConforms(env, rank, src, k, inputs, kv);
    }
    var k :| 0 <= k <= |source.ops| && WalkAt(c, source, k).stackIndex == source.allocation;
    assert Height(env, rank, src, k, inputs, kv) == source.allocation;
  }

  lemma AcceptedOpConforms(env: Env, rank: seq<nat>, src: nat, k: nat, inputs: seq<Word>, kv: map<Word, Word>)
    requires Deployable(env, rank) && src < |env.sources| && |inputs| == env.sources[src].inputs
    requires k < |env.sources[src].ops| && Completes(env, rank, src, inputs, kv)
    ensures KeepsCounts(env, rank, src, k, inputs, kv) && SparesProtected(env, rank, src, k, inputs, kv)
  {
    hide Ranked, Accepted, CheckSource, WalkTo, WalkAt, Exec, EffectOf, Honest;
    var c, source := ContextOf(env), env.sources[src];
    SourceAccepted(env, rank, src);
    NeverStuck(env, rank, src, k, inputs, kv);
    var e, w := StepEffect(env, rank, src, k, Exec(env, rank, src, k, inputs, kv).value);
    StartsProtected(c, source, k);
    forall j | 0 <= j < k && IsRead(env, source.ops[j])
      ensures Index(source.ops[j].operand) <= w.readHighwater
    {
      ReadRaises(c, source, j);
      WalkMonotone(c, source, j + 1, k);
    }
    forall j | 0 <= j < k && OpOutputs(source.ops[j].operand) > 1
      ensures Height(env, rank, src, j + 1, inputs, kv) <= w.readHighwater
    {
      GroupRaises(c, source, j);
      WalkMonotone(c, source, j + 1, k);
      NeverStuck(env, rank, src, j + 1, inputs, kv);
    }
  }

  lemma StartsProtected(c: Context, source: Source, k: nat)
    requires CheckSource(c, source).Ok? && k <= |source.ops|
    ensures source.inputs <= WalkAt(c, source, k).readHighwater
  {
    hide CheckOp;
    WalkMonotone(c, source, 0, k);
    assert WalkAt(c, source, 0) == NewState(source.inputs);
  }

  // ----- conforming programs are accepted -----

  /** The walk has computed what the run did so far: its height, its peak, and a
      highwater that is one of the slots protected so far. */
  ghost predicate Mirrors(env: Env, rank: seq<nat>, src: nat, k: nat, inputs: seq<Word>, kv: map<Word, Word>, w: Walk)
    requires Ranked(env, rank) && src < |env.sources| && k <= |env.sources[src].ops|
    requires Completes(env, rank, src, inputs, kv)
  {
    var ops := env.sources[src].ops;
    && w.stackIndex == Height(env, rank, src, k, inputs, kv)
    && (forall j | 0 <= j <= k :: Height(env, rank, src, j, inputs, kv) <= w.stackMaxIndex)
    && (exists j | 0 <= j <= k :: Height(env, rank, src, j, inputs, kv) == w.stackMaxIndex)
    && (|| w.readHighwater == |inputs|
        || (exists j | 0 <= j < k :: IsRead(env, ops[j]) && Index(ops[j].operand) == w.readHighwater)
        || (exists j | 0 <= j < k :: OpOutputs(ops[j].operand) > 1
                                     && Height(env, rank, src, j + 1, inputs, kv) == w.readHighwater))
  }

  lemma {:induction false} RunFits(env: Env, rank: seq<nat>, src: nat, k: nat, inputs: seq<Word>, kv: map<Word, Word>)
    requires Ranked(env, rank) && src < |env.sources| && k <= |env.sources[src].ops|
    requires Exec(env, rank, src, k, inputs, kv).Some?
    ensures |inputs| == env.sources[src].inputs
    ensures Height(env, rank, src, k, inputs, kv) <= env.sources[src].allocation
  {
    hide Ranked, EffectOf;
    if k == 0 {
    } else {
      RunFits(env, rank, src, k - 1, inputs, kv);
    }
  }

  /** A call that a run completes brings its callee's inputs and asks for no more
      than its callee's outputs. */
  lemma CompletedCallMatches(env: Env, rank: seq<nat>, src: nat, operand: nat, f: Frame)
    requires Ranked(env, rank) && AllConform(env, rank) && src < |env.sources|
    requires Index(operand) < |rank| ==> rank[Index(operand)] < rank[src]
    requires EffectOf(env, rank, src, CallSource, operand, f).Some?
    ensures CallMatches(env, operand)
  {
    hide Ranked, Completes, KeepsCounts, SparesProtected;
    var callee, args := Index(operand), Top(f.stack, OpInputs(operand));
    RunFits(env, rank, callee, |env.sources[callee].ops|, args, f.kv);
    assert Conforms(env, rank, callee, args, f.kv);
  }

  /** The highwater after an op's own integrity function has run. */
  function Raised(env: Env, op: Op, w: Walk): nat {
    if IsRead(env, op) && Index(op.operand) > w.readHighwater then Index(op.operand) else w.readHighwater
  }

  /** An op that a conforming run performs is one its integrity function admits,
      with the counts its bytes declare. */
  lemma OpAdmitted(env: Env, rank: seq<nat>, src: nat, op: Op, f: Frame, e: Effect, w: Walk)
    requires Ranked(env, rank) && AllConform(env, rank) && src < |env.sources|
    requires op.opcode < |env.fs| && CallDescends(env, rank, src, op) && w.stackIndex == |f.stack|
    requires EffectOf(env, rank, src, env.fs[op.opcode], op.operand, f) == Some(e)
    requires e.take == OpInputs(op.operand) && |e.give| == OpOutputs(op.operand)
    ensures Declares(ContextOf(env), env.fs[op.opcode], op.operand, w)
         == Ok(Declared(OpInputs(op.operand), OpOutputs(op.operand), Raised(env, op, w)))
  {
    hide AllConform, Run, Index, OpInputs, OpOutputs, Top;
    if env.fs[op.opcode].CallSource? {
      CompletedCallMatches(env, rank, src, op.operand, f);
    }
  }

  /** Sparing what is protected keeps a run at or above a mirrored highwater. */
  lemma MirrorAllows(env: Env, rank: seq<nat>, src: nat, k: nat, inputs: seq<Word>, kv: map<Word, Word>, w: Walk)
    requires Ranked(env, rank) && src < |env.sources| && k < |env.sources[src].ops|
    requires Completes(env, rank, src, inputs, kv)
    requires Mirrors(env, rank, src, k, inputs, kv, w) && SparesProtected(env, rank, src, k, inputs, kv)
    ensures w.stackIndex == Height(env, rank, src, k, inputs, kv)
    ensures w.readHighwater <= w.stackIndex - OpInputs(env.sources[src].ops[k].operand)
  {
    hide Ranked, Exec, Height, Index, OpInputs, OpOutputs;
  }

  lemma ReadTakesNothing(env: Env, rank: seq<nat>, src: nat, op: Op, f: Frame, e: Effect)
    requires Ranked(env, rank) && src < |env.sources| && op.opcode < |env.fs| && CallDescends(env, rank, src, op)
    requires EffectOf(env, rank, src, env.fs[op.opcode], op.operand, f) == Some(e)
    ensures IsRead(env, op) ==> e.take == 0 && Index(op.operand) < |f.stack|
  {
    hide Run, Index, OpInputs, OpOutputs, Top;
  }

  lemma MirrorsNext(
      env: Env, rank: seq<nat>, src: nat, k: nat, inputs: seq<Word>, kv: map<Word, Word>, w: Walk, w': Walk)
    requires Ranked(env, rank) && src < |env.sources| && k < |env.sources[src].ops|
    requires Completes(env, rank, src, inputs, kv) && Mirrors(env, rank, src, k, inputs, kv, w)
    requires var op, height := env.sources[src].ops[k], Height(env, rank, src, k + 1, inputs, kv);
             && w'.stackIndex == height
             && w'.stackMaxIndex == (if height > w.stackMaxIndex then height else w.stackMaxIndex)
             && w'.readHighwater == if OpOutputs(op.operand) > 1 then height else Raised(env, op, w)
    ensures Mirrors(env, rank, src, k + 1, inputs, kv, w')
  {
    hide Ranked, Exec, Height, Index, OpInputs, OpOutputs;
    var height := Height(env, rank, src, k + 1, inputs, kv);
    if height > w.stackMaxIndex {
      assert Height(env, rank, src, k + 1, inputs, kv) == w'.stackMaxIndex;
    } else {
      var j :| 0 <= j <= k && Height(env, rank, src, j, inputs, kv) == w.stackMaxIndex;
      assert Height(env, rank, src, j, inputs, kv) == w'.stackMaxIndex;
    }
  }

  /** The walk admits the next op of a conforming run, and mirrors the run after it. */
  lemma WalkAdmits(
      env: Env, rank: seq<nat>, src: nat, k: nat, inputs: seq<Word>, kv: map<Word, Word>, w: Walk) returns (w': Walk)
    requires Ranked(env, rank) && AllConform(env, rank) && src < |env.sources|
    requires Conforms(env, rank, src, inputs, kv) && k < |env.sources[src].ops|
    requires Mirrors(env, rank, src, k, inputs, kv, w)
    ensures CheckOp(ContextOf(env), env.sources[src].ops[k], w) == Ok(w')
    ensures Mirrors(env, rank, src, k + 1, inputs, kv, w')
  {
    hide Ranked, AllConform, Exec, Run, EffectOf, Index, OpInputs, OpOutputs, Declares, Mirrors;
    var c, op := ContextOf(env), env.sources[src].ops[k];
    var f := Exec(env, rank, src, k, inputs, kv).value;
    assert KeepsCounts(env, rank, src, k, inputs, kv) && SparesProtected(env, rank, src, k, inputs, kv);
    var e := EffectOf(env, rank, src, env.fs[op.opcode], op.operand, f).value;
    MirrorAllows(env, rank, src, k, inputs, kv, w);
    ExecStep(env, rank, src, k, inputs, kv);
    assert Exec(env, rank, src, k + 1, inputs, kv).Some?;
    OpAdmitted(env, rank, src, op, f, e, w);
    var height := Height(env, rank, src, k + 1, inputs, kv);
    ReadTakesNothing(env, rank, src, op, f, e);
    w' := Walk(height, if height > w.stackMaxIndex then height else w.stackMaxIndex,
               if OpOutputs(op.operand) > 1 then height else Raised(env, op, w), w.opIndex + 1);
    MirrorsNext(env, rank, src, k, inputs, kv, w, w');
  }

  lemma {:induction false} WalkMirrors(
      env: Env, rank: seq<nat>, src: nat, k: nat, inputs: seq<Word>, kv: map<Word, Word>)
    requires Ranked(env, rank) && AllConform(env, rank) && src < |env.sources|
    requires Conforms(env, rank, src, inputs, kv) && k <= |env.sources[src].ops|
    ensures WalkTo(ContextOf(env), env.sources[src], k).Ok?
    ensures Mirrors(env, rank, src, k, inputs, kv, WalkTo(ContextOf(env), env.sources[src], k).value)
  {
    hide Ranked, AllConform, CheckOp, KeepsCounts, SparesProtected;
    if k == 0 {
      assert Height(env, rank, src, 0, inputs, kv) == |inputs|;
      RunFits(env, rank, src, 0, inputs, kv);
    } else {
      hide Mirrors, Conforms, Completes;
      WalkMirrors(env, rank, src, k - 1, inputs, kv);
      var w := WalkTo(ContextOf(env), env.sources[src], k - 1).value;
      var w' := WalkAdmits(env, rank, src, k - 1, inputs, kv, w);
    }
  }

  lemma ConformsAccepted(env: Env, rank: seq<nat>, src: nat)
    requires Ranked(env, rank) && AllConform(env, rank) && src < |env.sources|
    ensures CheckSource(ContextOf(env), env.sources[src]).Ok?
  {
    hide Ranked, WalkTo, KeepsCounts, SparesProtected;
    var source := env.sources[src];
    var inputs: seq<Word>, kv: map<Word, Word> := seq<Word>(source.inputs, _ => 0), map[];
    assert Conforms(env, rank, src, inputs, kv);
    WalkMirrors(env, rank, src, |source.ops|, inputs, kv);
    var w := WalkTo(ContextOf(env), source, |source.ops|).value;
    var j :| 0 <= j <= |source.ops| && Height(env, rank, src, j, inputs, kv) == w.stackMaxIndex;
    RunFits(env, rank, src, j, inputs, kv);
  }

  /** The check is exact. Over an acyclic program whose ops are honest, it accepts
      every source if and only if every run, of any source from any inputs of the
      declared number, completes within its allocation and reaches it, takes and
      gives what its bytes declare, takes no input, nothing under a slot that was
      read and nothing of a completed group, and ends with the declared outputs. */
  lemma AcceptedIffAllConform(env: Env, rank: seq<nat>)
    requires Ranked(env, rank) && forall i | 0 <= i < |env.fs| :: Honest(env.fs[i])
    ensures Accepted(ContextOf(env)) <==> AllConform(env, rank)
  {
    hide Ranked, Conforms, CheckSource, Honest;
    if Accepted(ContextOf(env)) {
      forall src, inputs: seq<Word>, kv: map<Word, Word> |
        0 <= src < |env.sources| && |inputs| == env.sources[src].inputs
        ensures Conforms(env, rank, src, inputs, kv)
      {
        AcceptedConforms(env, rank, src, inputs, kv);
      }
    }
    if AllConform(env, rank) {
      forall src | 0 <= src < |env.sources|
        ensures CheckSource(ContextOf(env), env.sources[src]).Ok?
      {
        ConformsAccepted(env, rank, src);
      }
    }
  }
}
