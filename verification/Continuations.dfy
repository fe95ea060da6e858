/** Exactly which slots are safe: the ones below the highwater, in the sense that
    no way of going on from an accepted prefix can change them, while every other
    slot is changed by some accepted continuation. */
module Continuations {
  import opened Words
  import opened Bytecode
  import opened Ops
  import opened Integrity
  import opened Semantics
  import opened Soundness
  import opened Highwater
  import opened Layout

  // ----- continuing a prefix -----

  /** `env'` has every op and source of `env`, in the same place. */
  ghost predicate Extends(env: Env, env': Env) {
    && |env.fs| <= |env'.fs| && env'.fs[..|env.fs|] == env.fs
    && |env.sources| <= |env'.sources| && env'.sources[..|env.sources|] == env.sources
    && env'.constants == env.constants && env'.store == env.store
  }

  /** Two sources that start with the same `k` ops from as many inputs. */
  predicate SameStart(a: Source, b: Source, k: nat) {
    k <= |a.ops| && k <= |b.ops| && a.ops[..k] == b.ops[..k] && a.inputs == b.inputs
  }

  /** Source `src'` of `env'` is an accepted way of going on from the first `k` ops
      of source `src` of `env`. */
  ghost predicate Resumes(env: Env, src: nat, k: nat, env': Env, rank': seq<nat>, src': nat)
    requires src < |env.sources|
  {
    && Extends(env, env') && Deployable(env', rank')
    && src' < |env'.sources| && SameStart(env.sources[src], env'.sources[src'], k)
  }

  /** And some bytecode holds the program that does so. */
  ghost predicate Continues(env: Env, src: nat, k: nat, env': Env, rank': seq<nat>, src': nat)
    requires src < |env.sources|
  {
    Resumes(env, src, k, env', rank', src') && Encodable(env'.sources)
  }

  lemma {:induction false} SameWalk(c: Context, c': Context, a: Source, b: Source, k: nat)
    requires |c.fs| <= |c'.fs| && c'.fs[..|c.fs|] == c.fs
    requires |c.sources| <= |c'.sources| && c'.sources[..|c.sources|] == c.sources
    requires c'.constantsLength == c.constantsLength && SameStart(a, b, k)
    requires WalkTo(c, a, k).Ok?
    ensures WalkTo(c', b, k) == WalkTo(c, a, k)
  {
    if k == 0 {
    } else {
      assert a.ops[..k - 1] == a.ops[..k][..k - 1] == b.ops[..k][..k - 1] == b.ops[..k - 1];
      assert a.ops[k - 1] == a.ops[..k][k - 1] == b.ops[k - 1];
      SameWalk(c, c', a, b, k - 1);
      SameCheck(c, c', a.ops[k - 1], WalkTo(c, a, k - 1).value);
    }
  }

  lemma SameCheck(c: Context, c': Context, op: Op, w: Walk)
    requires |c.fs| <= |c'.fs| && c'.fs[..|c.fs|] == c.fs
    requires |c.sources| <= |c'.sources| && c'.sources[..|c.sources|] == c.sources
    requires c'.constantsLength == c.constantsLength && CheckOp(c, op, w).Ok?
    ensures CheckOp(c', op, w) == CheckOp(c, op, w)
  {
    assert c'.fs[op.opcode] == c'.fs[..|c.fs|][op.opcode] == c.fs[op.opcode];
    if Index(op.operand) < |c.sources| {
      assert c'.sources[Index(op.operand)] == c'.sources[..|c.sources|][Index(op.operand)];
    }
  }

  /** A continuation runs its prefix just as the original does. */
  lemma {:induction false} SameRun(
      env: Env, rank: seq<nat>, src: nat, env': Env, rank': seq<nat>, src': nat, k: nat, inputs: seq<Word>, kv: map<Word, Word>)
    requires Deployable(env, rank) && src < |env.sources| && Resumes(env, src, k, env', rank', src')
    requires |inputs| == env.sources[src].inputs
    ensures Exec(env', rank', src', k, inputs, kv) == Exec(env, rank, src, k, inputs, kv)
    decreases rank[src], 1, k
  {
    hide Ranked, Accepted, CheckSource, Step, EffectOf, Extends, WalkTo;
    NeverStuck(env, rank, src, k, inputs, kv);
    NeverStuck(env', rank', src', k, inputs, kv);
    if k == 0 {
    } else {
      var a, b := env.sources[src], env'.sources[src'];
      assert a.ops[..k - 1] == a.ops[..k][..k - 1] == b.ops[..k][..k - 1] == b.ops[..k - 1];
      assert a.ops[k - 1] == a.ops[..k][k - 1] == b.ops[k - 1];
      SameRun(env, rank, src, env', rank', src', k - 1, inputs, kv);
      NeverStuck(env, rank, src, k - 1, inputs, kv);
      NeverStuck(env', rank', src', k - 1, inputs, kv);
      var f := Exec(env, rank, src, k - 1, inputs, kv).value;
      SourceAccepted(env, rank, src);
      SourceAccepted(env', rank', src');
      ExecStep(env, rank, src, k - 1, inputs, kv);
      ExecStep(env', rank', src', k - 1, inputs, kv);
      var e, w := StepEffect(env, rank, src, k - 1, f);
      var e', w' := StepEffect(env', rank', src', k - 1, f);
      SameEffect(env, rank, src, env', rank', src', a.ops[k - 1], f, e, e');
    }
  }

  lemma SameEffect(
      env: Env, rank: seq<nat>, src: nat, env': Env, rank': seq<nat>, src': nat, op: Op, f: Frame, e: Effect, e': Effect)
    requires Deployable(env, rank) && src < |env.sources| && src' < |env'.sources|
    requires Extends(env, env') && Deployable(env', rank')
    requires op.opcode < |env.fs| && CallDescends(env, rank, src, op) && CallDescends(env', rank', src', op)
    requires env.fs[op.opcode].CallSource? ==> CallMatches(env, op.operand)
    requires op.opcode < |env'.fs|
    requires EffectOf(env, rank, src, env.fs[op.opcode], op.operand, f) == Some(e)
    requires EffectOf(env', rank', src', env'.fs[op.opcode], op.operand, f) == Some(e')
    ensures e == e'
    decreases rank[src], 0
  {
    hide Accepted, CheckSource, Exec, Run, Top, Index, OpInputs, OpOutputs;
    assert env'.fs[op.opcode] == env'.fs[..|env.fs|][op.opcode] == env.fs[op.opcode];
    if env.fs[op.opcode].CallSource? {
      var callee := Index(op.operand);
      var args := Top(f.stack, OpInputs(op.operand));
      assert env'.sources[callee] == env'.sources[..|env.sources|][callee] == env.sources[callee];
      SameRun(env, rank, callee, env', rank', callee, |env.sources[callee].ops|, args, f.kv);
      RunIsExec(env, rank, callee, args, f.kv);
      RunIsExec(env', rank', callee, args, f.kv);
    }
  }

  // ----- a continuation that overwrites a slot -----

  /** Takes an item. */
  function DropOp(): OpImpl {
    Other(_ => Some((1, 0)), (_, _) => [])
  }

  /** Takes an item and gives a different one. */
  function FlipOp(): OpImpl {
    Other(_ => Some((1, 1)), (_, xs) => if xs == [0] then [1] else [0])
  }

  /** The first `k` ops of a source whose stack is then at `w`, and after them as
      many drops as bring slot `s` to the top, and a flip. */
  function Overwriting(source: Source, k: nat, w: Walk, s: nat, drop: nat): Source
    requires k <= |source.ops| && s < w.stackIndex <= w.stackMaxIndex <= 0xFF && drop <= 0xFE
  {
    Source(source.ops[..k] + seq(w.stackIndex - s - 1, _ => Op(drop, 0x1_0000)) + [Op(drop + 1, 0x11_0000)],
           w.stackMaxIndex, source.inputs, s + 1)
  }

  /** The environment with both ops and the overwriting source added at the end. */
  function OverwritingEnv(env: Env, source: Source): Env {
    Env(env.fs + [DropOp(), FlipOp()], env.sources + [source], env.constants, env.store)
  }

  lemma OverwritingExtends(env: Env, source: Source)
    ensures Extends(env, OverwritingEnv(env, source))
  {}

  lemma OverwritingOps(source: Source, k: nat, w: Walk, s: nat, drop: nat, i: nat)
    requires k <= |source.ops| && s < w.stackIndex <= w.stackMaxIndex <= 0xFF && drop <= 0xFE
    requires i <= w.stackIndex - s - 1
    ensures var ops, m := Overwriting(source, k, w, s, drop).ops, w.stackIndex - s - 1;
            |ops| == k + m + 1 && ops[..k] == source.ops[..k]
            && ops[k + i] == if i < m then Op(drop, 0x1_0000) else Op(drop + 1, 0x11_0000)
  {}

  lemma WalkPush(c: Context, source: Source, k: nat, w: Walk)
    requires k < |source.ops| && WalkTo(c, source, k) == Ok(w)
    ensures WalkTo(c, source, k + 1) == CheckOp(c, source.ops[k], w)
  {
    hide CheckOp;
  }

  /** How far the overwriting source's walk is after `i` drops. */
  lemma {:induction false} DropsWalk(c: Context, source: Source, k: nat, w: Walk, s: nat, drop: nat, i: nat)
    requires k <= |source.ops| && w.readHighwater <= s < w.stackIndex <= w.stackMaxIndex <= 0xFF && drop <= 0xFE
    requires drop + 1 < |c.fs| && c.fs[drop] == DropOp() && w.opIndex == k
    requires WalkTo(c, Overwriting(source, k, w, s, drop), k) == Ok(w)
    requires i <= w.stackIndex - s - 1
    ensures WalkTo(c, Overwriting(source, k, w, s, drop), k + i)
         == Ok(w.(stackIndex := w.stackIndex - i, opIndex := k + i))
  {
    hide WalkTo, CheckOp, Overwriting;
    if i == 0 {
    } else {
      DropsWalk(c, source, k, w, s, drop, i - 1);
      OverwritingOps(source, k, w, s, drop, i - 1);
      var before := w.(stackIndex := w.stackIndex - (i - 1), opIndex := k + i - 1);
      WalkPush(c, Overwriting(source, k, w, s, drop), k + i - 1, before);
      DropCheck(c, drop, before);
    }
  }

  lemma DropCheck(c: Context, drop: Byte, w: Walk)
    requires drop < |c.fs| && c.fs[drop] == DropOp() && w.readHighwater + 1 <= w.stackIndex <= w.stackMaxIndex
    ensures CheckOp(c, Op(drop, 0x1_0000), w)
         == Ok(w.(stackIndex := w.stackIndex - 1, opIndex := w.opIndex + 1))
  {}

  lemma FlipCheck(c: Context, flip: Byte, w: Walk)
    requires flip < |c.fs| && c.fs[flip] == FlipOp() && w.readHighwater + 1 <= w.stackIndex <= w.stackMaxIndex
    ensures CheckOp(c, Op(flip, 0x11_0000), w) == Ok(w.(opIndex := w.opIndex + 1))
  {}

  /** The overwriting source passes the check. */
  lemma OverwritingAccepted(c: Context, source: Source, k: nat, w: Walk, s: nat, drop: nat)
    requires k <= |source.ops| && w.readHighwater <= s < w.stackIndex <= w.stackMaxIndex <= 0xFF && drop <= 0xFE
    requires drop + 1 < |c.fs| && c.fs[drop] == DropOp() && c.fs[drop + 1] == FlipOp() && w.opIndex == k
    requires WalkTo(c, Overwriting(source, k, w, s, drop), k) == Ok(w)
    ensures CheckSource(c, Overwriting(source, k, w, s, drop)).Ok?
    ensures WalkTo(c, Overwriting(source, k, w, s, drop), k + (w.stackIndex - s - 1)).Ok?
    ensures |Overwriting(source, k, w, s, drop).ops| == k + (w.stackIndex - s - 1) + 1
  {
    hide CheckOp;
    var m := w.stackIndex - s - 1;
    DropsWalk(c, source, k, w, s, drop, m);
    assert Overwriting(source, k, w, s, drop).ops[k + m] == Op(drop + 1, 0x11_0000);
    FlipCheck(c, drop + 1, w.(stackIndex := s + 1, opIndex := k + m));
  }

  /** Adding ops and an accepted, no higher ranked source leaves everything else
      deployable. */
  lemma AddedDeployable(env: Env, rank: seq<nat>, src: nat, source: Source)
    requires Deployable(env, rank) && src < |env.sources|
    requires CheckSource(ContextOf(OverwritingEnv(env, source)), source).Ok?
    requires forall j | 0 <= j < |source.ops| ::
               CallDescends(OverwritingEnv(env, source), rank + [rank[src]], |env.sources|, source.ops[j])
    ensures Deployable(OverwritingEnv(env, source), rank + [rank[src]])
  {
    hide CheckOp, Honest, WalkTo;
    var env', rank', n := OverwritingEnv(env, source), rank + [rank[src]], |env.sources|;
    forall i | 0 <= i < |env'.sources|
      ensures CheckSource(ContextOf(env'), env'.sources[i]).Ok?
      ensures forall j | 0 <= j < |env'.sources[i].ops| :: CallDescends(env', rank', i, env'.sources[i].ops[j])
    {
      if i < n {
        OldSourceAccepted(env, rank, source, rank[src], i);
      }
    }
    AddedHonest(env);
  }

  lemma AddedHonest(env: Env)
    requires forall i | 0 <= i < |env.fs| :: Honest(env.fs[i])
    ensures forall i | 0 <= i < |env.fs| + 2 :: Honest((env.fs + [DropOp(), FlipOp()])[i])
  {}

  lemma OldSourceAccepted(env: Env, rank: seq<nat>, source: Source, r: nat, i: nat)
    requires Deployable(env, rank) && i < |env.sources|
    ensures CheckSource(ContextOf(OverwritingEnv(env, source)), env.sources[i]).Ok?
    ensures forall j | 0 <= j < |env.sources[i].ops| ::
              CallDescends(OverwritingEnv(env, source), rank + [r], i, env.sources[i].ops[j])
  {
    hide Honest;
    var env', old' := OverwritingEnv(env, source), env.sources[i];
    OverwritingExtends(env, source);
    assert old'.ops[..|old'.ops|] == old'.ops;
    SameWalk(ContextOf(env), ContextOf(env'), old', old', |old'.ops|);
    forall j | 0 <= j < |old'.ops|
      ensures CallDescends(env', rank + [r], i, old'.ops[j])
    {
      OldCallDescends(env, rank, source, r, i, i, j);
    }
  }

  /** An op of an accepted source calls only where it could before. */
  lemma OldCallDescends(env: Env, rank: seq<nat>, source: Source, r: nat, i: nat, i': nat, j: nat)
    requires Deployable(env, rank) && i < |env.sources| && j < |env.sources[i].ops|
    requires i' <= |env.sources| && (rank + [r])[i'] == rank[i]
    ensures CallDescends(OverwritingEnv(env, source), rank + [r], i', env.sources[i].ops[j])
  {
    hide Honest, WalkTo;
    var c, op := ContextOf(env), env.sources[i].ops[j];
    WalkStep(c, env.sources[i], j);
    assert CallDescends(env, rank, i, op);
    CheckedOp(c, op, WalkAt(c, env.sources[i], j));
  }

  lemma CheckedOp(c: Context, op: Op, w: Walk)
    requires CheckOp(c, op, w).Ok?
    ensures op.opcode < |c.fs|
    ensures c.fs[op.opcode].CallSource? ==> Index(op.operand) < |c.sources|
  {}

  /** The overwriting source for an accepted prefix. */
  function OverwritingOf(env: Env, src: nat, k: nat, s: nat): Source
    requires src < |env.sources| && k <= |env.sources[src].ops| && |env.fs| <= 0xFE
    requires CheckSource(ContextOf(env), env.sources[src]).Ok?
    requires s < WalkAt(ContextOf(env), env.sources[src], k).stackIndex
  {
    PeakFits(ContextOf(env), env.sources[src], k);
    Overwriting(env.sources[src], k, WalkAt(ContextOf(env), env.sources[src], k), s, |env.fs|)
  }

  lemma PeakFits(c: Context, source: Source, k: nat)
    requires CheckSource(c, source).Ok? && k <= |source.ops|
    ensures WalkAt(c, source, k).stackIndex <= WalkAt(c, source, k).stackMaxIndex <= 0xFF
    ensures WalkAt(c, source, k).opIndex == k && WalkTo(c, source, k) == Ok(WalkAt(c, source, k))
  {
    hide CheckOp;
    WalkDefined(c, source, k);
    WalkCounts(c, source, k);
    WalkMonotone(c, source, k, k);
    WalkMonotone(c, source, k, |source.ops|);
  }

  /** Where an accepted prefix leaves slot `s` at or above the highwater, the
      overwriting source is an accepted continuation, and its drops take nothing
      from slot `s` down. */
  lemma OverwritingResumes(env: Env, rank: seq<nat>, src: nat, k: nat, s: nat)
    requires Deployable(env, rank) && src < |env.sources| && k <= |env.sources[src].ops| && |env.fs| <= 0xFE
    requires CheckSource(ContextOf(env), env.sources[src]).Ok?
    requires WalkAt(ContextOf(env), env.sources[src], k).readHighwater <= s
                < WalkAt(ContextOf(env), env.sources[src], k).stackIndex
    ensures var source := OverwritingOf(env, src, k, s);
            var env', n := OverwritingEnv(env, source), |env.sources|;
            var m := WalkAt(ContextOf(env), env.sources[src], k).stackIndex - s - 1;
            && Resumes(env, src, k, env', rank + [rank[src]], n) && |source.ops| == k + m + 1
            && source.ops[k + m] == Op(|env.fs| + 1, 0x11_0000)
            && CheckSource(ContextOf(env'), source).Ok?
            && WalkAt(ContextOf(env'), source, k).stackIndex == s + 1 + m
            && WalkAt(ContextOf(env'), source, k + m).stackIndex == s + 1
            && forall j | k <= j < k + m :: s < Floor(ContextOf(env'), source, j)
  {
    hide CheckOp, CheckSource, WalkTo, Overwriting, Honest, WalkAt, Ranked, Accepted;
    SourceAccepted(env, rank, src);
    var c, old', drop := ContextOf(env), env.sources[src], |env.fs|;
    var w := WalkAt(c, old', k);
    PeakFits(c, old', k);
    var source, m := OverwritingOf(env, src, k, s), w.stackIndex - s - 1;
    var env', rank', n := OverwritingEnv(env, source), rank + [rank[src]], |env.sources|;
    var c' := ContextOf(env');
    OverwritingShape(old', k, w, s, drop);
    OverwritingOps(old', k, w, s, drop, m);
    OverwritingExtends(env, source);
    SameWalk(c, c', old', source, k);
    OverwritingAccepted(c', old', k, w, s, drop);
    forall j | 0 <= j < |source.ops|
      ensures CallDescends(env', rank', n, source.ops[j])
    {
      if j < k {
        RankOf(rank, rank[src]);
        OldCallDescends(env, rank, source, rank[src], src, n, j);
        assert source.ops[j] == source.ops[..k][j] == old'.ops[..k][j];
      } else {
        OverwritingOps(old', k, w, s, drop, j - k);
      }
    }
    AddedDeployable(env, rank, src, source);
    OverwritingHeight(c', old', k, w, s, drop, 0);
    OverwritingHeight(c', old', k, w, s, drop, m);
    forall j | k <= j < k + m
      ensures s < Floor(c', source, j)
    {
      OverwritingHeight(c', old', k, w, s, drop, j - k);
    }
  }

  lemma OverwritingHeight(c: Context, source: Source, k: nat, w: Walk, s: nat, drop: nat, i: nat)
    requires k <= |source.ops| && w.readHighwater <= s < w.stackIndex <= w.stackMaxIndex <= 0xFF && drop <= 0xFE
    requires drop + 1 < |c.fs| && c.fs[drop] == DropOp() && w.opIndex == k
    requires WalkTo(c, Overwriting(source, k, w, s, drop), k) == Ok(w)
    requires CheckSource(c, Overwriting(source, k, w, s, drop)).Ok?
    requires i <= w.stackIndex - s - 1
    ensures k + i < |Overwriting(source, k, w, s, drop).ops|
    ensures WalkAt(c, Overwriting(source, k, w, s, drop), k + i).stackIndex == w.stackIndex - i
    ensures OpInputs(Overwriting(source, k, w, s, drop).ops[k + i].operand) == 1
  {
    hide CheckOp, CheckSource, WalkTo, WalkAt, Overwriting;
    OverwritingOps(source, k, w, s, drop, i);
    DropsWalk(c, source, k, w, s, drop, i);
    WalkIs(c, Overwriting(source, k, w, s, drop), k + i);
  }

  lemma OverwritingShape(source: Source, k: nat, w: Walk, s: nat, drop: nat)
    requires k <= |source.ops| && s < w.stackIndex <= w.stackMaxIndex <= 0xFF && drop <= 0xFE
    ensures SameStart(source, Overwriting(source, k, w, s, drop), k)
  {
    OverwritingOps(source, k, w, s, drop, 0);
  }

  lemma RankOf(rank: seq<nat>, r: nat)
    ensures (rank + [r])[|rank|] == r
  {}

  lemma WalkIs(c: Context, source: Source, k: nat)
    requires CheckSource(c, source).Ok? && k <= |source.ops|
    ensures WalkTo(c, source, k) == Ok(WalkAt(c, source, k))
  {
    WalkDefined(c, source, k);
  }

  /** The flip leaves a different value where it found one. */
  lemma FlipChanges(env: Env, rank: seq<nat>, src: nat, k: nat, s: nat, inputs: seq<Word>, kv: map<Word, Word>)
    requires Deployable(env, rank) && src < |env.sources| && k < |env.sources[src].ops|
    requires |inputs| == env.sources[src].inputs
    requires CheckSource(ContextOf(env), env.sources[src]).Ok?
    requires WalkAt(ContextOf(env), env.sources[src], k).stackIndex == s + 1
    requires var op := env.sources[src].ops[k];
             op.operand == 0x11_0000 && op.opcode < |env.fs| && env.fs[op.opcode] == FlipOp()
    ensures Exec(env, rank, src, k, inputs, kv).Some? && Exec(env, rank, src, k + 1, inputs, kv).Some?
    ensures var before := Exec(env, rank, src, k, inputs, kv).value.stack;
            var after := Exec(env, rank, src, k + 1, inputs, kv).value.stack;
            |before| == |after| == s + 1 && after[s] != before[s]
  {
    hide Ranked, Accepted, CheckSource, WalkTo, WalkAt, Exec, EffectOf, Honest;
    SourceAccepted(env, rank, src);
    NeverStuck(env, rank, src, k, inputs, kv);
    NeverStuck(env, rank, src, k + 1, inputs, kv);
    ExecStep(env, rank, src, k, inputs, kv);
    var f := Exec(env, rank, src, k, inputs, kv).value;
    var e, w := StepEffect(env, rank, src, k, f);
    FlipEffect(env, rank, src, f, e);
  }

  lemma FlipEffect(env: Env, rank: seq<nat>, src: nat, f: Frame, e: Effect)
    requires Ranked(env, rank) && src < |env.sources| && |f.stack| >= 1
    requires EffectOf(env, rank, src, FlipOp(), 0x11_0000, f) == Some(e)
    ensures e.take == 1 && |e.give| == 1 && e.give[0] != f.stack[|f.stack| - 1]
  {
    assert Top(f.stack, 1) == [f.stack[|f.stack| - 1]];
  }

  lemma RankedLength(env: Env, rank: seq<nat>)
    requires Ranked(env, rank)
    ensures |rank| == |env.sources|
  {}

  /** The bytecode of `env` has room for one more source at the end, of `k` ops, one
      for every slot above `s` at the given height and one for `s`, and the op table
      has room for two more ops. */
  predicate HasRoom(env: Env, k: nat, height: nat, s: nat) {
    && Encodable(env.sources) && |env.sources| < 0xFF && |env.fs| <= 0xFE
    && Offset(env.sources, |env.sources|) < 0x1_0000
    && s < height && k + (height - s) <= 0xFF
  }

  lemma {:induction false} OffsetKept(sources: seq<Source>, more: seq<Source>, n: nat)
    requires n <= |sources|
    ensures Offset(sources + more, n) == Offset(sources, n)
  {
    if n == 0 {
    } else {
      OffsetKept(sources, more, n - 1);
    }
  }

  lemma OverwritingFits(source: Source, k: nat, w: Walk, s: nat, drop: nat)
    requires k <= |source.ops| && s < w.stackIndex <= w.stackMaxIndex <= 0xFF && drop <= 0xFE
    requires Fits(source) && k + (w.stackIndex - s) <= 0xFF
    ensures Fits(Overwriting(source, k, w, s, drop))
  {
    hide Overwriting;
    var ops := Overwriting(source, k, w, s, drop).ops;
    OverwritingOps(source, k, w, s, drop, 0);
    forall j | 0 <= j < |ops|
      ensures ops[j].operand < 0x100_0000
    {
      if j < k {
        assert ops[j] == ops[..k][j] == source.ops[..k][j];
      } else {
        OverwritingOps(source, k, w, s, drop, j - k);
      }
    }
  }

  lemma AddedEncodable(sources: seq<Source>, source: Source)
    requires Encodable(sources) && |sources| < 0xFF && Offset(sources, |sources|) < 0x1_0000 && Fits(source)
    ensures Encodable(sources + [source])
  {
    hide Offset, Fits;
    forall i | 0 <= i < |sources + [source]|
      ensures Offset(sources + [source], i) < 0x1_0000
    {
      OffsetKept(sources, [source], i);
    }
  }

  /** Every slot at or above the highwater is changed by some accepted continuation,
      if bytecode has room for it. */
  lemma OverwrittenSomewhere(
      env: Env, rank: seq<nat>, src: nat, k: nat, s: nat, inputs: seq<Word>, kv: map<Word, Word>)
    returns (env': Env, rank': seq<nat>, src': nat, m: nat)
    requires Deployable(env, rank) && src < |env.sources| && k <= |env.sources[src].ops|
    requires |inputs| == env.sources[src].inputs
    requires CheckSource(ContextOf(env), env.sources[src]).Ok?
    requires WalkAt(ContextOf(env), env.sources[src], k).readHighwater <= s
    requires HasRoom(env, k, WalkAt(ContextOf(env), env.sources[src], k).stackIndex, s)
    ensures Continues(env, src, k, env', rank', src') && k <= m <= |env'.sources[src'].ops|
    ensures Ranked(env', rank') && !Keeps(env', rank', src', k, m, s, inputs, kv)
  {
    hide Ranked, Accepted, CheckSource, WalkTo, WalkAt, Exec, Honest, OverwritingOf, Floor, CheckOp, Fits, Offset;
    SourceAccepted(env, rank, src);
    RankedLength(env, rank);
    OverwritingResumes(env, rank, src, k, s);
    var source := OverwritingOf(env, src, k, s);
    env', rank', src' := OverwritingEnv(env, source), rank + [rank[src]], |env.sources|;
    m := |source.ops|;
    OverwritingOfFits(env, src, k, s);
    AddedEncodable(env.sources, source);
    UnconsumedSlotSurvives(env', rank', src', k, m - 1, s, inputs, kv);
    FlipChanges(env', rank', src', m - 1, s, inputs, kv);
    SourceAccepted(env', rank', src');
  }

  lemma OverwritingOfFits(env: Env, src: nat, k: nat, s: nat)
    requires src < |env.sources| && k <= |env.sources[src].ops|
    requires CheckSource(ContextOf(env), env.sources[src]).Ok?
    requires HasRoom(env, k, WalkAt(ContextOf(env), env.sources[src], k).stackIndex, s)
    ensures Fits(OverwritingOf(env, src, k, s))
  {
    hide CheckSource, WalkTo, WalkAt, Overwriting, Fits;
    PeakFits(ContextOf(env), env.sources[src], k);
    OverwritingFits(env.sources[src], k, WalkAt(ContextOf(env), env.sources[src], k), s, |env.fs|);
  }

  /** Slot `s` keeps the value it has after `k` ops, however an accepted program goes
      on from there. */
  ghost predicate SafeAfter(env: Env, src: nat, k: nat, s: nat, inputs: seq<Word>, kv: map<Word, Word>)
    requires src < |env.sources|
  {
    forall env': Env, rank': seq<nat>, src': nat, m: nat ::
      Continues(env, src, k, env', rank', src') && k <= m <= |env'.sources[src'].ops| ==>
        Keeps(env', rank', src', k, m, s, inputs, kv)
  }

  /** The highwater is exact. After `k` ops of accepted bytecode, a slot below the
      highwater keeps its value throughout every accepted continuation; and where the
      bytecode has room to go on, no other slot does. */
  lemma SafeIffBelowHighwater(env: Env, rank: seq<nat>, src: nat, k: nat, s: nat, inputs: seq<Word>, kv: map<Word, Word>)
    requires Deployable(env, rank) && src < |env.sources| && k <= |env.sources[src].ops|
    requires |inputs| == env.sources[src].inputs
    requires s < WalkAt(ContextOf(env), env.sources[src], k).stackIndex
    ensures s < WalkAt(ContextOf(env), env.sources[src], k).readHighwater ==> SafeAfter(env, src, k, s, inputs, kv)
    ensures HasRoom(env, k, WalkAt(ContextOf(env), env.sources[src], k).stackIndex, s) ==>
              (SafeAfter(env, src, k, s, inputs, kv) <==>
               s < WalkAt(ContextOf(env), env.sources[src], k).readHighwater)
  {
    hide Ranked, Accepted, CheckSource, WalkTo, WalkAt, Keeps, Honest, CheckOp, HasRoom, Extends;
    SourceAccepted(env, rank, src);
    if s < WalkAt(ContextOf(env), env.sources[src], k).readHighwater {
      forall env': Env, rank': seq<nat>, src': nat, m: nat |
        Continues(env, src, k, env', rank', src') && k <= m <= |env'.sources[src'].ops|
        ensures Ranked(env', rank') && Keeps(env', rank', src', k, m, s, inputs, kv)
      {
        KeptBelow(env, rank, src, k, s, env', rank', src', m, inputs, kv);
      }
    } else if HasRoom(env, k, WalkAt(ContextOf(env), env.sources[src], k).stackIndex, s) {
      var env', rank', src', m := OverwrittenSomewhere(env, rank, src, k, s, inputs, kv);
    }
  }

  /** Without room there may be nothing left to change a slot: after the 255th op
      every slot is safe. */
  lemma FullSourceIsSafe(env: Env, rank: seq<nat>, src: nat, s: nat, inputs: seq<Word>, kv: map<Word, Word>)
    requires Deployable(env, rank) && src < |env.sources| && |env.sources[src].ops| == 0xFF
    requires |inputs| == env.sources[src].inputs
    requires s < WalkAt(ContextOf(env), env.sources[src], 0xFF).stackIndex
    ensures SafeAfter(env, src, 0xFF, s, inputs, kv)
  {
    hide Ranked, Accepted, CheckSource, WalkTo, WalkAt, Exec, Honest, CheckOp;
    SourceAccepted(env, rank, src);
    forall env': Env, rank': seq<nat>, src': nat, m: nat |
      Continues(env, src, 0xFF, env', rank', src') && 0xFF <= m <= |env'.sources[src'].ops|
      ensures Ranked(env', rank') && Keeps(env', rank', src', 0xFF, m, s, inputs, kv)
    {
      assert Fits(env'.sources[src']);
      SourceAccepted(env', rank', src');
      WalkIs(ContextOf(env), env.sources[src], 0xFF);
      SameWalk(ContextOf(env), ContextOf(env'), env.sources[src], env'.sources[src'], 0xFF);
      WalkIs(ContextOf(env'), env'.sources[src'], 0xFF);
      NeverStuck(env', rank', src', 0xFF, inputs, kv);
    }
  }

  lemma KeptBelow(
      env: Env, rank: seq<nat>, src: nat, k: nat, s: nat, env': Env, rank': seq<nat>, src': nat, m: nat,
      inputs: seq<Word>, kv: map<Word, Word>)
    requires Deployable(env, rank) && src < |env.sources| && k <= |env.sources[src].ops|
    requires |inputs| == env.sources[src].inputs
    requires CheckSource(ContextOf(env), env.sources[src]).Ok?
    requires s < WalkAt(ContextOf(env), env.sources[src], k).readHighwater
    requires Continues(env, src, k, env', rank', src') && k <= m <= |env'.sources[src'].ops|
    ensures Ranked(env', rank') && Keeps(env', rank', src', k, m, s, inputs, kv)
  {
    hide Ranked, Accepted, CheckSource, WalkTo, WalkAt, Exec, Honest, CheckOp;
    SourceAccepted(env', rank', src');
    WalkIs(ContextOf(env), env.sources[src], k);
    SameWalk(ContextOf(env), ContextOf(env'), env.sources[src], env'.sources[src'], k);
    WalkIs(ContextOf(env'), env'.sources[src'], k);
    BelowHighwaterIsImmutable(env', rank', src', k, m, inputs, kv);
    var h := WalkAt(ContextOf(env'), env'.sources[src'], k).readHighwater;
    var a := Exec(env', rank', src', k, inputs, kv).value.stack;
    var b := Exec(env', rank', src', m, inputs, kv).value.stack;
    assert a[..h][s] == a[s] && b[..h][s] == b[s];
  }

  /** In particular, a slot that has just been read is safe exactly if it was
      already below the highwater: a read protects what is under the slot only. */
  lemma ReadSlotSafeIff(env: Env, rank: seq<nat>, src: nat, k: nat, inputs: seq<Word>, kv: map<Word, Word>)
    requires Deployable(env, rank) && src < |env.sources| && k < |env.sources[src].ops|
    requires |inputs| == env.sources[src].inputs
    requires var op := env.sources[src].ops[k]; op.opcode < |env.fs| && env.fs[op.opcode].StackRead?
    ensures var s, before := Index(env.sources[src].ops[k].operand), WalkAt(ContextOf(env), env.sources[src], k);
            && (s < before.readHighwater ==> SafeAfter(env, src, k + 1, s, inputs, kv))
            && (HasRoom(env, k + 1, before.stackIndex + 1, s) ==>
                  (SafeAfter(env, src, k + 1, s, inputs, kv) <==> s < before.readHighwater))
  {
    hide Ranked, Accepted, CheckSource, WalkTo, WalkAt, SafeAfter, Honest, Index, HasRoom;
    SourceAccepted(env, rank, src);
    ReadMoves(ContextOf(env), env.sources[src], k);
    SafeIffBelowHighwater(env, rank, src, k + 1, Index(env.sources[src].ops[k].operand), inputs, kv);
  }

  lemma ReadMoves(c: Context, source: Source, k: nat)
    requires CheckSource(c, source).Ok? && k < |source.ops|
    requires source.ops[k].opcode < |c.fs| && c.fs[source.ops[k].opcode].StackRead?
    ensures var w, w', read := WalkAt(c, source, k), WalkAt(c, source, k + 1), Index(source.ops[k].operand);
            && w'.readHighwater == (if read > w.readHighwater then read else w.readHighwater)
            && read < w'.stackIndex == w.stackIndex + 1
  {
    WalkStep(c, source, k);
  }
}
