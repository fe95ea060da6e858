/** The reference machine: every pop, read, push and call is checked, and a
    failed check leaves the run stuck. A call runs its callee on a stack of its
    own. Accepted bytecode is later shown never to get stuck, and the unchecked
    interpreter to compute exactly what this machine computes. */
module Semantics {
  import opened Words
  import opened Bytecode
  import opened Ops
  import opened Integrity

  /** One finished source evaluation: its final stack, bottom first, and the
      evaluations it called, oldest first. */
  datatype CallTree = Node(source: nat, stack: seq<Word>, children: seq<CallTree>)

  /** The running state of one source: its stack, bottom first, the in-memory
      key/value cache, and the calls made so far. */
  datatype Frame = Frame(stack: seq<Word>, kv: map<Word, Word>, calls: seq<CallTree>)

  datatype Env = Env(fs: seq<OpImpl>, sources: seq<Source>, constants: seq<Word>, store: Word -> Word)

  function ContextOf(env: Env): Context {
    Context(env.fs, env.sources, |env.constants|)
  }

  // ----- acyclic call graphs -----

  ghost predicate CallDescends(env: Env, rank: seq<nat>, src: nat, op: Op)
    requires src < |rank|
  {
    op.opcode < |env.fs| && env.fs[op.opcode].CallSource? && Index(op.operand) < |rank| ==>
      rank[Index(op.operand)] < rank[src]
  }

  /** `rank` witnesses that no source reaches itself through calls. */
  ghost predicate Ranked(env: Env, rank: seq<nat>) {
    && |rank| == |env.sources|
    && forall i, k | 0 <= i < |env.sources| && 0 <= k < |env.sources[i].ops| ::
         CallDescends(env, rank, i, env.sources[i].ops[k])
  }

  // ----- steps -----

  /** The `n` items on top of the stack, topmost first. */
  function Top(stack: seq<Word>, n: nat): (r: seq<Word>)
    requires n <= |stack|
    ensures |r| == n && forall j | 0 <= j < n :: r[j] == stack[|stack| - 1 - j]
  {
    Reverse(stack[|stack| - n..])
  }

  function Lookup(env: Env, kv: map<Word, Word>, key: Word): Word {
    if key in kv then kv[key] else env.store(key)
  }

  /** What one op does: how many items it takes off the stack, what it puts
      there instead, bottom first, and the cache and calls it leaves. */
  datatype Effect = Effect(take: nat, give: seq<Word>, kv: map<Word, Word>, calls: seq<CallTree>)

  ghost function EffectOf(env: Env, rank: seq<nat>, src: nat, impl: OpImpl, operand: nat, f: Frame): Option<Effect>
    requires Ranked(env, rank) && src < |env.sources|
    requires impl.CallSource? && Index(operand) < |rank| ==> rank[Index(operand)] < rank[src]
    decreases rank[src], 0
  {
    var height := |f.stack|;
    match impl
    case StackRead =>
      if Index(operand) >= height then None
      else Some(Effect(0, [f.stack[Index(operand)]], f.kv, f.calls))
    case ConstantRead =>
      if Index(operand) >= |env.constants| then None
      else Some(Effect(0, [env.constants[Index(operand)]], f.kv, f.calls))
    case StateGet =>
      if height < 1 then None else
        var key := f.stack[height - 1];
        var value := Lookup(env, f.kv, key);
        Some(Effect(1, [value], f.kv[key := value], f.calls))
    case StateSet =>
      if height < 2 then None
      else Some(Effect(2, [], f.kv[f.stack[height - 1] := f.stack[height - 2]], f.calls))
    case CallSource =>
      var callee := Index(operand);
      if callee >= |env.sources| || height < OpInputs(operand) then None else
        var ran := Run(env, rank, callee, Top(f.stack, OpInputs(operand)), f.kv);
        if ran.None? || |ran.value.stack| < OpOutputs(operand) then None else
          var g := ran.value;
          Some(Effect(OpInputs(operand), g.stack[|g.stack| - OpOutputs(operand)..], g.kv,
                      f.calls + [Node(callee, g.stack, g.calls)]))
    case Other(io, run) =>
      match io(operand)
      case None => None
      case Some((inputs, outputs)) =>
        if height < inputs then None else
          var given := run(operand, Top(f.stack, inputs));
          if |given| != outputs then None else Some(Effect(inputs, Reverse(given), f.kv, f.calls))
  }

  /** Applies an effect, if the stack has the items and the allocation the room. */
  function Apply(allocation: nat, f: Frame, e: Effect): Option<Frame> {
    if e.take > |f.stack| || |f.stack| - e.take + |e.give| > allocation then None
    else Some(Frame(f.stack[..|f.stack| - e.take] + e.give, e.kv, e.calls))
  }

  ghost function Step(env: Env, rank: seq<nat>, src: nat, op: Op, f: Frame): Option<Frame>
    requires Ranked(env, rank) && src < |env.sources| && CallDescends(env, rank, src, op)
    decreases rank[src], 1
  {
    if op.opcode >= |env.fs| then None else
    match EffectOf(env, rank, src, env.fs[op.opcode], op.operand, f)
    case None => None
    case Some(e) => Apply(env.sources[src].allocation, f, e)
  }

  /** The frame of source `src` after its first `k` ops. */
  ghost function Exec(env: Env, rank: seq<nat>, src: nat, k: nat, inputs: seq<Word>, kv: map<Word, Word>): Option<Frame>
    requires Ranked(env, rank) && src < |env.sources| && k <= |env.sources[src].ops|
    decreases rank[src], 2, k
  {
    if k == 0 then
      if |inputs| == env.sources[src].inputs && |inputs| <= env.sources[src].allocation
      then Some(Frame(inputs, kv, []))
      else None
    else
      match Exec(env, rank, src, k - 1, inputs, kv)
      case None => None
      case Some(f) => Step(env, rank, src, env.sources[src].ops[k - 1], f)
  }

  /** A whole source, from its inputs, bottom first, to its final frame. */
  ghost function Run(env: Env, rank: seq<nat>, src: nat, inputs: seq<Word>, kv: map<Word, Word>): Option<Frame>
    requires Ranked(env, rank) && src < |env.sources|
    decreases rank[src], 3
  {
    Exec(env, rank, src, |env.sources[src].ops|, inputs, kv)
  }

  lemma RunIsExec(env: Env, rank: seq<nat>, src: nat, inputs: seq<Word>, kv: map<Word, Word>)
    requires Ranked(env, rank) && src < |env.sources|
    ensures Run(env, rank, src, inputs, kv) == Exec(env, rank, src, |env.sources[src].ops|, inputs, kv)
  {
    hide Exec;
  }

  /** What a call does, from the run of its callee. */
  lemma CallEffect(env: Env, rank: seq<nat>, src: nat, operand: nat, f: Frame)
    requires Ranked(env, rank) && src < |env.sources|
    requires Index(operand) < |rank| ==> rank[Index(operand)] < rank[src]
    ensures EffectOf(env, rank, src, CallSource, operand, f) ==
            var callee, inputs, outputs := Index(operand), OpInputs(operand), OpOutputs(operand);
            if callee >= |env.sources| || |f.stack| < inputs then None else
            match Run(env, rank, callee, Top(f.stack, inputs), f.kv)
            case None => None
            case Some(g) =>
              if |g.stack| < outputs then None
              else Some(Effect(inputs, g.stack[|g.stack| - outputs..], g.kv, f.calls + [Node(callee, g.stack, g.calls)]))
  {
    hide Run, Top, Index, OpInputs, OpOutputs;
  }
}
