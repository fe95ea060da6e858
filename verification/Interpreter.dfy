/** The interpreter as it runs: no check guards a stack access, all stacks share
    one flat memory, and a call runs its callee in place. */
module Interpreter {
  import opened Words
  import opened Bytecode
  import opened Ops
  import opened Semantics
  import opened Soundness
  import opened Tracing

  datatype EvalError =
    | OddSetLength(length: nat)
    | SourceIndexOutOfBounds(sourceIndex: nat)
    | InputsLengthMismatch(expected: nat, actual: nat)

  /** Where a source's run began: its inputs, bottom first, the cache it was
      given, and the traces before it. */
  datatype Start = Start(source: nat, inputs: seq<Word>, kv: map<Word, Word>, traces: seq<seq<Byte>>)

  class InterpreterState {
    const fs: seq<OpImpl>
    const constants: seq<Word>
    const bytecode: seq<Byte>
    /** Memory from the bytecode pointer on. */
    const image: seq<Byte>
    const store: Word -> Word
    /** For each source, one past the deepest word of its stack. */
    const stackBottoms: seq<nat>
    /** The words the stacks live in. A stack grows towards lower addresses. */
    const memory: array<Word>
    /** Witness that no source reaches itself through calls. */
    ghost const rank: seq<nat>

    var sourceIndex: nat
    var stateKV: map<Word, Word>
    /** The calldata of every call made to the tracer, oldest first. */
    var traces: seq<seq<Byte>>

    constructor (fs: seq<OpImpl>, constants: seq<Word>, image: seq<Byte>, store: Word -> Word,
                 stackBottoms: seq<nat>, memory: array<Word>, sourceIndex: nat, stateKV: map<Word, Word>,
                 ghost bc: seq<Byte>, ghost rank: seq<nat>)
      requires Holds(image, bc)
      ensures this.fs == fs && this.constants == constants && this.image == image && this.store == store
      ensures this.stackBottoms == stackBottoms && this.memory == memory && this.rank == rank
      ensures this.sourceIndex == sourceIndex && this.stateKV == stateKV
      ensures this.bytecode == bc && traces == []
    {
      HeldLength(image, bc);
      this.fs, this.constants, this.image, this.store := fs, constants, image, store;
      this.bytecode := image[0x20..0x20 + MLoad(image, 0)];
      this.stackBottoms, this.memory, this.rank := stackBottoms, memory, rank;
      this.sourceIndex, this.stateKV, this.traces := sourceIndex, stateKV, [];
    }

    ghost predicate Wellformed() {
      Holds(image, bytecode) && InBounds(bytecode)
    }

    ghost function Environment(): Env
      requires InBounds(bytecode)
    {
      Env(fs, Sources(bytecode), constants, store)
    }

    ghost function Sourced(i: nat): Source
      requires InBounds(bytecode) && i < SourceCount(bytecode)
    {
      Sources(bytecode)[i]
    }

    /** Every stack has its allocation, and a length word above it, to itself. */
    ghost predicate Layout()
      requires InBounds(bytecode)
    {
      && |stackBottoms| == SourceCount(bytecode)
      && (forall i | 0 <= i < |stackBottoms| :: Sourced(i).allocation + 1 <= stackBottoms[i] <= memory.Length)
      && forall i, j | 0 <= i < j < |stackBottoms| :: stackBottoms[i] + Sourced(j).allocation + 1 <= stackBottoms[j]
    }

    ghost predicate Placed() {
      InBounds(bytecode) && Layout() && |rank| == |stackBottoms|
    }

    /** What deploying and deserializing establish; nothing here changes. */
    ghost predicate Ready() {
      Wellformed() && Placed() && Deployable(Environment(), rank)
    }

    // ----- who owns which word -----

    ghost predicate InStack(i: nat, a: int)
      requires InBounds(bytecode) && i < SourceCount(bytecode) && i < |stackBottoms|
    {
      stackBottoms[i] - Sourced(i).allocation <= a < stackBottoms[i]
    }

    /** The words that running source `src` may touch: its own stack and the
        stacks of the sources below it in the call graph. */
    ghost predicate Owned(src: nat, a: int)
      requires Placed() && src < |rank|
    {
      exists j | 0 <= j < |rank| :: InStack(j, a) && (j == src || rank[j] < rank[src])
    }

    /** The words that an evaluation of source `src` may touch: also the length word
        of its own stack, over which the result is built. */
    ghost predicate Reached(src: nat, a: int)
      requires Placed() && src < |rank|
    {
      Owned(src, a) || a == stackBottoms[src] - Sourced(src).allocation - 1
    }

    lemma OwnsItsStack(src: nat)
      requires Placed() && src < |rank|
      ensures forall a | InStack(src, a) :: Owned(src, a)
    {
    }

    /** A callee cannot touch the stack of a source that is still running. */
    lemma CalleeStaysOut(src: nat, callee: nat, a: int)
      requires Placed() && src < |rank| && callee < |rank| && rank[callee] < rank[src]
      ensures InStack(src, a) ==> !Owned(callee, a)
      ensures Owned(callee, a) ==> Owned(src, a)
    {
      hide InBounds, Sourced;
      if Owned(callee, a) {
        var j :| 0 <= j < |rank| && InStack(j, a) && (j == callee || rank[j] < rank[callee]);
        if j < src {
          assert stackBottoms[j] + Sourced(src).allocation + 1 <= stackBottoms[src];
        } else if src < j {
          assert stackBottoms[src] + Sourced(j).allocation + 1 <= stackBottoms[j];
        }
      }
    }

    /** The words from `top` to `bottom` hold `s`, whose first item is deepest. */
    ghost predicate Shows(top: nat, bottom: nat, s: seq<Word>)
      reads memory
    {
      && top + |s| == bottom <= memory.Length
      && forall j | 0 <= j < |s| :: memory[bottom - 1 - j] == s[j]
    }

    /** The machine is in frame `f` of the source it is running. */
    ghost predicate In(f: Frame, top: nat)
      requires Placed()
      reads this, memory
    {
      && sourceIndex < |stackBottoms|
      && |f.stack| <= Sourced(sourceIndex).allocation
      && Shows(top, stackBottoms[sourceIndex], f.stack)
      && stateKV == f.kv
    }

    // ----- tracing -----

    /** Calls the tracer with the live stack as calldata. The header is written
        over the word above the stack and that word is put back afterwards. */
    method StackTrace(parentSourceIndex: nat, sourceIndex: nat, stackTop: nat, stackBottom: nat, ghost f: Frame)
      requires Ready() && In(f, stackTop)
      requires 1 <= stackTop && stackBottom == stackBottoms[this.sourceIndex]
      modifies memory, this`traces
      ensures In(f, stackTop)
      ensures forall a | 0 <= a < memory.Length :: memory[a] == old(memory[a])
      ensures traces == old(traces) + [Calldata(parentSourceIndex, sourceIndex, f.stack)]
    {
      hide InBounds, Wellformed, Deployable, Ready, Placed, Layout, Sourced, Pow2, ToBytes, WordBytes;
      var parent, source := parentSourceIndex % 0x1_0000, sourceIndex % 0x1_0000;
      var beforePtr := stackTop - 1;
      var before := memory[beforePtr];
      HeaderFits(parent, source);
      memory[beforePtr] := parent * 0x1_0000 + source;
      HeaderBytes(parent, source);
      assert memory[stackTop..stackBottom] == Reverse(f.stack);
      traces := traces + [ToBytes(memory[beforePtr], 32)[28..] + WordBytes(memory[stackTop..stackBottom])];
      memory[beforePtr] := before;
    }

    // ----- ops -----

    /** Copies the item at the operand's index, counted from the bottom. */
    method RunStack(operand: nat, stackTop: nat, ghost f: Frame) returns (top: nat)
      requires Placed() && In(f, stackTop)
      requires Index(operand) < |f.stack| < Sourced(sourceIndex).allocation
      modifies memory
      ensures In(f.(stack := f.stack + [f.stack[Index(operand)]]), top)
      ensures forall a | 0 <= a < memory.Length && !InStack(sourceIndex, a) :: memory[a] == old(memory[a])
    {
      hide InBounds, Sourced;
      assert InStack(sourceIndex, stackTop - 1);
      var stackBottom := stackBottoms[sourceIndex];
      var stackValue := memory[stackBottom - (Index(operand) + 1)];
      top := stackTop - 1;
      memory[top] := stackValue;
    }

    method RunConstant(operand: nat, stackTop: nat, ghost f: Frame) returns (top: nat)
      requires Placed() && In(f, stackTop)
      requires Index(operand) < |constants| && |f.stack| < Sourced(sourceIndex).allocation
      modifies memory
      ensures In(f.(stack := f.stack + [constants[Index(operand)]]), top)
      ensures forall a | 0 <= a < memory.Length && !InStack(sourceIndex, a) :: memory[a] == old(memory[a])
    {
      hide InBounds, Sourced;
      assert InStack(sourceIndex, stackTop - 1);
      top := stackTop - 1;
      memory[top] := constants[Index(operand)];
    }

    /** Reads a key through the cache; a miss fetches from the store and caches
        what it found. */
    method RunGet(stackTop: nat, ghost f: Frame) returns (top: nat)
      requires Placed() && In(f, stackTop) && |f.stack| >= 1
      modifies memory, this`stateKV
      ensures var key := f.stack[|f.stack| - 1];
              var value := Lookup(Environment(), f.kv, key);
              In(Frame(f.stack[..|f.stack| - 1] + [value], f.kv[key := value], f.calls), top)
      ensures forall a | 0 <= a < memory.Length && !InStack(sourceIndex, a) :: memory[a] == old(memory[a])
    {
      hide InBounds, Sourced;
      assert InStack(sourceIndex, stackTop);
      var key := memory[stackTop];
      if key !in stateKV {
        var storeValue := store(key);
        stateKV := stateKV[key := storeValue];
        memory[stackTop] := storeValue;
      } else {
        assert stateKV[key := stateKV[key]] == stateKV;
        memory[stackTop] := stateKV[key];
      }
      top := stackTop;
    }

    method RunSet(stackTop: nat, ghost f: Frame) returns (top: nat)
      requires Placed() && In(f, stackTop) && |f.stack| >= 2
      modifies this`stateKV
      ensures In(Frame(f.stack[..|f.stack| - 2], f.kv[f.stack[|f.stack| - 1] := f.stack[|f.stack| - 2]], f.calls), top)
    {
      hide InBounds, Sourced;
      var key := memory[stackTop];
      var value := memory[stackTop + 1];
      top := stackTop + 2;
      stateKV := stateKV[key := value];
    }

    /** Any other op: takes its inputs off the top and leaves its outputs there,
        the first output topmost. */
    method RunOther(run: (nat, seq<Word>) -> seq<Word>, operand: nat, inputs: nat, stackTop: nat, ghost f: Frame)
      returns (top: nat)
      requires Placed() && In(f, stackTop) && inputs <= |f.stack|
      requires |f.stack| - inputs + |run(operand, Top(f.stack, inputs))| <= Sourced(sourceIndex).allocation
      modifies memory
      ensures In(f.(stack := f.stack[..|f.stack| - inputs] + Reverse(run(operand, Top(f.stack, inputs)))), top)
      ensures forall a | 0 <= a < memory.Length && !InStack(sourceIndex, a) :: memory[a] == old(memory[a])
    {
      hide InBounds, Sourced;
      assert memory[stackTop..stackTop + inputs] == Top(f.stack, inputs);
      var given := run(operand, memory[stackTop..stackTop + inputs]);
      top := Push(given, stackTop + inputs, f.stack[..|f.stack| - inputs]);
    }

    /** Writes `given` above `stackTop`, its first item topmost. */
    method Push(given: seq<Word>, stackTop: nat, ghost base: seq<Word>) returns (top: nat)
      requires Placed() && sourceIndex < |stackBottoms|
      requires Shows(stackTop, stackBottoms[sourceIndex], base)
      requires |base| + |given| <= Sourced(sourceIndex).allocation
      modifies memory
      ensures Shows(top, stackBottoms[sourceIndex], base + Reverse(given))
      ensures forall a | 0 <= a < memory.Length && !InStack(sourceIndex, a) :: memory[a] == old(memory[a])
    {
      hide InBounds, Sourced;
      top := stackTop - |given|;
      forall j | 0 <= j < |given| {
        memory[top + j] := given[j];
      }
    }

    /** Copies the call's inputs onto the callee's stack, which reverses them:
        the caller's top item becomes the callee's bottom item. */
    method CopyInputs(callee: nat, inputs: nat, stackTop: nat, ghost f: Frame)
      returns (evalStackTop: nat, top: nat)
      requires Placed() && In(f, stackTop) && inputs <= |f.stack|
      requires callee < |stackBottoms| && callee != sourceIndex && inputs <= Sourced(callee).allocation
      modifies memory
      ensures top == stackTop + inputs
      ensures Shows(evalStackTop, stackBottoms[callee], Top(f.stack, inputs))
      ensures forall a | 0 <= a < memory.Length && !InStack(callee, a) :: memory[a] == old(memory[a])
    {
      hide InBounds, Sourced;
      StacksApart(sourceIndex, callee);
      hide Layout;
      evalStackTop, top := stackBottoms[callee] - inputs, stackTop + inputs;
      PushReversed(memory, stackTop, inputs, stackBottoms[callee]);
    }

    /** Distinct sources have disjoint stacks. */
    lemma StacksApart(i: nat, j: nat)
      requires Placed() && i < |stackBottoms| && j < |stackBottoms| && i != j
      ensures || stackBottoms[i] <= stackBottoms[j] - Sourced(j).allocation
              || stackBottoms[j] <= stackBottoms[i] - Sourced(i).allocation
    {
      hide InBounds, Sourced;
    }

    /** Copies the callee's top items back, in order. */
    method CopyOutputs(callee: nat, outputs: nat, evalStackTop: nat, stackTop: nat, ghost base: seq<Word>, ghost given: seq<Word>)
      returns (top: nat)
      requires Placed() && sourceIndex < |stackBottoms| && callee < |stackBottoms| && callee != sourceIndex
      requires Shows(stackTop, stackBottoms[sourceIndex], base)
      requires Shows(evalStackTop, stackBottoms[callee], given) && |given| <= Sourced(callee).allocation
      requires outputs <= |given| && |base| + outputs <= Sourced(sourceIndex).allocation
      modifies memory
      ensures Shows(top, stackBottoms[sourceIndex], base + given[|given| - outputs..])
      ensures forall a | 0 <= a < memory.Length && !InStack(sourceIndex, a) :: memory[a] == old(memory[a])
    {
      hide InBounds, Sourced;
      StacksApart(sourceIndex, callee);
      hide Layout;
      top := stackTop - outputs;
      CopyUp(memory, evalStackTop, outputs, top);
    }

    /** Runs another source on its own stack and brings back its top items. */
    method RunCall(operand: nat, stackTop: nat, ghost f: Frame) returns (top: nat)
      requires Ready() && In(f, stackTop) && CallMatches(Environment(), operand)
      requires rank[Index(operand)] < rank[sourceIndex] && OpInputs(operand) <= |f.stack|
      requires |f.stack| - OpInputs(operand) + OpOutputs(operand) <= Sourced(sourceIndex).allocation
      modifies memory, this
      decreases rank[sourceIndex], 0, 0
      ensures sourceIndex == old(sourceIndex)
      ensures Finishes(Index(operand), Top(f.stack, OpInputs(operand)), f.kv)
      ensures var g := Finished(Index(operand), Top(f.stack, OpInputs(operand)), f.kv);
              && OpOutputs(operand) <= |g.stack|
              && In(Frame(f.stack[..|f.stack| - OpInputs(operand)] + g.stack[|g.stack| - OpOutputs(operand)..], g.kv,
                          f.calls + [Node(Index(operand), g.stack, g.calls)]), top)
              && traces == old(traces) + EmitTree(sourceIndex, Node(Index(operand), g.stack, g.calls))
      ensures forall a | 0 <= a < memory.Length && !Owned(sourceIndex, a) :: memory[a] == old(memory[a])
    {
      hide InBounds, Wellformed, Deployable, Ready, Placed, Layout, Environment, Sourced, CallMatches,
        Owned, Exec, Run, Top, EmitTree, Index, OpInputs, OpOutputs, Finishes, Finished, In, Shows, Held;
      CallFits(operand);
      InFrame(f, stackTop);
      var callee, inputs, outputs := Index(operand), OpInputs(operand), OpOutputs(operand);
      ghost var src, args, before := sourceIndex, Top(f.stack, inputs), memory[..];
      ghost var base := f.stack[..|f.stack| - inputs];
      InputsFit(callee);
      OwnStack(src, callee);
      HeldBelow(stackTop, stackBottoms[src], f.stack, inputs);
      var evalStackTop, callTop := CopyInputs(callee, inputs, stackTop, f);

      var currentSourceIndex := sourceIndex;
      sourceIndex := callee;
      evalStackTop := EvalLoop(currentSourceIndex, evalStackTop, stackBottoms[callee], args);
      ghost var g := Finished(callee, args, f.kv);
      InFrame(g, evalStackTop);
      sourceIndex := currentSourceIndex;

      CallerKept(before, src, callee, callTop, base);
      OutputsReturned(callee, args, f.kv);
      top := CopyOutputs(callee, outputs, evalStackTop, callTop, base, g.stack);
      InFrame(Frame(base + g.stack[|g.stack| - outputs..], g.kv, f.calls + [Node(callee, g.stack, g.calls)]), top);
    }

    /** `s` is shown in a snapshot of memory. */
    ghost predicate Held(words: seq<Word>, top: nat, bottom: nat, s: seq<Word>) {
      && top + |s| == bottom <= |words|
      && forall j | 0 <= j < |s| :: words[bottom - 1 - j] == s[j]
    }

    lemma HeldBelow(top: nat, bottom: nat, s: seq<Word>, n: nat)
      requires Shows(top, bottom, s) && n <= |s|
      ensures Held(memory[..], top + n, bottom, s[..|s| - n])
    {
    }

    /** What the caller had under the call's inputs is still there after the callee
        ran. */
    lemma CallerKept(before: seq<Word>, src: nat, callee: nat, top: nat, base: seq<Word>)
      requires Placed() && src < |stackBottoms| && callee < |stackBottoms| && |base| <= Sourced(src).allocation
      requires |before| == memory.Length && Held(before, top, stackBottoms[src], base)
      requires forall a | InStack(src, a) :: !InStack(callee, a) && !Owned(callee, a)
      requires forall a | 0 <= a < memory.Length && !InStack(callee, a) && !Owned(callee, a) :: memory[a] == before[a]
      ensures Shows(top, stackBottoms[src], base)
    {
      hide InBounds, Sourced, Owned;
      forall a | top <= a < stackBottoms[src]
        ensures memory[a] == before[a]
      {
        assert InStack(src, a);
      }
    }

    /** What being in a frame says. */
    lemma InFrame(f: Frame, top: nat)
      requires Placed()
      ensures In(f, top) <==>
              && sourceIndex < |stackBottoms|
              && |f.stack| <= Sourced(sourceIndex).allocation
              && Shows(top, stackBottoms[sourceIndex], f.stack)
              && stateKV == f.kv
    {
    }

    lemma CallFits(operand: nat)
      requires Ready() && CallMatches(Environment(), operand)
      ensures InBounds(bytecode) && Placed() && Index(operand) < |stackBottoms|
      ensures OpInputs(operand) == Sourced(Index(operand)).inputs
      ensures OpOutputs(operand) <= Sourced(Index(operand)).outputs
    {
    }

    /** The checked machine completes source `src`. */
    ghost predicate Finishes(src: nat, inputs: seq<Word>, kv: map<Word, Word>)
      requires Ready() && src < |stackBottoms|
    {
      Run(Environment(), rank, src, inputs, kv).Some?
    }

    ghost function Finished(src: nat, inputs: seq<Word>, kv: map<Word, Word>): Frame
      requires Ready() && src < |stackBottoms| && Finishes(src, inputs, kv)
    {
      Run(Environment(), rank, src, inputs, kv).value
    }

    lemma InputsFit(src: nat)
      requires Ready() && src < |stackBottoms|
      ensures Sourced(src).inputs <= Sourced(src).allocation
    {
      AllocationIsPeak(ContextOf(Environment()), Sourced(src));
      assert WalkAt(ContextOf(Environment()), Sourced(src), 0).stackIndex <= Sourced(src).allocation;
    }

    lemma OutputsReturned(src: nat, inputs: seq<Word>, kv: map<Word, Word>)
      requires Ready() && src < |stackBottoms| && |inputs| == Sourced(src).inputs
      ensures Finishes(src, inputs, kv) && |Finished(src, inputs, kv).stack| == Sourced(src).outputs
    {
      RunCompletes(Environment(), rank, src, inputs, kv);
    }

    /** While a callee runs, the caller's stack is out of its reach. */
    lemma OwnStack(src: nat, callee: nat)
      requires Ready() && src < |rank| && callee < |rank| && rank[callee] < rank[src]
      ensures forall a :: InStack(callee, a) ==> !InStack(src, a) && Owned(src, a)
      ensures forall a :: InStack(src, a) ==> !Owned(callee, a) && Owned(src, a)
      ensures forall a :: Owned(callee, a) ==> Owned(src, a)
    {
      forall a
        ensures InStack(callee, a) ==> Owned(callee, a)
      {
      }
      forall a
        ensures InStack(src, a) ==> !Owned(callee, a)
        ensures Owned(callee, a) ==> Owned(src, a)
      {
        CalleeStaysOut(src, callee, a);
      }
    }

    // ----- the loop -----

    /** The frame the checked machine is in after `k` ops. */
    ghost predicate At(run: Start, k: nat, top: nat)
      requires Ready() && run.source < |stackBottoms| && k <= |Sourced(run.source).ops|
      reads this, memory
    {
      var f := Exec(Environment(), rank, run.source, k, run.inputs, run.kv);
      && sourceIndex == run.source
      && f.Some?
      && In(f.value, top)
      && traces == run.traces + EmitForest(run.source, f.value.calls)
    }

    lemma StartsAt(run: Start, top: nat)
      requires Ready() && run.source < |stackBottoms| && sourceIndex == run.source
      requires |run.inputs| == Sourced(run.source).inputs && Shows(top, stackBottoms[run.source], run.inputs)
      requires stateKV == run.kv && traces == run.traces
      ensures At(run, 0, top)
    {
      InputsFit(run.source);
    }

    lemma EndsAt(run: Start, top: nat)
      requires Ready() && run.source < |stackBottoms| && At(run, |Sourced(run.source).ops|, top)
      ensures sourceIndex == run.source && Finishes(run.source, run.inputs, run.kv)
      ensures var g := Finished(run.source, run.inputs, run.kv);
              1 <= top && In(g, top) && traces == run.traces + EmitForest(run.source, g.calls)
    {
    }

    /** Looks up and runs one op. The opcode wraps around the table, which for
        accepted bytecode never happens. */
    method Dispatch(op: Op, stackTop: nat, ghost run: Start, ghost k: nat) returns (top: nat)
      requires Ready() && run.source < |stackBottoms| && k < |Sourced(run.source).ops|
      requires |run.inputs| == Sourced(run.source).inputs
      requires At(run, k, stackTop) && op == Sourced(run.source).ops[k]
      modifies memory, this
      decreases rank[run.source], 1
      ensures At(run, k + 1, top)
      ensures forall a | 0 <= a < memory.Length && !Owned(run.source, a) :: memory[a] == old(memory[a])
    {
      hide *;
      ghost var f, g, e := DispatchEffect(run, k, stackTop);
      var impl := fs[op.opcode % |fs|];
      top := RunOp(impl, op.operand, stackTop, f, g, e, run.traces);
      NowAt(run, k + 1, g, top);
    }

    lemma DispatchEffect(run: Start, k: nat, top: nat) returns (f: Frame, g: Frame, e: Effect)
      requires Ready() && run.source < |stackBottoms| && k < |Sourced(run.source).ops|
      requires |run.inputs| == Sourced(run.source).inputs && At(run, k, top)
      ensures In(f, top) && sourceIndex == run.source && traces == run.traces + EmitForest(run.source, f.calls)
      ensures Exec(Environment(), rank, run.source, k + 1, run.inputs, run.kv) == Some(g)
      ensures Apply(Sourced(run.source).allocation, f, e) == Some(g) && g.calls == e.calls
      ensures var op := Sourced(run.source).ops[k];
              && op.opcode < |fs|
              && (fs[op.opcode].CallSource? && Index(op.operand) < |rank| ==> rank[Index(op.operand)] < rank[run.source])
              && (fs[op.opcode].CallSource? ==> CallMatches(Environment(), op.operand))
              && EffectOf(Environment(), rank, run.source, fs[op.opcode], op.operand, f) == Some(e)
    {
      var env := Environment();
      var op := Sourced(run.source).ops[k];
      f := Exec(env, rank, run.source, k, run.inputs, run.kv).value;
      assert env.sources[run.source] == Sourced(run.source) && env.fs == fs;
      hide InBounds, Wellformed, Deployable, Layout, Environment;
      NeverStuck(env, rank, run.source, k, run.inputs, run.kv);
      NeverStuck(env, rank, run.source, k + 1, run.inputs, run.kv);
      var w;
      e, w := StepEffect(env, rank, run.source, k, f);
      g := Exec(env, rank, run.source, k + 1, run.inputs, run.kv).value;
      assert Exec(env, rank, run.source, k + 1, run.inputs, run.kv) == Step(env, rank, run.source, op, f);
    }

    lemma NowAt(run: Start, k: nat, g: Frame, top: nat)
      requires Ready() && run.source < |stackBottoms| && k <= |Sourced(run.source).ops|
      requires sourceIndex == run.source && In(g, top)
      requires Exec(Environment(), rank, run.source, k, run.inputs, run.kv) == Some(g)
      requires traces == run.traces + EmitForest(run.source, g.calls)
      ensures At(run, k, top)
    {
    }

    lemma EnvironmentIs()
      requires Ready()
      ensures InBounds(bytecode) && Placed()
      ensures Environment().constants == constants && |Environment().sources| == |rank| == |stackBottoms|
      ensures Ranked(Environment(), rank)
    {
    }

    /** The frame after one op, per kind of op other than a call. */
    lemma AppliedFrame(src: nat, impl: OpImpl, operand: nat, f: Frame, g: Frame, e: Effect)
      requires Ready() && src < |stackBottoms|
      requires impl.CallSource? && Index(operand) < |rank| ==> rank[Index(operand)] < rank[src]
      requires impl.CallSource? ==> CallMatches(Environment(), operand)
      requires EffectOf(Environment(), rank, src, impl, operand, f) == Some(e)
      requires Apply(Sourced(src).allocation, f, e) == Some(g)
      ensures var height, room := |f.stack|, Sourced(src).allocation;
              match impl
              case StackRead =>
                Index(operand) < height < room && g == f.(stack := f.stack + [f.stack[Index(operand)]])
              case ConstantRead =>
                Index(operand) < |constants| && height < room && g == f.(stack := f.stack + [constants[Index(operand)]])
              case StateGet =>
                && height >= 1
                && var key := f.stack[height - 1];
                   var value := Lookup(Environment(), f.kv, key);
                   g == Frame(f.stack[..height - 1] + [value], f.kv[key := value], f.calls)
              case StateSet =>
                && height >= 2
                && g == Frame(f.stack[..height - 2], f.kv[f.stack[height - 1] := f.stack[height - 2]], f.calls)
              case CallSource => true
              case Other(_, _) =>
                && impl.io(operand).Some? && impl.io(operand).value.0 <= height
                && var inputs := impl.io(operand).value.0;
                   var given := impl.run(operand, Top(f.stack, inputs));
                   height - inputs + |given| <= room && g == f.(stack := f.stack[..height - inputs] + Reverse(given))
    {
      hide InBounds, Wellformed, Deployable, Ready, Layout, Environment, Sourced, Exec, CallMatches, Run, Lookup, Top,
        Index, OpInputs, OpOutputs;
      EnvironmentIs();
      assert f.stack[..|f.stack|] == f.stack;
      if impl.StateSet? {
        assert f.stack[..|f.stack| - 2] + [] == f.stack[..|f.stack| - 2];
      }
    }

    /** The frame after a call. */
    lemma AppliedCall(src: nat, operand: nat, f: Frame, g: Frame, e: Effect)
      requires Ready() && src < |stackBottoms|
      requires Index(operand) < |rank| ==> rank[Index(operand)] < rank[src]
      requires CallMatches(Environment(), operand)
      requires EffectOf(Environment(), rank, src, CallSource, operand, f) == Some(e)
      requires Apply(Sourced(src).allocation, f, e) == Some(g)
      ensures OpInputs(operand) <= |f.stack|
      ensures |f.stack| - OpInputs(operand) + OpOutputs(operand) <= Sourced(src).allocation
      ensures Index(operand) < |stackBottoms| && Finishes(Index(operand), Top(f.stack, OpInputs(operand)), f.kv)
      ensures var h := Finished(Index(operand), Top(f.stack, OpInputs(operand)), f.kv);
              && OpOutputs(operand) <= |h.stack|
              && g == Frame(f.stack[..|f.stack| - OpInputs(operand)] + h.stack[|h.stack| - OpOutputs(operand)..], h.kv,
                            f.calls + [Node(Index(operand), h.stack, h.calls)])
    {
      hide InBounds, Wellformed, Deployable, Ready, Layout, Environment, Sourced, Exec, Run, EffectOf, Top,
        Index, OpInputs, OpOutputs;
      EnvironmentIs();
      CallEffect(Environment(), rank, src, operand, f);
    }

    /** One op, against the effect the checked machine gives it. */
    method RunOp(impl: OpImpl, operand: nat, stackTop: nat,
                 ghost f: Frame, ghost g: Frame, ghost e: Effect, ghost before: seq<seq<Byte>>)
      returns (top: nat)
      requires Ready() && In(f, stackTop)
      requires impl.CallSource? && Index(operand) < |rank| ==> rank[Index(operand)] < rank[sourceIndex]
      requires impl.CallSource? ==> CallMatches(Environment(), operand)
      requires EffectOf(Environment(), rank, sourceIndex, impl, operand, f) == Some(e)
      requires Apply(Sourced(sourceIndex).allocation, f, e) == Some(g)
      requires traces == before + EmitForest(sourceIndex, f.calls)
      modifies memory, this
      decreases rank[sourceIndex], 0, 1
      ensures sourceIndex == old(sourceIndex)
      ensures In(g, top)
      ensures traces == before + EmitForest(sourceIndex, g.calls)
      ensures forall a | 0 <= a < memory.Length && !Owned(sourceIndex, a) :: memory[a] == old(memory[a])
    {
      hide InBounds, Wellformed, Deployable, Ready, Placed, Layout, Environment, Sourced, Exec, In, Shows, Owned,
        CallMatches, EmitForest, EmitTree, Lookup, Top, Index, OpInputs, OpOutputs, EffectOf, Apply, Run, Finishes, Finished;
      EnvironmentIs();
      InFrame(f, stackTop);
      OwnsItsStack(sourceIndex);
      if impl.CallSource? {
        AppliedCall(sourceIndex, operand, f, g, e);
      } else {
        AppliedFrame(sourceIndex, impl, operand, f, g, e);
      }
      match impl
      case StackRead => top := RunStack(operand, stackTop, f);
      case ConstantRead => top := RunConstant(operand, stackTop, f);
      case StateGet => top := RunGet(stackTop, f);
      case StateSet => top := RunSet(stackTop, f);
      case CallSource =>
        top := RunCall(operand, stackTop, f);
        EmitForestPush(before, sourceIndex, f.calls, g.calls[|f.calls|]);
        assert g.calls == f.calls + [g.calls[|f.calls|]];
      case Other(io, run) =>
        top := RunOther(run, operand, io(operand).value.0, stackTop, f);
    }

    /** The eight ops packed in one memory word, high end first. */
    method EvalWord(cursor: nat, stackTop: nat, ghost run: Start, ghost k: nat) returns (top: nat)
      requires Ready() && run.source < |stackBottoms| && k + 8 <= |Sourced(run.source).ops|
      requires |run.inputs| == Sourced(run.source).inputs
      requires cursor == 0x20 + Header(bytecode, run.source) + 4 + 4 * k
      requires At(run, k, stackTop)
      modifies memory, this
      decreases rank[run.source], 2
      ensures At(run, k + 8, top)
      ensures forall a | 0 <= a < memory.Length && !Owned(run.source, a) :: memory[a] == old(memory[a])
    {
      hide *;
      ghost var i := run.source;
      IndexIsClean(i);
      forall lane | 0 <= lane < 8
        ensures WordLane(MLoad(image, cursor), lane) == Sourced(i).ops[k + lane]
      {
        LaneHolds(i, k + lane, cursor, lane);
      }
      var word := MLoad(image, cursor);
      top := Dispatch(WordLane(word, 0), stackTop, run, k);
      top := Dispatch(WordLane(word, 1), top, run, k + 1);
      top := Dispatch(WordLane(word, 2), top, run, k + 2);
      top := Dispatch(WordLane(word, 3), top, run, k + 3);
      top := Dispatch(WordLane(word, 4), top, run, k + 4);
      top := Dispatch(WordLane(word, 5), top, run, k + 5);
      top := Dispatch(WordLane(word, 6), top, run, k + 6);
      top := Dispatch(WordLane(word, 7), top, run, k + 7);
    }

    lemma LaneHolds(i: nat, k: nat, cursor: nat, lane: nat)
      requires Ready() && i < |stackBottoms| && k < |Sourced(i).ops| && lane < 8
      requires cursor + 4 * lane == 0x20 + Header(bytecode, i) + 4 + 4 * k
      ensures WordLane(MLoad(image, cursor), lane) == Sourced(i).ops[k]
    {
      LaneIsOp(image, bytecode, i, k, cursor, lane);
    }

    lemma IndexIsClean(i: nat)
      requires Ready() && i < |stackBottoms|
      ensures i % 0x1_0000 == i
      ensures InBounds(bytecode) && i < SourceCount(bytecode)
      ensures Placed() && i < |rank|
    {
      assert SourceCount(bytecode) == bytecode[0];
    }

    /** The loop's own header arithmetic finds the source. */
    lemma HeaderLoads(i: nat)
      requires Ready() && i < |stackBottoms|
      ensures 0x21 + 2 * (ByteOf(0, MLoad(image, 0x20)) as int) + Shr(0xf0, MLoad(image, 0x21 + 2 * i))
           == 0x20 + Header(bytecode, i)
      ensures ByteOf(0, MLoad(image, 0x20 + Header(bytecode, i))) == |Sourced(i).ops|
    {
      CountLoads(image, bytecode);
      OffsetLoads(image, bytecode, i);
      HeaderByteLoads(image, bytecode, i, 0);
    }

    /** Evaluates every op of the current source, then traces its stack. The
        result is the one the checked machine reaches, and nothing outside the
        stacks of this source and the ones below it in the call graph changes. */
    method EvalLoop(parentSourceIndex: nat, stackTop: nat, stackBottom: nat, ghost inputs: seq<Word>) returns (top: nat)
      requires Ready() && sourceIndex < |stackBottoms| && stackBottom == stackBottoms[sourceIndex]
      requires |inputs| == Sourced(sourceIndex).inputs && Shows(stackTop, stackBottom, inputs)
      modifies memory, this
      decreases rank[sourceIndex], 3
      ensures sourceIndex == old(sourceIndex)
      ensures Finishes(sourceIndex, inputs, old(stateKV))
      ensures In(Finished(sourceIndex, inputs, old(stateKV)), top)
      ensures var g := Finished(sourceIndex, inputs, old(stateKV));
              traces == old(traces) + EmitTree(parentSourceIndex, Node(sourceIndex, g.stack, g.calls))
      ensures forall a | 0 <= a < memory.Length && !Owned(sourceIndex, a) :: memory[a] == old(memory[a])
    {
      hide *;
      var source := sourceIndex % 0x1_0000;
      IndexIsClean(sourceIndex);
      HeaderLoads(source);
      ghost var run := Start(source, inputs, stateKV, traces);
      top := stackTop;
      StartsAt(run, top);

      var sourcesStart := 0x21 + 2 * ByteOf(0, MLoad(image, 0x20)) as int;
      var cursor: int := sourcesStart + Shr(0xf0, MLoad(image, 0x21 + 2 * source));
      var opsLength: nat := ByteOf(0, MLoad(image, cursor));
      cursor := cursor + 4;
      var m := opsLength % 8;
      var end := cursor + (opsLength - m) * 4;
      ghost var first, words, k := cursor, 0, 0;
      assert opsLength == 8 * (opsLength / 8) + m;
      while cursor < end
        invariant k == 8 * words && words <= opsLength / 8 && cursor == first + 4 * k
        invariant At(run, k, top)
        invariant forall a | 0 <= a < memory.Length && !Owned(source, a) :: memory[a] == old(memory[a])
      {
        top := EvalWord(cursor, top, run, k);
        cursor := cursor + 0x20;
        words, k := words + 1, k + 8;
      }
      cursor := cursor - 0x1c;
      end := cursor + m * 4;
      while cursor < end
        invariant k <= opsLength && cursor + 0x1c == first + 4 * k
        invariant At(run, k, top)
        invariant forall a | 0 <= a < memory.Length && !Owned(source, a) :: memory[a] == old(memory[a])
      {
        LaneHolds(source, k, cursor, 7);
        var word := MLoad(image, cursor);
        top := Dispatch(WordLane(word, 7), top, run, k);
        cursor := cursor + 4;
        k := k + 1;
      }
      EndsAt(run, top);
      ghost var g := Finished(source, inputs, run.kv);
      StackTrace(parentSourceIndex, source, top, stackBottom, g);
      EmitNode(run.traces, parentSourceIndex, source, g.stack, g.calls);
    }

    /** The entry point: copies the inputs onto the chosen source's stack, runs
        it, and returns its top items, topmost first, with the cache to persist.
        The result is built in place by writing a length over the word above the
        stack. */
    method Eval4(inputs: seq<Word>, maxOutputs: nat)
      returns (r: Result<(seq<Word>, map<Word, Word>), EvalError>)
      requires Wellformed() && (SourceCount(bytecode) > 0 ==> Ready())
      modifies memory, this
      ensures old(sourceIndex) >= SourceCount(bytecode) ==> r == Err(SourceIndexOutOfBounds(old(sourceIndex)))
      ensures old(sourceIndex) < SourceCount(bytecode) && |inputs| != Sourced(old(sourceIndex)).inputs ==>
                r == Err(InputsLengthMismatch(Sourced(old(sourceIndex)).inputs, |inputs|))
      ensures r.Err? ==> traces == old(traces) && forall a | 0 <= a < memory.Length :: memory[a] == old(memory[a])
      ensures r.Ok? ==> old(sourceIndex) < SourceCount(bytecode) && old(sourceIndex) < |stackBottoms|
      ensures r.Ok? ==>
                forall a | 0 <= a < memory.Length && !Reached(old(sourceIndex), a) :: memory[a] == old(memory[a])
      ensures old(sourceIndex) < SourceCount(bytecode) && |inputs| == Sourced(old(sourceIndex)).inputs ==>
                && old(sourceIndex) < |stackBottoms|
                && Finishes(old(sourceIndex), Reverse(inputs), old(stateKV))
                && var g := Finished(old(sourceIndex), Reverse(inputs), old(stateKV));
                   var source := Sourced(old(sourceIndex));
                   var outputs := if maxOutputs < source.outputs then maxOutputs else source.outputs as nat;
                   && |g.stack| == source.outputs
                   && r == Ok((Top(g.stack, outputs), g.kv))
                   && traces == old(traces) + EmitTree(old(sourceIndex), Node(old(sourceIndex), g.stack, g.calls))
    {
      hide InBounds, Wellformed, Deployable, Ready, Placed, Layout, Environment, Sourced, InStack, Owned, Run, Exec,
        EmitTree, Pow2, SourceCount, Reached;
      IsWellformed();
      if sourceIndex >= SourceCount(bytecode) {
        return Err(SourceIndexOutOfBounds(sourceIndex));
      }
      EntryBounds(sourceIndex);
      ByteFitsWord();
      var sourceInputs, sourceOutputs: nat := SourceAt(bytecode, sourceIndex).inputs, SourceAt(bytecode, sourceIndex).outputs;
      var stackBottom := stackBottoms[sourceIndex];
      if |inputs| != sourceInputs {
        return Err(InputsLengthMismatch(sourceInputs, |inputs|));
      }
      var stackTop := Push(inputs, stackBottom, []);
      assert [] + Reverse(inputs) == Reverse(inputs);
      OutputsReturned(sourceIndex, Reverse(inputs), stateKV);
      stackTop := EvalLoop(sourceIndex, stackTop, stackBottom, Reverse(inputs));
      ghost var g := Finished(sourceIndex, Reverse(inputs), old(stateKV));
      StackReached(sourceIndex, g, stackTop);
      var outputs := if maxOutputs < sourceOutputs then maxOutputs else sourceOutputs;
      var items := ShortenStack(stackTop, outputs, g);
      r := Ok((items, stateKV));
    }

    lemma IsWellformed()
      requires Wellformed()
      ensures Holds(image, bytecode) && InBounds(bytecode)
    {
    }

    /** Turns the top of the stack into an array in place: a length over the word
        above it. */
    method ShortenStack(stackTop: nat, outputs: nat, ghost g: Frame) returns (items: seq<Word>)
      requires Placed() && In(g, stackTop) && 1 <= stackTop && outputs <= |g.stack| && outputs < 0x100
      modifies memory
      ensures items == Top(g.stack, outputs)
      ensures memory[stackTop - 1] == outputs
      ensures forall a | 0 <= a < memory.Length && a != stackTop - 1 :: memory[a] == old(memory[a])
    {
      hide InBounds, Sourced, Layout, Pow2;
      ByteFitsWord();
      var stack := stackTop - 1;
      memory[stack] := outputs;
      items := memory[stackTop..stackTop + outputs];
      assert items == Top(g.stack, outputs);
    }

    lemma StackReached(src: nat, g: Frame, top: nat)
      requires Placed() && src == sourceIndex && In(g, top) && src < |rank|
      ensures Reached(src, top - 1)
      ensures forall a | InStack(src, a) || Owned(src, a) :: Reached(src, a)
    {
      OwnsItsStack(src);
      assert top - 1 == stackBottoms[src] - Sourced(src).allocation - 1 || InStack(src, top - 1);
    }

    /** Indexing and allocation facts for the source to run. */
    lemma EntryBounds(i: nat)
      requires Ready()
      ensures InBounds(bytecode) && Placed() && SourceCount(bytecode) == |stackBottoms|
      ensures i < SourceCount(bytecode) ==>
                && Sourced(i) == SourceAt(bytecode, i)
                && Sourced(i).inputs <= Sourced(i).allocation < stackBottoms[i] <= memory.Length
    {
      if i < SourceCount(bytecode) {
        InputsFit(i);
      }
    }
  }

  /** Moves `n` words from `from` upwards to `bottom` downwards. */
  method PushReversed(memory: array<Word>, from: nat, n: nat, bottom: nat)
    requires from + n <= memory.Length && n <= bottom <= memory.Length
    requires from + n <= bottom - n || bottom <= from
    modifies memory
    ensures forall a | bottom - n <= a < bottom :: memory[a] == old(memory[from + (bottom - 1 - a)])
    ensures forall a | 0 <= a < memory.Length && !(bottom - n <= a < bottom) :: memory[a] == old(memory[a])
  {
    var top, cursor := bottom, from;
    var end := from + n;
    while cursor < end
      invariant from <= cursor <= end && top == bottom - (cursor - from)
      invariant forall a | top <= a < bottom :: memory[a] == old(memory[from + (bottom - 1 - a)])
      invariant forall a | 0 <= a < memory.Length && !(top <= a < bottom) :: memory[a] == old(memory[a])
    {
      top := top - 1;
      memory[top] := memory[cursor];
      cursor := cursor + 1;
    }
  }

  /** Moves `n` words from `from` upwards to `to` upwards. */
  method CopyUp(memory: array<Word>, from: nat, n: nat, to: nat)
    requires from + n <= memory.Length && to + n <= memory.Length
    requires from + n <= to || to + n <= from
    modifies memory
    ensures forall a | to <= a < to + n :: memory[a] == old(memory[from + (a - to)])
    ensures forall a | 0 <= a < memory.Length && !(to <= a < to + n) :: memory[a] == old(memory[a])
  {
    var read, cursor := from, to;
    var end := from + n;
    while read < end
      invariant from <= read <= end && cursor == to + (read - from)
      invariant forall a | to <= a < cursor :: memory[a] == old(memory[from + (a - to)])
      invariant forall a | 0 <= a < memory.Length && !(to <= a < cursor) :: memory[a] == old(memory[a])
    {
      memory[cursor] := memory[read];
      cursor, read := cursor + 1, read + 1;
    }
  }
}
