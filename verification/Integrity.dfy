/** The deploy-time integrity walk: it simulates the stack height of every
    source and rejects bytecode whose declared shape it cannot confirm. */
module Integrity {
  import opened Words
  import opened Bytecode
  import opened Ops

  datatype IntegrityError =
    | MalformedBytecode
    | OpcodeOutOfRange(opIndex: nat, opcodeIndex: nat, fsCount: nat)
    | BadOpInputsLength(opIndex: nat, calculated: nat, declared: nat)
    | BadOpOutputsLength(opIndex: nat, calculated: nat, declared: nat)
    | StackUnderflow(opIndex: nat, stackIndex: nat, calculatedInputs: nat)
    | StackUnderflowHighwater(opIndex: nat, stackIndex: nat, stackHighwater: nat)
    | StackAllocationMismatch(stackMaxIndex: nat, bytecodeAllocation: nat)
    | StackOutputsMismatch(stackIndex: nat, bytecodeOutputs: nat)
    | OutOfBoundsConstantRead(opIndex: nat, constantsLength: nat, constantRead: nat)
    | OutOfBoundsStackRead(opIndex: nat, stackTopIndex: nat, stackRead: nat)
    | SourceIndexOutOfBounds(sourceIndex: nat)
    | CallOutputsExceedSource(sourceOutputs: nat, outputs: nat)
    | OperandRejected(operand: nat)

  // ----- the specification, on decoded sources -----

  /** Everything an integrity function may consult besides the walk itself. */
  datatype Context = Context(fs: seq<OpImpl>, sources: seq<Source>, constantsLength: nat)

  datatype Walk = Walk(stackIndex: nat, stackMaxIndex: nat, readHighwater: nat, opIndex: nat)

  function NewState(inputs: nat): Walk {
    Walk(inputs, inputs, inputs, 0)
  }

  /** What one op declares: its inputs, its outputs, and the highwater after its
      own integrity function has run. */
  datatype Declared = Declared(inputs: nat, outputs: nat, highwater: nat)

  function Declares(c: Context, impl: OpImpl, operand: nat, w: Walk): Result<Declared, IntegrityError> {
    match impl
    case StackRead =>
      var readIndex := Index(operand);
      if readIndex >= w.stackIndex then
        Err(OutOfBoundsStackRead(w.opIndex, w.stackIndex, readIndex))
      else
        Ok(Declared(0, 1, if readIndex > w.readHighwater then readIndex else w.readHighwater))
    case ConstantRead =>
      if Index(operand) >= c.constantsLength then
        Err(OutOfBoundsConstantRead(w.opIndex, c.constantsLength, Index(operand)))
      else
        Ok(Declared(0, 1, w.readHighwater))
    case CallSource =>
      if Index(operand) >= |c.sources| then
        Err(SourceIndexOutOfBounds(Index(operand)))
      else if c.sources[Index(operand)].outputs < OpOutputs(operand) then
        Err(CallOutputsExceedSource(c.sources[Index(operand)].outputs, OpOutputs(operand)))
      else
        Ok(Declared(c.sources[Index(operand)].inputs, OpOutputs(operand), w.readHighwater))
    case StateGet => Ok(Declared(1, 1, w.readHighwater))
    case StateSet => Ok(Declared(2, 0, w.readHighwater))
    case Other(io, _) =>
      match io(operand)
      case None => Err(OperandRejected(operand))
      case Some((inputs, outputs)) => Ok(Declared(inputs, outputs, w.readHighwater))
  }

  function CheckOp(c: Context, op: Op, w: Walk): Result<Walk, IntegrityError> {
    if op.opcode >= |c.fs| then Err(OpcodeOutOfRange(w.opIndex, op.opcode, |c.fs|)) else
    match Declares(c, c.fs[op.opcode], op.operand, w)
    case Err(e) => Err(e)
    case Ok(d) =>
      if d.inputs != OpInputs(op.operand) then
        Err(BadOpInputsLength(w.opIndex, d.inputs, OpInputs(op.operand)))
      else if d.outputs != OpOutputs(op.operand) then
        Err(BadOpOutputsLength(w.opIndex, d.outputs, OpOutputs(op.operand)))
      else if d.inputs > w.stackIndex then
        Err(StackUnderflow(w.opIndex, w.stackIndex, d.inputs))
      else if w.stackIndex - d.inputs < d.highwater then
        Err(StackUnderflowHighwater(w.opIndex, w.stackIndex - d.inputs, d.highwater))
      else
        var height := w.stackIndex - d.inputs + d.outputs;
        Ok(Walk(height,
                if height > w.stackMaxIndex then height else w.stackMaxIndex,
                if d.outputs > 1 then height else d.highwater,
                w.opIndex + 1))
  }

  /** The walk after the first `k` ops of `source`, or the first error. */
  function WalkTo(c: Context, source: Source, k: nat): Result<Walk, IntegrityError>
    requires k <= |source.ops|
  {
    if k == 0 then Ok(NewState(source.inputs)) else
    match WalkTo(c, source, k - 1)
    case Err(e) => Err(e)
    case Ok(w) => CheckOp(c, source.ops[k - 1], w)
  }

  function CheckSource(c: Context, source: Source): Result<Walk, IntegrityError> {
    match WalkTo(c, source, |source.ops|)
    case Err(e) => Err(e)
    case Ok(w) =>
      if w.stackMaxIndex != source.allocation then
        Err(StackAllocationMismatch(w.stackMaxIndex, source.allocation))
      else if w.stackIndex != source.outputs then
        Err(StackOutputsMismatch(w.stackIndex, source.outputs))
      else
        Ok(w)
  }

  /** The packed inputs and outputs of the first `n` sources, or the first error. */
  function CheckSources(c: Context, n: nat): Result<seq<Byte>, IntegrityError>
    requires n <= |c.sources|
  {
    if n == 0 then Ok([]) else
    match CheckSources(c, n - 1)
    case Err(e) => Err(e)
    case Ok(io) =>
      match CheckSource(c, c.sources[n - 1])
      case Err(e) => Err(e)
      case Ok(_) => Ok(io + [c.sources[n - 1].inputs, c.sources[n - 1].outputs])
  }

  function CheckBytecode(fs: seq<OpImpl>, bc: seq<Byte>, constantsLength: nat): Result<seq<Byte>, IntegrityError> {
    if !Tight(bc) || !Sized(bc) then Err(MalformedBytecode)
    else CheckSources(Context(fs, Sources(bc), constantsLength), SourceCount(bc))
  }

  /** Every source passes. */
  predicate Accepted(c: Context) {
    forall i | 0 <= i < |c.sources| :: CheckSource(c, c.sources[i]).Ok?
  }

  // ----- errors are final -----

  lemma {:induction false} WalkErrorPersists(c: Context, source: Source, k: nat, m: nat)
    requires k <= m <= |source.ops|
    requires WalkTo(c, source, k).Err?
    ensures WalkTo(c, source, m) == WalkTo(c, source, k)
    decreases m - k
  {
    if k < m {
      WalkErrorPersists(c, source, k, m - 1);
    }
  }

  lemma {:induction false} CheckErrorPersists(c: Context, k: nat, m: nat)
    requires k <= m <= |c.sources|
    requires CheckSources(c, k).Err?
    ensures CheckSources(c, m) == CheckSources(c, k)
    decreases m - k
  {
    if k < m {
      CheckErrorPersists(c, k, m - 1);
    }
  }

  /** The check succeeds exactly when every source does, and then reports each
      source's declared inputs and outputs at twice its index. */
  lemma {:induction false} CheckSourcesIff(c: Context, n: nat)
    requires n <= |c.sources|
    ensures CheckSources(c, n).Ok? <==> forall i | 0 <= i < n :: CheckSource(c, c.sources[i]).Ok?
    ensures CheckSources(c, n).Ok? ==>
              && |CheckSources(c, n).value| == 2 * n
              && forall i | 0 <= i < n ::
                   && CheckSources(c, n).value[2 * i] == c.sources[i].inputs
                   && CheckSources(c, n).value[2 * i + 1] == c.sources[i].outputs
  {
    hide CheckSource;
    if n == 0 {
    } else {
      CheckSourcesIff(c, n - 1);
    }
  }

  // ----- what an error says -----

  /** Every error of one op tells the truth about it, and its conditions exclude the
      ones of the errors that are looked for earlier: which error an op meets, and
      with what arguments, follows from the op, the table and the walk so far. */
  lemma OpErrorMeans(c: Context, op: Op, w: Walk, e: IntegrityError)
    requires CheckOp(c, op, w) == Err(e)
    ensures var known := op.opcode < |c.fs|;
            var inputs, outputs, index := OpInputs(op.operand), OpOutputs(op.operand), Index(op.operand);
            match e
            case OpcodeOutOfRange(i, opcode, count) =>
              !known && i == w.opIndex && opcode == op.opcode && count == |c.fs|
            case OutOfBoundsStackRead(i, height, read) =>
              known && c.fs[op.opcode].StackRead? && index >= w.stackIndex
              && i == w.opIndex && height == w.stackIndex && read == index
            case OutOfBoundsConstantRead(i, length, read) =>
              known && c.fs[op.opcode].ConstantRead? && index >= c.constantsLength
              && i == w.opIndex && length == c.constantsLength && read == index
            case SourceIndexOutOfBounds(called) =>
              known && c.fs[op.opcode].CallSource? && index >= |c.sources| && called == index
            case CallOutputsExceedSource(has, asked) =>
              known && c.fs[op.opcode].CallSource? && index < |c.sources|
              && has == c.sources[index].outputs < outputs == asked
            case OperandRejected(operand) =>
              known && c.fs[op.opcode].Other? && c.fs[op.opcode].io(op.operand).None? && operand == op.operand
            case BadOpInputsLength(i, calculated, declared) =>
              known && Takes(c, op, calculated) && calculated != inputs && i == w.opIndex && declared == inputs
            case BadOpOutputsLength(i, calculated, declared) =>
              known && Takes(c, op, inputs) && Gives(c, op, calculated) && calculated != outputs
              && i == w.opIndex && declared == outputs
            case StackUnderflow(i, height, calculated) =>
              known && Takes(c, op, inputs) && Gives(c, op, outputs) && inputs > w.stackIndex
              && i == w.opIndex && height == w.stackIndex && calculated == inputs
            case StackUnderflowHighwater(i, left, highwater) =>
              known && Takes(c, op, inputs) && Gives(c, op, outputs) && inputs <= w.stackIndex
              && i == w.opIndex && left == w.stackIndex - inputs < highwater
              && highwater == if c.fs[op.opcode].StackRead? && index > w.readHighwater then index else w.readHighwater
            case _ => false
  {
    hide Index, OpInputs, OpOutputs;
  }

  /** How many items the op table says an op takes, if it says so. */
  predicate Takes(c: Context, op: Op, n: nat)
    requires op.opcode < |c.fs|
  {
    match c.fs[op.opcode]
    case StackRead => n == 0
    case ConstantRead => n == 0
    case CallSource => Index(op.operand) < |c.sources| && n == c.sources[Index(op.operand)].inputs
    case StateGet => n == 1
    case StateSet => n == 2
    case Other(io, _) => io(op.operand).Some? && n == io(op.operand).value.0
  }

  /** How many it gives; a call gives what its operand asks for. */
  predicate Gives(c: Context, op: Op, n: nat)
    requires op.opcode < |c.fs|
  {
    match c.fs[op.opcode]
    case StackRead => n == 1
    case ConstantRead => n == 1
    case CallSource => n == OpOutputs(op.operand)
    case StateGet => n == 1
    case StateSet => n == 0
    case Other(io, _) => io(op.operand).Some? && n == io(op.operand).value.1
  }

  /** An error of a walk is the error of its first bad op, at that op's own index. */
  lemma {:induction false} WalkErrorNamesOp(c: Context, source: Source, m: nat) returns (k: nat)
    requires m <= |source.ops| && WalkTo(c, source, m).Err?
    ensures k < m && WalkTo(c, source, k).Ok? && WalkTo(c, source, k).value.opIndex == k
    ensures CheckOp(c, source.ops[k], WalkTo(c, source, k).value) == WalkTo(c, source, m)
  {
    hide CheckOp;
    if WalkTo(c, source, m - 1).Err? {
      k := WalkErrorNamesOp(c, source, m - 1);
    } else {
      k := m - 1;
      WalkCounts(c, source, m - 1);
    }
  }

  lemma {:induction false} WalkCounts(c: Context, source: Source, k: nat)
    requires k <= |source.ops| && WalkTo(c, source, k).Ok?
    ensures WalkTo(c, source, k).value.opIndex == k
  {
    if k == 0 {
    } else {
      WalkCounts(c, source, k - 1);
    }
  }

  /** An error of a source is its walk's, or else a header whose allocation is not the
      peak, or whose outputs, when the allocation is, are not the final height. */
  lemma SourceErrorMeans(c: Context, source: Source)
    ensures match WalkTo(c, source, |source.ops|)
            case Err(e) => CheckSource(c, source) == Err(e)
            case Ok(w) =>
              && (w.stackMaxIndex != source.allocation ==>
                    CheckSource(c, source) == Err(StackAllocationMismatch(w.stackMaxIndex, source.allocation)))
              && (w.stackMaxIndex == source.allocation && w.stackIndex != source.outputs ==>
                    CheckSource(c, source) == Err(StackOutputsMismatch(w.stackIndex, source.outputs)))
  {
    hide CheckOp;
  }

  /** The error of the whole check is the first bad source's. */
  lemma {:induction false} FirstSourceError(c: Context, n: nat) returns (i: nat)
    requires n <= |c.sources| && CheckSources(c, n).Err?
    ensures i < n && CheckSource(c, c.sources[i]).Err?
    ensures CheckSources(c, n) == Err(CheckSource(c, c.sources[i]).error)
    ensures forall j | 0 <= j < i :: CheckSource(c, c.sources[j]).Ok?
  {
    hide CheckSource;
    if CheckSources(c, n - 1).Err? {
      i := FirstSourceError(c, n - 1);
    } else {
      i := n - 1;
      CheckSourcesIff(c, n - 1);
    }
  }

  /** Bytecode is malformed exactly when its layout is loose or some header's counts
      are out of order, whatever its ops are. */
  lemma MalformedMeans(fs: seq<OpImpl>, bc: seq<Byte>, constantsLength: nat)
    ensures CheckBytecode(fs, bc, constantsLength) == Err(MalformedBytecode) <==>
            !Tight(bc) || exists i | 0 <= i < SourceCount(bc) ::
              !(SourceAt(bc, i).inputs <= SourceAt(bc, i).outputs <= SourceAt(bc, i).allocation)
  {
    hide Tight, CheckSource, InBounds, SourceAt;
    if Tight(bc) && Sized(bc) {
      var c := Context(fs, Sources(bc), constantsLength);
      if CheckSources(c, SourceCount(bc)).Err? {
        var i := FirstSourceError(c, SourceCount(bc));
        NotMalformed(c, c.sources[i]);
      }
    }
  }

  lemma NotMalformed(c: Context, source: Source)
    ensures CheckSource(c, source) != Err(MalformedBytecode)
  {
    hide CheckOp;
    SourceErrorMeans(c, source);
    if WalkTo(c, source, |source.ops|).Err? {
      var k := WalkErrorNamesOp(c, source, |source.ops|);
      OpErrorMeans(c, source.ops[k], WalkTo(c, source, k).value, WalkTo(c, source, |source.ops|).error);
    }
  }

  // ----- the walk as the deployer performs it -----

  /** The mutable record that the walk threads through one source. */
  class IntegrityCheckState {
    var stackIndex: nat
    var stackMaxIndex: nat
    var readHighwater: nat
    var opIndex: nat
    const constants: seq<Word>
    const bytecode: seq<Byte>

    constructor (bytecode: seq<Byte>, stackIndex: nat, constants: seq<Word>)
      ensures View() == NewState(stackIndex)
      ensures this.bytecode == bytecode && this.constants == constants
    {
      this.stackIndex := stackIndex;
      this.stackMaxIndex := stackIndex;
      this.readHighwater := stackIndex;
      this.opIndex := 0;
      this.constants := constants;
      this.bytecode := bytecode;
    }

    function View(): Walk
      reads this
    {
      Walk(stackIndex, stackMaxIndex, readHighwater, opIndex)
    }

    /** Runs one op's integrity function. Only a stack read changes the record,
        and only by raising the highwater. */
    method OpIntegrity(impl: OpImpl, operand: nat, ghost c: Context)
      returns (r: Result<(nat, nat), IntegrityError>)
      requires InBounds(bytecode) && c.sources == Sources(bytecode) && c.constantsLength == |constants|
      modifies this`readHighwater
      ensures match Declares(c, impl, operand, old(View()))
              case Err(e) => r == Err(e)
              case Ok(d) => r == Ok((d.inputs, d.outputs)) && readHighwater == d.highwater
    {
      match impl
      case StackRead =>
        var readIndex := Index(operand);
        if readIndex >= stackIndex {
          return Err(OutOfBoundsStackRead(opIndex, stackIndex, readIndex));
        }
        if readIndex > readHighwater {
          readHighwater := readIndex;
        }
        r := Ok((0, 1));
      case ConstantRead =>
        if Index(operand) >= |constants| {
          return Err(OutOfBoundsConstantRead(opIndex, |constants|, Index(operand)));
        }
        r := Ok((0, 1));
      case CallSource =>
        var sourceIndex, outputs := Index(operand), OpOutputs(operand);
        if sourceIndex >= SourceCount(bytecode) {
          return Err(SourceIndexOutOfBounds(sourceIndex));
        }
        var callee := SourceAt(bytecode, sourceIndex);
        if callee.outputs < outputs {
          return Err(CallOutputsExceedSource(callee.outputs, outputs));
        }
        r := Ok((callee.inputs, outputs));
      case StateGet =>
        r := Ok((1, 1));
      case StateSet =>
        r := Ok((2, 0));
      case Other(io, _) =>
        match io(operand)
        case None => r := Err(OperandRejected(operand));
        case Some((inputs, outputs)) => r := Ok((inputs, outputs));
    }

    /** Checks the op under `cursor` and advances the record past it. */
    method CheckOneOp(fs: seq<OpImpl>, image: seq<Byte>, cursor: nat, ghost c: Context, ghost i: nat, ghost k: nat)
      returns (failure: Option<IntegrityError>)
      requires Holds(image, bytecode) && InBounds(bytecode)
      requires c == Context(fs, Sources(bytecode), |constants|)
      requires i < SourceCount(bytecode) && k < OpsCount(bytecode, i)
      requires cursor + 0x18 == 0x20 + Header(bytecode, i) + 4 * k
      modifies this
      ensures match CheckOp(c, OpAt(bytecode, i, k), old(View()))
              case Err(e) => failure == Some(e)
              case Ok(w) => failure == None && View() == w
    {
      hide Holds, InBounds, OpAt, LaneOp, MLoad, ByteOf, Sources;
      LaneIsOp(image, bytecode, i, k, cursor, 7);
      IoByteIsOperandTop(image, bytecode, i, k, cursor);
      var op := LaneOp(image, cursor, 7);
      var ioByte := ByteOf(29, MLoad(image, cursor));
      var bytecodeOpInputs, bytecodeOpOutputs := ioByte % 0x10, ioByte / 0x10;
      if op.opcode >= |fs| {
        return Some(OpcodeOutOfRange(opIndex, op.opcode, |fs|));
      }
      var declared := OpIntegrity(fs[op.opcode], op.operand, c);
      if declared.Err? {
        return Some(declared.error);
      }
      var (calcOpInputs, calcOpOutputs) := declared.value;
      if calcOpInputs != bytecodeOpInputs {
        return Some(BadOpInputsLength(opIndex, calcOpInputs, bytecodeOpInputs));
      }
      if calcOpOutputs != bytecodeOpOutputs {
        return Some(BadOpOutputsLength(opIndex, calcOpOutputs, bytecodeOpOutputs));
      }
      if calcOpInputs > stackIndex {
        return Some(StackUnderflow(opIndex, stackIndex, calcOpInputs));
      }
      stackIndex := stackIndex - calcOpInputs;
      if stackIndex < readHighwater {
        return Some(StackUnderflowHighwater(opIndex, stackIndex, readHighwater));
      }
      stackIndex := stackIndex + calcOpOutputs;
      if stackIndex > stackMaxIndex {
        stackMaxIndex := stackIndex;
      }
      if calcOpOutputs > 1 {
        readHighwater := stackIndex;
      }
      opIndex := opIndex + 1;
      failure := None;
    }

    /** Walks every op of source `i` and compares the result with its header. */
    method CheckOneSource(fs: seq<OpImpl>, image: seq<Byte>, i: nat, ghost c: Context)
      returns (failure: Option<IntegrityError>)
      requires Holds(image, bytecode) && InBounds(bytecode)
      requires c == Context(fs, Sources(bytecode), |constants|)
      requires i < SourceCount(bytecode) && View() == NewState(c.sources[i].inputs)
      modifies this
      ensures match CheckSource(c, c.sources[i])
              case Err(e) => failure == Some(e)
              case Ok(_) => failure == None
    {
      hide CheckOp;
      ghost var source := c.sources[i];
      var header := Header(bytecode, i);
      var cursor := 0x20 + header - 0x18;
      var end := cursor + 4 * OpsCount(bytecode, i) as int;
      ghost var k := 0;
      while cursor < end
        invariant 0 <= k <= |source.ops|
        invariant cursor + 0x18 == 0x20 + header + 4 * k
        invariant WalkTo(c, source, k) == Ok(View())
      {
        assert source.ops[k] == OpAt(bytecode, i, k);
        failure := CheckOneOp(fs, image, cursor, c, i, k);
        k := k + 1;
        if failure.Some? {
          WalkErrorPersists(c, source, k, |source.ops|);
          return;
        }
        cursor := cursor + 4;
      }
      var allocation, outputsLength := bytecode[header + 1], bytecode[header + 3];
      if stackMaxIndex != allocation {
        return Some(StackAllocationMismatch(stackMaxIndex, allocation));
      }
      if stackIndex != outputsLength {
        return Some(StackOutputsMismatch(stackIndex, outputsLength));
      }
      failure := None;
    }
  }

  /** The deployer's entry point: returns the packed inputs and outputs of every
      source, or the first error in source and op order. */
  method IntegrityCheck2(fs: seq<OpImpl>, image: seq<Byte>, bytecode: seq<Byte>, constants: seq<Word>)
    returns (r: Result<seq<Byte>, IntegrityError>)
    requires Holds(image, bytecode)
    ensures r == CheckBytecode(fs, bytecode, |constants|)
  {
    hide CheckSource, InBounds, Holds, SourceAt, Sized, Tight;
    if !Tight(bytecode) || !Sized(bytecode) {
      return Err(MalformedBytecode);
    }
    ghost var c := Context(fs, Sources(bytecode), |constants|);
    var sourceCount := SourceCount(bytecode);
    var io := new Byte[2 * sourceCount];
    var ioCursor := 0;
    for i := 0 to sourceCount
      invariant ioCursor == 2 * i
      invariant CheckSources(c, i) == Ok(io[..ioCursor])
    {
      var source := SourceAt(bytecode, i);
      var inputsLength, outputsLength := source.inputs, source.outputs;
      io[ioCursor], io[ioCursor + 1] := inputsLength, outputsLength;
      assert io[..ioCursor + 2] == io[..ioCursor] + [inputsLength, outputsLength];
      ioCursor := ioCursor + 2;
      var state := new IntegrityCheckState(bytecode, inputsLength, constants);
      var failure := state.CheckOneSource(fs, image, i, c);
      if failure.Some? {
        CheckErrorPersists(c, i + 1, sourceCount);
        return Err(failure.value);
      }
    }
    assert io[..ioCursor] == io[..];
    r := Ok(io[..]);
  }
}
