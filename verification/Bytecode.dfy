/** The byte layout of expression bytecode: a source count, a table of two-byte
    offsets, and per source a four-byte header followed by four-byte ops. */
module Bytecode {
  import opened Words

  /** One op: an opcode index and the 24-bit operand that ends with the op's
      own input and output counts in its top byte. */
  datatype Op = Op(opcode: Byte, operand: nat)

  datatype Source = Source(ops: seq<Op>, allocation: Byte, inputs: Byte, outputs: Byte)

  // ----- operand fields -----

  /** Bits 0-15: a source, constant or stack index. */
  function Index(operand: nat): nat { operand % 0x1_0000 }

  /** Bits 16-19. */
  function OpInputs(operand: nat): nat { operand / 0x1_0000 % 0x10 }

  /** Bits 20 and up. */
  function OpOutputs(operand: nat): nat { operand / 0x10_0000 }

  // ----- layout -----

  function SourceCount(bc: seq<Byte>): nat {
    if bc == [] then 0 else bc[0]
  }

  function SourcesStart(bc: seq<Byte>): nat {
    1 + 2 * SourceCount(bc)
  }

  /** Where the header of source `i` begins. */
  function Header(bc: seq<Byte>, i: nat): nat
    requires 1 + 2 * i + 2 <= |bc|
  {
    SourcesStart(bc) + Val(bc[1 + 2 * i..1 + 2 * i + 2])
  }

  /** The bounds that the structural check establishes before any op is read:
      the offset table and every source lie inside the bytecode. */
  predicate InBounds(bc: seq<Byte>) {
    bc != [] ==>
      && SourcesStart(bc) <= |bc|
      && forall i | 0 <= i < SourceCount(bc) ::
           && Header(bc, i) + 4 <= |bc|
           && Header(bc, i) + 4 + 4 * (bc[Header(bc, i)] as int) <= |bc|
  }

  /** Where the `i`th source has to begin if each begins where the one before it
      ends, and where the bytecode has to end if `i` is the source count. */
  function SourceEnd(bc: seq<Byte>, i: nat): nat
    requires InBounds(bc) && bc != [] && i <= SourceCount(bc)
  {
    if i == 0 then SourcesStart(bc) else Header(bc, i - 1) + 4 + 4 * (bc[Header(bc, i - 1)] as nat)
  }

  /** In bounds, and with no byte to spare: the sources follow one another from the
      offset table to the end of the bytecode. */
  predicate Tight(bc: seq<Byte>): (tight: bool)
    ensures tight ==> InBounds(bc)
  {
    && InBounds(bc)
    && (bc != [] ==>
          && (forall i | 0 <= i < SourceCount(bc) :: Header(bc, i) == SourceEnd(bc, i))
          && SourceEnd(bc, SourceCount(bc)) == |bc|)
  }

  /** Every header declares no fewer outputs than inputs and no less allocation than
      outputs. */
  predicate Sized(bc: seq<Byte>)
    requires InBounds(bc)
  {
    forall i | 0 <= i < SourceCount(bc) ::
      SourceAt(bc, i).inputs <= SourceAt(bc, i).outputs <= SourceAt(bc, i).allocation
  }

  function OpsCount(bc: seq<Byte>, i: nat): Byte
    requires InBounds(bc) && i < SourceCount(bc)
  {
    bc[Header(bc, i)]
  }

  function OpAt(bc: seq<Byte>, i: nat, k: nat): Op
    requires InBounds(bc) && i < SourceCount(bc) && k < OpsCount(bc, i)
  {
    var a := Header(bc, i) + 4 + 4 * k;
    Op(bc[a], Val(bc[a + 1..a + 4]))
  }

  function SourceAt(bc: seq<Byte>, i: nat): Source
    requires InBounds(bc) && i < SourceCount(bc)
  {
    var h := Header(bc, i);
    Source(seq(OpsCount(bc, i), k requires 0 <= k < OpsCount(bc, i) => OpAt(bc, i, k)),
           bc[h + 1], bc[h + 2], bc[h + 3])
  }

  /** The sources that a structurally valid bytecode describes. */
  function Sources(bc: seq<Byte>): (r: seq<Source>)
    requires InBounds(bc)
    ensures |r| == SourceCount(bc)
  {
    seq(SourceCount(bc), i requires 0 <= i < SourceCount(bc) => SourceAt(bc, i))
  }

  // ----- reading it back out of memory -----

  /** Memory, addressed from the bytecode pointer: a length word, the bytes
      themselves, and then whatever follows them. */
  predicate Holds(image: seq<Byte>, bc: seq<Byte>) {
    && 0x20 + |bc| <= |image|
    && Val(image[..0x20]) == |bc|
    && image[0x20..0x20 + |bc|] == bc
  }

  /** The op in the `lane`-th group of four bytes of a loaded word, lane 0 being
      the high end. */
  function WordLane(word: nat, lane: nat): Op
    requires lane < 8
  {
    Op(ByteOf(4 * lane, word), Mask(24, Shr(0xe0 - 0x20 * lane, word)))
  }

  function LaneOp(image: seq<Byte>, cursor: nat, lane: nat): Op
    requires lane < 8
  {
    WordLane(MLoad(image, cursor), lane)
  }

  lemma HeldByte(image: seq<Byte>, bc: seq<Byte>, a: nat)
    requires Holds(image, bc) && a < |bc|
    ensures MemByte(image, 0x20 + a) == bc[a]
  {
    assert image[0x20..0x20 + |bc|][a] == bc[a];
  }

  lemma HeldSlice(image: seq<Byte>, bc: seq<Byte>, a: nat, n: nat)
    requires Holds(image, bc) && a + n <= |bc|
    ensures MemSlice(image, 0x20 + a, n) == bc[a..a + n]
  {
    var got := MemSlice(image, 0x20 + a, n);
    forall j | 0 <= j < n
      ensures got[j] == bc[a..a + n][j]
    {
      HeldByte(image, bc, a + j);
    }
  }

  /** The length word. */
  lemma HeldLength(image: seq<Byte>, bc: seq<Byte>)
    requires Holds(image, bc)
    ensures MLoad(image, 0) == |bc|
  {
    assert MemSlice(image, 0, 0x20) == image[..0x20];
  }

  /** Any aligned or shifted cursor whose lane covers an op decodes that op:
      the one fact behind the integrity cursor, the eight-lane main loop and the
      shifted remainder loop. */
  lemma LaneIsOp(image: seq<Byte>, bc: seq<Byte>, i: nat, k: nat, cursor: nat, lane: nat)
    requires Holds(image, bc) && InBounds(bc)
    requires i < SourceCount(bc) && k < OpsCount(bc, i) && lane < 8
    requires cursor + 4 * lane == 0x20 + Header(bc, i) + 4 + 4 * k
    ensures LaneOp(image, cursor, lane) == OpAt(bc, i, k)
  {
    var a := Header(bc, i) + 4 + 4 * k;
    ByteOfMLoad(image, cursor, 4 * lane);
    HeldByte(image, bc, a);
    WindowOfMLoad(image, cursor, 4 * lane + 1, 4 * lane + 4);
    HeldSlice(image, bc, a + 1, 3);
  }

  /** The source count byte, as the loops load it. */
  lemma CountLoads(image: seq<Byte>, bc: seq<Byte>)
    requires Holds(image, bc) && bc != []
    ensures ByteOf(0, MLoad(image, 0x20)) == SourceCount(bc)
  {
    ByteOfMLoad(image, 0x20, 0);
    HeldByte(image, bc, 0);
  }

  /** The two-byte offset of a source, as the loops load it. */
  lemma OffsetLoads(image: seq<Byte>, bc: seq<Byte>, i: nat)
    requires Holds(image, bc) && InBounds(bc) && i < SourceCount(bc)
    ensures SourcesStart(bc) + Shr(0xf0, MLoad(image, 0x21 + 2 * i)) == Header(bc, i)
  {
    PrefixOfMLoad(image, 0x21 + 2 * i, 2);
    HeldSlice(image, bc, 1 + 2 * i, 2);
  }

  /** A header byte, as the loops load it. */
  lemma HeaderByteLoads(image: seq<Byte>, bc: seq<Byte>, i: nat, j: nat)
    requires Holds(image, bc) && InBounds(bc) && i < SourceCount(bc) && j < 4
    ensures ByteOf(j, MLoad(image, 0x20 + Header(bc, i))) == bc[Header(bc, i) + j]
  {
    ByteOfMLoad(image, 0x20 + Header(bc, i), j);
    HeldByte(image, bc, Header(bc, i) + j);
  }

  /** The second byte of an op is the top byte of its operand, so the counts
      read from either agree. */
  lemma IoByteIsOperandTop(image: seq<Byte>, bc: seq<Byte>, i: nat, k: nat, cursor: nat)
    requires Holds(image, bc) && InBounds(bc)
    requires i < SourceCount(bc) && k < OpsCount(bc, i)
    requires cursor + 28 == 0x20 + Header(bc, i) + 4 + 4 * k
    ensures ByteOf(29, MLoad(image, cursor)) % 0x10 == OpInputs(OpAt(bc, i, k).operand)
    ensures ByteOf(29, MLoad(image, cursor)) / 0x10 == OpOutputs(OpAt(bc, i, k).operand)
  {
    var a := Header(bc, i) + 4 + 4 * k;
    assert ByteOf(29, MLoad(image, cursor)) == bc[a + 1] by {
      ByteOfMLoad(image, cursor, 29);
      HeldByte(image, bc, a + 1);
    }
    hide InBounds, Holds, ByteOf, MLoad, Val;
    var b := bc[a + 1..a + 4];
    assert OpAt(bc, i, k).operand == Val(b);
    ThreeBytes(b);
    TopByteFields(Val(b), b[0], b[1], b[2]);
  }

  lemma TopByteFields(v: nat, b0: Byte, b1: Byte, b2: Byte)
    requires v == (b0 as int) * 0x1_0000 + (b1 as int) * 0x100 + b2
    ensures OpInputs(v) == b0 % 0x10 && OpOutputs(v) == b0 / 0x10
  {
    assert v / 0x1_0000 == b0;
    assert v / 0x10_0000 == b0 / 0x10;
  }

  lemma ThreeBytes(b: seq<Byte>)
    requires |b| == 3
    ensures Val(b) == (b[0] as int) * 0x1_0000 + (b[1] as int) * 0x100 + b[2]
  {
    assert b[..2][..1] == b[..1];
    assert b[..1][..0] == [];
    assert Val(b[..1]) == b[0];
    assert Val(b[..2]) == (b[0] as int) * 0x100 + b[1];
  }

  lemma TwoByteValue(b: seq<Byte>)
    requires |b| == 2
    ensures Val(b) == (b[0] as int) * 0x100 + b[1]
  {
    assert b[..1][..0] == [];
    assert Val(b[..1]) == b[0];
  }

  /** The fields of an op in its four bytes: the opcode, the counts in the nibbles of
      the second byte, and a big-endian index in the last two. */
  lemma OpFields(bc: seq<Byte>, i: nat, k: nat)
    requires InBounds(bc) && i < SourceCount(bc) && k < OpsCount(bc, i)
    ensures var op, a := OpAt(bc, i, k), Header(bc, i) + 4 + 4 * k;
            && a + 4 <= |bc|
            && op.opcode == bc[a] && op.operand == Val(bc[a + 1..a + 4])
            && OpInputs(op.operand) == bc[a + 1] % 0x10 && OpOutputs(op.operand) == bc[a + 1] / 0x10
            && Index(op.operand) == Val(bc[a + 2..a + 4]) == (bc[a + 2] as int) * 0x100 + bc[a + 3]
  {
    hide Val, Header;
    var a := Header(bc, i) + 4 + 4 * k;
    var b := bc[a + 1..a + 4];
    ThreeBytes(b);
    TwoByteValue(bc[a + 2..a + 4]);
    TopByteFields(Val(b), b[0], b[1], b[2]);
    OperandPacks((b[1] as int) * 0x100 + b[2], b[0] % 0x10, b[0] / 0x10);
    assert (b[0] as int / 0x10) * 0x10_0000 + (b[0] as int % 0x10) * 0x1_0000 == (b[0] as int) * 0x1_0000;
  }

  /** The three fields of an operand are the numbers it was packed from. */
  lemma OperandPacks(index: nat, inputs: nat, outputs: nat)
    requires index < 0x1_0000 && inputs < 0x10 && outputs < 0x10
    ensures var operand := outputs * 0x10_0000 + inputs * 0x1_0000 + index;
            Index(operand) == index && OpInputs(operand) == inputs && OpOutputs(operand) == outputs
  {
    var operand := outputs * 0x10_0000 + inputs * 0x1_0000 + index;
    assert operand / 0x1_0000 == outputs * 0x10 + inputs;
  }

  /** The fields of a source in its header, and where the header is. */
  lemma SourceFields(bc: seq<Byte>, i: nat)
    requires InBounds(bc) && bc != [] && i < SourceCount(bc)
    ensures SourceCount(bc) == bc[0] && 1 + 2 * i + 2 <= |bc|
    ensures Header(bc, i) == 1 + 2 * (bc[0] as int) + Val(bc[1 + 2 * i..1 + 2 * i + 2])
    ensures var source, h := SourceAt(bc, i), Header(bc, i);
            && h + 4 + 4 * (bc[h] as int) <= |bc|
            && |source.ops| == bc[h] && source.allocation == bc[h + 1]
            && source.inputs == bc[h + 2] && source.outputs == bc[h + 3]
            && forall k | 0 <= k < |source.ops| :: source.ops[k] == OpAt(bc, i, k)
  {}
}
