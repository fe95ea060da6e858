/** Tables of two-byte function pointers in memory, and the contracts that
    dispatch through them: externs and sub parsers. */
module PointerTables {
  import opened Words
  import opened Ops

  /** The `i`th big-endian two-byte entry. */
  function Entry(data: seq<Byte>, i: nat): nat
    requires 2 * i + 2 <= |data|
  {
    Val(data[2 * i..2 * i + 2])
  }

  /** A byte array at address `a`: its length word, then its bytes. */
  predicate BytesAt(mem: seq<Byte>, a: nat, data: seq<Byte>) {
    && a + 32 + |data| <= |mem|
    && MLoad(mem, a) == |data|
    && mem[a + 32..a + 32 + |data|] == data
  }

  /** The load that starts at the entry and keeps the top 16 bits. */
  function HighBitsLoad(mem: seq<Byte>, start: nat, i: nat): nat {
    Shr(0xf0, MLoad(mem, start + 2 * i))
  }

  /** The load that ends at the entry and keeps the low 16 bits. */
  function LowBitsLoad(mem: seq<Byte>, table: nat, i: nat): nat {
    Mask(16, MLoad(mem, table + 2 * (i + 1)))
  }

  lemma SliceIsEntry(mem: seq<Byte>, table: nat, data: seq<Byte>, i: nat)
    requires BytesAt(mem, table, data) && 2 * i + 2 <= |data|
    ensures MemSlice(mem, table + 32 + 2 * i, 2) == data[2 * i..2 * i + 2]
  {
    hide MLoad;
    var stored := mem[table + 32..table + 32 + |data|];
    assert stored[2 * i] == mem[table + 32 + 2 * i] && stored[2 * i + 1] == mem[table + 32 + 2 * i + 1];
    var got := MemSlice(mem, table + 32 + 2 * i, 2);
    assert got[0] == MemByte(mem, table + 32 + 2 * i + 0) && got[1] == MemByte(mem, table + 32 + 2 * i + 1);
    assert got[0] == stored[2 * i] && got[1] == stored[2 * i + 1];
    assert got == data[2 * i..2 * i + 2];
  }

  lemma EntryIsBigEndian(data: seq<Byte>, i: nat)
    requires 2 * i + 2 <= |data|
    ensures Entry(data, i) == (data[2 * i] as int) * 0x100 + data[2 * i + 1]
  {
    var b := data[2 * i..2 * i + 2];
    assert b[..1][..0] == [];
    assert Val(b[..1]) == b[0];
  }

  /** Both unaligned loads read the same entry, for every entry of the table. */
  lemma LoadsReadEntry(mem: seq<Byte>, table: nat, data: seq<Byte>, i: nat)
    requires BytesAt(mem, table, data) && 2 * i + 2 <= |data|
    ensures HighBitsLoad(mem, table + 32, i) == Entry(data, i)
    ensures LowBitsLoad(mem, table, i) == Entry(data, i)
  {
    hide MLoad, Mask, Shr, Val;
    SliceIsEntry(mem, table, data, i);
    PrefixOfMLoad(mem, table + 32 + 2 * i, 2);
    WindowOfMLoad(mem, table + 2 * (i + 1), 30, 32);
    ShiftByNothing(MLoad(mem, table + 2 * (i + 1)));
  }

  lemma ShiftByNothing(w: nat)
    ensures Shr(0, w) == w
  {
    DivModUnique(w, w, 0, 1);
  }

  // ----- externs -----

  datatype ExternError =
    | OpcodePointersEmpty
    | PointersMismatch(opcodes: nat, integrity: nat)
    | OpcodeOutOfRange(opcode: nat, count: nat)

  /** The EVM's `mod`. */
  function EvmMod(a: nat, b: nat): nat { if b == 0 then 0 else a % b }

  /** Bits 16-31 of a dispatch. */
  function DispatchOpcode(dispatch: Word): nat { dispatch / 0x1_0000 % 0x1_0000 }

  /** The deployed tables: the constructor refuses an empty opcode table and
      tables of different lengths. */
  function Construct(opcodes: seq<Byte>, integrity: seq<Byte>): (r: Result<(), ExternError>)
    ensures r.Ok? <==> opcodes != [] && |opcodes| == |integrity|
    ensures r.Err? ==>
              r.error == if opcodes == [] then OpcodePointersEmpty else PointersMismatch(|opcodes|, |integrity|)
  {
    if |opcodes| == 0 then Err(OpcodePointersEmpty)
    else if |opcodes| != |integrity| then Err(PointersMismatch(|opcodes|, |integrity|))
    else Ok(())
  }

  /** The entry that `extern` runs: any opcode is reduced to the table. */
  function ExternIndex(length: nat, opcode: nat): nat {
    EvmMod(opcode, length / 2)
  }

  /** The pointer `extern` jumps to, for a table in memory. */
  function ExternPointer(mem: seq<Byte>, table: nat, dispatch: Word): nat {
    HighBitsLoad(mem, table + 32, ExternIndex(MLoad(mem, table), DispatchOpcode(dispatch)))
  }

  /** The pointer `externIntegrity` jumps to, or its refusal. */
  function IntegrityPointer(mem: seq<Byte>, table: nat, dispatch: Word): Result<nat, ExternError> {
    var opcode := DispatchOpcode(dispatch);
    var count := MLoad(mem, table) / 2;
    if opcode >= count then Err(OpcodeOutOfRange(opcode, count)) else Ok(HighBitsLoad(mem, table + 32, opcode))
  }

  /** Over tables the constructor let through, the integrity check accepts a
      dispatch exactly when its opcode has an entry in both tables, and then both
      calls use that same entry. */
  lemma IntegrityAndExternAgree(
      mem: seq<Byte>, opTable: nat, opcodes: seq<Byte>, integrityTable: nat, integrity: seq<Byte>, dispatch: Word)
    requires BytesAt(mem, opTable, opcodes) && BytesAt(mem, integrityTable, integrity)
    requires Construct(opcodes, integrity).Ok?
    ensures var i := DispatchOpcode(dispatch);
            match IntegrityPointer(mem, integrityTable, dispatch)
            case Err(e) => 2 * i + 2 > |opcodes| && e == OpcodeOutOfRange(i, |opcodes| / 2)
            case Ok(p) => 2 * i + 2 <= |opcodes| && p == Entry(integrity, i)
                          && ExternPointer(mem, opTable, dispatch) == Entry(opcodes, i)
  {
    hide MLoad, BytesAt, Entry, DispatchOpcode, IntegrityPointer, ExternPointer, Pow2;
    IntegrityReads(mem, integrityTable, integrity, dispatch);
    if 2 * DispatchOpcode(dispatch) + 2 <= |opcodes| {
      ExternReads(mem, opTable, opcodes, dispatch);
    }
  }

  lemma IntegrityReads(mem: seq<Byte>, table: nat, data: seq<Byte>, dispatch: Word)
    requires BytesAt(mem, table, data)
    ensures var i := DispatchOpcode(dispatch);
            IntegrityPointer(mem, table, dispatch) ==
            if 2 * i + 2 <= |data| then Ok(Entry(data, i)) else Err(OpcodeOutOfRange(i, |data| / 2))
  {
    hide MLoad, HighBitsLoad, LowBitsLoad, Entry, DispatchOpcode, Pow2;
    if 2 * DispatchOpcode(dispatch) + 2 <= |data| {
      LoadsReadEntry(mem, table, data, DispatchOpcode(dispatch));
    }
  }

  /** `extern` runs the entry its opcode names, where the table has one. */
  lemma ExternReads(mem: seq<Byte>, table: nat, data: seq<Byte>, dispatch: Word)
    requires BytesAt(mem, table, data) && 2 * DispatchOpcode(dispatch) + 2 <= |data|
    ensures ExternPointer(mem, table, dispatch) == Entry(data, DispatchOpcode(dispatch))
  {
    hide MLoad, HighBitsLoad, LowBitsLoad, Entry, DispatchOpcode, Pow2, ExternIndex;
    LoadsReadEntry(mem, table, data, DispatchOpcode(dispatch));
    IndexInTable(|data|, DispatchOpcode(dispatch));
  }

  lemma IndexInTable(length: nat, opcode: nat)
    requires 2 * opcode + 2 <= length
    ensures ExternIndex(length, opcode) == opcode
  {}

  lemma PackedOpcode(high: nat, opcode: nat, operand: nat)
    requires opcode < 0x1_0000 && operand < 0x1_0000
    requires high * 0x1_0000_0000 + opcode * 0x1_0000 + operand < Pow2(256)
    ensures DispatchOpcode(high * 0x1_0000_0000 + opcode * 0x1_0000 + operand) == opcode
  {
    hide Pow2;
    var dispatch := high * 0x1_0000_0000 + opcode * 0x1_0000 + operand;
    assert dispatch / 0x1_0000 == high * 0x1_0000 + opcode;
    DivModUnique(high * 0x1_0000 + opcode, high, opcode, 0x1_0000);
  }

  /** What the fields of a dispatch do, in tables of any even length: the entry that
      `extern` runs is the opcode's, counted around the table as often as needed, and
      the integrity check runs its own entry for the opcode or names it. */
  lemma PackedDispatchRuns(
      mem: seq<Byte>, table: nat, data: seq<Byte>, high: nat, opcode: nat, operand: nat, i: nat, turns: nat)
    requires BytesAt(mem, table, data) && 2 * i + 2 <= |data|
    requires opcode < 0x1_0000 && operand < 0x1_0000 && opcode == turns * (|data| / 2) + i
    requires high * 0x1_0000_0000 + opcode * 0x1_0000 + operand < Pow2(256)
    ensures var dispatch := high * 0x1_0000_0000 + opcode * 0x1_0000 + operand;
            && ExternPointer(mem, table, dispatch) == Entry(data, i)
            && IntegrityPointer(mem, table, dispatch) ==
               if turns == 0 then Ok(Entry(data, i)) else Err(OpcodeOutOfRange(opcode, |data| / 2))
  {
    hide *;
    PackedOpcode(high, opcode, operand);
    OpcodeRuns(mem, table, data, high * 0x1_0000_0000 + opcode * 0x1_0000 + operand, opcode, i, turns);
  }

  lemma OpcodeRuns(mem: seq<Byte>, table: nat, data: seq<Byte>, dispatch: Word, opcode: nat, i: nat, turns: nat)
    requires BytesAt(mem, table, data) && 2 * i + 2 <= |data|
    requires DispatchOpcode(dispatch) == opcode == turns * (|data| / 2) + i
    ensures ExternPointer(mem, table, dispatch) == Entry(data, i)
    ensures IntegrityPointer(mem, table, dispatch) ==
            if turns == 0 then Ok(Entry(data, i)) else Err(OpcodeOutOfRange(opcode, |data| / 2))
  {
    hide MLoad, HighBitsLoad, LowBitsLoad, Entry, Pow2, DispatchOpcode, ExternIndex, IntegrityPointer, BytesAt;
    WrappedIndex(|data|, i, turns);
    LengthAt(mem, table, data);
    LoadsReadEntry(mem, table, data, i);
    IntegrityReads(mem, table, data, dispatch);
  }

  lemma LengthAt(mem: seq<Byte>, table: nat, data: seq<Byte>)
    requires BytesAt(mem, table, data)
    ensures MLoad(mem, table) == |data|
  {}

  lemma WrappedIndex(length: nat, i: nat, turns: nat)
    requires 2 * i + 2 <= length
    ensures ExternIndex(length, turns * (length / 2) + i) == i
    ensures turns == 0 ==> turns * (length / 2) + i == i
    ensures turns > 0 ==> 2 * (turns * (length / 2) + i) + 2 > length
  {
    DivModUnique(turns * (length / 2) + i, turns, i, length / 2);
    if turns > 0 {
      MulAtLeast(turns, length / 2);
    }
  }

  /** The constructor lets a one-byte table through, whose single half entry is
      no entry at all: every opcode an extern can be called with, in or out of
      range, lands on a whole entry exactly when the table holds at least one. */
  lemma ExternStaysInTable(length: nat)
    ensures (forall dispatch: Word :: 2 * ExternIndex(length, DispatchOpcode(dispatch)) + 2 <= length)
       <==> length >= 2
  {
    if length < 2 {
      assert 2 * ExternIndex(length, DispatchOpcode(0)) + 2 > length;
    }
  }

  /** The constructor's own check does not rule that case out. */
  lemma HalfEntryTableConstructs(op: Byte, integrity: Byte, dispatch: Word)
    ensures Construct([op], [integrity]).Ok? && 2 * ExternIndex(|[op]|, DispatchOpcode(dispatch)) + 2 > |[op]|
  {}

  // ----- sub parsers -----

  datatype SubParserError = SubParserIndexOutOfBounds(index: nat, count: nat)

  /** The word or literal parser a sub parser selects. */
  function SubParserPointer(mem: seq<Byte>, table: nat, index: nat): Result<nat, SubParserError> {
    var count := MLoad(mem, table) / 2;
    if index >= count then Err(SubParserIndexOutOfBounds(index, count)) else Ok(LowBitsLoad(mem, table, index))
  }

  /** A sub parser runs the entry at the index it found, and refuses an index
      exactly when the table has no such entry. */
  lemma SubParserRunsEntry(mem: seq<Byte>, table: nat, data: seq<Byte>, index: nat)
    requires BytesAt(mem, table, data)
    ensures match SubParserPointer(mem, table, index)
            case Err(e) => 2 * index + 2 > |data| && e == SubParserIndexOutOfBounds(index, |data| / 2)
            case Ok(p) => 2 * index + 2 <= |data| && p == Entry(data, index)
  {
    hide MLoad, LowBitsLoad, HighBitsLoad, Entry;
    if index < |data| / 2 {
      LoadsReadEntry(mem, table, data, index);
    }
  }
}
