/** From parser output to serialized expression to a running interpreter. */
module Deployment {
  import opened Words
  import opened Bytecode
  import opened Ops
  import opened Integrity
  import opened Semantics
  import opened Soundness
  import opened Conformance
  import opened Tracing
  import opened Interpreter
  import opened KeyValues

  // ----- serializing -----

  function SerializeSize(bytecode: seq<Byte>, constants: seq<Word>): nat {
    |bytecode| + |constants| * 0x20 + 0x40
  }

  /** Constants with their length word, then bytecode with its own. */
  function Serialized(bytecode: seq<Byte>, constants: seq<Word>): (s: seq<Byte>)
    ensures |s| == SerializeSize(bytecode, constants)
  {
    ToBytes(|constants|, 0x20) + WordBytes(constants) + ToBytes(|bytecode|, 0x20) + bytecode
  }

  /** Two length words, a word for each constant, and the bytecode: nothing else. */
  lemma SerializedLength(bytecode: seq<Byte>, constants: seq<Word>)
    ensures |Serialized(bytecode, constants)| == 32 + 32 * |constants| + 32 + |bytecode|
  {}

  /** Writes bytes at `a`; `mstore` and the byte copies are instances. */
  method WriteBytes(memory: array<Byte>, a: nat, b: seq<Byte>)
    requires a + |b| <= memory.Length
    modifies memory
    ensures memory[..a + |b|] == old(memory[..a]) + b
    ensures forall i | a + |b| <= i < memory.Length :: memory[i] == old(memory[i])
  {
    forall i | a <= i < a + |b| {
      memory[i] := b[i - a];
    }
  }

  lemma {:induction false} WordBytesPush(ws: seq<Word>, w: Word)
    ensures WordBytes(ws + [w]) == WordBytes(ws) + ToBytes(w, 32)
  {
    if ws == [] {
    } else {
      assert (ws + [w])[1..] == ws[1..] + [w];
      WordBytesPush(ws[1..], w);
    }
  }

  /** Copies the length word and then every constant. */
  method SerializeConstants(memory: array<Byte>, start: nat, constants: seq<Word>) returns (cursor: nat)
    requires start + 0x20 + 0x20 * |constants| <= memory.Length
    modifies memory
    ensures cursor == start + 0x20 + 0x20 * |constants|
    ensures memory[..cursor] == old(memory[..start]) + (ToBytes(|constants|, 0x20) + WordBytes(constants))
    ensures forall i | cursor <= i < memory.Length :: memory[i] == old(memory[i])
  {
    hide ToBytes, WordBytes;
    ghost var before := memory[..start];
    WriteBytes(memory, start, ToBytes(|constants|, 0x20));
    cursor := start + 0x20;
    ghost var written := ToBytes(|constants|, 0x20);
    var k := 0;
    NoWords();
    assert constants[..0] == [];
    assert written == ToBytes(|constants|, 0x20) + WordBytes(constants[..0]);
    while k < |constants|
      invariant k <= |constants| && cursor == start + 0x20 + 0x20 * k
      invariant written == ToBytes(|constants|, 0x20) + WordBytes(constants[..k])
      invariant memory[..cursor] == before + written
      invariant forall i | cursor <= i < memory.Length :: memory[i] == old(memory[i])
    {
      WriteBytes(memory, cursor, ToBytes(constants[k], 0x20));
      ConstantsPush(constants, k);
      written := written + ToBytes(constants[k], 0x20);
      cursor := cursor + 0x20;
      k := k + 1;
    }
    assert constants[..k] == constants;
  }

  lemma NoWords()
    ensures WordBytes([]) == []
  {}

  /** Fills the region at `start` and nothing else. */
  method UnsafeSerialize(memory: array<Byte>, start: nat, bytecode: seq<Byte>, constants: seq<Word>)
    requires start + SerializeSize(bytecode, constants) <= memory.Length
    modifies memory
    ensures memory[..start + SerializeSize(bytecode, constants)] == old(memory[..start]) + Serialized(bytecode, constants)
    ensures forall i | start + SerializeSize(bytecode, constants) <= i < memory.Length :: memory[i] == old(memory[i])
  {
    hide ToBytes, WordBytes;
    ghost var before := memory[..start];
    var cursor := SerializeConstants(memory, start, constants);
    ghost var written := ToBytes(|constants|, 0x20) + WordBytes(constants);
    WriteBytes(memory, cursor, ToBytes(|bytecode|, 0x20));
    cursor := cursor + 0x20;
    WriteBytes(memory, cursor, bytecode);
    assert before + Serialized(bytecode, constants) == before + written + ToBytes(|bytecode|, 0x20) + bytecode;
  }

  lemma ConstantsPush(constants: seq<Word>, k: nat)
    requires k < |constants|
    ensures WordBytes(constants[..k + 1]) == WordBytes(constants[..k]) + ToBytes(constants[k], 0x20)
  {
    assert constants[..k + 1] == constants[..k] + [constants[k]];
    WordBytesPush(constants[..k], constants[k]);
  }

  /** The deployer: serializes the parser's output and returns it only if the
      integrity check accepts the bytecode. */
  method Parse2(fs: seq<OpImpl>, image: seq<Byte>, bytecode: seq<Byte>, constants: seq<Word>)
    returns (r: Result<seq<Byte>, IntegrityError>)
    requires Holds(image, bytecode)
    ensures var checked := CheckBytecode(fs, bytecode, |constants|);
            r == if checked.Err? then Err(checked.error) else Ok(Serialized(bytecode, constants))
  {
    hide CheckBytecode, Serialized, ToBytes;
    var size := SerializeSize(bytecode, constants);
    var serialized := new Byte[0x20 + size];
    WriteBytes(serialized, 0, ToBytes(size, 0x20));
    UnsafeSerialize(serialized, 0x20, bytecode, constants);
    var io := IntegrityCheck2(fs, image, bytecode, constants);
    if io.Err? {
      return Err(io.error);
    }
    assert serialized[0x20..] == serialized[..0x20 + size][0x20..];
    r := Ok(serialized[0x20..]);
  }

  // ----- deserializing -----

  /** Memory holds `data` as a byte array at `ptr`, after its length word. */
  predicate Loaded(mem: seq<Byte>, ptr: nat, data: seq<Byte>) {
    ptr + 0x20 + |data| <= |mem| && mem[ptr + 0x20..ptr + 0x20 + |data|] == data
  }

  /** Lengths that an EVM word can hold. */
  predicate Addressable(bc: seq<Byte>, constants: seq<Word>) {
    |bc| < Pow2(256) && |constants| < Pow2(256)
  }

  /** Where the bytecode's length word sits in the serialized data. */
  function BytecodeAt(constants: seq<Word>): nat { 0x20 * (|constants| + 1) }

  lemma {:induction false} WordBytesAt(ws: seq<Word>, k: nat)
    requires k < |ws|
    ensures WordBytes(ws)[32 * k..32 * k + 32] == ToBytes(ws[k], 32)
  {
    hide ToBytes;
    if k == 0 {
    } else {
      WordBytesAt(ws[1..], k - 1);
      assert WordBytes(ws)[32 * k..32 * k + 32] == WordBytes(ws[1..])[32 * (k - 1)..32 * (k - 1) + 32];
    }
  }

  lemma LoadedWord(mem: seq<Byte>, ptr: nat, data: seq<Byte>, a: nat, w: Word)
    requires Loaded(mem, ptr, data) && a + 0x20 <= |data| && data[a..a + 0x20] == ToBytes(w, 0x20)
    ensures MLoad(mem, ptr + 0x20 + a) == w
  {
    hide ToBytes;
    var got := MemSlice(mem, ptr + 0x20 + a, 0x20);
    forall j | 0 <= j < 0x20
      ensures got[j] == ToBytes(w, 0x20)[j]
    {
      assert got[j] == MemByte(mem, ptr + 0x20 + a + j) == mem[ptr + 0x20 + (a + j)];
      assert mem[ptr + 0x20..ptr + 0x20 + |data|][a + j] == data[a + j] == data[a..a + 0x20][j];
    }
    assert got == ToBytes(w, 0x20);
    WordRoundTrip(w);
  }

  /** The constants read back, length and values. */
  lemma ConstantsLoad(mem: seq<Byte>, ptr: nat, bc: seq<Byte>, constants: seq<Word>)
    requires Loaded(mem, ptr, Serialized(bc, constants)) && Addressable(bc, constants)
    ensures MLoad(mem, ptr + 0x20) == |constants|
    ensures forall k | 0 <= k < |constants| :: MLoad(mem, ptr + 0x20 + 0x20 * (k + 1)) == constants[k]
  {
    hide ToBytes, WordBytes, MLoad, Loaded, Pow2;
    var data := Serialized(bc, constants);
    assert data[0..0x20] == ToBytes(|constants|, 0x20);
    LoadedWord(mem, ptr, data, 0, |constants|);
    forall k | 0 <= k < |constants|
      ensures MLoad(mem, ptr + 0x20 + 0x20 * (k + 1)) == constants[k]
    {
      var a := 0x20 * (k + 1);
      assert data[a..a + 0x20] == WordBytes(constants)[32 * k..32 * k + 32];
      WordBytesAt(constants, k);
      LoadedWord(mem, ptr, data, a, constants[k]);
    }
  }

  /** The bytecode reads back, byte for byte, at the pointer past the constants. */
  lemma BytecodeLoads(mem: seq<Byte>, ptr: nat, bc: seq<Byte>, constants: seq<Word>)
    requires Loaded(mem, ptr, Serialized(bc, constants)) && Addressable(bc, constants)
    ensures ptr + 0x20 + BytecodeAt(constants) <= |mem|
    ensures Holds(mem[ptr + 0x20 + BytecodeAt(constants)..], bc)
  {
    hide ToBytes, WordBytes, Pow2, Val;
    var data, a := Serialized(bc, constants), ptr + 0x20 + BytecodeAt(constants);
    var image := mem[a..];
    forall j | 0 <= j < 0x20 + |bc|
      ensures image[j] == data[BytecodeAt(constants) + j]
    {
      assert mem[ptr + 0x20..ptr + 0x20 + |data|][BytecodeAt(constants) + j] == image[j];
    }
    assert data[BytecodeAt(constants)..] == ToBytes(|bc|, 0x20) + bc;
    assert image[..0x20] == ToBytes(|bc|, 0x20);
    assert image[0x20..0x20 + |bc|] == bc;
    WordRoundTrip(|bc|);
  }

  /** Words that the first `n` stacks take, each with its length word. */
  function StackWords(sizes: seq<Byte>, n: nat): nat
    requires n <= |sizes|
  {
    if n == 0 then 0 else StackWords(sizes, n - 1) + sizes[n - 1] + 1
  }

  lemma {:induction false} StackWordsGrow(sizes: seq<Byte>, i: nat, j: nat)
    requires i < j <= |sizes|
    ensures StackWords(sizes, i) + sizes[j - 1] + 1 <= StackWords(sizes, j)
    decreases j - i
  {
    if i + 1 < j {
      StackWordsGrow(sizes, i, j - 1);
    }
  }

  /** The stacks follow one another from `base`, each ending where the next one's
      length word begins. */
  predicate Stacked(sizes: seq<Byte>, base: nat, bottoms: seq<nat>) {
    && |bottoms| == |sizes|
    && forall i | 0 <= i < |bottoms| :: bottoms[i] == base + StackWords(sizes, i + 1)
  }

  /** The stack sizes as deserializing finds them, whatever is in memory: a count
      byte, then per source a two-byte offset to a header whose second byte is the
      size. */
  function LoadedSizes(mem: seq<Byte>, bytecode: nat): (sizes: seq<Byte>) {
    var count := MemByte(mem, bytecode + 0x20);
    seq<Byte>(count, i requires 0 <= i < count =>
      MemByte(mem, bytecode + 0x21 + 2 * count + Val(MemSlice(mem, bytecode + 0x21 + 2 * i, 2)) + 1))
  }

  /** Allocates one stack per source: a length word, then exactly the words that
      the source's header asks for. */
  method AllocateStacks(mem: seq<Byte>, bytecode: nat, memory: array<Word>, base: nat)
    returns (stackBottoms: seq<nat>, freed: nat)
    requires base + StackWords(LoadedSizes(mem, bytecode), |LoadedSizes(mem, bytecode)|) <= memory.Length
    modifies memory
    ensures Stacked(LoadedSizes(mem, bytecode), base, stackBottoms)
    ensures freed == base + StackWords(LoadedSizes(mem, bytecode), |LoadedSizes(mem, bytecode)|)
    ensures forall i | 0 <= i < |stackBottoms| ::
              base + StackWords(LoadedSizes(mem, bytecode), i) < memory.Length
              && memory[base + StackWords(LoadedSizes(mem, bytecode), i)] == LoadedSizes(mem, bytecode)[i]
    ensures forall a | 0 <= a < memory.Length && !(base <= a < freed) :: memory[a] == old(memory[a])
  {
    hide LoadedSizes, MLoad, ByteOf, Shr, Pow2, StackWords;
    ghost var sizes := LoadedSizes(mem, bytecode);
    NoStacks(sizes);
    CountLoaded(mem, bytecode);
    var cursor := bytecode + 0x20;
    var stacksLength: nat := ByteOf(0, MLoad(mem, cursor));
    cursor := cursor + 1;
    var sourcesStart := cursor + stacksLength * 2;
    stackBottoms, freed := [], base;
    var i := 0;
    while i < stacksLength
      invariant i <= stacksLength && cursor == bytecode + 0x21 + 2 * i && |stackBottoms| == i
      invariant forall j | 0 <= j < i :: stackBottoms[j] == base + StackWords(sizes, j + 1)
      invariant freed == base + StackWords(sizes, i) <= memory.Length
      invariant forall j | 0 <= j < i ::
                  base + StackWords(sizes, j) < freed && memory[base + StackWords(sizes, j)] == sizes[j]
      invariant forall a | 0 <= a < memory.Length && !(base <= a < freed) :: memory[a] == old(memory[a])
    {
      SizeLoaded(mem, bytecode, i);
      StacksFit(sizes, i);
      var sourcePointer := sourcesStart + Shr(0xf0, MLoad(mem, cursor));
      var stackSize: nat := ByteOf(1, MLoad(mem, sourcePointer));
      var stack := freed;
      ByteFitsWord();
      memory[stack] := stackSize;
      var stackBottom := stack + (stackSize + 1);
      freed := stackBottom;
      stackBottoms := stackBottoms + [stackBottom];
      i, cursor := i + 1, cursor + 2;
    }
  }

  lemma CountLoaded(mem: seq<Byte>, bytecode: nat)
    ensures ByteOf(0, MLoad(mem, bytecode + 0x20)) == |LoadedSizes(mem, bytecode)|
  {
    hide MLoad, ByteOf;
    ByteOfMLoad(mem, bytecode + 0x20, 0);
  }

  lemma SizeLoaded(mem: seq<Byte>, bytecode: nat, i: nat)
    requires i < |LoadedSizes(mem, bytecode)|
    ensures var pointer := bytecode + 0x21 + |LoadedSizes(mem, bytecode)| * 2 + Shr(0xf0, MLoad(mem, bytecode + 0x21 + 2 * i));
            ByteOf(1, MLoad(mem, pointer)) == LoadedSizes(mem, bytecode)[i]
  {
    hide MLoad, ByteOf, Shr, Val;
    PrefixOfMLoad(mem, bytecode + 0x21 + 2 * i, 2);
    var pointer := bytecode + 0x21 + |LoadedSizes(mem, bytecode)| * 2 + Shr(0xf0, MLoad(mem, bytecode + 0x21 + 2 * i));
    ByteOfMLoad(mem, pointer, 1);
  }

  lemma NoStacks(sizes: seq<Byte>)
    ensures StackWords(sizes, 0) == 0
  {}

  lemma StacksFit(sizes: seq<Byte>, i: nat)
    requires i < |sizes|
    ensures StackWords(sizes, i + 1) == StackWords(sizes, i) + sizes[i] + 1
    ensures StackWords(sizes, i + 1) <= StackWords(sizes, |sizes|)
  {
    if i + 1 < |sizes| {
      StackWordsGrow(sizes, i + 1, |sizes|);
    }
  }

  /** The bottoms of stacks that already have their lengths written. */
  method StackBottoms(memory: array<Word>, stacks: seq<nat>) returns (bottoms: seq<nat>)
    requires forall i | 0 <= i < |stacks| :: stacks[i] < memory.Length
    ensures |bottoms| == |stacks|
    ensures forall i | 0 <= i < |stacks| :: bottoms[i] == stacks[i] + (memory[stacks[i]] as nat + 1)
  {
    bottoms := [];
    for i := 0 to |stacks|
      invariant |bottoms| == i
      invariant forall j | 0 <= j < i :: bottoms[j] == stacks[j] + (memory[stacks[j]] as nat + 1)
    {
      bottoms := bottoms + [stacks[i] + (memory[stacks[i]] as nat + 1)];
    }
  }

  /** Deserializing places each bottom where that computation would. */
  lemma AllocatedBottoms(sizes: seq<Byte>, base: nat, bottoms: seq<nat>, memory: seq<Word>, i: nat)
    requires Stacked(sizes, base, bottoms) && i < |bottoms|
    requires base + StackWords(sizes, i) < |memory| && memory[base + StackWords(sizes, i)] == sizes[i]
    ensures bottoms[i] == base + StackWords(sizes, i) + (memory[base + StackWords(sizes, i)] as nat + 1)
  {
    StacksFit(sizes, i);
  }

  /** The allocations that the sources of a bytecode declare. */
  function DeclaredSizes(bc: seq<Byte>): (sizes: seq<Byte>)
    requires InBounds(bc)
    ensures |sizes| == SourceCount(bc)
  {
    seq<Byte>(SourceCount(bc), i requires 0 <= i < SourceCount(bc) => Sources(bc)[i].allocation)
  }

  /** Empty bytecode has no count byte: the byte after its length word is read
      instead, and stands for no sources only if it is zero. */
  predicate Counted(mem: seq<Byte>, bytecode: nat, bc: seq<Byte>) {
    bc == [] ==> MemByte(mem, bytecode + 0x20) == 0
  }

  /** Deserializing finds the declared allocation of every source, and no other
      stacks, exactly when the bytecode has a count byte or a zero follows it. */
  lemma SizesAreDeclared(mem: seq<Byte>, bytecode: nat, bc: seq<Byte>)
    requires bytecode <= |mem| && Holds(mem[bytecode..], bc) && InBounds(bc)
    ensures LoadedSizes(mem, bytecode) == DeclaredSizes(bc) <==> Counted(mem, bytecode, bc)
  {
    hide Holds, Val;
    if bc != [] {
      ImageByte(mem, bytecode, bc, 0);
      forall i | 0 <= i < SourceCount(bc)
        ensures LoadedSizes(mem, bytecode)[i] == DeclaredSizes(bc)[i]
      {
        SizeIsDeclared(mem, bytecode, bc, i);
      }
    }
  }

  /** Empty bytecode with a byte after it is read as that many sources. */
  lemma EmptyBytecodeMiscounted(count: Byte)
    requires count > 0
    ensures var mem: seq<Byte> := ToBytes(0, 0x20) + [count];
            Holds(mem[0..], []) && |LoadedSizes(mem, 0)| == count && DeclaredSizes([]) == []
  {
    hide ToBytes, Val;
    var mem: seq<Byte> := ToBytes(0, 0x20) + [count];
    assert mem[0..] == mem && mem[..0x20] == ToBytes(0, 0x20);
    WordRoundTrip(0);
  }

  lemma ImageByte(mem: seq<Byte>, bytecode: nat, bc: seq<Byte>, a: nat)
    requires bytecode <= |mem| && Holds(mem[bytecode..], bc) && a < |bc|
    ensures MemByte(mem, bytecode + 0x20 + a) == bc[a]
  {
    HeldByte(mem[bytecode..], bc, a);
  }

  lemma SizeIsDeclared(mem: seq<Byte>, bytecode: nat, bc: seq<Byte>, i: nat)
    requires bytecode <= |mem| && Holds(mem[bytecode..], bc) && InBounds(bc) && i < SourceCount(bc)
    ensures i < |LoadedSizes(mem, bytecode)| && LoadedSizes(mem, bytecode)[i] == Sources(bc)[i].allocation
  {
    hide Holds, Val;
    ImageByte(mem, bytecode, bc, 0);
    var got := MemSlice(mem, bytecode + 0x21 + 2 * i, 2);
    ImageByte(mem, bytecode, bc, 1 + 2 * i);
    ImageByte(mem, bytecode, bc, 2 + 2 * i);
    assert got[0] == MemByte(mem, bytecode + 0x21 + 2 * i + 0) && got[1] == MemByte(mem, bytecode + 0x21 + 2 * i + 1);
    assert got == bc[1 + 2 * i..1 + 2 * i + 2];
    ImageByte(mem, bytecode, bc, Header(bc, i) + 1);
  }

  /** Finds the constants and the bytecode in the serialized data, and allocates
      the table of stack bottoms and the stacks from the free memory pointer. */
  method UnsafeDeserialize(mem: seq<Byte>, serialized: nat, memory: array<Word>, free: nat,
                           ghost bc: seq<Byte>, ghost values: seq<Word>)
    returns (constants: nat, bytecode: nat, stackBottoms: seq<nat>, freed: nat)
    requires Loaded(mem, serialized, Serialized(bc, values)) && Addressable(bc, values)
    requires var sizes := LoadedSizes(mem, serialized + 0x20 + BytecodeAt(values));
             free + 1 + |sizes| + StackWords(sizes, |sizes|) <= memory.Length
    modifies memory
    ensures constants == serialized + 0x20 && bytecode == constants + BytecodeAt(values)
    ensures MLoad(mem, constants) == |values|
    ensures forall k | 0 <= k < |values| :: MLoad(mem, constants + 0x20 * (k + 1)) == values[k]
    ensures bytecode <= |mem| && Holds(mem[bytecode..], bc)
    ensures var sizes := LoadedSizes(mem, bytecode);
            && Stacked(sizes, free + 1 + |sizes|, stackBottoms)
            && freed == free + 1 + |sizes| + StackWords(sizes, |sizes|)
            && memory[free] == |sizes|
            && forall i | 0 <= i < |sizes| ::
                 free + 1 + |sizes| + StackWords(sizes, i) < memory.Length
                 && memory[free + 1 + |sizes| + StackWords(sizes, i)] == sizes[i]
    ensures forall a | 0 <= a < memory.Length && !(free <= a < freed) :: memory[a] == old(memory[a])
  {
    hide Holds, MLoad, ByteOf, Pow2, Loaded, Addressable, Serialized, StackWords, LoadedSizes;
    ConstantsLoad(mem, serialized, bc, values);
    BytecodeLoads(mem, serialized, bc, values);
    CountLoaded(mem, serialized + 0x20 + BytecodeAt(values));
    var cursor := serialized + 0x20;
    constants := cursor;
    cursor := cursor + 0x20 * (MLoad(mem, cursor) as int + 1);
    bytecode := cursor;
    var stacksLength := ByteOf(0, MLoad(mem, bytecode + 0x20));
    ByteFitsWord();
    memory[free] := stacksLength;
    stackBottoms, freed := AllocateStacks(mem, bytecode, memory, free + 1 + stacksLength);
  }

  // ----- evaluating -----

  /** The disjointness the interpreter relies on, from how stacks are allocated. */
  lemma StackedApart(sizes: seq<Byte>, base: nat, bottoms: seq<nat>, i: nat, j: nat)
    requires Stacked(sizes, base, bottoms) && i < j < |bottoms|
    ensures bottoms[i] + sizes[j] + 1 <= bottoms[j]
  {
    StackWordsGrow(sizes, i + 1, j + 1);
  }

  lemma StackedInside(sizes: seq<Byte>, base: nat, bottoms: seq<nat>, i: nat)
    requires Stacked(sizes, base, bottoms) && i < |bottoms|
    ensures base + sizes[i] + 1 <= bottoms[i] <= base + StackWords(sizes, |sizes|)
  {
    StackWordsGrow(sizes, 0, i + 1);
    StacksFit(sizes, i);
  }

  /** The bridge from bytes to sources: the check on bytecode is its layout and the
      check on every source that it holds. The order of the counts that the
      structural check asks of every header follows from the latter. */
  lemma CheckedIsDeployable(fs: seq<OpImpl>, bc: seq<Byte>, values: seq<Word>, store: Word -> Word, rank: seq<nat>)
    requires forall i | 0 <= i < |fs| :: Honest(fs[i])
    requires Tight(bc) ==> Ranked(Env(fs, Sources(bc), values, store), rank)
    ensures CheckBytecode(fs, bc, |values|).Ok? <==>
            Tight(bc) && Deployable(Env(fs, Sources(bc), values, store), rank)
  {
    hide InBounds, Sources, Ranked, CheckSource, Honest, Sized;
    if Tight(bc) {
      var c := Context(fs, Sources(bc), |values|);
      CheckSourcesIff(c, SourceCount(bc));
      if Accepted(c) {
        AcceptedBytecodeIsSized(c, bc);
      }
    }
  }

  lemma AcceptedBytecodeIsSized(c: Context, bc: seq<Byte>)
    requires InBounds(bc) && c.sources == Sources(bc) && Accepted(c)
    ensures Sized(bc)
  {
    hide InBounds, CheckSource;
    forall i | 0 <= i < SourceCount(bc)
      ensures SourceAt(bc, i).inputs <= SourceAt(bc, i).outputs <= SourceAt(bc, i).allocation
    {
      AcceptedIsSized(c, c.sources[i]);
    }
  }

  /** What the deployer returned is what the interpreter may trust, and nothing less
      would do: over a table of honest ops and an acyclic call graph, the check
      accepts bytecode if and only if its sources fill it exactly and every run of
      every source keeps to what the bytecode declares. */
  lemma CheckedIffConforms(fs: seq<OpImpl>, bc: seq<Byte>, values: seq<Word>, store: Word -> Word, rank: seq<nat>)
    requires forall i | 0 <= i < |fs| :: Honest(fs[i])
    requires Tight(bc) ==> Ranked(Env(fs, Sources(bc), values, store), rank)
    ensures CheckBytecode(fs, bc, |values|).Ok? <==>
            Tight(bc) && AllConform(Env(fs, Sources(bc), values, store), rank)
  {
    hide InBounds, Sources, Ranked, CheckSource, Honest, AllConform, CheckBytecode, Accepted;
    CheckedIsDeployable(fs, bc, values, store, rank);
    if Tight(bc) {
      AcceptedIffAllConform(Env(fs, Sources(bc), values, store), rank);
    }
  }

  /** Sets each pair of the overlay in an empty cache. */
  method OverlayState(overlay: seq<Word>) returns (kv: map<Word, Word>)
    requires |overlay| % 2 == 0
    ensures kv == Written(map[], overlay)
  {
    kv := map[];
    var i := 0;
    while i < |overlay|
      invariant i <= |overlay| && i % 2 == 0
      invariant kv == Written(map[], overlay[..i])
    {
      kv := kv[overlay[i] := overlay[i + 1]];
      assert overlay[..i + 2][..i] == overlay[..i];
      i := i + 2;
    }
    assert overlay[..i] == overlay;
  }

  /** The array of words at `ptr`, behind its length. */
  function LoadedConstants(mem: seq<Byte>, ptr: nat): (words: seq<Word>)
    ensures |words| == MLoad(mem, ptr)
    ensures forall k | 0 <= k < |words| :: words[k] == MLoad(mem, ptr + 0x20 * (k + 1))
  {
    seq(MLoad(mem, ptr), k requires 0 <= k < MLoad(mem, ptr) => MLoad(mem, ptr + 0x20 * (k + 1)))
  }

  /** The interpreter contract: deserializes, overlays the caller's state, and
      evaluates. For serialized data that the deployer produced, whose call graph
      is acyclic, the outcome is the one of the checked machine. */
  method Interpret(fs: seq<OpImpl>, store: Word -> Word, mem: seq<Byte>, serialized: nat, memory: array<Word>, free: nat,
                   sourceIndex: nat, inputs: seq<Word>, overlay: seq<Word>,
                   ghost bc: seq<Byte>, ghost values: seq<Word>, ghost rank: seq<nat>)
    returns (r: Result<(seq<Word>, map<Word, Word>), EvalError>, traces: seq<seq<Byte>>)
    requires Loaded(mem, serialized, Serialized(bc, values)) && Addressable(bc, values)
    requires InBounds(bc) && Deployable(Env(fs, Sources(bc), values, store), rank)
    requires var sizes := LoadedSizes(mem, serialized + 0x20 + BytecodeAt(values));
             free + 1 + |sizes| + StackWords(sizes, |sizes|) <= memory.Length
    modifies memory
    ensures var sizes := LoadedSizes(mem, serialized + 0x20 + BytecodeAt(values));
            forall a | 0 <= a < memory.Length && !(free <= a < free + 1 + |sizes| + StackWords(sizes, |sizes|)) ::
              memory[a] == old(memory[a])
    ensures r.Err? ==> traces == []
    ensures |overlay| % 2 != 0 ==> r == Err(OddSetLength(|overlay|))
    ensures |overlay| % 2 == 0 && sourceIndex >= SourceCount(bc) ==> r == Err(EvalError.SourceIndexOutOfBounds(sourceIndex))
    ensures |overlay| % 2 == 0 && sourceIndex < SourceCount(bc) && |inputs| != Sources(bc)[sourceIndex].inputs ==>
              r == Err(InputsLengthMismatch(Sources(bc)[sourceIndex].inputs, |inputs|))
    ensures |overlay| % 2 == 0 && sourceIndex < SourceCount(bc) && |inputs| == Sources(bc)[sourceIndex].inputs ==>
              var ran := Run(Env(fs, Sources(bc), values, store), rank, sourceIndex, Reverse(inputs), Written(map[], overlay));
              && ran.Some?
              && |ran.value.stack| == Sources(bc)[sourceIndex].outputs
              && r == Ok((Reverse(ran.value.stack), ran.value.kv))
              && traces == EmitTree(sourceIndex, Node(sourceIndex, ran.value.stack, ran.value.calls))
  {
    hide *;
    var constantsPtr, bytecodePtr, stackBottoms, freed := UnsafeDeserialize(mem, serialized, memory, free, bc, values);
    traces := [];
    if |overlay| % 2 != 0 {
      return Err(OddSetLength(|overlay|)), [];
    }
    var constants := LoadedConstants(mem, constantsPtr);
    assert constants == values;
    var kv := OverlayState(overlay);
    var state := new InterpreterState(
      fs, constants, mem[bytecodePtr..], store, stackBottoms, memory, sourceIndex, kv, bc, rank);
    StatePrepared(state, bc, values, rank, free, mem, bytecodePtr);
    if sourceIndex < SourceCount(bc) && |inputs| == Sources(bc)[sourceIndex].inputs {
      StateRuns(state, sourceIndex, Reverse(inputs), kv);
      WholeStack(state.Finished(sourceIndex, Reverse(inputs), kv).stack);
    }
    ByteFitsWord();
    r := state.Eval4(inputs, Pow2(256) - 1);
    traces := state.traces;
  }

  lemma WholeStack(s: seq<Word>)
    ensures Top(s, |s|) == Reverse(s)
  {
    assert s[|s| - |s|..] == s;
  }

  /** The state's own account of a run is the checked machine's. */
  lemma StateRuns(state: InterpreterState, src: nat, inputs: seq<Word>, kv: map<Word, Word>)
    requires state.Ready() && src < |state.stackBottoms| && |inputs| == state.Sourced(src).inputs
    ensures state.Finishes(src, inputs, kv) && Run(state.Environment(), state.rank, src, inputs, kv).Some?
    ensures state.Finished(src, inputs, kv) == Run(state.Environment(), state.rank, src, inputs, kv).value
    ensures |state.Finished(src, inputs, kv).stack| == state.Sourced(src).outputs <= 0xFF
  {
    state.OutputsReturned(src, inputs, kv);
  }

  /** What evaluating may rely on and touch. Empty bytecode has nothing to run, and
      evaluating it refuses every source. */
  lemma StatePrepared(
      state: InterpreterState, bc: seq<Byte>, values: seq<Word>, rank: seq<nat>, free: nat, mem: seq<Byte>, bytecode: nat)
    requires state.bytecode == bc && state.constants == values && state.rank == rank
    requires bytecode <= |mem| && state.image == mem[bytecode..] && Holds(state.image, bc)
    requires InBounds(bc) && Deployable(Env(state.fs, Sources(bc), values, state.store), rank)
    requires var sizes := LoadedSizes(mem, bytecode);
             && Stacked(sizes, free + 1 + |sizes|, state.stackBottoms)
             && free + 1 + |sizes| + StackWords(sizes, |sizes|) <= state.memory.Length
    ensures state.Wellformed()
    ensures SourceCount(bc) > 0 ==>
              && state.Ready() && |state.stackBottoms| == |state.rank| == SourceCount(bc)
              && state.Environment() == Env(state.fs, Sources(bc), values, state.store)
              && (forall i | 0 <= i < SourceCount(bc) :: state.Sourced(i) == Sources(bc)[i])
              && var sizes := LoadedSizes(mem, bytecode);
                 forall src, a: int | 0 <= src < |state.rank| && state.Reached(src, a) ::
                   free <= a < free + 1 + |sizes| + StackWords(sizes, |sizes|)
  {
    hide LoadedSizes, DeclaredSizes, StackWords, InBounds, Sources, Holds, Deployable, Stacked;
    SizesAreDeclared(mem, bytecode, bc);
    if SourceCount(bc) > 0 {
      StateReady(state, bc, values, rank, free + 1 + SourceCount(bc));
      StateInside(state, bc, free + 1 + SourceCount(bc));
    }
  }

  lemma StateReady(state: InterpreterState, bc: seq<Byte>, values: seq<Word>, rank: seq<nat>, base: nat)
    requires state.bytecode == bc && state.constants == values && state.rank == rank
    requires InBounds(bc) && Holds(state.image, bc)
    requires Deployable(Env(state.fs, Sources(bc), values, state.store), rank)
    requires Stacked(DeclaredSizes(bc), base, state.stackBottoms)
    requires base + StackWords(DeclaredSizes(bc), SourceCount(bc)) <= state.memory.Length
    ensures state.Ready()
    ensures state.Environment() == Env(state.fs, Sources(bc), values, state.store)
    ensures forall i | 0 <= i < SourceCount(bc) :: state.Sourced(i) == Sources(bc)[i]
  {
    var sizes := DeclaredSizes(bc);
    forall i | 0 <= i < |state.stackBottoms|
      ensures state.Sourced(i).allocation + 1 <= state.stackBottoms[i] <= state.memory.Length
    {
      StackedInside(sizes, base, state.stackBottoms, i);
    }
    forall i, j | 0 <= i < j < |state.stackBottoms|
      ensures state.stackBottoms[i] + state.Sourced(j).allocation + 1 <= state.stackBottoms[j]
    {
      StackedApart(sizes, base, state.stackBottoms, i, j);
    }
  }

  /** An evaluation reaches only words that were allocated for stacks. */
  lemma StateInside(state: InterpreterState, bc: seq<Byte>, base: nat)
    requires state.Ready() && state.bytecode == bc && Stacked(DeclaredSizes(bc), base, state.stackBottoms)
    ensures forall src, a: int | 0 <= src < |state.rank| && state.Reached(src, a) ::
              base <= a < base + StackWords(DeclaredSizes(bc), SourceCount(bc))
  {
    var sizes := DeclaredSizes(bc);
    forall src, a: int | 0 <= src < |state.rank| && state.Reached(src, a)
      ensures base <= a < base + StackWords(sizes, SourceCount(bc))
    {
      StackedInside(sizes, base, state.stackBottoms, src);
      if state.Owned(src, a) {
        var j :| 0 <= j < |state.rank| && state.InStack(j, a) && (j == src || state.rank[j] < state.rank[src]);
        StackedInside(sizes, base, state.stackBottoms, j);
      }
    }
  }
}
