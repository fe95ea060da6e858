/** The order in which the interpreter's two loops read ops out of memory. */
module Dispatch {
  import opened Words
  import opened Bytecode
  import opened Integrity
  import opened Soundness

  /** The op in the four bytes at `a`. */
  function OpInMemory(image: seq<Byte>, a: nat): Op {
    Op(MemByte(image, a), Val(MemSlice(image, a + 1, 3)))
  }

  /** `n` ops decoded one at a time. */
  function DecodedOps(image: seq<Byte>, a: nat, n: nat): (r: seq<Op>)
    ensures |r| == n
    decreases n
  {
    if n == 0 then [] else [OpInMemory(image, a)] + DecodedOps(image, a + 4, n - 1)
  }

  function Lanes(word: Word): (r: seq<Op>)
    ensures |r| == 8
  {
    [WordLane(word, 0), WordLane(word, 1), WordLane(word, 2), WordLane(word, 3),
     WordLane(word, 4), WordLane(word, 5), WordLane(word, 6), WordLane(word, 7)]
  }

  /** The main loop: the eight lanes of each loaded word, high end first. */
  function MainLoopOps(image: seq<Byte>, cursor: nat, words: nat): seq<Op>
    decreases words
  {
    if words == 0 then [] else Lanes(MLoad(image, cursor)) + MainLoopOps(image, cursor + 0x20, words - 1)
  }

  /** The remainder loop: the low end of a word loaded 28 bytes early. */
  function RemainderOps(image: seq<Byte>, cursor: nat, m: nat): seq<Op>
    decreases m
  {
    if m == 0 then [] else [LaneOp(image, cursor, 7)] + RemainderOps(image, cursor + 4, m - 1)
  }

  /** Everything the two loops dispatch for `n` ops that start at `first`. */
  function LoopOps(image: seq<Byte>, first: nat, n: nat): seq<Op>
    requires first >= 0x1c
  {
    MainLoopOps(image, first, n / 8) + RemainderOps(image, first + 0x20 * (n / 8) - 0x1c, n % 8)
  }

  lemma LaneIsOpInMemory(image: seq<Byte>, cursor: nat, lane: nat)
    requires lane < 8
    ensures WordLane(MLoad(image, cursor), lane) == OpInMemory(image, cursor + 4 * lane)
  {
    hide MLoad, ByteOf, Val, Pow2;
    ByteOfMLoad(image, cursor, 4 * lane);
    WindowOfMLoad(image, cursor, 4 * lane + 1, 4 * lane + 4);
  }

  lemma {:induction false} DecodedSplit(image: seq<Byte>, a: nat, m: nat, n: nat)
    ensures DecodedOps(image, a, m) + DecodedOps(image, a + 4 * m, n) == DecodedOps(image, a, m + n)
    decreases m
  {
    if m == 0 {
      assert [] + DecodedOps(image, a, n) == DecodedOps(image, a, n);
    } else {
      DecodedSplit(image, a + 4, m - 1, n);
    }
  }

  lemma {:induction false} DecodedAt(image: seq<Byte>, a: nat, n: nat, k: nat)
    requires k < n
    ensures DecodedOps(image, a, n)[k] == OpInMemory(image, a + 4 * k)
    decreases k
  {
    if k == 0 {
    } else {
      DecodedAt(image, a + 4, n - 1, k - 1);
    }
  }

  lemma WordIsEightOps(image: seq<Byte>, cursor: nat)
    ensures Lanes(MLoad(image, cursor)) == DecodedOps(image, cursor, 8)
  {
    hide MLoad, WordLane, OpInMemory, DecodedOps;
    var word := MLoad(image, cursor);
    forall lane | 0 <= lane < 8
      ensures Lanes(word)[lane] == DecodedOps(image, cursor, 8)[lane]
    {
      LaneAt(word, lane);
      LaneIsOpInMemory(image, cursor, lane);
      DecodedAt(image, cursor, 8, lane);
    }
  }

  lemma LaneAt(word: Word, lane: nat)
    requires lane < 8
    ensures Lanes(word)[lane] == WordLane(word, lane)
  {
    hide WordLane;
  }

  lemma {:induction false} MainLoopDecodes(image: seq<Byte>, cursor: nat, words: nat)
    ensures MainLoopOps(image, cursor, words) == DecodedOps(image, cursor, 8 * words)
    decreases words
  {
    hide Lanes, WordLane, MLoad, OpInMemory;
    if words == 0 {
    } else {
      WordIsEightOps(image, cursor);
      MainLoopDecodes(image, cursor + 0x20, words - 1);
      DecodedSplit(image, cursor, 8, 8 * (words - 1));
    }
  }

  lemma {:induction false} RemainderDecodes(image: seq<Byte>, cursor: nat, m: nat)
    ensures RemainderOps(image, cursor, m) == DecodedOps(image, cursor + 0x1c, m)
    decreases m
  {
    if m == 0 {
    } else {
      LaneIsOpInMemory(image, cursor, 7);
      RemainderDecodes(image, cursor + 4, m - 1);
    }
  }

  /** For every ops count and every content of memory, the two loops dispatch the
      same ops, in the same order, as decoding one op after another. */
  lemma LoopsDecodeInOrder(image: seq<Byte>, first: nat, n: nat)
    requires first >= 0x1c
    ensures LoopOps(image, first, n) == DecodedOps(image, first, n)
  {
    hide DecodedOps, MainLoopOps, RemainderOps;
    MainLoopDecodes(image, first, n / 8);
    RemainderDecodes(image, first + 0x20 * (n / 8) - 0x1c, n % 8);
    DecodedSplit(image, first, 8 * (n / 8), n % 8);
  }

  /** For a source in bytecode, those are the source's ops. */
  lemma LoopsDispatchTheSource(image: seq<Byte>, bc: seq<Byte>, i: nat)
    requires Holds(image, bc) && InBounds(bc) && i < SourceCount(bc)
    ensures LoopOps(image, 0x20 + Header(bc, i) + 4, OpsCount(bc, i)) == Sources(bc)[i].ops
  {
    hide Holds, OpInMemory, LoopOps, DecodedOps, Val;
    var first, n := 0x20 + Header(bc, i) + 4, OpsCount(bc, i);
    LoopsDecodeInOrder(image, first, n);
    forall k | 0 <= k < n
      ensures DecodedOps(image, first, n)[k] == OpAt(bc, i, k)
    {
      DecodedAt(image, first, n, k);
      LaneIsOpInMemory(image, first + 4 * k, 0);
      LaneIsOp(image, bc, i, k, first + 4 * k, 0);
    }
  }

  /** Reducing an opcode of accepted bytecode by the size of the interpreter's table
      changes nothing, as long as that table is at least as long as the one the check
      was made with. */
  lemma ModuloIsIdentity(c: Context, source: Source, k: nat, fsCount: nat)
    requires CheckSource(c, source).Ok? && k < |source.ops| && |c.fs| <= fsCount
    ensures fsCount > 0 && source.ops[k].opcode % fsCount == source.ops[k].opcode
  {
    hide CheckSource, WalkTo, WalkAt, Declares;
    WalkStep(c, source, k);
  }
}
