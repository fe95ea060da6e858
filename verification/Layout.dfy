/** Bytecode and the sources it holds determine each other: the parser's layout is
    the only one that the structural check lets through. */
module Layout {
  import opened Words
  import opened Bytecode

  // ----- writing sources down -----

  function OpBytes(op: Op): (b: seq<Byte>)
    ensures |b| == 4
  {
    [op.opcode] + ToBytes(op.operand, 3)
  }

  function OpsBytes(ops: seq<Op>): (b: seq<Byte>)
    ensures |b| == 4 * |ops|
  {
    if ops == [] then [] else OpsBytes(ops[..|ops| - 1]) + OpBytes(ops[|ops| - 1])
  }

  /** Counts and ops that fit the bytes they are written in. */
  predicate Fits(s: Source) {
    |s.ops| <= 0xFF && forall k | 0 <= k < |s.ops| :: s.ops[k].operand < 0x100_0000
  }

  function SourceBytes(s: Source): (b: seq<Byte>)
    requires Fits(s)
    ensures |b| == 4 + 4 * |s.ops|
  {
    [|s.ops|, s.allocation, s.inputs, s.outputs] + OpsBytes(s.ops)
  }

  /** Bytes that the first `n` sources take. */
  function Offset(sources: seq<Source>, n: nat): nat
    requires n <= |sources|
  {
    if n == 0 then 0 else Offset(sources, n - 1) + 4 + 4 * |sources[n - 1].ops|
  }

  /** Source lists that some bytecode holds. */
  predicate Encodable(sources: seq<Source>) {
    && |sources| <= 0xFF
    && (forall i | 0 <= i < |sources| :: Fits(sources[i]))
    && (forall i | 0 <= i < |sources| :: Offset(sources, i) < 0x1_0000)
  }

  function OffsetBytes(sources: seq<Source>, n: nat): (b: seq<Byte>)
    requires n <= |sources|
    ensures |b| == 2 * n
  {
    if n == 0 then [] else OffsetBytes(sources, n - 1) + ToBytes(Offset(sources, n - 1), 2)
  }

  function Bodies(sources: seq<Source>, n: nat): (b: seq<Byte>)
    requires n <= |sources| && forall i | 0 <= i < |sources| :: Fits(sources[i])
    ensures |b| == Offset(sources, n)
  {
    if n == 0 then [] else Bodies(sources, n - 1) + SourceBytes(sources[n - 1])
  }

  /** The count, the offset table, and every source behind its header. */
  function EncodedSources(sources: seq<Source>): (bc: seq<Byte>)
    requires Encodable(sources)
    ensures |bc| == 1 + 2 * |sources| + Offset(sources, |sources|)
  {
    [|sources|] + OffsetBytes(sources, |sources|) + Bodies(sources, |sources|)
  }

  // ----- where everything is -----

  lemma {:induction false} OffsetSlot(sources: seq<Source>, n: nat, i: nat)
    requires i < n <= |sources|
    ensures OffsetBytes(sources, n)[2 * i..2 * i + 2] == ToBytes(Offset(sources, i), 2)
    decreases n
  {
    hide ToBytes, Offset;
    if i == n - 1 {
    } else {
      OffsetSlot(sources, n - 1, i);
      assert OffsetBytes(sources, n)[2 * i..2 * i + 2] == OffsetBytes(sources, n - 1)[2 * i..2 * i + 2];
    }
  }

  lemma {:induction false} OffsetGrows(sources: seq<Source>, i: nat, n: nat)
    requires i < n <= |sources|
    ensures Offset(sources, i) + 4 + 4 * |sources[i].ops| <= Offset(sources, n)
    decreases n
  {
    if i == n - 1 {
    } else {
      OffsetGrows(sources, i, n - 1);
    }
  }

  lemma BodiesStep(sources: seq<Source>, n: nat)
    requires n < |sources| && forall j | 0 <= j < |sources| :: Fits(sources[j])
    ensures Bodies(sources, n + 1) == Bodies(sources, n) + SourceBytes(sources[n])
  {
    hide SourceBytes, Fits, Offset;
  }

  lemma {:induction false} BodySlot(sources: seq<Source>, n: nat, i: nat)
    requires i < n <= |sources| && forall j | 0 <= j < |sources| :: Fits(sources[j])
    ensures Offset(sources, i) + 4 + 4 * |sources[i].ops| <= Offset(sources, n)
    ensures Bodies(sources, n)[Offset(sources, i)..Offset(sources, i) + 4 + 4 * |sources[i].ops|]
         == SourceBytes(sources[i])
    decreases n
  {
    hide SourceBytes, Fits, Offset, Bodies;
    OffsetGrows(sources, i, n);
    BodiesStep(sources, n - 1);
    if i == n - 1 {
      SliceMiddle(Bodies(sources, i), SourceBytes(sources[i]), [], 0, 4 + 4 * |sources[i].ops|);
      assert Bodies(sources, n) == Bodies(sources, i) + SourceBytes(sources[i]) + [];
    } else {
      OffsetGrows(sources, i, n - 1);
      BodySlot(sources, n - 1, i);
      SliceMiddle([], Bodies(sources, n - 1), SourceBytes(sources[n - 1]), Offset(sources, i),
                  Offset(sources, i) + 4 + 4 * |sources[i].ops|);
      assert Bodies(sources, n) == [] + Bodies(sources, n - 1) + SourceBytes(sources[n - 1]);
    }
  }

  lemma {:induction false} OpSlot(ops: seq<Op>, k: nat)
    requires k < |ops|
    ensures OpsBytes(ops)[4 * k..4 * k + 4] == OpBytes(ops[k])
  {
    hide OpBytes;
    if k == |ops| - 1 {
    } else {
      OpSlot(ops[..|ops| - 1], k);
      assert OpsBytes(ops)[4 * k..4 * k + 4] == OpsBytes(ops[..|ops| - 1])[4 * k..4 * k + 4];
    }
  }

  lemma ByteWidths()
    ensures Pow2(8 * 2) == 0x1_0000 && Pow2(8 * 3) == 0x100_0000
  {
    assert Pow2(8) == 0x100;
    Pow2Add(8, 8);
    Pow2Add(16, 8);
  }

  // ----- encoding, then decoding -----

  lemma SliceMiddle<T>(a: seq<T>, b: seq<T>, c: seq<T>, x: nat, y: nat)
    requires x <= y <= |b|
    ensures (a + b + c)[|a| + x..|a| + y] == b[x..y]
  {}

  lemma SliceOfSlice<T>(s: seq<T>, lo: nat, hi: nat, x: nat, y: nat)
    requires lo <= hi <= |s| && x <= y <= hi - lo
    ensures s[lo..hi][x..y] == s[lo + x..lo + y]
  {
    var a, b := s[lo..hi][x..y], s[lo + x..lo + y];
    assert forall i | 0 <= i < y - x :: a[i] == b[i];
  }

  lemma EncodedOffset(sources: seq<Source>, i: nat)
    requires Encodable(sources) && i < |sources|
    ensures var bc := EncodedSources(sources);
            && SourceCount(bc) == |sources| && 1 + 2 * i + 2 <= |bc|
            && Header(bc, i) == 1 + 2 * |sources| + Offset(sources, i)
  {
    hide ToBytes, Fits, OffsetBytes, Bodies, Val, Offset, Pow2;
    var bc, n := EncodedSources(sources), |sources|;
    OffsetSlot(sources, n, i);
    SliceMiddle<Byte>([n], OffsetBytes(sources, n), Bodies(sources, n), 2 * i, 2 * i + 2);
    assert bc[1 + 2 * i..1 + 2 * i + 2] == ToBytes(Offset(sources, i), 2);
    ValToBytes(Offset(sources, i), 2);
    ByteWidths();
  }

  lemma EncodedHeader(sources: seq<Source>, i: nat)
    requires Encodable(sources) && i < |sources|
    ensures var bc := EncodedSources(sources);
            && SourceCount(bc) == |sources| && 1 + 2 * i + 2 <= |bc|
            && Header(bc, i) == 1 + 2 * |sources| + Offset(sources, i)
            && Header(bc, i) + 4 + 4 * |sources[i].ops| <= |bc|
            && bc[Header(bc, i)..Header(bc, i) + 4 + 4 * |sources[i].ops|] == SourceBytes(sources[i])
  {
    hide ToBytes, SourceBytes, Fits, OffsetBytes, Bodies, Val, Header, SourceCount, Offset;
    EncodedOffset(sources, i);
    var n := |sources|;
    BodySlot(sources, n, i);
    var a, b := Offset(sources, i), Offset(sources, i) + 4 + 4 * |sources[i].ops|;
    SliceMiddle([n] + OffsetBytes(sources, n), Bodies(sources, n), [], a, b);
    assert EncodedSources(sources) == [n] + OffsetBytes(sources, n) + Bodies(sources, n) + [];
  }

  lemma HeaderBytesOf(s: Source)
    requires Fits(s)
    ensures var b := SourceBytes(s);
            b[0] == |s.ops| && b[1] == s.allocation && b[2] == s.inputs && b[3] == s.outputs
    ensures SourceBytes(s)[4..] == OpsBytes(s.ops)
  {
    hide OpsBytes;
  }

  lemma EncodedOp(sources: seq<Source>, i: nat, k: nat)
    requires Encodable(sources) && i < |sources| && k < |sources[i].ops|
    ensures var bc := EncodedSources(sources);
            && 1 + 2 * i + 2 <= |bc|
            && var a := Header(bc, i) + 4 + 4 * k;
               && a + 4 <= |bc|
               && bc[a] == sources[i].ops[k].opcode && Val(bc[a + 1..a + 4]) == sources[i].ops[k].operand
  {
    hide ToBytes, SourceBytes, OffsetBytes, Bodies, Val, EncodedSources, Header, OpsBytes, Offset;
    EncodedHeader(sources, i);
    var bc, s := EncodedSources(sources), sources[i];
    HeaderBytesOf(s);
    OpSlot(s.ops, k);
    var h := Header(bc, i);
    var body := bc[h..h + 4 + 4 * |s.ops|];
    var got := bc[h + 4 + 4 * k..h + 4 + 4 * k + 4];
    SliceOfSlice(bc, h, h + 4 + 4 * |s.ops|, 4 + 4 * k, 4 + 4 * k + 4);
    SliceOfSlice(body, 4, |body|, 4 * k, 4 * k + 4);
    assert body[4..|body|] == body[4..];
    assert got == OpBytes(s.ops[k]);
    assert got[1..] == bc[h + 4 + 4 * k + 1..h + 4 + 4 * k + 4];
    ValToBytes(s.ops[k].operand, 3);
    ByteWidths();
  }

  /** What a source list is written as has a tight layout, and decodes to the list. */
  lemma EncodedDecodes(sources: seq<Source>)
    requires Encodable(sources)
    ensures Tight(EncodedSources(sources)) && Sources(EncodedSources(sources)) == sources
  {
    hide ToBytes, SourceBytes, OffsetBytes, Bodies, Val, EncodedSources, Header, OpsBytes, Fits;
    var bc := EncodedSources(sources);
    CountFirst(sources);
    forall i | 0 <= i < |sources|
      ensures Header(bc, i) + 4 <= |bc| && bc[Header(bc, i)] == |sources[i].ops|
      ensures Header(bc, i) == 1 + 2 * |sources| + Offset(sources, i)
      ensures Header(bc, i) + 4 + 4 * |sources[i].ops| <= |bc|
    {
      EncodedHeader(sources, i);
      HeaderBytesOf(sources[i]);
    }
    assert InBounds(bc);
    assert Tight(bc);
    forall i | 0 <= i < |sources|
      ensures SourceAt(bc, i) == sources[i]
    {
      EncodedSource(sources, i);
    }
  }

  lemma CountFirst(sources: seq<Source>)
    requires Encodable(sources)
    ensures EncodedSources(sources) != [] && SourceCount(EncodedSources(sources)) == |sources|
  {}

  lemma EncodedSource(sources: seq<Source>, i: nat)
    requires Encodable(sources) && i < |sources| && InBounds(EncodedSources(sources))
    ensures i < SourceCount(EncodedSources(sources)) && SourceAt(EncodedSources(sources), i) == sources[i]
  {
    hide ToBytes, SourceBytes, OffsetBytes, Bodies, Val, EncodedSources, Header, OpsBytes, InBounds;
    var bc, s := EncodedSources(sources), sources[i];
    CountFirst(sources);
    EncodedHeader(sources, i);
    HeaderBytesOf(s);
    var h := Header(bc, i);
    var body := bc[h..h + 4 + 4 * |s.ops|];
    assert bc[h] == body[0] && bc[h + 1] == body[1] && bc[h + 2] == body[2] && bc[h + 3] == body[3];
    forall k | 0 <= k < |s.ops|
      ensures OpAt(bc, i, k) == s.ops[k]
    {
      EncodedOp(sources, i, k);
    }
    assert SourceAt(bc, i).ops == s.ops;
  }

  // ----- decoding, then encoding -----

  lemma {:induction false} OpsBytesAt(bc: seq<Byte>, i: nat, k: nat)
    requires InBounds(bc) && i < SourceCount(bc) && k <= OpsCount(bc, i)
    ensures var h := Header(bc, i);
            k <= |SourceAt(bc, i).ops| && OpsBytes(SourceAt(bc, i).ops[..k]) == bc[h + 4..h + 4 + 4 * k]
  {
    hide InBounds, Header, ToBytes, Val, OpBytes, SourceAt, OpAt, OpsCount;
    SourceInside(bc, i);
    var h, ops := Header(bc, i), SourceAt(bc, i).ops;
    if k == 0 {
    } else {
      OpsBytesAt(bc, i, k - 1);
      OpOf(bc, i, k - 1);
      OpBytesAt(bc, i, k - 1);
      OpsBytesPush(ops, k - 1);
      Joined(bc, h + 4, h + 4 + 4 * (k - 1), h + 4 + 4 * k);
    }
  }

  lemma OpsBytesPush(ops: seq<Op>, k: nat)
    requires k < |ops|
    ensures OpsBytes(ops[..k + 1]) == OpsBytes(ops[..k]) + OpBytes(ops[k])
  {
    hide OpBytes;
    assert ops[..k + 1][..k] == ops[..k];
  }

  lemma OpOf(bc: seq<Byte>, i: nat, k: nat)
    requires InBounds(bc) && i < SourceCount(bc) && k < OpsCount(bc, i)
    ensures k < |SourceAt(bc, i).ops| && SourceAt(bc, i).ops[k] == OpAt(bc, i, k)
  {
    hide OpAt;
  }

  lemma SourceInside(bc: seq<Byte>, i: nat)
    requires InBounds(bc) && i < SourceCount(bc)
    ensures 1 + 2 * i + 2 <= |bc| && Header(bc, i) + 4 + 4 * (OpsCount(bc, i) as nat) <= |bc|
    ensures |SourceAt(bc, i).ops| == OpsCount(bc, i)
  {}

  lemma OpBytesAt(bc: seq<Byte>, i: nat, k: nat)
    requires InBounds(bc) && i < SourceCount(bc) && k < OpsCount(bc, i)
    ensures var a := Header(bc, i) + 4 + 4 * k;
            OpBytes(OpAt(bc, i, k)) == bc[a..a + 4]
    ensures OpAt(bc, i, k).operand < 0x100_0000
  {
    hide Header, ToBytes, Val, Pow2;
    var a := Header(bc, i) + 4 + 4 * k;
    ToBytesVal(bc[a + 1..a + 4]);
    ValBound(bc[a + 1..a + 4]);
    ByteWidths();
    assert bc[a..a + 4] == [bc[a]] + bc[a + 1..a + 4];
  }

  lemma SourceFits(bc: seq<Byte>, i: nat)
    requires InBounds(bc) && i < SourceCount(bc)
    ensures Fits(SourceAt(bc, i)) && |SourceAt(bc, i).ops| == OpsCount(bc, i)
    ensures var h := Header(bc, i);
            SourceBytes(SourceAt(bc, i)) == bc[h..h + 4 + 4 * (bc[h] as nat)]
  {
    hide OpsBytes, Header, OpBytes;
    var h, s := Header(bc, i), SourceAt(bc, i);
    var n: nat := OpsCount(bc, i);
    forall k | 0 <= k < n
      ensures s.ops[k].operand < 0x100_0000
    {
      OpBytesAt(bc, i, k);
    }
    OpsBytesAt(bc, i, n);
    assert s.ops[..n] == s.ops;
    assert bc[h..h + 4 + 4 * n] == [bc[h], bc[h + 1], bc[h + 2], bc[h + 3]] + bc[h + 4..h + 4 + 4 * n];
  }

  lemma OffsetStep(sources: seq<Source>, n: nat)
    requires n < |sources|
    ensures Offset(sources, 0) == 0
    ensures Offset(sources, n + 1) == Offset(sources, n) + 4 + 4 * |sources[n].ops|
  {}

  lemma SourcesAt(bc: seq<Byte>, i: nat)
    requires InBounds(bc) && i < SourceCount(bc)
    ensures Sources(bc)[i] == SourceAt(bc, i)
  {
    hide SourceAt, InBounds;
  }

  /** In a tight layout every source is where the ones before it say. */
  lemma {:induction false} TightOffsets(bc: seq<Byte>, i: nat)
    requires Tight(bc) && bc != [] && i <= SourceCount(bc)
    ensures SourceEnd(bc, i) == SourcesStart(bc) + Offset(Sources(bc), i)
  {
    hide InBounds, SourceAt, Header, Sources, Tight, OpsCount, SourceEnd, Offset, Fits, SourcesStart;
    if i == 0 {
      StartOf(bc);
    } else {
      TightOffsets(bc, i - 1);
      SourceFits(bc, i - 1);
      SourcesAt(bc, i - 1);
      TightStep(bc, i - 1);
      OffsetStep(Sources(bc), i - 1);
    }
  }

  lemma StartOf(bc: seq<Byte>)
    requires InBounds(bc) && bc != []
    ensures SourceEnd(bc, 0) == SourcesStart(bc) == 1 + 2 * SourceCount(bc) <= |bc| && Offset(Sources(bc), 0) == 0
  {}

  lemma TightStep(bc: seq<Byte>, i: nat)
    requires Tight(bc) && bc != [] && i < SourceCount(bc)
    ensures Header(bc, i) == SourceEnd(bc, i)
    ensures SourceEnd(bc, i + 1) == Header(bc, i) + 4 + 4 * (OpsCount(bc, i) as nat)
    ensures SourceEnd(bc, i + 1) <= |bc| && 1 + 2 * (i + 1) <= |bc|
    ensures OpsCount(bc, i) == bc[Header(bc, i)]
    ensures SourceEnd(bc, SourceCount(bc)) == |bc|
  {}

  lemma {:induction false} TightTable(bc: seq<Byte>, i: nat)
    requires Tight(bc) && bc != [] && i <= SourceCount(bc)
    ensures 1 + 2 * i <= |bc| && bc[1..1 + 2 * i] == OffsetBytes(Sources(bc), i)
  {
    hide InBounds, ToBytes, Val, Offset, Tight, Sources, SourceEnd, SourcesStart, SourceCount;
    StartOf(bc);
    if i == 0 {
    } else {
      TightTable(bc, i - 1);
      OffsetSlotAt(bc, i - 1);
      Joined(bc, 1, 1 + 2 * (i - 1), 1 + 2 * i);
    }
  }

  lemma {:induction false} TightBodies(bc: seq<Byte>, i: nat)
    requires Tight(bc) && bc != [] && i <= SourceCount(bc)
    requires forall j | 0 <= j < SourceCount(bc) :: Fits(Sources(bc)[j])
    ensures SourcesStart(bc) <= SourceEnd(bc, i) <= |bc|
    ensures bc[SourcesStart(bc)..SourceEnd(bc, i)] == Bodies(Sources(bc), i)
  {
    hide InBounds, SourceAt, Header, SourceBytes, Val, Offset, Fits, Tight, OpsCount, Sources, SourceEnd, SourcesStart,
      SourceCount;
    StartOf(bc);
    if i == 0 {
    } else {
      TightBodies(bc, i - 1);
      TightStep(bc, i - 1);
      SourceFits(bc, i - 1);
      SourcesAt(bc, i - 1);
      Joined(bc, SourcesStart(bc), SourceEnd(bc, i - 1), SourceEnd(bc, i));
    }
  }

  lemma Joined<T>(s: seq<T>, a: nat, b: nat, c: nat)
    requires a <= b <= c <= |s|
    ensures s[a..c] == s[a..b] + s[b..c]
  {}

  lemma OffsetSlotAt(bc: seq<Byte>, i: nat)
    requires Tight(bc) && bc != [] && i < SourceCount(bc)
    ensures 1 + 2 * i + 2 <= |bc| && bc[1 + 2 * i..1 + 2 * i + 2] == ToBytes(Offset(Sources(bc), i), 2)
    ensures Offset(Sources(bc), i) < 0x1_0000
  {
    hide SourceAt, ToBytes, Val, Offset, Pow2, Sources, OpsCount, InBounds, Tight, SourceEnd, SourcesStart;
    TightOffsets(bc, i);
    TightStep(bc, i);
    var b := bc[1 + 2 * i..1 + 2 * i + 2];
    ToBytesVal(b);
    ValBound(b);
    ByteWidths();
  }

  /** A tight layout is exactly what its own sources are written as: every byte is
      accounted for, and no other bytes with that layout hold the same sources. */
  lemma TightIsEncoded(bc: seq<Byte>)
    requires Tight(bc) && bc != []
    ensures Encodable(Sources(bc)) && bc == EncodedSources(Sources(bc))
  {
    hide InBounds, SourceAt, Header, SourceBytes, ToBytes, Val, Offset, Fits, OffsetBytes, Bodies, Tight, Sources,
      SourceEnd, SourcesStart;
    StartOf(bc);
    var n := SourceCount(bc);
    forall i | 0 <= i < n
      ensures Fits(Sources(bc)[i]) && Offset(Sources(bc), i) < 0x1_0000
    {
      SourceFits(bc, i);
      SourcesAt(bc, i);
      OffsetSlotAt(bc, i);
    }
    TightTable(bc, n);
    TightBodies(bc, n);
    EndOf(bc);
    assert bc == [bc[0]] + bc[1..1 + 2 * n] + bc[1 + 2 * n..];
  }

  lemma EndOf(bc: seq<Byte>)
    requires Tight(bc) && bc != []
    ensures SourceEnd(bc, SourceCount(bc)) == |bc|
  {}

  /** The structural check lets through exactly the bytes that some source list is
      written as, and no bytes at all. */
  lemma TightIffEncoded(bc: seq<Byte>)
    requires bc != []
    ensures Tight(bc) <==> exists sources: seq<Source> :: Encodable(sources) && bc == EncodedSources(sources)
  {
    hide Tight, Encodable, EncodedSources;
    if Tight(bc) {
      TightIsEncoded(bc);
    }
    forall sources: seq<Source> | Encodable(sources) && bc == EncodedSources(sources)
      ensures Tight(bc)
    {
      EncodedDecodes(sources);
    }
  }

  /** A stray byte, and two sources at one offset, are refused. */
  lemma LooseLayoutsRefused(x: Byte)
    ensures InBounds([1, 0, 0, 0, 0, 0, 0, x]) && !Tight([1, 0, 0, 0, 0, 0, 0, x])
    ensures InBounds([2, 0, 0, 0, 0, 0, 0, 0, 0]) && !Tight([2, 0, 0, 0, 0, 0, 0, 0, 0])
  {
    var one: seq<Byte>, two: seq<Byte> := [1, 0, 0, 0, 0, 0, 0, x], [2, 0, 0, 0, 0, 0, 0, 0, 0];
    ZeroOffset();
    assert one[1..3] == [0, 0] && two[1..3] == [0, 0] && two[3..5] == [0, 0];
  }

  lemma ZeroOffset()
    ensures Val([0, 0]) == 0
  {
    var b: seq<Byte> := [0, 0];
    assert b[..1] == [0] && b[..1][..0] == [];
    assert Val(b[..1]) == 0;
  }
}
