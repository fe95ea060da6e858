/** What the interpreter sends to the tracer: one call per finished source, the
    callees of a source before the source itself. */
module Tracing {
  import opened Words
  import opened Ops
  import opened Semantics

  /** Consecutive memory words as bytes. */
  function WordBytes(ws: seq<Word>): (b: seq<Byte>)
    ensures |b| == 32 * |ws|
  {
    if ws == [] then [] else ToBytes(ws[0], 32) + WordBytes(ws[1..])
  }

  /** Two bytes of parent index, two of source index, then the stack, topmost
      item first. `stack` itself is bottom first. */
  function Calldata(parent: nat, source: nat, stack: seq<Word>): seq<Byte> {
    ToBytes(parent % 0x1_0000, 2) + ToBytes(source % 0x1_0000, 2) + WordBytes(Reverse(stack))
  }

  function EmitTree(parent: nat, t: CallTree): seq<seq<Byte>>
    decreases t
  {
    EmitForest(t.source, t.children) + [Calldata(parent, t.source, t.stack)]
  }

  function EmitForest(parent: nat, ts: seq<CallTree>): seq<seq<Byte>>
    decreases ts
  {
    if ts == [] then [] else EmitForest(parent, ts[..|ts| - 1]) + EmitTree(parent, ts[|ts| - 1])
  }

  lemma EmitForestPush(before: seq<seq<Byte>>, parent: nat, ts: seq<CallTree>, t: CallTree)
    ensures before + EmitForest(parent, ts) + EmitTree(parent, t) == before + EmitForest(parent, ts + [t])
  {
    assert (ts + [t])[..|ts + [t]| - 1] == ts;
    assert before + EmitForest(parent, ts) + EmitTree(parent, t) == before + (EmitForest(parent, ts) + EmitTree(parent, t));
  }

  lemma EmitNode(before: seq<seq<Byte>>, parent: nat, source: nat, stack: seq<Word>, children: seq<CallTree>)
    ensures before + EmitForest(source, children) + [Calldata(parent, source, stack)]
         == before + EmitTree(parent, Node(source, stack, children))
  {}

  lemma {:induction false} ToBytesSuffix(v: nat, n: nat, m: nat)
    requires m <= n
    ensures ToBytes(v, n)[n - m..] == ToBytes(v, m)
  {
    if m == 0 {
    } else {
      ToBytesSuffix(v / 0x100, n - 1, m - 1);
      assert ToBytes(v, n)[n - m..] == ToBytes(v / 0x100, n - 1)[n - m..] + [v % 0x100];
    }
  }

  lemma TwoBytes(v: nat)
    ensures ToBytes(v, 2) == [v / 0x100 % 0x100, v % 0x100]
  {
    assert ToBytes(v / 0x100, 1) == ToBytes(v / 0x100 / 0x100, 0) + [v / 0x100 % 0x100];
  }

  lemma FourBytes(v: nat)
    ensures ToBytes(v, 4) == ToBytes(v / 0x100 / 0x100, 2) + [v / 0x100 % 0x100, v % 0x100]
  {
    var w := v / 0x100;
    assert ToBytes(v, 4) == ToBytes(w, 3) + [v % 0x100];
    assert ToBytes(w, 3) == ToBytes(w / 0x100, 2) + [w % 0x100];
  }

  lemma HeaderFits(parent: nat, source: nat)
    requires parent < 0x1_0000 && source < 0x1_0000
    ensures parent * 0x1_0000 + source < Pow2(256)
  {
    assert Pow2(32) == 0x1_0000_0000 by {
      Pow2Add(16, 16);
      Pow2Add(8, 8);
      assert Pow2(8) == 0x100;
    }
    hide Pow2;
    Pow2Add(224, 32);
    MulAtLeast(Pow2(224), Pow2(32));
  }

  lemma Packed(parent: nat, source: nat)
    requires source < 0x1_0000
    ensures (parent * 0x1_0000 + source) / 0x100 / 0x100 == parent
    ensures (parent * 0x1_0000 + source) / 0x100 % 0x100 == source / 0x100 % 0x100
    ensures (parent * 0x1_0000 + source) % 0x100 == source % 0x100
  {
    assert (parent * 0x1_0000 + source) / 0x100 == parent * 0x100 + source / 0x100;
  }

  /** The low four bytes of the packed word are the two indices. */
  lemma HeaderBytes(parent: nat, source: nat)
    requires source < 0x1_0000
    ensures ToBytes(parent * 0x1_0000 + source, 32)[28..] == ToBytes(parent, 2) + ToBytes(source, 2)
  {
    hide ToBytes;
    var v := parent * 0x1_0000 + source;
    ToBytesSuffix(v, 32, 4);
    TwoBytes(source);
    FourBytes(v);
    Packed(parent, source);
  }
}
