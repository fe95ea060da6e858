/** The bit window ops: `encode-bits` writes a window of a word, `decode-bits`
    reads one. */
module Bitwise {
  import opened Words
  import opened Ops

  // ----- words as bits -----

  function Bit(w: nat, i: nat): bool {
    if i == 0 then w % 2 == 1 else Bit(w / 2, i - 1)
  }

  function AsBit(b: bool): nat { if b then 1 else 0 }

  /** The EVM's `and`. */
  function And(a: nat, b: nat): nat {
    if a == 0 || b == 0 then 0 else 2 * And(a / 2, b / 2) + AsBit(Bit(a, 0) && Bit(b, 0))
  }

  /** The EVM's `or`. */
  function Or(a: nat, b: nat): nat {
    if a == 0 then b else if b == 0 then a else 2 * Or(a / 2, b / 2) + AsBit(Bit(a, 0) || Bit(b, 0))
  }

  /** The EVM's `not`. */
  function Not(w: Word): Word { Pow2(256) - 1 - w }

  /** The EVM's `shl`: bits shifted past the top are lost. */
  function Shl(k: nat, w: nat): Word {
    w * Pow2(k) % Pow2(256)
  }

  lemma {:induction false} ZeroBit(i: nat)
    ensures !Bit(0, i)
  {
    if i == 0 {
    } else {
      ZeroBit(i - 1);
    }
  }

  lemma {:induction false} AndBit(a: nat, b: nat, i: nat)
    ensures Bit(And(a, b), i) == (Bit(a, i) && Bit(b, i))
  {
    if a == 0 || b == 0 {
      ZeroBit(i);
    } else if i > 0 {
      AndBit(a / 2, b / 2, i - 1);
    }
  }

  lemma {:induction false} OrBit(a: nat, b: nat, i: nat)
    ensures Bit(Or(a, b), i) == (Bit(a, i) || Bit(b, i))
  {
    if a == 0 || b == 0 {
      ZeroBit(i);
    } else if i > 0 {
      OrBit(a / 2, b / 2, i - 1);
    }
  }

  lemma {:induction false} ComplementBit(w: nat, n: nat, i: nat)
    requires w < Pow2(n)
    ensures Bit(Pow2(n) - 1 - w, i) == (i < n && !Bit(w, i))
  {
    if n == 0 {
      ZeroBit(i);
    } else if i > 0 {
      assert (Pow2(n) - 1 - w) / 2 == Pow2(n - 1) - 1 - w / 2;
      ComplementBit(w / 2, n - 1, i - 1);
    }
  }

  lemma {:induction false} TimesPow2Bit(w: nat, k: nat, i: nat)
    ensures Bit(w * Pow2(k), i) == (i >= k && Bit(w, i - k))
  {
    if k == 0 {
    } else {
      assert w * Pow2(k) == 2 * (w * Pow2(k - 1));
      if i > 0 {
        TimesPow2Bit(w, k - 1, i - 1);
      }
    }
  }

  lemma {:induction false} ShrBit(k: nat, w: nat, i: nat)
    ensures Bit(Shr(k, w), i) == Bit(w, i + k)
  {
    DivNat(w, Pow2(k));
    if k == 0 {
    } else {
      DivTwice(w, Pow2(k - 1));
      ShrBit(k - 1, w / 2, i);
    }
  }

  lemma DivTwice(w: nat, p: nat)
    requires p >= 1
    ensures w / (2 * p) == w / 2 / p
  {
    var q, r := w / 2 / p, w / 2 % p;
    assert w == 2 * (q * p + r) + w % 2;
    assert w == q * (2 * p) + (2 * r + w % 2);
    DivNat(w / 2, p);
    DivModUnique(w, q, 2 * r + w % 2, 2 * p);
  }

  lemma {:induction false} MaskBit(n: nat, w: nat, i: nat)
    ensures Bit(Mask(n, w), i) == (i < n && Bit(w, i))
  {
    if n == 0 {
      assert w % 1 == 0;
      ZeroBit(i);
    } else {
      HalveMask(n, w);
      if i > 0 {
        MaskBit(n - 1, w / 2, i - 1);
      }
    }
  }

  lemma HalveMask(n: nat, w: nat)
    requires n > 0
    ensures Mask(n, w) == 2 * Mask(n - 1, w / 2) + w % 2
  {
    var p := Pow2(n - 1);
    var q, r := w / 2 / p, w / 2 % p;
    assert w == 2 * (q * p + r) + w % 2;
    assert w == q * (2 * p) + (2 * r + w % 2);
    DivNat(w / 2, p);
    DivModUnique(w, q, 2 * r + w % 2, 2 * p);
  }

  lemma ShlBit(k: nat, w: nat, i: nat)
    ensures Bit(Shl(k, w), i) == (k <= i < 256 && Bit(w, i - k))
  {
    hide Pow2;
    MaskBit(256, w * Pow2(k), i);
    TimesPow2Bit(w, k, i);
  }

  /** A number is its bits. */
  lemma {:induction false} SameBits(a: nat, b: nat)
    requires forall i: nat :: Bit(a, i) == Bit(b, i)
    ensures a == b
    decreases a + b
  {
    if a != 0 || b != 0 {
      forall i: nat
        ensures Bit(a / 2, i) == Bit(b / 2, i)
      {
        assert Bit(a, i + 1) == Bit(b, i + 1);
      }
      SameBits(a / 2, b / 2);
      assert Bit(a, 0) == Bit(b, 0);
    }
  }

  lemma HighBitsClear(w: Word, i: nat)
    requires i >= 256
    ensures !Bit(w, i)
  {
    hide Pow2;
    DivModUnique(w, 0, w, Pow2(256));
    MaskBit(256, w, i);
  }

  // ----- the window ops -----

  datatype WindowError = ZeroLengthBitwiseEncoding | TruncatedBitwiseEncoding(start: nat, length: nat)

  function StartBit(operand: nat): Byte { operand % 0x100 }

  function Length(operand: nat): Byte { operand / 0x100 % 0x100 }

  /** The windows that the integrity check of both ops accepts. */
  function CheckWindow(operand: nat): (r: Result<(), WindowError>)
    ensures r.Ok? <==> 0 < Length(operand) && StartBit(operand) + Length(operand) <= 256
    ensures r.Err? ==>
              r.error == if Length(operand) == 0 then ZeroLengthBitwiseEncoding
                         else TruncatedBitwiseEncoding(StartBit(operand), Length(operand))
  {
    if Length(operand) == 0 then Err(ZeroLengthBitwiseEncoding)
    else if StartBit(operand) + Length(operand) > 256
    then Err(TruncatedBitwiseEncoding(StartBit(operand), Length(operand)))
    else Ok(())
  }

  function Ones(length: nat): nat { Pow2(length) - 1 }

  lemma OnesFit(length: nat)
    requires length < 256
    ensures Ones(length) < Pow2(256)
  {
    hide Pow2;
    Pow2Add(length, 256 - length);
    assert Pow2(256) == Pow2(256 - length) * Pow2(length);
    MulAtLeast(Pow2(256 - length), Pow2(length));
  }

  lemma OnesBit(length: nat, i: nat)
    ensures Bit(Ones(length), i) == (i < length)
  {
    ComplementBit(0, length, i);
    ZeroBit(i);
  }

  lemma BitsBound(w: nat)
    requires forall i: nat | i >= 256 :: !Bit(w, i)
    ensures w < Pow2(256)
  {
    hide Pow2;
    forall i: nat
      ensures Bit(Mask(256, w), i) == Bit(w, i)
    {
      MaskBit(256, w, i);
    }
    SameBits(Mask(256, w), w);
  }

  /** Bit `i` of an encoded word. */
  predicate EncodedBit(start: nat, length: nat, source: Word, target: Word, i: nat) {
    if start <= i < start + length then i < 256 && Bit(source, i - start) else Bit(target, i)
  }

  function Hole(start: nat, length: nat, target: Word): nat {
    And(target, Not(Shl(start, Ones(length))))
  }

  function Patch(start: nat, length: nat, source: Word): Word {
    Shl(start, And(source, Ones(length)))
  }

  /** Punches a hole in the target and fills it with the low bits of the source. */
  function Encode(start: nat, length: nat, source: Word, target: Word): (w: Word)
    ensures forall i: nat :: Bit(w, i) == EncodedBit(start, length, source, target, i)
  {
    forall i: nat ensures Bit(Or(Hole(start, length, target), Patch(start, length, source)), i)
                       == EncodedBit(start, length, source, target, i) {
      EncodeBit(start, length, source, target, i);
    }
    forall i: nat | i >= 256 ensures !Bit(Or(Hole(start, length, target), Patch(start, length, source)), i) {
      HighBitsClear(target, i);
    }
    BitsBound(Or(Hole(start, length, target), Patch(start, length, source)));
    Or(Hole(start, length, target), Patch(start, length, source))
  }

  lemma EncodeBit(start: nat, length: nat, source: Word, target: Word, i: nat)
    ensures Bit(Or(Hole(start, length, target), Patch(start, length, source)), i)
         == EncodedBit(start, length, source, target, i)
  {
    hide *;
    OrBit(Hole(start, length, target), Patch(start, length, source), i);
    HoleBit(start, length, target, i);
    PatchBit(start, length, source, i);
    EncodedBitIs(start, length, source, target, i);
    if i >= 256 {
      HighBitsClear(target, i);
    }
  }

  lemma EncodedBitIs(start: nat, length: nat, source: Word, target: Word, i: nat)
    ensures EncodedBit(start, length, source, target, i) ==
            if start <= i < start + length then i < 256 && Bit(source, i - start) else Bit(target, i)
  {}

  lemma HoleBit(start: nat, length: nat, target: Word, i: nat)
    ensures Bit(Hole(start, length, target), i) == (Bit(target, i) && !(start <= i < start + length && i < 256))
  {
    hide Pow2, Bit, And, Shl, Ones;
    AndBit(target, Not(Shl(start, Ones(length))), i);
    ComplementBit(Shl(start, Ones(length)), 256, i);
    ShlBit(start, Ones(length), i);
    if i >= start {
      OnesBit(length, i - start);
    }
    if i >= 256 {
      HighBitsClear(target, i);
    }
  }

  lemma PatchBit(start: nat, length: nat, source: Word, i: nat)
    ensures Bit(Patch(start, length, source), i) ==
            (start <= i < start + length && i < 256 && Bit(source, i - start))
  {
    hide Pow2, Bit, And, Shl, Ones;
    ShlBit(start, And(source, Ones(length)), i);
    if i >= start {
      AndBit(source, Ones(length), i - start);
      OnesBit(length, i - start);
    }
  }

  /** Shifts the window down and masks it. */
  function Decode(start: nat, length: nat, value: Word): (w: Word)
    ensures forall i: nat :: Bit(w, i) == (i < length && Bit(value, i + start))
  {
    forall i: nat ensures Bit(And(Shr(start, value), Ones(length)), i) == (i < length && Bit(value, i + start)) {
      DecodeBit(start, length, value, i);
    }
    forall i: nat | i >= 256 ensures !Bit(And(Shr(start, value), Ones(length)), i) {
      HighBitsClear(value, i + start);
    }
    BitsBound(And(Shr(start, value), Ones(length)));
    And(Shr(start, value), Ones(length))
  }

  lemma DecodeBit(start: nat, length: nat, value: Word, i: nat)
    ensures Bit(And(Shr(start, value), Ones(length)), i) == (i < length && Bit(value, i + start))
  {
    hide Pow2, Bit, And, Shr, Ones;
    AndBit(Shr(start, value), Ones(length), i);
    ShrBit(start, value, i);
    OnesBit(length, i);
  }

  // ----- lens laws -----

  /** Reading what was written gives the low bits of the source, for every source
      and target, exactly when the window fits the word. */
  lemma DecodeEncode(start: nat, length: nat, source: Word, target: Word)
    requires start + length <= 256
    ensures Decode(start, length, Encode(start, length, source, target)) == Mask(length, source)
  {
    hide Pow2, Bit, Mask;
    forall i: nat
      ensures Bit(Decode(start, length, Encode(start, length, source, target)), i) == Bit(Mask(length, source), i)
    {
      MaskBit(length, source, i);
    }
    SameBits(Decode(start, length, Encode(start, length, source, target)), Mask(length, source));
  }

  /** A window past the end of the word loses the top bit of its source. */
  lemma TruncatedLosesBit(start: nat, length: nat, target: Word)
    requires start < 256 && length < 256 && start + length > 256
    ensures Ones(length) < Pow2(256)
    ensures Decode(start, length, Encode(start, length, Ones(length), target)) != Mask(length, Ones(length))
  {
    hide Pow2, Bit, Mask, Ones;
    OnesFit(length);
    var encoded := Encode(start, length, Ones(length), target);
    HighBitsClear(encoded, length - 1 + start);
    assert !Bit(Decode(start, length, encoded), length - 1);
    MaskBit(length, Ones(length), length - 1);
    OnesBit(length, length - 1);
  }

  /** Of the windows an operand can name, the ones that give back every source
      are the ones the integrity check accepts, and the empty ones. */
  lemma RoundTripIffFits(operand: nat)
    ensures CheckWindow(operand).Ok? || Length(operand) == 0 <==>
            forall source: Word, target: Word ::
              Decode(StartBit(operand), Length(operand), Encode(StartBit(operand), Length(operand), source, target))
              == Mask(Length(operand), source)
  {
    hide Pow2, Bit, Mask, Ones, Decode, Encode;
    var start: nat, length: nat := StartBit(operand), Length(operand);
    if start + length <= 256 {
      forall source: Word, target: Word
        ensures Decode(start, length, Encode(start, length, source, target)) == Mask(length, source)
      {
        DecodeEncode(start, length, source, target);
      }
    } else {
      TruncatedLosesBit(start, length, 0);
    }
  }

  /** Writing back what was read changes nothing. */
  lemma EncodeDecoded(start: nat, length: nat, value: Word)
    ensures Encode(start, length, Decode(start, length, value), value) == value
  {
    hide Pow2, Bit;
    forall i: nat
      ensures Bit(Encode(start, length, Decode(start, length, value), value), i) == Bit(value, i)
    {
      if i >= 256 {
        HighBitsClear(value, i);
      }
    }
    SameBits(Encode(start, length, Decode(start, length, value), value), value);
  }

  /** The last write to a window wins. */
  lemma EncodeTwice(start: nat, length: nat, first: Word, second: Word, target: Word)
    ensures Encode(start, length, second, Encode(start, length, first, target))
         == Encode(start, length, second, target)
  {
    hide Pow2, Bit;
    SameBits(Encode(start, length, second, Encode(start, length, first, target)),
             Encode(start, length, second, target));
  }

  /** A decoded window outside the encoded one is untouched. */
  lemma DecodeOther(s1: nat, l1: nat, s2: nat, l2: nat, source: Word, target: Word)
    requires s1 + l1 <= s2 || s2 + l2 <= s1
    ensures Decode(s2, l2, Encode(s1, l1, source, target)) == Decode(s2, l2, target)
  {
    hide Pow2, Bit;
    SameBits(Decode(s2, l2, Encode(s1, l1, source, target)), Decode(s2, l2, target));
  }

  /** Writes to disjoint windows commute. */
  lemma DisjointCommute(s1: nat, l1: nat, s2: nat, l2: nat, a: Word, b: Word, target: Word)
    requires s1 + l1 <= s2 || s2 + l2 <= s1
    ensures Encode(s1, l1, a, Encode(s2, l2, b, target)) == Encode(s2, l2, b, Encode(s1, l1, a, target))
  {
    hide Pow2, Bit;
    SameBits(Encode(s1, l1, a, Encode(s2, l2, b, target)), Encode(s2, l2, b, Encode(s1, l1, a, target)));
  }

  // ----- as entries of the op table -----

  /** The source is on top of the stack, the target below it. */
  function RunEncode(operand: nat, xs: seq<Word>): seq<Word> {
    if |xs| != 2 then [] else [Encode(StartBit(operand), Length(operand), xs[0], xs[1])]
  }

  function RunDecode(operand: nat, xs: seq<Word>): seq<Word> {
    if |xs| != 1 then [] else [Decode(StartBit(operand), Length(operand), xs[0])]
  }

  function EncodeOp(): OpImpl {
    Other(operand => if CheckWindow(operand).Ok? then Some((2, 1)) else None, RunEncode)
  }

  function DecodeOp(): OpImpl {
    Other(operand => if CheckWindow(operand).Ok? then Some((1, 1)) else None, RunDecode)
  }

  lemma WindowPacks(start: nat, length: nat, high: nat)
    requires start < 0x100 && length < 0x100
    ensures StartBit(high * 0x1_0000 + length * 0x100 + start) == start
    ensures Length(high * 0x1_0000 + length * 0x100 + start) == length
  {
    var operand := high * 0x1_0000 + length * 0x100 + start;
    assert operand == (high * 0x100 + length) * 0x100 + start;
    DivModUnique(operand, high * 0x100 + length, start, 0x100);
    DivModUnique(high * 0x100 + length, high, length, 0x100);
  }

  /** What `encode-bits` gives, bit by bit, for the window its operand names: the low
      bits of the item on top of the stack inside it, and the bits of the item below
      outside it. The bits of the operand above the window's are its counts. */
  lemma EncodeBits(start: nat, length: nat, high: nat, source: Word, target: Word, i: nat)
    requires 0 < length < 0x100 && start + length <= 256 && start < 0x100
    ensures var operand := high * 0x1_0000 + length * 0x100 + start;
            && CheckWindow(operand).Ok? && |RunEncode(operand, [source, target])| == 1
            && Bit(RunEncode(operand, [source, target])[0], i) ==
               if start <= i < start + length then Bit(source, i - start) else Bit(target, i)
  {
    hide Bit, Encode, Pow2, StartBit, Length;
    WindowPacks(start, length, high);
    EncodedBitIs(start, length, source, target, i);
  }

  /** What `decode-bits` gives: the bits of the window, moved down, and no others. */
  lemma DecodeBits(start: nat, length: nat, high: nat, value: Word, i: nat)
    requires 0 < length < 0x100 && start + length <= 256 && start < 0x100
    ensures var operand := high * 0x1_0000 + length * 0x100 + start;
            && CheckWindow(operand).Ok? && |RunDecode(operand, [value])| == 1
            && Bit(RunDecode(operand, [value])[0], i) == (i < length && Bit(value, i + start))
  {
    hide Bit, Decode, Pow2, StartBit, Length;
    WindowPacks(start, length, high);
  }

  /** What the table entries declare for the window an operand names. */
  lemma WindowOpsDeclare(start: nat, length: nat, high: nat)
    requires start < 0x100 && length < 0x100
    ensures var operand, fits := high * 0x1_0000 + length * 0x100 + start, 0 < length && start + length <= 256;
            && EncodeOp().io(operand) == (if fits then Some((2, 1)) else None)
            && DecodeOp().io(operand) == (if fits then Some((1, 1)) else None)
            && (forall xs :: EncodeOp().run(operand, xs) == RunEncode(operand, xs))
            && (forall xs :: DecodeOp().run(operand, xs) == RunDecode(operand, xs))
  {
    hide Encode, Decode, Pow2, StartBit, Length, RunEncode, RunDecode;
    WindowPacks(start, length, high);
  }

  /** A number's bits are its binary digits, so the bits above are its value. */
  lemma BitsAreDigits(w: nat)
    ensures Bit(w, 0) == (w % 2 == 1)
    ensures forall i: nat :: Bit(w, i + 1) == Bit(w / 2, i)
  {}

  /** Both ops give what they declare, so programs using them are deployable. */
  lemma WindowOpsHonest()
    ensures Honest(EncodeOp()) && Honest(DecodeOp())
  {
    hide Encode, Decode, Pow2;
  }
}
