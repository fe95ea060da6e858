/** Bytes, 256-bit words and the big-endian view of memory that every reader of
    packed data in the interpreter relies on. */
module Words {

  type Byte = b: int | 0 <= b < 0x100

  /** `2^n`, the only power the interpreter's shifts and masks need. */
  function Pow2(n: nat): (p: nat)
    ensures p >= 1
  {
    if n == 0 then 1 else 2 * Pow2(n - 1)
  }

  type Word = w: int | 0 <= w < Pow2(256)

  /** EVM `shr(bits, word)`. */
  function Shr(bits: nat, word: nat): nat {
    DivNat(word, Pow2(bits));
    word / Pow2(bits)
  }

  /** EVM `and(word, 2^bits - 1)`. */
  function Mask(bits: nat, word: nat): nat {
    word % Pow2(bits)
  }

  /** EVM `byte(i, word)`: byte 0 is the most significant of the 32. */
  function ByteOf(i: nat, word: nat): Byte
    requires i < 32
  {
    Shr(8 * (31 - i), word) % 0x100
  }

  /** Big-endian value of a byte string. */
  function Val(b: seq<Byte>): nat {
    if b == [] then 0 else Val(b[..|b| - 1]) * 0x100 + b[|b| - 1]
  }

  /** The low `n` bytes of `v`, most significant first. */
  function ToBytes(v: nat, n: nat): (b: seq<Byte>)
    ensures |b| == n
  {
    if n == 0 then [] else ToBytes(v / 0x100, n - 1) + [v % 0x100]
  }

  /** The byte at address `a`; EVM memory past its written end reads as zero. */
  function MemByte(mem: seq<Byte>, a: nat): Byte {
    if a < |mem| then mem[a] else 0
  }

  /** The 32 bytes that `mload(a)` looks at. */
  function MemSlice(mem: seq<Byte>, a: nat, n: nat): (b: seq<Byte>)
    ensures |b| == n
  {
    seq<Byte>(n, i requires 0 <= i < n => MemByte(mem, a + i))
  }

  /** EVM `mload(a)`. */
  function MLoad(mem: seq<Byte>, a: nat): (w: Word) {
    ValBound(MemSlice(mem, a, 32));
    Val(MemSlice(mem, a, 32))
  }

  // ----- powers of two -----

  lemma {:induction false} Pow2Add(m: nat, n: nat)
    ensures Pow2(m + n) == Pow2(m) * Pow2(n)
  {
    if m == 0 {
    } else {
      Pow2Add(m - 1, n);
      assert Pow2(m + n) == 2 * Pow2(m - 1 + n);
      Associate(2, Pow2(m - 1), Pow2(n));
    }
  }

  lemma ByteFitsWord()
    ensures 0x100 <= Pow2(256)
  {
    Pow2Add(8, 248);
    assert Pow2(8) == 0x100;
    MulAtLeast(Pow2(248), 0x100);
  }

  lemma Associate(a: int, b: int, c: int)
    ensures a * (b * c) == (a * b) * c
  {}

  lemma Pow2Eight(k: nat)
    ensures Pow2(8 * (k + 1)) == Pow2(8 * k) * 0x100
  {
    Pow2Add(8 * k, 8);
    assert Pow2(8) == 0x100;
    assert 8 * (k + 1) == 8 * k + 8;
  }

  /** A quotient and remainder are determined by their defining equation. */
  lemma DivModUnique(v: nat, q: nat, r: nat, p: nat)
    requires v == q * p + r && r < p
    ensures v / p == q && v % p == r
  {
    var q', r' := v / p, v % p;
    assert v == q' * p + r';
    assert (q - q') * p == r' - r;
    if q > q' {
      MulAtLeast(q - q', p);
      assert false;
    } else if q < q' {
      MulAtLeast(q' - q, p);
      assert false;
    }
  }

  lemma DivNat(v: nat, p: nat)
    requires p >= 1
    ensures v / p >= 0
  {
    var q := v / p;
    assert v == q * p + v % p;
    if q < 0 {
      MulAtLeast(-q, p);
    }
  }

  lemma MulAtLeast(k: int, p: nat)
    requires k >= 1
    ensures k * p >= p
  {
    assert k * p == p + (k - 1) * p;
    assert (k - 1) * p >= 0;
  }

  // ----- byte strings as numbers -----

  lemma {:induction false} ValBound(b: seq<Byte>)
    ensures Val(b) < Pow2(8 * |b|)
  {
    if b == [] {
    } else {
      ValBound(b[..|b| - 1]);
      Pow2Eight(|b| - 1);
    }
  }

  lemma {:induction false} ValConcat(a: seq<Byte>, b: seq<Byte>)
    ensures Val(a + b) == Val(a) * Pow2(8 * |b|) + Val(b)
  {
    if b == [] {
      assert a + b == a;
    } else {
      var c := b[..|b| - 1];
      assert (a + b)[..|a + b| - 1] == a + c;
      ValConcat(a, c);
      Pow2Eight(|b| - 1);
      Associate(Val(a), Pow2(8 * |c|), 0x100);
    }
  }

  lemma {:induction false} ValToBytes(v: nat, n: nat)
    ensures Val(ToBytes(v, n)) == v % Pow2(8 * n)
  {
    if n == 0 {
    } else {
      ValToBytes(v / 0x100, n - 1);
      assert ToBytes(v, n)[..n - 1] == ToBytes(v / 0x100, n - 1);
      Pow2Eight(n - 1);
      ModByByte(v, Pow2(8 * (n - 1)));
    }
  }

  lemma ModByByte(v: nat, p: nat)
    requires p > 0
    ensures v % (p * 0x100) == ((v / 0x100) % p) * 0x100 + v % 0x100
  {
    var u := v / 0x100;
    var q, r := u / p, u % p;
    assert u == q * p + r;
    Associate(q, p, 0x100);
    DivModUnique(v, q, r * 0x100 + v % 0x100, p * 0x100);
  }

  lemma {:induction false} ToBytesVal(b: seq<Byte>)
    ensures ToBytes(Val(b), |b|) == b
  {
    if b == [] {
    } else {
      ToBytesVal(b[..|b| - 1]);
    }
  }

  /** Every masked shift of a big-endian value is the value of a slice of its
      bytes. All the unaligned loads of the interpreter are instances. */
  lemma Window(b: seq<Byte>, lo: nat, hi: nat)
    requires lo <= hi <= |b|
    ensures Mask(8 * (hi - lo), Shr(8 * (|b| - hi), Val(b))) == Val(b[lo..hi])
  {
    assert b == b[..hi] + b[hi..];
    ValConcat(b[..hi], b[hi..]);
    ValBound(b[hi..]);
    DivModUnique(Val(b), Val(b[..hi]), Val(b[hi..]), Pow2(8 * (|b| - hi)));
    assert b[..hi] == b[..lo] + b[lo..hi];
    ValConcat(b[..lo], b[lo..hi]);
    ValBound(b[lo..hi]);
    DivModUnique(Val(b[..hi]), Val(b[..lo]), Val(b[lo..hi]), Pow2(8 * (hi - lo)));
  }

  /** `byte(i, mload(a))` is the byte at `a + i`. */
  lemma ByteOfMLoad(mem: seq<Byte>, a: nat, i: nat)
    requires i < 32
    ensures ByteOf(i, MLoad(mem, a)) == MemByte(mem, a + i)
  {
    var b := MemSlice(mem, a, 32);
    Window(b, i, i + 1);
    assert b[i..i + 1] == [MemByte(mem, a + i)];
    assert Pow2(8) == 0x100;
    assert Val([b[i]]) == b[i] by { assert [b[i]][..0] == []; }
  }

  /** A masked shift of a loaded word is the value of the bytes it keeps. */
  lemma WindowOfMLoad(mem: seq<Byte>, a: nat, lo: nat, hi: nat)
    requires lo <= hi <= 32
    ensures Mask(8 * (hi - lo), Shr(8 * (32 - hi), MLoad(mem, a))) == Val(MemSlice(mem, a + lo, hi - lo))
  {
    var b := MemSlice(mem, a, 32);
    Window(b, lo, hi);
    assert b[lo..hi] == MemSlice(mem, a + lo, hi - lo);
  }

  /** An unmasked right shift of a loaded word is the value of its first bytes. */
  lemma PrefixOfMLoad(mem: seq<Byte>, a: nat, n: nat)
    requires n <= 32
    ensures Shr(8 * (32 - n), MLoad(mem, a)) == Val(MemSlice(mem, a, n))
  {
    var b := MemSlice(mem, a, 32);
    assert b == b[..n] + b[n..];
    ValConcat(b[..n], b[n..]);
    ValBound(b[n..]);
    DivModUnique(Val(b), Val(b[..n]), Val(b[n..]), Pow2(8 * (32 - n)));
    assert b[..n] == MemSlice(mem, a, n);
  }

  /** A word survives the trip through its 32 bytes. */
  lemma WordRoundTrip(w: Word)
    ensures Val(ToBytes(w, 32)) == w
  {
    ValToBytes(w, 32);
    DivModUnique(w, 0, w, Pow2(256));
  }
}
