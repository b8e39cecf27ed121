/**
 Fixed-width unsigned arithmetic and bit operations of the 32-bit target.

 Values are mathematical integers restricted to a width; every C expression
 that can wrap goes through `Wrap32` or `Wrap64`, and `&` and `|` are the
 recursive bit-by-bit operations below.  The lemmas translate masks into
 division and remainder.
 */
module Machine {

  type Byte = b: int | 0 <= b < 0x100
  type Word = w: int | 0 <= w < 0x1_0000_0000
  type Quad = q: int | 0 <= q < 0x1_0000_0000_0000_0000

  function Wrap32(x: int): Word {
    x % 0x1_0000_0000
  }

  lemma WrapSmall(x: int)
    requires 0 <= x < 0x1_0000_0000
    ensures Wrap32(x) == x
  {
  }

  function Wrap64(x: int): Quad {
    x % 0x1_0000_0000_0000_0000
  }

  function Min(a: int, b: int): int {
    if a <= b then a else b
  }

  function Pow2(k: nat): (r: nat)
    ensures r > 0
  {
    if k == 0 then 1 else 2 * Pow2(k - 1)
  }

  function BitAnd(a: nat, b: nat): (r: nat)
    ensures r <= a && r <= b
  {
    if a == 0 || b == 0 then 0
    else 2 * BitAnd(a / 2, b / 2) + if a % 2 == 1 && b % 2 == 1 then 1 else 0
  }

  function BitOr(a: nat, b: nat): (r: nat)
    ensures a <= r && b <= r && r <= a + b
  {
    if a == 0 then b
    else if b == 0 then a
    else 2 * BitOr(a / 2, b / 2) + if a % 2 == 1 || b % 2 == 1 then 1 else 0
  }

  /** Little-endian assembly of two and of four bytes. */
  function LE16(b0: Byte, b1: Byte): (w: Word)
    ensures w < 0x10000
  {
    b0 + 0x100 * b1
  }

  function LE32(b0: Byte, b1: Byte, b2: Byte, b3: Byte): Word {
    b0 + 0x100 * b1 + 0x10000 * b2 + 0x1000000 * b3
  }

  /** Byte b of a word, the lowest first. */
  function ByteOf(w: Word, b: nat): Byte
    requires b < 4
  {
    if b == 0 then w % 0x100
    else if b == 1 then w / 0x100 % 0x100
    else if b == 2 then w / 0x1_0000 % 0x100
    else w / 0x100_0000 % 0x100
  }

  /** A number stored little-endian, in two bytes and in four. */
  function Bytes16(w: Word): (bytes: seq<Byte>)
    requires w < 0x1_0000
    ensures |bytes| == 2
  {
    [w % 0x100, w / 0x100]
  }

  function Bytes32(w: Word): (bytes: seq<Byte>)
    ensures |bytes| == 4
  {
    [ByteOf(w, 0), ByteOf(w, 1), ByteOf(w, 2), ByteOf(w, 3)]
  }

  lemma Bytes16Back(w: Word)
    requires w < 0x1_0000
    ensures LE16(Bytes16(w)[0], Bytes16(w)[1]) == w
  {
  }

  lemma DigitsOf(b0: Byte, b1: Byte, b2: Byte, b3: Byte)
    ensures var w := LE32(b0, b1, b2, b3);
            ByteOf(w, 0) == b0 && ByteOf(w, 1) == b1 && ByteOf(w, 2) == b2 && ByteOf(w, 3) == b3
  {
    var w := LE32(b0, b1, b2, b3);
    DivModUnique(w, 0x100, b1 + 0x100 * b2 + 0x1_0000 * b3, b0);
    DivModUnique(w, 0x1_0000, b2 + 0x100 * b3, b0 + 0x100 * b1);
    DivModUnique(w, 0x100_0000, b3, b0 + 0x100 * b1 + 0x1_0000 * b2);
    DivModUnique(b1 + 0x100 * b2 + 0x1_0000 * b3, 0x100, b2 + 0x100 * b3, b1);
    DivModUnique(b2 + 0x100 * b3, 0x100, b3, b2);
  }

  lemma WordFromBytes(w: Word)
    ensures LE32(ByteOf(w, 0), ByteOf(w, 1), ByteOf(w, 2), ByteOf(w, 3)) == w
  {
    var h1 := w / 0x100;
    var h2 := h1 / 0x100;
    var h3 := h2 / 0x100;
    var b0, b1, b2 := w % 0x100, h1 % 0x100, h2 % 0x100;
    assert w == 0x100 * h1 + b0 && h1 == 0x100 * h2 + b1 && h2 == 0x100 * h3 + b2;
    assert w == LE32(b0, b1, b2, h3);
    DigitsOf(b0, b1, b2, h3);
    hide ByteOf;
  }

  /** The C test for a power of two: one bit set. */
  predicate PowerOfTwo(value: Word) {
    value != 0 && BitAnd(value, value - 1) == 0
  }

  predicate OneBit(value: nat) {
    value == 1 || (value > 1 && value % 2 == 0 && OneBit(value / 2))
  }

  lemma {:induction false} PowerOfTwoMeans(value: Word)
    ensures PowerOfTwo(value) <==> exists k: nat :: k < 32 && value == Pow2(k)
  {
    Pow2Values();
    if value > 0 {
      ClearLowestBit(value);
      if OneBit(value) {
        var k := OneBitIsPow2(value, 32);
      }
      if k: nat :| k < 32 && value == Pow2(k) {
        Pow2IsOneBit(k);
      }
    } else {
      assert forall k: nat :: Pow2(k) > 0;
    }
  }

  lemma {:induction false} ClearLowestBit(value: nat)
    requires value > 0
    ensures BitAnd(value, value - 1) == 0 <==> OneBit(value)
  {
    if value > 1 {
      if value % 2 == 0 {
        assert (value - 1) / 2 == value / 2 - 1;
        ClearLowestBit(value / 2);
      } else {
        assert (value - 1) / 2 == value / 2;
        BitAndSelf(value / 2);
      }
    }
  }

  lemma {:induction false} OneBitIsPow2(value: nat, n: nat) returns (k: nat)
    requires OneBit(value) && value < Pow2(n)
    ensures k < n && value == Pow2(k)
  {
    if value == 1 {
      k := 0;
    } else {
      var j := OneBitIsPow2(value / 2, n - 1);
      k := j + 1;
    }
  }

  lemma Pow2IsOneBit(k: nat)
    ensures OneBit(Pow2(k))
  {
  }

  lemma BitAndSelf(a: nat)
    ensures BitAnd(a, a) == a
  {
    if a > 0 {
      BitAndSelf(a / 2);
    }
  }

  lemma Pow2Values()
    ensures Pow2(4) == 0x10 && Pow2(8) == 0x100 && Pow2(12) == 0x1000 && Pow2(16) == 0x10000
    ensures Pow2(20) == 0x100000 && Pow2(24) == 0x1000000 && Pow2(28) == 0x1000_0000
    ensures Pow2(32) == 0x1_0000_0000
  {
    assert Pow2(2) == 4;
    assert Pow2(4) == 16;
    assert Pow2(6) == 64;
    assert Pow2(8) == 0x100;
    assert Pow2(10) == 0x400;
    assert Pow2(12) == 0x1000;
    assert Pow2(14) == 0x4000;
    assert Pow2(16) == 0x10000;
    assert Pow2(18) == 0x40000;
    assert Pow2(20) == 0x100000;
    assert Pow2(22) == 0x400000;
    assert Pow2(24) == 0x1000000;
    assert Pow2(26) == 0x4000000;
    assert Pow2(28) == 0x1000_0000;
    assert Pow2(30) == 0x4000_0000;
  }

  /** Masking the low k bits is the remainder. */
  lemma {:induction false} LowBits(a: nat, k: nat)
    ensures BitAnd(a, Pow2(k) - 1) == a % Pow2(k)
    decreases k
  {
    if k > 0 {
      var p := Pow2(k - 1);
      LowBits(a / 2, k - 1);
      assert (2 * p - 1) / 2 == p - 1;
      DivDouble(a, p);
    }
  }

  lemma DivDouble(a: nat, p: nat)
    requires p > 0
    ensures a / (2 * p) == (a / 2) / p
    ensures a % (2 * p) == 2 * ((a / 2) % p) + a % 2
  {
    var q, r := (a / 2) / p, (a / 2) % p;
    assert a / 2 == p * q + r;
    assert a == 2 * (p * q) + (2 * r + a % 2);
    assert 2 * (p * q) == (2 * p) * q;
    DivModUnique(a, 2 * p, q, 2 * r + a % 2);
  }

  lemma DivModUnique(a: int, d: int, q: int, r: int)
    requires d > 0 && 0 <= r < d && a == d * q + r
    ensures a / d == q && a % d == r
  {
    var q', r' := a / d, a % d;
    assert a == d * q' + r';
    assert d * (q' - q) == d * q' - d * q == r - r';
    if q' > q {
      MulAtLeast(d, q' - q);
    } else if q' < q {
      MulAtLeast(d, q - q');
    }
  }

  lemma MulAtLeast(d: int, k: int)
    requires d >= 0 && k >= 1
    ensures d * k >= d
  {
    assert d * k == d * (k - 1) + d;
  }

  lemma AndDouble(a: nat, b: nat)
    ensures BitAnd(a, 2 * b) == 2 * BitAnd(a / 2, b)
  {
    if a != 0 && b != 0 {
      assert (2 * b) / 2 == b && (2 * b) % 2 == 0;
    }
  }

  function ShiftLeft(b: nat, k: nat): nat {
    if k == 0 then b else 2 * ShiftLeft(b, k - 1)
  }

  function ShiftRight(a: nat, k: nat): nat {
    if k == 0 then a else ShiftRight(a / 2, k - 1)
  }

  lemma {:induction false} AndShifted(a: nat, b: nat, k: nat)
    ensures BitAnd(a, ShiftLeft(b, k)) == ShiftLeft(BitAnd(ShiftRight(a, k), b), k)
    decreases k
  {
    if k > 0 {
      AndShifted(a / 2, b, k - 1);
      AndDouble(a, ShiftLeft(b, k - 1));
    }
  }

  lemma {:induction false} ShiftLeftIsTimes(b: nat, k: nat)
    ensures ShiftLeft(b, k) == Pow2(k) * b
  {
    if k > 0 {
      ShiftLeftIsTimes(b, k - 1);
      assert 2 * (Pow2(k - 1) * b) == (2 * Pow2(k - 1)) * b;
    }
  }

  lemma {:induction false} ShiftRightIsDiv(a: nat, k: nat)
    ensures ShiftRight(a, k) == a / Pow2(k)
    decreases k
  {
    if k > 0 {
      ShiftRightIsDiv(a / 2, k - 1);
      DivDouble(a, Pow2(k - 1));
    }
  }

  /** Clearing the low twelve bits of a word rounds down to a page. */
  lemma PageMask(w: Word)
    ensures BitAnd(w, 0xffff_f000) == w - w % 0x1000
  {
    hide BitAnd, ShiftLeft, ShiftRight, Pow2;
    Pow2Values();
    AndShifted(w, 0xf_ffff, 12);
    ShiftLeftIsTimes(0xf_ffff, 12);
    ShiftRightIsDiv(w, 12);
    var page := w / 0x1000;
    LowBits(page, 20);
    assert page % 0x10_0000 == page;
    ShiftLeftIsTimes(page, 12);
  }

  /** The 28 significant bits of a FAT32 entry, and the four reserved ones. */
  lemma FatMask(w: Word)
    ensures BitAnd(w, 0x0fff_ffff) == w % 0x1000_0000
    ensures BitAnd(w, 0xf000_0000) != 0 <==> w >= 0x1000_0000
  {
    hide BitAnd, ShiftLeft, ShiftRight, Pow2;
    Pow2Values();
    LowBits(w, 28);
    AndShifted(w, 0xf, 28);
    ShiftLeftIsTimes(0xf, 28);
    ShiftRightIsDiv(w, 28);
    var top := w / 0x1000_0000;
    LowBits(top, 4);
    assert top % 16 == top;
    ShiftLeftIsTimes(top, 28);
  }

  lemma BitEight(w: nat)
    ensures BitAnd(w, 8) == 8 * (w / 8 % 2)
  {
    BitFour(w / 2);
    assert w / 2 / 4 == w / 8;
    AndDouble(w, 4);
  }

  lemma BitSixteen(w: nat)
    ensures BitAnd(w, 16) == 16 * (w / 16 % 2)
  {
    BitEight(w / 2);
    assert w / 2 / 8 == w / 16;
    AndDouble(w, 8);
  }

  lemma BitFour(w: nat)
    ensures BitAnd(w, 4) == 4 * (w / 4 % 2)
  {
    AndDouble(w, 2);
    AndDouble(w / 2, 1);
    AndOne(w / 2 / 2);
    assert w / 2 / 2 == w / 4;
  }

  lemma AndOdd(w: nat)
    ensures BitAnd(w, 5) == w % 2 + 4 * (w / 4 % 2)
  {
    AndDouble(w / 2, 1);
    AndOne(w / 2 / 2);
    assert w / 2 / 2 == w / 4;
    if w > 0 {
      assert BitAnd(w, 5) == 2 * BitAnd(w / 2, 2) + w % 2;
    }
  }

  lemma AndOne(a: nat)
    ensures BitAnd(a, 1) == a % 2
  {
  }

  /** Or-ing into clear low bits adds. */
  lemma {:induction false} OrIsAdd(a: nat, b: nat, k: nat)
    requires a % Pow2(k) == 0 && b < Pow2(k)
    ensures BitOr(a, b) == a + b
    decreases k
  {
    if k > 0 && a > 0 && b > 0 {
      var p := Pow2(k - 1);
      DivDouble(a, p);
      OrIsAdd(a / 2, b / 2, k - 1);
    }
  }

  lemma OrUser(w: nat)
    ensures BitOr(w, 4) == if w / 4 % 2 == 1 then w else w + 4
  {
    assert BitOr(w / 2 / 2, 1) == if w / 4 % 2 == 1 then w / 4 else w / 4 + 1;
    assert BitOr(w / 2, 2) == if w / 4 % 2 == 1 then w / 2 else w / 2 + 2;
  }

  /** The sums in LE16 and LE32 are the or of the shifted bytes. */
  lemma LittleEndianOr(b0: Byte, b1: Byte, b2: Byte, b3: Byte)
    ensures BitOr(b0, 0x100 * b1) == LE16(b0, b1)
    ensures BitOr(BitOr(BitOr(b0, 0x100 * b1), 0x10000 * b2), 0x1000000 * b3) == LE32(b0, b1, b2, b3)
  {
    Pow2Values();
    OrAbove(b0, 0x100 * b1, 8);
    OrAbove(b0 + 0x100 * b1, 0x10000 * b2, 16);
    OrAbove(b0 + 0x100 * b1 + 0x10000 * b2, 0x1000000 * b3, 24);
  }

  lemma OrAbove(low: nat, high: nat, k: nat)
    requires low < Pow2(k) && high % Pow2(k) == 0
    ensures BitOr(low, high) == low + high
  {
    OrComm(low, high);
    OrIsAdd(high, low, k);
  }

  lemma OrComm(a: nat, b: nat)
    ensures BitOr(a, b) == BitOr(b, a)
    decreases a + b
  {
    if a > 0 && b > 0 {
      OrComm(a / 2, b / 2);
    }
  }
}
