// Multiplication in GF(2^8), the field AES works in: bytes are polynomials over
// GF(2) of degree below 8, reduced modulo x^8 + x^4 + x^3 + x + 1 (0x11B).
// Models galoisMult of utils/pyAES.py.

module Galois {
  import opened Bytes

  /** Multiplication by x, reduced modulo 0x11B when the degree reaches 8. */
  function XTime(a: Byte): Byte
  {
    if a & 0x80 != 0 then (a << 1) ^ 0x1B else a << 1
  }

  /** XTime(a) is the remainder of a·x modulo x^8 + x^4 + x^3 + x + 1. */
  lemma XTimeIsReduction(a: Byte)
    ensures XTime(a) as bv16 == ((a as bv16) << 1) ^ (if a & 0x80 != 0 then 0x11B else 0)
  {
  }

  /**
   * The field product a·b: the XOR of x^i·a over the bits i set in b, where
   * x^i·a is a multiplied i times by x.
   */
  function FieldMul(a: Byte, b: Byte): Byte
    decreases b
  {
    if b == 0 then 0
    else (if b & 1 == 1 then a else 0) ^ FieldMul(XTime(a), b >> 1)
  }

  lemma FieldMulByZero(a: Byte)
    ensures FieldMul(a, 0) == 0
  {
  }

  lemma FieldMulOdd(a: Byte, b: Byte)
    requires b & 1 == 1
    ensures FieldMul(a, b) == a ^ FieldMul(XTime(a), b >> 1)
  {
  }

  lemma FieldMulEven(a: Byte, b: Byte)
    requires b != 0 && b & 1 == 0
    ensures FieldMul(a, b) == FieldMul(XTime(a), b >> 1)
  {
  }

  /** One pass of the shift-and-add loop keeps p ^ a·b unchanged. */
  lemma FieldMulStep(p: Byte, a: Byte, b: Byte)
    ensures p ^ FieldMul(a, b) == (if b & 1 == 1 then p ^ a else p) ^ FieldMul(XTime(a), b >> 1)
  {
    if b == 0 {
      FieldMulByZero(XTime(a));
    } else if b & 1 == 1 {
      FieldMulOdd(a, b);
    } else {
      FieldMulEven(a, b);
    }
  }

  // The constants MixColumns and its inverse multiply by, as sums of powers of x.

  lemma FieldMulByOne(y: Byte)
    ensures FieldMul(y, 1) == y
  {
    FieldMulByZero(XTime(y));
  }

  lemma FieldMulByTwo(y: Byte)
    ensures FieldMul(y, 2) == XTime(y)
  {
    FieldMulByOne(XTime(y));
    FieldMulEven(y, 2);
  }

  lemma FieldMulByThree(y: Byte)
    ensures FieldMul(y, 3) == XTime(y) ^ y
  {
    FieldMulByOne(XTime(y));
    FieldMulOdd(y, 3);
  }

  lemma FieldMulByNine(y: Byte)
    ensures FieldMul(y, 9) == XTime(XTime(XTime(y))) ^ y
  {
    var x1 := XTime(y);
    var x2 := XTime(x1);
    FieldMulByOne(XTime(x2));
    FieldMulEven(x2, 2);
    FieldMulEven(x1, 4);
    FieldMulOdd(y, 9);
  }

  lemma FieldMulByEleven(y: Byte)
    ensures FieldMul(y, 11) == XTime(XTime(XTime(y))) ^ XTime(y) ^ y
  {
    var x1 := XTime(y);
    var x2 := XTime(x1);
    FieldMulByOne(XTime(x2));
    FieldMulEven(x2, 2);
    FieldMulOdd(x1, 5);
    FieldMulOdd(y, 11);
  }

  lemma FieldMulByThirteen(y: Byte)
    ensures FieldMul(y, 13) == XTime(XTime(XTime(y))) ^ XTime(XTime(y)) ^ y
  {
    var x1 := XTime(y);
    var x2 := XTime(x1);
    FieldMulByOne(XTime(x2));
    FieldMulOdd(x2, 3);
    FieldMulEven(x1, 6);
    FieldMulOdd(y, 13);
  }

  lemma FieldMulByFourteen(y: Byte)
    ensures FieldMul(y, 14) == XTime(XTime(XTime(y))) ^ XTime(XTime(y)) ^ XTime(y)
  {
    var x1 := XTime(y);
    var x2 := XTime(x1);
    FieldMulByOne(XTime(x2));
    FieldMulOdd(x2, 3);
    FieldMulOdd(x1, 7);
    FieldMulEven(y, 14);
  }

  /**
   * XTime without a branch: the bit shifted out of the byte is folded back
   * into bits 0, 1, 3 and 4, the set bits of 0x1B. Written this way a chain
   * of products is a single XOR-and-shift term, which the column proofs use.
   */
  lemma XTimeWired(a: Byte)
    ensures XTime(a) == (a << 1) ^ (a >> 7) ^ ((a >> 7) << 1) ^ ((a >> 7) << 3) ^ ((a >> 7) << 4)
  {
  }

  // The constants of mixColumn and mixColumnInv as XOR-and-shift terms.

  lemma FieldMulByTwoWired(y: Byte)
    ensures FieldMul(y, 2) ==
      var y1 := (y << 1) ^ (y >> 7) ^ ((y >> 7) << 1) ^ ((y >> 7) << 3) ^ ((y >> 7) << 4);
      y1
  {
    FieldMulByTwo(y);
    XTimeWired(y);
  }

  lemma FieldMulByThreeWired(y: Byte)
    ensures FieldMul(y, 3) ==
      var y1 := (y << 1) ^ (y >> 7) ^ ((y >> 7) << 1) ^ ((y >> 7) << 3) ^ ((y >> 7) << 4);
      y1 ^ y
  {
    FieldMulByThree(y);
    XTimeWired(y);
  }

  lemma FieldMulByNineWired(y: Byte)
    ensures FieldMul(y, 9) ==
      var y1 := (y << 1) ^ (y >> 7) ^ ((y >> 7) << 1) ^ ((y >> 7) << 3) ^ ((y >> 7) << 4);
      var y2 := (y1 << 1) ^ (y1 >> 7) ^ ((y1 >> 7) << 1) ^ ((y1 >> 7) << 3) ^ ((y1 >> 7) << 4);
      var y3 := (y2 << 1) ^ (y2 >> 7) ^ ((y2 >> 7) << 1) ^ ((y2 >> 7) << 3) ^ ((y2 >> 7) << 4);
      y3 ^ y
  {
    FieldMulByNine(y);
    XTimeWired(y);
    XTimeWired(XTime(y));
    XTimeWired(XTime(XTime(y)));
  }

  lemma FieldMulByElevenWired(y: Byte)
    ensures FieldMul(y, 11) ==
      var y1 := (y << 1) ^ (y >> 7) ^ ((y >> 7) << 1) ^ ((y >> 7) << 3) ^ ((y >> 7) << 4);
      var y2 := (y1 << 1) ^ (y1 >> 7) ^ ((y1 >> 7) << 1) ^ ((y1 >> 7) << 3) ^ ((y1 >> 7) << 4);
      var y3 := (y2 << 1) ^ (y2 >> 7) ^ ((y2 >> 7) << 1) ^ ((y2 >> 7) << 3) ^ ((y2 >> 7) << 4);
      y3 ^ y1 ^ y
  {
    FieldMulByEleven(y);
    XTimeWired(y);
    XTimeWired(XTime(y));
    XTimeWired(XTime(XTime(y)));
  }

  lemma FieldMulByThirteenWired(y: Byte)
    ensures FieldMul(y, 13) ==
      var y1 := (y << 1) ^ (y >> 7) ^ ((y >> 7) << 1) ^ ((y >> 7) << 3) ^ ((y >> 7) << 4);
      var y2 := (y1 << 1) ^ (y1 >> 7) ^ ((y1 >> 7) << 1) ^ ((y1 >> 7) << 3) ^ ((y1 >> 7) << 4);
      var y3 := (y2 << 1) ^ (y2 >> 7) ^ ((y2 >> 7) << 1) ^ ((y2 >> 7) << 3) ^ ((y2 >> 7) << 4);
      y3 ^ y2 ^ y
  {
    FieldMulByThirteen(y);
    XTimeWired(y);
    XTimeWired(XTime(y));
    XTimeWired(XTime(XTime(y)));
  }

  lemma FieldMulByFourteenWired(y: Byte)
    ensures FieldMul(y, 14) ==
      var y1 := (y << 1) ^ (y >> 7) ^ ((y >> 7) << 1) ^ ((y >> 7) << 3) ^ ((y >> 7) << 4);
      var y2 := (y1 << 1) ^ (y1 >> 7) ^ ((y1 >> 7) << 1) ^ ((y1 >> 7) << 3) ^ ((y1 >> 7) << 4);
      var y3 := (y2 << 1) ^ (y2 >> 7) ^ ((y2 >> 7) << 1) ^ ((y2 >> 7) << 3) ^ ((y2 >> 7) << 4);
      y3 ^ y2 ^ y1
  {
    FieldMulByFourteen(y);
    XTimeWired(y);
    XTimeWired(XTime(y));
    XTimeWired(XTime(XTime(y)));
  }

  lemma ShiftBound(i: nat, b: Byte)
    requires i < 8 && b <= 0xFF >> i
    ensures b >> 1 <= 0xFF >> (i + 1)
  {
  }

  /** The low byte of a 16-bit value. */
  function Low(x: bv16): Byte
  {
    (x & 0xFF) as Byte
  }

  /** Python's `% 256` keeps the low byte. */
  lemma LowIsMod(x: bv16)
    ensures (x % 256) as Byte == Low(x)
  {
  }

  /** The loop's update of the unmasked a: shift left, then add 0x1B when bit 7 was set. */
  function ShiftReduce(x: bv16): bv16
  {
    if x & 0x80 == 0x80 then (x << 1) ^ 0x1B else x << 1
  }

  /**
   * The source keeps a and p in unbounded Python integers and only reduces p
   * modulo 256 at the end. Bits above the low byte never flow back into it: the
   * low byte after XOR, after the top-bit test and after the shift with its
   * conditional XOR of 0x1B depends on the low bytes alone.
   */
  lemma HighBitsNeverReachLowByte(x: bv16, y: bv16)
    ensures Low(x ^ y) == Low(x) ^ Low(y)
    ensures (x & 0x80 == 0x80) == (Low(x) & 0x80 == 0x80)
    ensures Low(ShiftReduce(x)) == XTime(Low(x))
  {
  }

  /** The shift moves the high bits up by one, losing none while bit 15 is clear. */
  lemma ShiftKeepsHighBits(x: bv16)
    ensures x >> 15 == 0 ==> ShiftReduce(x) >> 8 == x >> 7
  {
  }

  /** The low byte of a byte widened to 16 bits is the byte. */
  lemma LowOfByte(x: Byte)
    ensures Low(x as bv16) == x
  {
  }

  /** What one pass does to the high bits: p takes a or not, and a moves up by one bit, losing none while bit 15 is clear. */
  predicate PassBits(p0: bv16, a0: bv16, p: bv16, a: bv16)
  {
    (p == p0 || p == p0 ^ a0) && (a0 >> 15 == 0 ==> a >> 8 == a0 >> 7)
  }

  /** The pass as a whole, on the bits: a becomes ShiftReduce(a) and p takes a or not. */
  lemma PassBitsOf(p0: bv16, a0: bv16, takeA: bool)
    ensures PassBits(p0, a0, if takeA then p0 ^ a0 else p0, ShiftReduce(a0))
  {
    ShiftKeepsHighBits(a0);
    hide ShiftReduce;
  }

  /**
   * The body of galoisMult's loop on the unmasked a and p: add a to p when the
   * low bit of b is set, shift a left and add 0x1B when its bit 7 was set,
   * halve b. On the low bytes this is one step of the field product, and while
   * bit 15 of a is clear nothing is lost from the high bits either.
   */
  method GaloisStep(p0: bv16, a0: bv16, b0: Byte) returns (p: bv16, a: bv16, b: Byte)
    ensures p == (if b0 & 1 == 1 then p0 ^ a0 else p0)
    ensures Low(p) == (if b0 & 1 == 1 then Low(p0) ^ Low(a0) else Low(p0))
    ensures Low(a) == XTime(Low(a0)) && b == b0 >> 1
    ensures PassBits(p0, a0, p, a)
  {
    p, a, b := p0, a0, b0;
    if b & 1 == 1 {
      p := p ^ a;
    }
    var hiBitSet := a & 0x80;
    a := a << 1;
    if hiBitSet == 0x80 {
      a := a ^ 0x1B;
    }
    b := b >> 1;
    assert a == ShiftReduce(a0);
    HighBitsNeverReachLowByte(p0, a0);
    PassBitsOf(p0, a0, b0 & 1 == 1);
    hide *;
  }

  /** x has no bit set outside m. */
  predicate Within(x: bv16, m: bv16)
  {
    x & m == x
  }

  /** The 16-bit value with the low n bits set. */
  function Mask(n: nat): bv16
    requires n <= 16
  {
    if n == 0 then 0 else (Mask(n - 1) << 1) | 1
  }

  /** x is below 2^n: no bit at position n or above is set. */
  predicate Below(x: bv16, n: nat)
    requires n <= 16
  {
    Within(x, Mask(n))
  }

  /** m covers the low byte and leaves bit 15 clear, and m1 is m widened by one bit. */
  predicate Widening(m: bv16, m1: bv16)
  {
    m & 0xFF == 0xFF && m >> 15 == 0 && m1 == (m << 1) | 1 && m & m1 == m
  }

  /** The masks from eight bits to sixteen, worked out one bit at a time. */
  lemma MaskValues()
    ensures Mask(8) == 0xFF && Mask(9) == 0x1FF && Mask(10) == 0x3FF && Mask(11) == 0x7FF
    ensures Mask(12) == 0xFFF && Mask(13) == 0x1FFF && Mask(14) == 0x3FFF && Mask(15) == 0x7FFF
    ensures Mask(16) == 0xFFFF
  {
    assert Mask(1) == 1;
    assert Mask(2) == 3;
    assert Mask(3) == 7;
    assert Mask(4) == 0xF;
    assert Mask(5) == 0x1F;
    assert Mask(6) == 0x3F;
    assert Mask(7) == 0x7F;
  }

  /** From eight bits up to fifteen the masks widen one bit at a time. */
  lemma MaskShape(n: nat)
    requires 8 <= n <= 15
    ensures Widening(Mask(n), Mask(n + 1))
  {
    MaskValues();
    hide Mask;
    if n == 8 {
    } else if n == 9 {
    } else if n == 10 {
    } else if n == 11 {
    } else if n == 12 {
    } else if n == 13 {
    } else if n == 14 {
    } else {
      assert n == 15;
    }
  }

  /** The shifted a stays within the widened mask. */
  lemma WidthStepA(m: bv16, m1: bv16, a0: bv16, a: bv16)
    requires Widening(m, m1) && Within(a0, m)
    requires a0 >> 15 == 0 ==> a >> 8 == a0 >> 7
    ensures Within(a, m1)
  {
    assert a0 >> 15 == 0;
    assert a >> 8 == a0 >> 7;
  }

  /** p with a added or not stays within the widened mask. */
  lemma WidthStepP(m: bv16, m1: bv16, p0: bv16, a0: bv16, p: bv16)
    requires m & m1 == m && Within(a0, m) && Within(p0, m)
    requires p == p0 || p == p0 ^ a0
    ensures Within(p, m1)
  {
  }

  /** One pass on the bits: a and p within m before, within m widened by one bit after. */
  lemma WidthStep(m: bv16, m1: bv16, p0: bv16, a0: bv16, p: bv16, a: bv16)
    requires Widening(m, m1) && Within(a0, m) && Within(p0, m) && PassBits(p0, a0, p, a)
    ensures Within(a, m1) && Within(p, m1)
  {
    WidthStepA(m, m1, a0, a);
    WidthStepP(m, m1, p0, a0, p);
  }

  /** A pass widens a and p by at most one bit: below 2^k before, below 2^(k+1) after. */
  lemma WidthGrows(p0: bv16, a0: bv16, p: bv16, a: bv16, k: nat)
    requires 8 <= k < 16 && Below(a0, k) && Below(p0, k) && PassBits(p0, a0, p, a)
    ensures Below(a, k + 1) && Below(p, k + 1)
  {
    MaskShape(k);
    hide Mask;
    hide Within;
    hide Widening;
    hide PassBits;
    WidthStep(Mask(k), Mask(k + 1), p0, a0, p, a);
  }

  /** The loop's invariant holds before the first pass. */
  lemma GaloisStart(a0: Byte, b0: Byte)
    ensures b0 <= 0xFF >> 0
    ensures Below(a0 as bv16, 8) && Below(0, 8)
    ensures FieldMul(a0, b0) == Low(0) ^ FieldMul(Low(a0 as bv16), b0)
  {
    LowOfByte(a0);
  }

  /**
   * One pass keeps the loop's invariant: b loses a bit, a and p gain at most
   * one (so below 2^16 after eight passes), and p ^ a·b on the low bytes is
   * still the product.
   */
  lemma GaloisPass(a0: Byte, b0: Byte, i: nat, p: bv16, a: bv16, b: Byte, p1: bv16, a1: bv16, b1: Byte)
    requires i < 8 && b <= 0xFF >> i
    requires Below(a, 8 + i) && Below(p, 8 + i)
    requires FieldMul(a0, b0) == Low(p) ^ FieldMul(Low(a), b)
    requires Low(p1) == (if b & 1 == 1 then Low(p) ^ Low(a) else Low(p))
    requires Low(a1) == XTime(Low(a)) && b1 == b >> 1
    requires PassBits(p, a, p1, a1)
    ensures b1 <= 0xFF >> (i + 1)
    ensures Below(a1, 8 + i + 1) && Below(p1, 8 + i + 1)
    ensures FieldMul(a0, b0) == Low(p1) ^ FieldMul(Low(a1), b1)
  {
    hide Below;
    hide PassBits;
    FieldMulStep(Low(p), Low(a), b);
    ShiftBound(i, b);
    WidthGrows(p, a, p1, a1, 8 + i);
  }

  /**
   * galoisMult(a, b): eight passes of the shift-and-add loop on the unmasked a
   * and p, then p % 256, compute the field product. a and p stay below 2^16, so
   * 16 bits hold the source's integers exactly.
   */
  method GaloisMult(a0: Byte, b0: Byte) returns (r: Byte)
    ensures r == FieldMul(a0, b0)
  {
    var a: bv16, b := a0 as bv16, b0;
    var p: bv16 := 0;
    GaloisStart(a0, b0);
    hide FieldMul;
    hide XTime;
    hide Below;
    for i := 0 to 8
      invariant b <= 0xFF >> i
      invariant Below(a, 8 + i) && Below(p, 8 + i)
      invariant FieldMul(a0, b0) == Low(p) ^ FieldMul(Low(a), b)
    {
      var p1, a1, b1 := GaloisStep(p, a, b);
      GaloisPass(a0, b0, i, p, a, b, p1, a1, b1);
      p, a, b := p1, a1, b1;
    }
    FieldMulByZero(Low(a));
    r := (p % 256) as Byte;
    LowIsMod(p);
  }
}
