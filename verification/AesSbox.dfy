/**
  The substitution table of aes.h is the one of section 5.1.1 of FIPS 197: the inverse in
  GF(2^8) followed by an affine map over bits.  Each quarter of the table is one finite check
  over bit vectors; the product they use is then tied to the field product.
 */
module AesSbox {

  import opened AesField

  function Times2(v: bv8): bv8 { (v << 1) ^ (if v & 0x80 != 0 then 0x1B else 0) }

  function Gate(u: bv8, mask: bv8, v: bv8): bv8 { if u & mask != 0 then v else 0 }

  /** The field product without recursion. */
  function FlatMul(u: bv8, v: bv8): bv8 {
    var v1 := Times2(v);
    var v2 := Times2(v1);
    var v3 := Times2(v2);
    var v4 := Times2(v3);
    var v5 := Times2(v4);
    var v6 := Times2(v5);
    var v7 := Times2(v6);
    var low := Xor(Xor(Xor(Gate(u, 1, v), Gate(u, 2, v1)), Gate(u, 4, v2)), Gate(u, 8, v3));
    Xor(Xor(Xor(Xor(low, Gate(u, 16, v4)), Gate(u, 32, v5)), Gate(u, 64, v6)), Gate(u, 128, v7))
  }

  function RotateBits(y: bv8, n: bv8): bv8
    requires 0 < n < 8
  {
    (y << n) | (y >> (8 - n))
  }

  /** The affine map of section 5.1.1 of FIPS 197. */
  function Affine(y: bv8): bv8 {
    y ^ RotateBits(y, 1) ^ RotateBits(y, 2) ^ RotateBits(y, 3) ^ RotateBits(y, 4) ^ 0x63
  }

  function Unaffine(c: bv8): bv8 {
    RotateBits(c, 1) ^ RotateBits(c, 3) ^ RotateBits(c, 6) ^ 0x05
  }

  lemma AffineUndone(c: bv8)
    ensures Affine(Unaffine(c)) == c
  {
  }

  // ----- the table, a quarter at a time

  /** The entry for x is the affine image of a field inverse of x. */
  predicate Inverts(x: bv8) { FlatMul(x, Unaffine(Sub(x))) == 1 }

  lemma Quarter0(x: bv8)
    requires x >> 6 == 0 && x != 0
    ensures Inverts(x)
  {
  }

  lemma Quarter1(x: bv8)
    requires x >> 6 == 1
    ensures Inverts(x)
  {
  }

  lemma Quarter2(x: bv8)
    requires x >> 6 == 2
    ensures Inverts(x)
  {
  }

  lemma Quarter3(x: bv8)
    requires x >> 6 == 3
    ensures Inverts(x)
  {
  }

  lemma QuarterNumber(x: bv8)
    ensures x >> 6 <= 3
  {
  }

  lemma EveryByte(x: bv8)
    requires x != 0
    ensures Inverts(x)
  {
    hide Inverts;
    QuarterNumber(x);
    match x >> 6
    case 0 => Quarter0(x);
    case 1 => Quarter1(x);
    case 2 => Quarter2(x);
    case _ => Quarter3(x);
  }

  // ----- the flat product is the field product

  lemma XTimeFlat(v: bv8)
    ensures XTime(v) == Times2(v)
  {
  }

  lemma BitFlat(u: bv8)
    ensures BitOf(u, 0) <==> u & 1 != 0
    ensures BitOf(u, 1) <==> u & 2 != 0
    ensures BitOf(u, 2) <==> u & 4 != 0
    ensures BitOf(u, 3) <==> u & 8 != 0
    ensures BitOf(u, 4) <==> u & 16 != 0
    ensures BitOf(u, 5) <==> u & 32 != 0
    ensures BitOf(u, 6) <==> u & 64 != 0
    ensures BitOf(u, 7) <==> u & 128 != 0
  {
  }

  lemma MulNext(u: bv8, v: bv8, n: nat, mask: bv8, power: bv8)
    requires n < 8 && (BitOf(u, n) <==> u & mask != 0) && power == XTimes(v, n)
    ensures MulBits(u, v, n + 1) == Xor(MulBits(u, v, n), Gate(u, mask, power))
    ensures XTimes(v, n + 1) == Times2(power)
  {
    hide BitOf, Xor;
    XTimeFlat(power);
  }

  /** Two turns of the product. */
  lemma MulTwo(u: bv8, v: bv8, n: nat, mask: bv8, mask': bv8, power: bv8)
    requires n < 7 && power == XTimes(v, n)
    requires (BitOf(u, n) <==> u & mask != 0) && (BitOf(u, n + 1) <==> u & mask' != 0)
    ensures MulBits(u, v, n + 2) == Xor(Xor(MulBits(u, v, n), Gate(u, mask, power)), Gate(u, mask', Times2(power)))
    ensures XTimes(v, n + 2) == Times2(Times2(power))
  {
    hide BitOf, Xor, Gate, Times2, MulBits, XTimes;
    MulNext(u, v, n, mask, power);
    MulNext(u, v, n + 1, mask', Times2(power));
  }

  lemma MulIsFlat(u: bv8, v: bv8)
    ensures Mul(u, v) == FlatMul(u, v)
  {
    BitFlat(u);
    hide BitOf, MulBits, XTimes, Gate, Times2, Xor;
    var v2 := Times2(Times2(v));
    var v4 := Times2(Times2(v2));
    MulStart(u, v);
    MulTwo(u, v, 0, 1, 2, v);
    MulTwo(u, v, 2, 4, 8, v2);
    MulTwo(u, v, 4, 16, 32, v4);
    MulTwo(u, v, 6, 64, 128, Times2(Times2(v4)));
    ZeroXor(Gate(u, 1, v));
  }

  lemma MulStart(u: bv8, v: bv8)
    ensures MulBits(u, v, 0) == 0 && XTimes(v, 0) == v
  {
  }

  lemma ZeroXor(p: bv8)
    ensures Xor(0, p) == p
  {
  }

  /** S maps 0 to the affine constant and every other byte to the affine image of its inverse. */
  lemma SubIsAffineInverse(x: bv8)
    ensures var y := Unaffine(Sub(x));
      Sub(x) == Affine(y) && if x == 0 then y == 0 else Mul(x, y) == 1
  {
    AffineUndone(Sub(x));
    if x == 0 {
      assert Sub(0) == 0x63;
    } else {
      hide Affine, Unaffine, Sub, FlatMul, Mul;
      EveryByte(x);
      MulIsFlat(x, Unaffine(Sub(x)));
    }
  }
}
