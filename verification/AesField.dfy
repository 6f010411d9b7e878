/**
  The byte arithmetic of smile-case1/aes.h: the S-box and its inverse, and
  multiplication in GF(2^8) with the facts that make the column transforms
  inverse to each other.
 */
module AesField {

  // ----- S-box

  /** One row of the table S: sixteen bytes, first column most significant. */
  function SRow(high: bv8): bv128 {
    match high
    case 0 => 0x637C777B_F26B6FC5_3001672B_FED7AB76
    case 1 => 0xCA82C97D_FA5947F0_ADD4A2AF_9CA472C0
    case 2 => 0xB7FD9326_363FF7CC_34A5E5F1_71D83115
    case 3 => 0x04C723C3_1896059A_071280E2_EB27B275
    case 4 => 0x09832C1A_1B6E5AA0_523BD6B3_29E32F84
    case 5 => 0x53D100ED_20FCB15B_6ACBBE39_4A4C58CF
    case 6 => 0xD0EFAAFB_434D3385_45F9027F_503C9FA8
    case 7 => 0x51A3408F_929D38F5_BCB6DA21_10FFF3D2
    case 8 => 0xCD0C13EC_5F974417_C4A77E3D_645D1973
    case 9 => 0x60814FDC_222A9088_46EEB814_DE5E0BDB
    case 10 => 0xE0323A0A_4906245C_C2D3AC62_9195E479
    case 11 => 0xE7C8376D_8DD54EA9_6C56F4EA_657AAE08
    case 12 => 0xBA78252E_1CA6B4C6_E8DD741F_4BBD8B8A
    case 13 => 0x703EB566_4803F60E_613557B9_86C11D9E
    case 14 => 0xE1F89811_69D98E94_9B1E87E9_CE5528DF
    case _ => 0x8CA1890D_BFE64268_41992D0F_B054BB16
  }

  /** One row of the table inv_S. */
  function InvSRow(high: bv8): bv128 {
    match high
    case 0 => 0x52096AD5_3036A538_BF40A39E_81F3D7FB
    case 1 => 0x7CE33982_9B2FFF87_348E4344_C4DEE9CB
    case 2 => 0x547B9432_A6C2233D_EE4C950B_42FAC34E
    case 3 => 0x082EA166_28D924B2_765BA249_6D8BD125
    case 4 => 0x72F8F664_86689816_D4A45CCC_5D65B692
    case 5 => 0x6C704850_FDEDB9DA_5E154657_A78D9D84
    case 6 => 0x90D8AB00_8CBCD30A_F7E45805_B8B34506
    case 7 => 0xD02C1E8F_CA3F0F02_C1AFBD03_01138A6B
    case 8 => 0x3A911141_4F67DCEA_97F2CFCE_F0B4E673
    case 9 => 0x96AC7422_E7AD3585_E2F937E8_1C75DF6E
    case 10 => 0x47F11A71_1D29C589_6FB7620E_AA18BE1B
    case 11 => 0xFC563E4B_C6D27920_9ADBC0FE_78CD5AF4
    case 12 => 0x1FDDA833_8807C731_B1121059_2780EC5F
    case 13 => 0x60517FA9_19B54A0D_2DE57A9F_93C99CEF
    case 14 => 0xA0E03B4D_AE2AF5B0_C8EBBB3C_83539961
    case _ => 0x172B047E_BA77D626_E1691463_55210C7D
  }

  function Pick(row: bv128, low: bv8): bv8
    requires low < 16
  {
    ((row >> (8 * (15 - low))) & 0xFF) as bv8
  }

  lemma LowNibble(x: bv8)
    ensures x & 15 < 16
  {
  }

  /** S[x] */
  function Sub(x: bv8): bv8 {
    LowNibble(x);
    Pick(SRow(x >> 4), x & 15)
  }

  /** inv_S[x] */
  function InvSub(x: bv8): bv8 {
    LowNibble(x);
    Pick(InvSRow(x >> 4), x & 15)
  }

  lemma SubInverse0(x: bv8)
    requires x >> 5 == 0
    ensures InvSub(Sub(x)) == x
  {
  }

  lemma SubInverse1(x: bv8)
    requires x >> 5 == 1
    ensures InvSub(Sub(x)) == x
  {
  }

  lemma SubInverse2(x: bv8)
    requires x >> 5 == 2
    ensures InvSub(Sub(x)) == x
  {
  }

  lemma SubInverse3(x: bv8)
    requires x >> 5 == 3
    ensures InvSub(Sub(x)) == x
  {
  }

  lemma SubInverse4(x: bv8)
    requires x >> 5 == 4
    ensures InvSub(Sub(x)) == x
  {
  }

  lemma SubInverse5(x: bv8)
    requires x >> 5 == 5
    ensures InvSub(Sub(x)) == x
  {
  }

  lemma SubInverse6(x: bv8)
    requires x >> 5 == 6
    ensures InvSub(Sub(x)) == x
  {
  }

  lemma SubInverse7(x: bv8)
    requires x >> 5 == 7
    ensures InvSub(Sub(x)) == x
  {
  }

  /** The second table undoes the first. */
  lemma SubInverse(x: bv8)
    ensures InvSub(Sub(x)) == x
  {
    hide Sub, InvSub;
    TopBits(x);
    if
    case x >> 5 == 0 => SubInverse0(x);
    case x >> 5 == 1 => SubInverse1(x);
    case x >> 5 == 2 => SubInverse2(x);
    case x >> 5 == 3 => SubInverse3(x);
    case x >> 5 == 4 => SubInverse4(x);
    case x >> 5 == 5 => SubInverse5(x);
    case x >> 5 == 6 => SubInverse6(x);
    case x >> 5 == 7 => SubInverse7(x);
  }

  lemma TopBits(x: bv8)
    ensures x >> 5 <= 7
  {
  }

  // ----- GF(2^8)

  /** Multiplication by the polynomial x, reduced by x^8 + x^4 + x^3 + x + 1. */
  function XTime(v: bv8): bv8 {
    Xor(Double(v), Reduction(v))
  }

  function Xor(x: bv8, y: bv8): bv8 { x ^ y }

  function XTimes(v: bv8, n: nat): bv8
    decreases n
  {
    if n == 0 then v else XTime(XTimes(v, n - 1))
  }

  /** The sum of `v` times x^k over the bits `k < n` set in `u`. */
  function MulBits(u: bv8, v: bv8, n: nat): bv8
    requires n <= 8
    decreases n
  {
    if n == 0 then 0 else Xor(MulBits(u, v, n - 1), if BitOf(u, n - 1) then XTimes(v, n - 1) else 0)
  }

  function Half(u: bv8): bv8 { u >> 1 }

  function Halves(u: bv8, n: nat): bv8 {
    if n == 0 then u else Half(Halves(u, n - 1))
  }

  /** Bit `k` of `u`. */
  predicate BitOf(u: bv8, k: nat) {
    Halves(u, k) & 1 == 1
  }

  /** The product in GF(2^8). */
  function Mul(u: bv8, v: bv8): bv8 {
    MulBits(u, v, 8)
  }

  lemma XorLaws(a: bv8, b: bv8, c: bv8, d: bv8)
    ensures Xor(Xor(a, b), Xor(c, d)) == Xor(Xor(a, c), Xor(b, d))
    ensures Xor(0, 0) == 0
  {
  }

  lemma TopBit(x: bv8)
    ensures x & 0x80 == 0 || x & 0x80 == 0x80
  {
  }

  lemma TopBitLinear(x: bv8, y: bv8)
    ensures (x ^ y) & 0x80 == (x & 0x80) ^ (y & 0x80)
  {
  }

  function Reduction(v: bv8): bv8 { if v & 0x80 != 0 then 0x1B else 0 }

  lemma ReductionLinear(x: bv8, y: bv8)
    ensures Reduction(Xor(x, y)) == Xor(Reduction(x), Reduction(y))
  {
    TopBit(x);
    TopBit(y);
    TopBitLinear(x, y);
  }

  function Double(v: bv8): bv8 { v << 1 }

  lemma DoubleLinear(x: bv8, y: bv8)
    ensures Double(Xor(x, y)) == Xor(Double(x), Double(y))
  {
  }

  lemma XTimeLinear(x: bv8, y: bv8)
    ensures XTime(Xor(x, y)) == Xor(XTime(x), XTime(y))
  {
    hide Xor, Double, Reduction;
    DoubleLinear(x, y);
    ReductionLinear(x, y);
    XorLaws(Double(x), Double(y), Reduction(x), Reduction(y));
  }

  lemma {:induction false} XTimesLinear(x: bv8, y: bv8, n: nat)
    ensures XTimes(Xor(x, y), n) == Xor(XTimes(x, n), XTimes(y, n))
    decreases n
  {
    hide Xor, XTime;
    if n > 0 {
      XTimesLinear(x, y, n - 1);
      XTimeLinear(XTimes(x, n - 1), XTimes(y, n - 1));
    }
  }

  lemma {:induction false} MulBitsLinear(u: bv8, x: bv8, y: bv8, n: nat)
    requires n <= 8
    ensures MulBits(u, Xor(x, y), n) == Xor(MulBits(u, x, n), MulBits(u, y, n))
    decreases n
  {
    hide Xor, XTime, XTimes, BitOf;
    XorLaws(0, 0, 0, 0);
    if n > 0 {
      MulBitsLinear(u, x, y, n - 1);
      XTimesLinear(x, y, n - 1);
      var b := BitOf(u, n - 1);
      XorLaws(MulBits(u, x, n - 1), MulBits(u, y, n - 1),
        if b then XTimes(x, n - 1) else 0, if b then XTimes(y, n - 1) else 0);
    }
  }

  /** Multiplication distributes over xor. */
  lemma MulDistributes(u: bv8, x: bv8, y: bv8)
    ensures Mul(u, Xor(x, y)) == Xor(Mul(u, x), Mul(u, y))
  {
    MulBitsLinear(u, x, y, 8);
  }

  /** GMul: the shift-and-add loop computes the product. */
  method GMul(u0: bv8, v0: bv8) returns (p: bv8)
    ensures p == Mul(u0, v0)
  {
    hide Xor, XTime, BitOf, Half;
    p := 0;
    var u, v := u0, v0;
    for i := 0 to 8
      invariant p == MulBits(u0, v0, i)
      invariant v == XTimes(v0, i)
      invariant u == Halves(u0, i)
    {
      p, u, v := GMulTurn(u0, i, p, u, v);
    }
  }

  /** The body of the loop in GMul. */
  method GMulTurn(ghost u0: bv8, ghost i: nat, p0: bv8, u: bv8, v: bv8) returns (p: bv8, u': bv8, v': bv8)
    requires u == Halves(u0, i)
    ensures p == Xor(p0, if BitOf(u0, i) then v else 0)
    ensures u' == Half(u) && v' == XTime(v)
  {
    TurnMeaning(p0, u, v);
    hide *;
    p := p0;
    if u & 0x01 != 0 {
      p := p ^ v;
    }
    var flag := v & 0x80;
    v' := v << 1;
    if flag != 0 {
      v' := v' ^ 0x1B;
    }
    u' := u >> 1;
    assert BitOf(u0, i) <==> u & 0x01 != 0 by { BitMeaning(u0, i); }
  }

  lemma BitMeaning(u0: bv8, i: nat)
    ensures BitOf(u0, i) <==> Halves(u0, i) & 0x01 != 0
  {
    LowBit(Halves(u0, i));
  }

  lemma TurnMeaning(p: bv8, u: bv8, v: bv8)
    ensures Xor(p, v) == p ^ v && Xor(p, 0) == p
    ensures XTime(v) == if v & 0x80 != 0 then (v << 1) ^ 0x1B else v << 1
    ensures Half(u) == u >> 1
  {
    XorZero(p);
    XorZero(v << 1);
  }

  lemma LowBit(u: bv8)
    ensures u & 1 == 0 || u & 1 == 1
  {
  }

  lemma XorZero(p: bv8)
    ensures Xor(p, 0) == p && Xor(0, p) == p && Xor(p, p) == 0
  {
  }

  // ----- the column matrices

  function If(b: bool, v: bv8): bv8 { if b then v else 0 }

  /** The product by a number below 16, given its four low bits. */
  lemma {:induction false} MulByBits(u: bv8, v: bv8, b0: bool, b1: bool, b2: bool, b3: bool)
    requires BitOf(u, 0) == b0 && BitOf(u, 1) == b1 && BitOf(u, 2) == b2 && BitOf(u, 3) == b3
    requires !BitOf(u, 4) && !BitOf(u, 5) && !BitOf(u, 6) && !BitOf(u, 7)
    ensures Mul(u, v) ==
      Xor(Xor(Xor(If(b0, v), If(b1, XTime(v))), If(b2, XTime(XTime(v)))), If(b3, XTime(XTime(XTime(v)))))
  {
    hide BitOf, XTime, Xor;
    assert XTimes(v, 0) == v && XTimes(v, 1) == XTime(v);
    assert XTimes(v, 2) == XTime(XTimes(v, 1));
    assert XTimes(v, 3) == XTime(XTimes(v, 2));
    assert MulBits(u, v, 0) == 0;
    assert MulBits(u, v, 1) == Xor(0, If(b0, v));
    XorZero(If(b0, v));
    assert MulBits(u, v, 2) == Xor(MulBits(u, v, 1), If(b1, XTimes(v, 1)));
    assert MulBits(u, v, 3) == Xor(MulBits(u, v, 2), If(b2, XTimes(v, 2)));
    var m := MulBits(u, v, 4);
    assert m == Xor(MulBits(u, v, 3), If(b3, XTimes(v, 3)));
    XorZero(m);
    assert MulBits(u, v, 5) == m;
    assert MulBits(u, v, 6) == m;
    assert MulBits(u, v, 7) == m;
    assert MulBits(u, v, 8) == m;
  }

  lemma BitsOf(u: bv8)
    requires u < 16
    ensures BitOf(u, 0) <==> u & 1 != 0
    ensures BitOf(u, 1) <==> u & 2 != 0
    ensures BitOf(u, 2) <==> u & 4 != 0
    ensures BitOf(u, 3) <==> u & 8 != 0
    ensures !BitOf(u, 4) && !BitOf(u, 5) && !BitOf(u, 6) && !BitOf(u, 7)
  {
    assert Halves(u, 1) == u >> 1;
    assert Halves(u, 2) == u >> 2;
    assert Halves(u, 3) == u >> 3;
    assert Halves(u, 4) == 0;
    assert Halves(u, 5) == 0;
    assert Halves(u, 6) == 0;
    assert Halves(u, 7) == 0;
  }

  function Xor3(x: bv8, y: bv8, z: bv8): bv8 { x ^ y ^ z }

  function Xor4(a: bv8, b: bv8, c: bv8, d: bv8): bv8 { a ^ b ^ c ^ d }

  lemma Xor3Nested(x: bv8, y: bv8, z: bv8)
    ensures Xor(Xor(x, y), z) == Xor3(x, y, z)
  {
  }

  // Products by the entries of the two column matrices.

  lemma Mul1(v: bv8)
    ensures Mul(0x01, v) == v
  {
    hide XTime, Mul, BitOf, Xor, Xor3;
    BitsOf(0x01);
    MulByBits(0x01, v, true, false, false, false);
    XorZero(v);
    XorZero(0);
  }

  lemma Mul2(v: bv8)
    ensures Mul(0x02, v) == XTime(v)
  {
    hide XTime, Mul, BitOf, Xor, Xor3;
    BitsOf(0x02);
    MulByBits(0x02, v, false, true, false, false);
    XorZero(XTime(v));
    XorZero(0);
  }

  lemma Mul3(v: bv8)
    ensures Mul(0x03, v) == Xor(v, XTime(v))
  {
    hide XTime, Mul, BitOf, Xor, Xor3;
    BitsOf(0x03);
    MulByBits(0x03, v, true, true, false, false);
    XorZero(v);
    XorZero(Xor(v, XTime(v)));
  }

  lemma Mul9(v: bv8)
    ensures Mul(0x09, v) == Xor(v, XTime(XTime(XTime(v))))
  {
    hide XTime, Mul, BitOf, Xor, Xor3;
    BitsOf(0x09);
    MulByBits(0x09, v, true, false, false, true);
    XorZero(v);
    XorZero(Xor(v, XTime(XTime(XTime(v)))));
  }

  lemma MulB(v: bv8)
    ensures Mul(0x0B, v) == Xor3(v, XTime(v), XTime(XTime(XTime(v))))
  {
    hide XTime, Mul, BitOf, Xor, Xor3;
    BitsOf(0x0B);
    MulByBits(0x0B, v, true, true, false, true);
    XorZero(v);
    XorZero(Xor(v, XTime(v)));
    Xor3Nested(v, XTime(v), XTime(XTime(XTime(v))));
  }

  lemma MulD(v: bv8)
    ensures Mul(0x0D, v) == Xor3(v, XTime(XTime(v)), XTime(XTime(XTime(v))))
  {
    hide XTime, Mul, BitOf, Xor, Xor3;
    BitsOf(0x0D);
    MulByBits(0x0D, v, true, false, true, true);
    XorZero(v);
    XorZero(Xor(v, XTime(XTime(v))));
    Xor3Nested(v, XTime(XTime(v)), XTime(XTime(XTime(v))));
  }

  lemma MulE(v: bv8)
    ensures Mul(0x0E, v) == Xor3(XTime(v), XTime(XTime(v)), XTime(XTime(XTime(v))))
  {
    hide XTime, Mul, BitOf, Xor, Xor3;
    BitsOf(0x0E);
    MulByBits(0x0E, v, false, true, true, true);
    XorZero(XTime(v));
    XorZero(Xor(XTime(v), XTime(XTime(v))));
    Xor3Nested(XTime(v), XTime(XTime(v)), XTime(XTime(XTime(v))));
  }

  // Row (0x0E 0x0B 0x0D 0x09) against the four columns of the forward matrix.

  lemma Powers0(y0: bv8, y1: bv8, y2: bv8, y3: bv8, y4: bv8)
    ensures Xor4(Xor3(y2, y3, y4), Xor3(y0, y1, y3), Xor3(y0, y2, y3), Xor(Xor(y0, y3), Xor(y1, y4))) == y0
  {
    assert (y2 ^ y3 ^ y4) ^ (y0 ^ y1 ^ y3) ^ (y0 ^ y2 ^ y3) ^ ((y0 ^ y3) ^ (y1 ^ y4)) == y0;
  }

  lemma Column0(v: bv8)
    ensures Xor4(Mul(0x0E, Mul(2, v)), Mul(0x0B, Mul(1, v)), Mul(0x0D, Mul(1, v)), Mul(0x09, Mul(3, v))) == v
  {
    hide *;
    var y := XTime(v);
    Mul2(v);
    MulE(y);
    Mul1(v);
    MulB(v);
    MulD(v);
    Mul3(v);
    MulDistributes(0x09, v, y);
    Mul9(v);
    Mul9(y);
    Powers0(v, y, XTime(y), XTime(XTime(y)), XTime(XTime(XTime(y))));
  }

  lemma Powers1(y0: bv8, y1: bv8, y2: bv8, y3: bv8, y4: bv8)
    ensures Xor4(Xor(Xor3(y1, y2, y3), Xor3(y2, y3, y4)), Xor3(y1, y2, y4), Xor3(y0, y2, y3), Xor(y0, y3)) == 0
  {
    assert ((y1 ^ y2 ^ y3) ^ (y2 ^ y3 ^ y4)) ^ (y1 ^ y2 ^ y4) ^ (y0 ^ y2 ^ y3) ^ (y0 ^ y3) == 0;
  }

  lemma Column1(v: bv8)
    ensures Xor4(Mul(0x0E, Mul(3, v)), Mul(0x0B, Mul(2, v)), Mul(0x0D, Mul(1, v)), Mul(0x09, Mul(1, v))) == 0
  {
    hide *;
    var y := XTime(v);
    Mul3(v);
    MulDistributes(0x0E, v, y);
    MulE(v);
    MulE(y);
    Mul2(v);
    MulB(y);
    Mul1(v);
    MulD(v);
    Mul9(v);
    Powers1(v, y, XTime(y), XTime(XTime(y)), XTime(XTime(XTime(y))));
  }

  lemma Powers2(y0: bv8, y1: bv8, y2: bv8, y3: bv8, y4: bv8)
    ensures Xor4(Xor3(y1, y2, y3), Xor(Xor3(y0, y1, y3), Xor3(y1, y2, y4)), Xor3(y1, y3, y4), Xor(y0, y3)) == 0
  {
    assert (y1 ^ y2 ^ y3) ^ ((y0 ^ y1 ^ y3) ^ (y1 ^ y2 ^ y4)) ^ (y1 ^ y3 ^ y4) ^ (y0 ^ y3) == 0;
  }

  lemma Column2(v: bv8)
    ensures Xor4(Mul(0x0E, Mul(1, v)), Mul(0x0B, Mul(3, v)), Mul(0x0D, Mul(2, v)), Mul(0x09, Mul(1, v))) == 0
  {
    hide *;
    var y := XTime(v);
    Mul1(v);
    MulE(v);
    Mul3(v);
    MulDistributes(0x0B, v, y);
    MulB(v);
    MulB(y);
    Mul2(v);
    MulD(y);
    Mul9(v);
    Powers2(v, y, XTime(y), XTime(XTime(y)), XTime(XTime(XTime(y))));
  }

  lemma Powers3(y0: bv8, y1: bv8, y2: bv8, y3: bv8, y4: bv8)
    ensures Xor4(Xor3(y1, y2, y3), Xor3(y0, y1, y3), Xor(Xor3(y0, y2, y3), Xor3(y1, y3, y4)), Xor(y1, y4)) == 0
  {
    assert (y1 ^ y2 ^ y3) ^ (y0 ^ y1 ^ y3) ^ ((y0 ^ y2 ^ y3) ^ (y1 ^ y3 ^ y4)) ^ (y1 ^ y4) == 0;
  }

  lemma Column3(v: bv8)
    ensures Xor4(Mul(0x0E, Mul(1, v)), Mul(0x0B, Mul(1, v)), Mul(0x0D, Mul(3, v)), Mul(0x09, Mul(2, v))) == 0
  {
    hide *;
    var y := XTime(v);
    Mul1(v);
    MulE(v);
    MulB(v);
    Mul3(v);
    MulDistributes(0x0D, v, y);
    MulD(v);
    MulD(y);
    Mul2(v);
    Mul9(y);
    Powers3(v, y, XTime(y), XTime(XTime(y)), XTime(XTime(XTime(y))));
  }
}
