/**
  The example of appendix C.1 of FIPS 197 as a value of module Aes's specification: it fixes the
  S-box, the row and column transforms, the key schedule and the order of the bytes.
 */
module AesVectors {

  import opened AesField
  import opened Aes
  import opened AesLoops

  // ----- one column of a round on given bytes

  function Round(s: State, w: Schedule, r: nat): State
    requires r <= 9
  {
    AddKey(Columns(MIX, ShiftState(SubState(s))), w, r)
  }

  function LastRound(s: State, w: Schedule): State {
    AddKey(ShiftState(SubState(s)), w, 10)
  }

  /** Column `j` of a state, from the top down. */
  predicate Is(s: State, j: nat, a: bv8, b: bv8, c: bv8, d: bv8)
    requires j < 4
  {
    s[j] == a && s[4 + j] == b && s[8 + j] == c && s[12 + j] == d
  }

  /** The bytes that shifting the rows brings to column `j`. */
  predicate Diagonal(s: State, j: nat, a: bv8, b: bv8, c: bv8, d: bv8)
    requires j < 4
  {
    s[j] == a && s[4 + (j + 1) % 4] == b && s[8 + (j + 2) % 4] == c && s[12 + (j + 3) % 4] == d
  }

  predicate Subs(a: bv8, b: bv8, c: bv8, d: bv8, e: bv8, f: bv8, g: bv8, h: bv8) {
    Sub(a) == e && Sub(b) == f && Sub(c) == g && Sub(d) == h
  }

  predicate KeyBytes(k: bv32, a: bv8, b: bv8, c: bv8, d: bv8) {
    KeyByte(k, 0) == a && KeyByte(k, 1) == b && KeyByte(k, 2) == c && KeyByte(k, 3) == d
  }

  lemma ShiftedColumn(s: State, j: nat, a: bv8, b: bv8, c: bv8, d: bv8, e: bv8, f: bv8, g: bv8, h: bv8)
    requires j < 4 && Diagonal(s, j, a, b, c, d) && Subs(a, b, c, d, e, f, g, h)
    ensures Is(ShiftState(SubState(s)), j, e, f, g, h)
  {
    hide Sub;
  }

  lemma MixedColumn(t: State, j: nat, a: bv8, b: bv8, c: bv8, d: bv8)
    requires j < 4 && Is(t, j, a, b, c, d)
    ensures Is(Columns(MIX, t), j, Mixed(a, b, c, d), Mixed(b, c, d, a), Mixed(c, d, a, b), Mixed(d, a, b, c))
  {
    hide Columns, Dot, Mixed;
    ColumnsAt(MIX, t, j);
    MatrixRows(a, b, c, d);
  }

  lemma KeyedColumn(t: State, w: Schedule, r: nat, j: nat, a: bv8, b: bv8, c: bv8, d: bv8,
      k0: bv8, k1: bv8, k2: bv8, k3: bv8)
    requires r <= 10 && j < 4 && Is(t, j, a, b, c, d) && KeyBytes(w[4 * r + j], k0, k1, k2, k3)
    ensures Is(AddKey(t, w, r), j, Xor(a, k0), Xor(b, k1), Xor(c, k2), Xor(d, k3))
  {
    hide KeyByte, Xor;
    KeyedAt(t, w, r, j, 0);
    KeyedAt(t, w, r, j, 1);
    KeyedAt(t, w, r, j, 2);
    KeyedAt(t, w, r, j, 3);
  }

  lemma KeyedAt(t: State, w: Schedule, r: nat, j: nat, i: nat)
    requires r <= 10 && j < 4 && i < 4
    ensures AddKey(t, w, r)[4 * i + j] == Xor(t[4 * i + j], KeyByte(w[4 * r + j], i))
  {
    hide KeyByte, Xor;
    assert (4 * i + j) % 4 == j && (4 * i + j) / 4 == i;
  }

  /** Twice the byte in GF(2^8). */
  lemma TwiceTo(v: bv8, x: bv8)
    requires x == (v << 1) ^ (if v & 0x80 != 0 then 0x1B else 0)
    ensures XTime(v) == x
  {
  }

  lemma SumTo(x: bv8, y: bv8, b: bv8, c: bv8, d: bv8, m: bv8)
    requires m == x ^ y ^ b ^ c ^ d
    ensures Xor4(x, Xor(b, y), c, d) == m
  {
  }

  /** A mixed byte of given bytes; `x` and `y` are the first two bytes times 2. */
  lemma MixedTo(a: bv8, b: bv8, c: bv8, d: bv8, x: bv8, y: bv8, m: bv8)
    requires XTime(a) == x && XTime(b) == y && m == x ^ y ^ b ^ c ^ d
    ensures Mixed(a, b, c, d) == m
  {
    MixedIs(a, b, c, d);
    hide *;
    Mul2(a);
    Mul3(b);
    Mul1(c);
    Mul1(d);
    SumTo(x, y, b, c, d, m);
  }

  lemma MixedIs(a: bv8, b: bv8, c: bv8, d: bv8)
    ensures Mixed(a, b, c, d) == Xor4(Mul(2, a), Mul(3, b), Mul(1, c), Mul(1, d))
  {
    hide Mul, Xor4;
  }

  lemma KeyedTo(m: bv8, k: bv8, y: bv8)
    requires y == m ^ k
    ensures Xor(m, k) == y
  {
  }

  lemma ByteTo(a: bv8, b: bv8, c: bv8, d: bv8, x: bv8, y: bv8, k: bv8, r: bv8)
    requires XTime(a) == x && XTime(b) == y && r == (x ^ y ^ b ^ c ^ d) ^ k
    ensures Xor(Mixed(a, b, c, d), k) == r
  {
    hide *;
    MixedTo(a, b, c, d, x, y, x ^ y ^ b ^ c ^ d);
    KeyedTo(x ^ y ^ b ^ c ^ d, k, r);
  }

  predicate Doubled(v: bv8, x: bv8) { x == (v << 1) ^ (if v & 0x80 != 0 then 0x1B else 0) }

  lemma DoubledIs(v: bv8, x: bv8)
    requires Doubled(v, x)
    ensures XTime(v) == x
  {
    TwiceTo(v, x);
    hide XTime;
  }

  lemma ColumnBytes(e: bv8, f: bv8, g: bv8, h: bv8, p: bv8, q: bv8, u: bv8, v: bv8,
      k0: bv8, k1: bv8, k2: bv8, k3: bv8, y0: bv8, y1: bv8, y2: bv8, y3: bv8)
    requires Doubled(e, p) && Doubled(f, q) && Doubled(g, u) && Doubled(h, v)
    requires y0 == (p ^ q ^ f ^ g ^ h) ^ k0 && y1 == (q ^ u ^ g ^ h ^ e) ^ k1
    requires y2 == (u ^ v ^ h ^ e ^ f) ^ k2 && y3 == (v ^ p ^ e ^ f ^ g) ^ k3
    ensures Xor(Mixed(e, f, g, h), k0) == y0 && Xor(Mixed(f, g, h, e), k1) == y1
    ensures Xor(Mixed(g, h, e, f), k2) == y2 && Xor(Mixed(h, e, f, g), k3) == y3
  {
    hide *;
    DoubledIs(e, p);
    DoubledIs(f, q);
    DoubledIs(g, u);
    DoubledIs(h, v);
    ByteTo(e, f, g, h, p, q, k0, y0);
    ByteTo(f, g, h, e, q, u, k1, y1);
    ByteTo(g, h, e, f, u, v, k2, y2);
    ByteTo(h, e, f, g, v, p, k3, y3);
  }

  lemma RoundIs(s: State, w: Schedule, r: nat)
    requires 0 < r <= 9
    ensures Round(s, w, r) == AddKey(Columns(MIX, ShiftState(SubState(s))), w, r)
    ensures LastRound(s, w) == AddKey(ShiftState(SubState(s)), w, 10)
  {
    hide AddKey, Columns, ShiftState, SubState;
  }

  /**
    Column `j` of round `r`: `a` to `d` come from the state before, `e` to `h` are substituted for them,
    `p` to `t` are those times 2, `m0` to `m3` the mixed bytes and `y0` to `y3` the result.
   */
  lemma ColumnTurn(s: State, w: Schedule, r: nat, j: nat, a: bv8, b: bv8, c: bv8, d: bv8,
      e: bv8, f: bv8, g: bv8, h: bv8, p: bv8, q: bv8, u: bv8, v: bv8,
      k0: bv8, k1: bv8, k2: bv8, k3: bv8, y0: bv8, y1: bv8, y2: bv8, y3: bv8)
    requires 0 < r <= 9 && j < 4 && Diagonal(s, j, a, b, c, d) && Subs(a, b, c, d, e, f, g, h)
    requires KeyBytes(w[4 * r + j], k0, k1, k2, k3)
    requires Doubled(e, p) && Doubled(f, q) && Doubled(g, u) && Doubled(h, v)
    requires y0 == (p ^ q ^ f ^ g ^ h) ^ k0 && y1 == (q ^ u ^ g ^ h ^ e) ^ k1
    requires y2 == (u ^ v ^ h ^ e ^ f) ^ k2 && y3 == (v ^ p ^ e ^ f ^ g) ^ k3
    ensures Is(Round(s, w, r), j, y0, y1, y2, y3)
  {
    hide *;
    ColumnBytes(e, f, g, h, p, q, u, v, k0, k1, k2, k3, y0, y1, y2, y3);
    var t := ShiftState(SubState(s));
    ShiftedColumn(s, j, a, b, c, d, e, f, g, h);
    MixedColumn(t, j, e, f, g, h);
    KeyedColumn(Columns(MIX, t), w, r, j, Mixed(e, f, g, h), Mixed(f, g, h, e), Mixed(g, h, e, f), Mixed(h, e, f, g),
      k0, k1, k2, k3);
    RoundIs(s, w, r);
  }

  lemma LastColumnTurn(s: State, w: Schedule, j: nat, a: bv8, b: bv8, c: bv8, d: bv8,
      e: bv8, f: bv8, g: bv8, h: bv8, k0: bv8, k1: bv8, k2: bv8, k3: bv8, y0: bv8, y1: bv8, y2: bv8, y3: bv8)
    requires j < 4 && Diagonal(s, j, a, b, c, d) && Subs(a, b, c, d, e, f, g, h)
    requires KeyBytes(w[40 + j], k0, k1, k2, k3)
    requires y0 == e ^ k0 && y1 == f ^ k1 && y2 == g ^ k2 && y3 == h ^ k3
    ensures Is(LastRound(s, w), j, y0, y1, y2, y3)
  {
    hide *;
    KeyedTo(e, k0, y0);
    KeyedTo(f, k1, y1);
    KeyedTo(g, k2, y2);
    KeyedTo(h, k3, y3);
    ShiftedColumn(s, j, a, b, c, d, e, f, g, h);
    KeyedColumn(ShiftState(SubState(s)), w, 10, j, e, f, g, h, k0, k1, k2, k3);
    RoundIs(s, w, 1);
  }

  lemma FirstColumnTurn(s: State, w: Schedule, j: nat, a: bv8, b: bv8, c: bv8, d: bv8,
      k0: bv8, k1: bv8, k2: bv8, k3: bv8, y0: bv8, y1: bv8, y2: bv8, y3: bv8)
    requires j < 4 && Is(s, j, a, b, c, d) && KeyBytes(w[j], k0, k1, k2, k3)
    requires y0 == a ^ k0 && y1 == b ^ k1 && y2 == c ^ k2 && y3 == d ^ k3
    ensures Is(AddKey(s, w, 0), j, y0, y1, y2, y3)
  {
    hide *;
    KeyedTo(a, k0, y0);
    KeyedTo(b, k1, y1);
    KeyedTo(c, k2, y2);
    KeyedTo(d, k3, y3);
    KeyedColumn(s, w, 0, j, a, b, c, d, k0, k1, k2, k3);
  }

  // ----- the key schedule

  /** The words of round key `r`. */
  predicate RoundKey(w: Schedule, r: nat, a: bv32, b: bv32, c: bv32, d: bv32)
    requires r <= 10
  {
    w[4 * r] == a && w[4 * r + 1] == b && w[4 * r + 2] == c && w[4 * r + 3] == d
  }

  lemma MixWordTo(x: bv32, a: bv8, b: bv8, c: bv8, d: bv8, e: bv8, f: bv8, g: bv8, h: bv8, m: bv32)
    requires KeyBytes(x, a, b, c, d) && Subs(b, c, d, a, e, f, g, h)
    requires m == (e as bv32 << 24) | (f as bv32 << 16) | (g as bv32 << 8) | h as bv32
    ensures MixWord(x) == m
  {
    LoadTo(e, f, g, h, m);
    hide Sub, KeyByte, Load32;
  }

  lemma LoadTo(e: bv8, f: bv8, g: bv8, h: bv8, m: bv32)
    requires m == (e as bv32 << 24) | (f as bv32 << 16) | (g as bv32 << 8) | h as bv32
    ensures Load32(e, f, g, h) == m
  {
  }

  lemma XorWordTo(x: bv32, y: bv32, z: bv32)
    requires z == x ^ y
    ensures XorWord(x, y) == z
  {
  }

  lemma NextKeyTo(w: Schedule, i: nat, a: bv32, b: bv32, c: bv32, d: bv32, e: bv32, f: bv32, g: bv32, h: bv32)
    requires i < 10 && w[4 * i + 4..4 * i + 8] == NextRound(a, b, c, d, Rcon(i))
    requires NextRound(a, b, c, d, Rcon(i)) == [e, f, g, h]
    ensures RoundKey(w, i + 1, e, f, g, h)
  {
    hide NextRound, Rcon;
    var s := w[4 * i + 4..4 * i + 8];
    assert s[0] == e && s[1] == f && s[2] == g && s[3] == h;
  }

  /** Round key `i` + 1 from round key `i`; `m` is the mixed last word and `x` the first word xored with it. */
  lemma KeyTurn(key: Key, i: nat, a: bv32, b: bv32, c: bv32, d: bv32, m: bv32, x: bv32, rcon: bv32,
      e: bv32, f: bv32, g: bv32, h: bv32)
    requires i < 10 && RoundKey(Expanded(key), i, a, b, c, d) && MixWord(d) == m && Rcon(i) == rcon
    requires x == a ^ m && e == x ^ rcon && f == b ^ e && g == c ^ f && h == d ^ g
    ensures RoundKey(Expanded(key), i + 1, e, f, g, h)
  {
    FourWords(Expanded(key), i, a, b, c, d);
    hide *;
    XorWordTo(a, m, x);
    XorWordTo(x, rcon, e);
    XorWordTo(b, e, f);
    XorWordTo(c, f, g);
    XorWordTo(d, g, h);
    NextWords(key, i);
    NextRoundIs(a, b, c, d, rcon, e, f, g, h);
    NextKeyTo(Expanded(key), i, a, b, c, d, e, f, g, h);
  }

  lemma FourWords(w: Schedule, i: nat, a: bv32, b: bv32, c: bv32, d: bv32)
    requires i < 10 && RoundKey(w, i, a, b, c, d)
    ensures w[4 * i] == a && w[4 * i + 1] == b && w[4 * i + 2] == c && w[4 * i + 3] == d
  {
  }

  // ----- the example

  function ExampleKey(): Key { [0x00, 0x01, 0x02, 0x03, 0x04, 0x05, 0x06, 0x07, 0x08, 0x09, 0x0A, 0x0B, 0x0C, 0x0D, 0x0E, 0x0F] }

  lemma FirstKey()
    ensures RoundKey(Expanded(ExampleKey()), 0, 0x00010203, 0x04050607, 0x08090A0B, 0x0C0D0E0F)
  {
    FirstWord(ExampleKey(), 0);
    FirstWord(ExampleKey(), 1);
    FirstWord(ExampleKey(), 2);
    FirstWord(ExampleKey(), 3);
    LoadTo(0x00, 0x01, 0x02, 0x03, 0x00010203);
    LoadTo(0x04, 0x05, 0x06, 0x07, 0x04050607);
    LoadTo(0x08, 0x09, 0x0A, 0x0B, 0x08090A0B);
    LoadTo(0x0C, 0x0D, 0x0E, 0x0F, 0x0C0D0E0F);
    hide KeyWord, Load32, Expanded;
  }

  lemma FirstWord(key: Key, i: nat)
    requires i < 4
    ensures Expanded(key)[i] == Load32(key[4 * i], key[4 * i + 1], key[4 * i + 2], key[4 * i + 3])
  {
    hide Load32;
  }

  lemma Mixed0()
    ensures MixWord(0x0C0D0E0F) == 0xD7AB76FE
  {
    BytesOf(0x0C0D0E0F, 0x0C, 0x0D, 0x0E, 0x0F);
    hide KeyByte, MixWord, KeyBytes;
    MixWordTo(0x0C0D0E0F, 0x0C, 0x0D, 0x0E, 0x0F, 0xD7, 0xAB, 0x76, 0xFE, 0xD7AB76FE);
  }

  lemma Key1()
    ensures RoundKey(Expanded(ExampleKey()), 1, 0xD6AA74FD, 0xD2AF72FA, 0xDAA678F1, 0xD6AB76FE)
  {
    Mixed0();
    hide *;
    FirstKey();
    Rcons();
    KeyTurn(ExampleKey(), 0, 0x00010203, 0x04050607, 0x08090A0B, 0x0C0D0E0F,
      0xD7AB76FE, 0xD7AA74FD, 0x01000000, 0xD6AA74FD, 0xD2AF72FA, 0xDAA678F1, 0xD6AB76FE);
  }

  lemma Mixed1()
    ensures MixWord(0xD6AB76FE) == 0x6238BBF6
  {
    BytesOf(0xD6AB76FE, 0xD6, 0xAB, 0x76, 0xFE);
    hide KeyByte, MixWord, KeyBytes;
    MixWordTo(0xD6AB76FE, 0xD6, 0xAB, 0x76, 0xFE, 0x62, 0x38, 0xBB, 0xF6, 0x6238BBF6);
  }

  lemma Key2()
    ensures RoundKey(Expanded(ExampleKey()), 2, 0xB692CF0B, 0x643DBDF1, 0xBE9BC500, 0x6830B3FE)
  {
    Mixed1();
    hide *;
    Key1();
    Rcons();
    KeyTurn(ExampleKey(), 1, 0xD6AA74FD, 0xD2AF72FA, 0xDAA678F1, 0xD6AB76FE,
      0x6238BBF6, 0xB492CF0B, 0x02000000, 0xB692CF0B, 0x643DBDF1, 0xBE9BC500, 0x6830B3FE);
  }

  lemma Mixed2()
    ensures MixWord(0x6830B3FE) == 0x046DBB45
  {
    BytesOf(0x6830B3FE, 0x68, 0x30, 0xB3, 0xFE);
    hide KeyByte, MixWord, KeyBytes;
    MixWordTo(0x6830B3FE, 0x68, 0x30, 0xB3, 0xFE, 0x04, 0x6D, 0xBB, 0x45, 0x046DBB45);
  }

  lemma Key3()
    ensures RoundKey(Expanded(ExampleKey()), 3, 0xB6FF744E, 0xD2C2C9BF, 0x6C590CBF, 0x0469BF41)
  {
    Mixed2();
    hide *;
    Key2();
    Rcons();
    KeyTurn(ExampleKey(), 2, 0xB692CF0B, 0x643DBDF1, 0xBE9BC500, 0x6830B3FE,
      0x046DBB45, 0xB2FF744E, 0x04000000, 0xB6FF744E, 0xD2C2C9BF, 0x6C590CBF, 0x0469BF41);
  }

  lemma Mixed3()
    ensures MixWord(0x0469BF41) == 0xF90883F2
  {
    BytesOf(0x0469BF41, 0x04, 0x69, 0xBF, 0x41);
    hide KeyByte, MixWord, KeyBytes;
    MixWordTo(0x0469BF41, 0x04, 0x69, 0xBF, 0x41, 0xF9, 0x08, 0x83, 0xF2, 0xF90883F2);
  }

  lemma Key4()
    ensures RoundKey(Expanded(ExampleKey()), 4, 0x47F7F7BC, 0x95353E03, 0xF96C32BC, 0xFD058DFD)
  {
    Mixed3();
    hide *;
    Key3();
    Rcons();
    KeyTurn(ExampleKey(), 3, 0xB6FF744E, 0xD2C2C9BF, 0x6C590CBF, 0x0469BF41,
      0xF90883F2, 0x4FF7F7BC, 0x08000000, 0x47F7F7BC, 0x95353E03, 0xF96C32BC, 0xFD058DFD);
  }

  lemma Mixed4()
    ensures MixWord(0xFD058DFD) == 0x6B5D5454
  {
    BytesOf(0xFD058DFD, 0xFD, 0x05, 0x8D, 0xFD);
    hide KeyByte, MixWord, KeyBytes;
    MixWordTo(0xFD058DFD, 0xFD, 0x05, 0x8D, 0xFD, 0x6B, 0x5D, 0x54, 0x54, 0x6B5D5454);
  }

  lemma Key5()
    ensures RoundKey(Expanded(ExampleKey()), 5, 0x3CAAA3E8, 0xA99F9DEB, 0x50F3AF57, 0xADF622AA)
  {
    Mixed4();
    hide *;
    Key4();
    Rcons();
    KeyTurn(ExampleKey(), 4, 0x47F7F7BC, 0x95353E03, 0xF96C32BC, 0xFD058DFD,
      0x6B5D5454, 0x2CAAA3E8, 0x10000000, 0x3CAAA3E8, 0xA99F9DEB, 0x50F3AF57, 0xADF622AA);
  }

  lemma Mixed5()
    ensures MixWord(0xADF622AA) == 0x4293AC95
  {
    BytesOf(0xADF622AA, 0xAD, 0xF6, 0x22, 0xAA);
    hide KeyByte, MixWord, KeyBytes;
    MixWordTo(0xADF622AA, 0xAD, 0xF6, 0x22, 0xAA, 0x42, 0x93, 0xAC, 0x95, 0x4293AC95);
  }

  lemma Key6()
    ensures RoundKey(Expanded(ExampleKey()), 6, 0x5E390F7D, 0xF7A69296, 0xA7553DC1, 0x0AA31F6B)
  {
    Mixed5();
    hide *;
    Key5();
    Rcons();
    KeyTurn(ExampleKey(), 5, 0x3CAAA3E8, 0xA99F9DEB, 0x50F3AF57, 0xADF622AA,
      0x4293AC95, 0x7E390F7D, 0x20000000, 0x5E390F7D, 0xF7A69296, 0xA7553DC1, 0x0AA31F6B);
  }

  lemma Mixed6()
    ensures MixWord(0x0AA31F6B) == 0x0AC07F67
  {
    BytesOf(0x0AA31F6B, 0x0A, 0xA3, 0x1F, 0x6B);
    hide KeyByte, MixWord, KeyBytes;
    MixWordTo(0x0AA31F6B, 0x0A, 0xA3, 0x1F, 0x6B, 0x0A, 0xC0, 0x7F, 0x67, 0x0AC07F67);
  }

  lemma Key7()
    ensures RoundKey(Expanded(ExampleKey()), 7, 0x14F9701A, 0xE35FE28C, 0x440ADF4D, 0x4EA9C026)
  {
    Mixed6();
    hide *;
    Key6();
    Rcons();
    KeyTurn(ExampleKey(), 6, 0x5E390F7D, 0xF7A69296, 0xA7553DC1, 0x0AA31F6B,
      0x0AC07F67, 0x54F9701A, 0x40000000, 0x14F9701A, 0xE35FE28C, 0x440ADF4D, 0x4EA9C026);
  }

  lemma Mixed7()
    ensures MixWord(0x4EA9C026) == 0xD3BAF72F
  {
    BytesOf(0x4EA9C026, 0x4E, 0xA9, 0xC0, 0x26);
    hide KeyByte, MixWord, KeyBytes;
    MixWordTo(0x4EA9C026, 0x4E, 0xA9, 0xC0, 0x26, 0xD3, 0xBA, 0xF7, 0x2F, 0xD3BAF72F);
  }

  lemma Key8()
    ensures RoundKey(Expanded(ExampleKey()), 8, 0x47438735, 0xA41C65B9, 0xE016BAF4, 0xAEBF7AD2)
  {
    Mixed7();
    hide *;
    Key7();
    Rcons();
    KeyTurn(ExampleKey(), 7, 0x14F9701A, 0xE35FE28C, 0x440ADF4D, 0x4EA9C026,
      0xD3BAF72F, 0xC7438735, 0x80000000, 0x47438735, 0xA41C65B9, 0xE016BAF4, 0xAEBF7AD2);
  }

  lemma Mixed8()
    ensures MixWord(0xAEBF7AD2) == 0x08DAB5E4
  {
    BytesOf(0xAEBF7AD2, 0xAE, 0xBF, 0x7A, 0xD2);
    hide KeyByte, MixWord, KeyBytes;
    MixWordTo(0xAEBF7AD2, 0xAE, 0xBF, 0x7A, 0xD2, 0x08, 0xDA, 0xB5, 0xE4, 0x08DAB5E4);
  }

  lemma Key9()
    ensures RoundKey(Expanded(ExampleKey()), 9, 0x549932D1, 0xF0855768, 0x1093ED9C, 0xBE2C974E)
  {
    Mixed8();
    hide *;
    Key8();
    Rcons();
    KeyTurn(ExampleKey(), 8, 0x47438735, 0xA41C65B9, 0xE016BAF4, 0xAEBF7AD2,
      0x08DAB5E4, 0x4F9932D1, 0x1B000000, 0x549932D1, 0xF0855768, 0x1093ED9C, 0xBE2C974E);
  }

  lemma Mixed9()
    ensures MixWord(0xBE2C974E) == 0x71882FAE
  {
    BytesOf(0xBE2C974E, 0xBE, 0x2C, 0x97, 0x4E);
    hide KeyByte, MixWord, KeyBytes;
    MixWordTo(0xBE2C974E, 0xBE, 0x2C, 0x97, 0x4E, 0x71, 0x88, 0x2F, 0xAE, 0x71882FAE);
  }

  lemma Key10()
    ensures RoundKey(Expanded(ExampleKey()), 10, 0x13111D7F, 0xE3944A17, 0xF307A78B, 0x4D2B30C5)
  {
    Mixed9();
    hide *;
    Key9();
    Rcons();
    KeyTurn(ExampleKey(), 9, 0x549932D1, 0xF0855768, 0x1093ED9C, 0xBE2C974E,
      0x71882FAE, 0x25111D7F, 0x36000000, 0x13111D7F, 0xE3944A17, 0xF307A78B, 0x4D2B30C5);
  }

  lemma Rcons()
    ensures Rcon(0) == 0x01000000 && Rcon(1) == 0x02000000 && Rcon(2) == 0x04000000 && Rcon(3) == 0x08000000 && Rcon(4) == 0x10000000
    ensures Rcon(5) == 0x20000000 && Rcon(6) == 0x40000000 && Rcon(7) == 0x80000000 && Rcon(8) == 0x1B000000 && Rcon(9) == 0x36000000
  {
  }

  lemma BytesOfKey(w: Schedule, r: nat, j: nat, a: bv32, b: bv32, c: bv32, d: bv32, k: bv32,
      k0: bv8, k1: bv8, k2: bv8, k3: bv8)
    requires r <= 10 && RoundKey(w, r, a, b, c, d)
    requires (j == 0 && k == a) || (j == 1 && k == b) || (j == 2 && k == c) || (j == 3 && k == d)
    requires k0 == ((k >> 24) & 0xFF) as bv8 && k1 == ((k >> 16) & 0xFF) as bv8
    requires k2 == ((k >> 8) & 0xFF) as bv8 && k3 == (k & 0xFF) as bv8
    ensures KeyBytes(w[4 * r + j], k0, k1, k2, k3)
  {
    BytesOf(k, k0, k1, k2, k3);
    hide KeyBytes;
  }

  lemma BytesOf(k: bv32, k0: bv8, k1: bv8, k2: bv8, k3: bv8)
    requires k0 == ((k >> 24) & 0xFF) as bv8 && k1 == ((k >> 16) & 0xFF) as bv8
    requires k2 == ((k >> 8) & 0xFF) as bv8 && k3 == (k & 0xFF) as bv8
    ensures KeyBytes(k, k0, k1, k2, k3)
  {
  }

  /** The example's message as a state, and that state after round `r`. */
  function Start(): State { Transpose([0x00, 0x11, 0x22, 0x33, 0x44, 0x55, 0x66, 0x77, 0x88, 0x99, 0xAA, 0xBB, 0xCC, 0xDD, 0xEE, 0xFF]) }

  function After(r: nat): State {
    if r >= 10 then EncryptState(Start(), Expanded(ExampleKey())) else EncryptRounds(Start(), Expanded(ExampleKey()), r)
  }

  /** Column `j` after round `r`. */
  predicate Reached(r: nat, j: nat, a: bv8, b: bv8, c: bv8, d: bv8) {
    j < 4 && Is(After(r), j, a, b, c, d)
  }

  lemma Round0a()
    ensures Reached(0, 0, 0x00, 0x10, 0x20, 0x30)
    ensures Reached(0, 1, 0x40, 0x50, 0x60, 0x70)
  {
    hide After, Start, ExampleKey, Expanded, AddKey, Round, LastRound, KeyBytes, RoundKey;
    AfterIs(0);
    StartIs();
    FirstKey();
    var w := Expanded(ExampleKey());
    BytesOfKey(w, 0, 0, 0x00010203, 0x04050607, 0x08090A0B, 0x0C0D0E0F,
      0x00010203, 0x00, 0x01, 0x02, 0x03);
    FirstColumnTurn(Start(), w, 0, 0x00, 0x11, 0x22, 0x33,
      0x00, 0x01, 0x02, 0x03, 0x00, 0x10, 0x20, 0x30);
    BytesOfKey(w, 0, 1, 0x00010203, 0x04050607, 0x08090A0B, 0x0C0D0E0F,
      0x04050607, 0x04, 0x05, 0x06, 0x07);
    FirstColumnTurn(Start(), w, 1, 0x44, 0x55, 0x66, 0x77,
      0x04, 0x05, 0x06, 0x07, 0x40, 0x50, 0x60, 0x70);
  }

  lemma Round0b()
    ensures Reached(0, 2, 0x80, 0x90, 0xA0, 0xB0)
    ensures Reached(0, 3, 0xC0, 0xD0, 0xE0, 0xF0)
  {
    hide After, Start, ExampleKey, Expanded, AddKey, Round, LastRound, KeyBytes, RoundKey;
    AfterIs(0);
    StartIs();
    FirstKey();
    var w := Expanded(ExampleKey());
    BytesOfKey(w, 0, 2, 0x00010203, 0x04050607, 0x08090A0B, 0x0C0D0E0F,
      0x08090A0B, 0x08, 0x09, 0x0A, 0x0B);
    FirstColumnTurn(Start(), w, 2, 0x88, 0x99, 0xAA, 0xBB,
      0x08, 0x09, 0x0A, 0x0B, 0x80, 0x90, 0xA0, 0xB0);
    BytesOfKey(w, 0, 3, 0x00010203, 0x04050607, 0x08090A0B, 0x0C0D0E0F,
      0x0C0D0E0F, 0x0C, 0x0D, 0x0E, 0x0F);
    FirstColumnTurn(Start(), w, 3, 0xCC, 0xDD, 0xEE, 0xFF,
      0x0C, 0x0D, 0x0E, 0x0F, 0xC0, 0xD0, 0xE0, 0xF0);
  }

  lemma Round1a()
    ensures Reached(1, 0, 0x89, 0xD8, 0x10, 0xE8)
    ensures Reached(1, 1, 0x85, 0x5A, 0xCE, 0x68)
  {
    hide After, Start, ExampleKey, Expanded, AddKey, Round, LastRound, KeyBytes, RoundKey;
    AfterIs(1);
    Round0a();
    Round0b();
    Key1();
    var w := Expanded(ExampleKey());
    BytesOfKey(w, 1, 0, 0xD6AA74FD, 0xD2AF72FA, 0xDAA678F1, 0xD6AB76FE,
      0xD6AA74FD, 0xD6, 0xAA, 0x74, 0xFD);
    ColumnTurn(After(0), w, 1, 0, 0x00, 0x50, 0xA0, 0xF0, 0x63, 0x53, 0xE0, 0x8C,
      0xC6, 0xA6, 0xDB, 0x03, 0xD6, 0xAA, 0x74, 0xFD, 0x89, 0xD8, 0x10, 0xE8);
    BytesOfKey(w, 1, 1, 0xD6AA74FD, 0xD2AF72FA, 0xDAA678F1, 0xD6AB76FE,
      0xD2AF72FA, 0xD2, 0xAF, 0x72, 0xFA);
    ColumnTurn(After(0), w, 1, 1, 0x40, 0x90, 0xE0, 0x30, 0x09, 0x60, 0xE1, 0x04,
      0x12, 0xC0, 0xD9, 0x08, 0xD2, 0xAF, 0x72, 0xFA, 0x85, 0x5A, 0xCE, 0x68);
  }

  lemma Round1b()
    ensures Reached(1, 2, 0x2D, 0x18, 0x43, 0xD8)
    ensures Reached(1, 3, 0xCB, 0x12, 0x8F, 0xE4)
  {
    hide After, Start, ExampleKey, Expanded, AddKey, Round, LastRound, KeyBytes, RoundKey;
    AfterIs(1);
    Round0a();
    Round0b();
    Key1();
    var w := Expanded(ExampleKey());
    BytesOfKey(w, 1, 2, 0xD6AA74FD, 0xD2AF72FA, 0xDAA678F1, 0xD6AB76FE,
      0xDAA678F1, 0xDA, 0xA6, 0x78, 0xF1);
    ColumnTurn(After(0), w, 1, 2, 0x80, 0xD0, 0x20, 0x70, 0xCD, 0x70, 0xB7, 0x51,
      0x81, 0xE0, 0x75, 0xA2, 0xDA, 0xA6, 0x78, 0xF1, 0x2D, 0x18, 0x43, 0xD8);
    BytesOfKey(w, 1, 3, 0xD6AA74FD, 0xD2AF72FA, 0xDAA678F1, 0xD6AB76FE,
      0xD6AB76FE, 0xD6, 0xAB, 0x76, 0xFE);
    ColumnTurn(After(0), w, 1, 3, 0xC0, 0x10, 0x60, 0xB0, 0xBA, 0xCA, 0xD0, 0xE7,
      0x6F, 0x8F, 0xBB, 0xD5, 0xD6, 0xAB, 0x76, 0xFE, 0xCB, 0x12, 0x8F, 0xE4);
  }

  lemma Round2a()
    ensures Reached(2, 0, 0x49, 0x15, 0x59, 0x8F)
    ensures Reached(2, 1, 0x55, 0xE5, 0xD7, 0xA0)
  {
    hide After, Start, ExampleKey, Expanded, AddKey, Round, LastRound, KeyBytes, RoundKey;
    AfterIs(2);
    Round1a();
    Round1b();
    Key2();
    var w := Expanded(ExampleKey());
    BytesOfKey(w, 2, 0, 0xB692CF0B, 0x643DBDF1, 0xBE9BC500, 0x6830B3FE,
      0xB692CF0B, 0xB6, 0x92, 0xCF, 0x0B);
    ColumnTurn(After(1), w, 2, 0, 0x89, 0x5A, 0x43, 0xE4, 0xA7, 0xBE, 0x1A, 0x69,
      0x55, 0x67, 0x34, 0xD2, 0xB6, 0x92, 0xCF, 0x0B, 0x49, 0x15, 0x59, 0x8F);
    BytesOfKey(w, 2, 1, 0xB692CF0B, 0x643DBDF1, 0xBE9BC500, 0x6830B3FE,
      0x643DBDF1, 0x64, 0x3D, 0xBD, 0xF1);
    ColumnTurn(After(1), w, 2, 1, 0x85, 0x18, 0x8F, 0xE8, 0x97, 0xAD, 0x73, 0x9B,
      0x35, 0x41, 0xE6, 0x2D, 0x64, 0x3D, 0xBD, 0xF1, 0x55, 0xE5, 0xD7, 0xA0);
  }

  lemma Round2b()
    ensures Reached(2, 2, 0xDA, 0xCA, 0x94, 0xFA)
    ensures Reached(2, 3, 0x1F, 0x0A, 0x63, 0xF7)
  {
    hide After, Start, ExampleKey, Expanded, AddKey, Round, LastRound, KeyBytes, RoundKey;
    AfterIs(2);
    Round1a();
    Round1b();
    Key2();
    var w := Expanded(ExampleKey());
    BytesOfKey(w, 2, 2, 0xB692CF0B, 0x643DBDF1, 0xBE9BC500, 0x6830B3FE,
      0xBE9BC500, 0xBE, 0x9B, 0xC5, 0x00);
    ColumnTurn(After(1), w, 2, 2, 0x2D, 0x12, 0x10, 0x68, 0xD8, 0xC9, 0xCA, 0x45,
      0xAB, 0x89, 0x8F, 0x8A, 0xBE, 0x9B, 0xC5, 0x00, 0xDA, 0xCA, 0x94, 0xFA);
    BytesOfKey(w, 2, 3, 0xB692CF0B, 0x643DBDF1, 0xBE9BC500, 0x6830B3FE,
      0x6830B3FE, 0x68, 0x30, 0xB3, 0xFE);
    ColumnTurn(After(1), w, 2, 3, 0xCB, 0xD8, 0xCE, 0xD8, 0x1F, 0x61, 0x8B, 0x61,
      0x3E, 0xC2, 0x0D, 0xC2, 0x68, 0x30, 0xB3, 0xFE, 0x1F, 0x0A, 0x63, 0xF7);
  }

  lemma Round3a()
    ensures Reached(3, 0, 0xFA, 0x63, 0x6A, 0x28)
    ensures Reached(3, 1, 0x25, 0xB3, 0x39, 0xC9)
  {
    hide After, Start, ExampleKey, Expanded, AddKey, Round, LastRound, KeyBytes, RoundKey;
    AfterIs(3);
    Round2a();
    Round2b();
    Key3();
    var w := Expanded(ExampleKey());
    BytesOfKey(w, 3, 0, 0xB6FF744E, 0xD2C2C9BF, 0x6C590CBF, 0x0469BF41,
      0xB6FF744E, 0xB6, 0xFF, 0x74, 0x4E);
    ColumnTurn(After(2), w, 3, 0, 0x49, 0xE5, 0x94, 0xF7, 0x3B, 0xD9, 0x22, 0x68,
      0x76, 0xA9, 0x44, 0xD0, 0xB6, 0xFF, 0x74, 0x4E, 0xFA, 0x63, 0x6A, 0x28);
    BytesOfKey(w, 3, 1, 0xB6FF744E, 0xD2C2C9BF, 0x6C590CBF, 0x0469BF41,
      0xD2C2C9BF, 0xD2, 0xC2, 0xC9, 0xBF);
    ColumnTurn(After(2), w, 3, 1, 0x55, 0xCA, 0x63, 0x8F, 0xFC, 0x74, 0xFB, 0x73,
      0xE3, 0xE8, 0xED, 0xE6, 0xD2, 0xC2, 0xC9, 0xBF, 0x25, 0xB3, 0x39, 0xC9);
  }

  lemma Round3b()
    ensures Reached(3, 2, 0x40, 0x66, 0x8A, 0x31)
    ensures Reached(3, 3, 0x57, 0x24, 0x4D, 0x17)
  {
    hide After, Start, ExampleKey, Expanded, AddKey, Round, LastRound, KeyBytes, RoundKey;
    AfterIs(3);
    Round2a();
    Round2b();
    Key3();
    var w := Expanded(ExampleKey());
    BytesOfKey(w, 3, 2, 0xB6FF744E, 0xD2C2C9BF, 0x6C590CBF, 0x0469BF41,
      0x6C590CBF, 0x6C, 0x59, 0x0C, 0xBF);
    ColumnTurn(After(2), w, 3, 2, 0xDA, 0x0A, 0x59, 0xA0, 0x57, 0x67, 0xCB, 0xE0,
      0xAE, 0xCE, 0x8D, 0xDB, 0x6C, 0x59, 0x0C, 0xBF, 0x40, 0x66, 0x8A, 0x31);
    BytesOfKey(w, 3, 3, 0xB6FF744E, 0xD2C2C9BF, 0x6C590CBF, 0x0469BF41,
      0x0469BF41, 0x04, 0x69, 0xBF, 0x41);
    ColumnTurn(After(2), w, 3, 3, 0x1F, 0x15, 0xD7, 0xFA, 0xC0, 0x59, 0x0E, 0x2D,
      0x9B, 0xB2, 0x1C, 0x5A, 0x04, 0x69, 0xBF, 0x41, 0x57, 0x24, 0x4D, 0x17);
  }

  lemma Round4a()
    ensures Reached(4, 0, 0x24, 0x72, 0x40, 0x23)
    ensures Reached(4, 1, 0x69, 0x66, 0xB3, 0xFA)
  {
    hide After, Start, ExampleKey, Expanded, AddKey, Round, LastRound, KeyBytes, RoundKey;
    AfterIs(4);
    Round3a();
    Round3b();
    Key4();
    var w := Expanded(ExampleKey());
    BytesOfKey(w, 4, 0, 0x47F7F7BC, 0x95353E03, 0xF96C32BC, 0xFD058DFD,
      0x47F7F7BC, 0x47, 0xF7, 0xF7, 0xBC);
    ColumnTurn(After(3), w, 4, 0, 0xFA, 0xB3, 0x8A, 0x17, 0x2D, 0x6D, 0x7E, 0xF0,
      0x5A, 0xDA, 0xFC, 0xFB, 0x47, 0xF7, 0xF7, 0xBC, 0x24, 0x72, 0x40, 0x23);
    BytesOfKey(w, 4, 1, 0x47F7F7BC, 0x95353E03, 0xF96C32BC, 0xFD058DFD,
      0x95353E03, 0x95, 0x35, 0x3E, 0x03);
    ColumnTurn(After(3), w, 4, 1, 0x25, 0x66, 0x4D, 0x28, 0x3F, 0x33, 0xE3, 0x34,
      0x7E, 0x66, 0xDD, 0x68, 0x95, 0x35, 0x3E, 0x03, 0x69, 0x66, 0xB3, 0xFA);
  }

  lemma Round4b()
    ensures Reached(4, 2, 0x6E, 0xD2, 0x75, 0x32)
    ensures Reached(4, 3, 0x88, 0x42, 0x5B, 0x6C)
  {
    hide After, Start, ExampleKey, Expanded, AddKey, Round, LastRound, KeyBytes, RoundKey;
    AfterIs(4);
    Round3a();
    Round3b();
    Key4();
    var w := Expanded(ExampleKey());
    BytesOfKey(w, 4, 2, 0x47F7F7BC, 0x95353E03, 0xF96C32BC, 0xFD058DFD,
      0xF96C32BC, 0xF9, 0x6C, 0x32, 0xBC);
    ColumnTurn(After(3), w, 4, 2, 0x40, 0x24, 0x6A, 0xC9, 0x09, 0x36, 0x02, 0xDD,
      0x12, 0x6C, 0x04, 0xA1, 0xF9, 0x6C, 0x32, 0xBC, 0x6E, 0xD2, 0x75, 0x32);
    BytesOfKey(w, 4, 3, 0x47F7F7BC, 0x95353E03, 0xF96C32BC, 0xFD058DFD,
      0xFD058DFD, 0xFD, 0x05, 0x8D, 0xFD);
    ColumnTurn(After(3), w, 4, 3, 0x57, 0x63, 0x39, 0x31, 0x5B, 0xFB, 0x12, 0xC7,
      0xB6, 0xED, 0x24, 0x95, 0xFD, 0x05, 0x8D, 0xFD, 0x88, 0x42, 0x5B, 0x6C);
  }

  lemma Round5a()
    ensures Reached(5, 0, 0xC8, 0x16, 0x77, 0xBC)
    ensures Reached(5, 1, 0x9B, 0x7A, 0xC9, 0x3B)
  {
    hide After, Start, ExampleKey, Expanded, AddKey, Round, LastRound, KeyBytes, RoundKey;
    AfterIs(5);
    Round4a();
    Round4b();
    Key5();
    var w := Expanded(ExampleKey());
    BytesOfKey(w, 5, 0, 0x3CAAA3E8, 0xA99F9DEB, 0x50F3AF57, 0xADF622AA,
      0x3CAAA3E8, 0x3C, 0xAA, 0xA3, 0xE8);
    ColumnTurn(After(4), w, 5, 0, 0x24, 0x66, 0x75, 0x6C, 0x36, 0x33, 0x9D, 0x50,
      0x6C, 0x66, 0x21, 0xA0, 0x3C, 0xAA, 0xA3, 0xE8, 0xC8, 0x16, 0x77, 0xBC);
    BytesOfKey(w, 5, 1, 0x3CAAA3E8, 0xA99F9DEB, 0x50F3AF57, 0xADF622AA,
      0xA99F9DEB, 0xA9, 0x9F, 0x9D, 0xEB);
    ColumnTurn(After(4), w, 5, 1, 0x69, 0xD2, 0x5B, 0x23, 0xF9, 0xB5, 0x39, 0x26,
      0xE9, 0x71, 0x72, 0x4C, 0xA9, 0x9F, 0x9D, 0xEB, 0x9B, 0x7A, 0xC9, 0x3B);
  }

  lemma Round5b()
    ensures Reached(5, 2, 0x25, 0x02, 0x79, 0x92)
    ensures Reached(5, 3, 0xB0, 0x26, 0x19, 0x96)
  {
    hide After, Start, ExampleKey, Expanded, AddKey, Round, LastRound, KeyBytes, RoundKey;
    AfterIs(5);
    Round4a();
    Round4b();
    Key5();
    var w := Expanded(ExampleKey());
    BytesOfKey(w, 5, 2, 0x3CAAA3E8, 0xA99F9DEB, 0x50F3AF57, 0xADF622AA,
      0x50F3AF57, 0x50, 0xF3, 0xAF, 0x57);
    ColumnTurn(After(4), w, 5, 2, 0x6E, 0x42, 0x40, 0xFA, 0x9F, 0x2C, 0x09, 0x2D,
      0x25, 0x58, 0x12, 0x5A, 0x50, 0xF3, 0xAF, 0x57, 0x25, 0x02, 0x79, 0x92);
    BytesOfKey(w, 5, 3, 0x3CAAA3E8, 0xA99F9DEB, 0x50F3AF57, 0xADF622AA,
      0xADF622AA, 0xAD, 0xF6, 0x22, 0xAA);
    ColumnTurn(After(4), w, 5, 3, 0x88, 0x72, 0xB3, 0x32, 0xC4, 0x40, 0x6D, 0x23,
      0x93, 0x80, 0xDA, 0x46, 0xAD, 0xF6, 0x22, 0xAA, 0xB0, 0x26, 0x19, 0x96);
  }

  lemma Round6a()
    ensures Reached(6, 0, 0xC6, 0x2F, 0xE1, 0x09)
    ensures Reached(6, 1, 0xF7, 0x5E, 0xED, 0xC3)
  {
    hide After, Start, ExampleKey, Expanded, AddKey, Round, LastRound, KeyBytes, RoundKey;
    AfterIs(6);
    Round5a();
    Round5b();
    Key6();
    var w := Expanded(ExampleKey());
    BytesOfKey(w, 6, 0, 0x5E390F7D, 0xF7A69296, 0xA7553DC1, 0x0AA31F6B,
      0x5E390F7D, 0x5E, 0x39, 0x0F, 0x7D);
    ColumnTurn(After(5), w, 6, 0, 0xC8, 0x7A, 0x79, 0x96, 0xE8, 0xDA, 0xB6, 0x90,
      0xCB, 0xAF, 0x77, 0x3B, 0x5E, 0x39, 0x0F, 0x7D, 0xC6, 0x2F, 0xE1, 0x09);
    BytesOfKey(w, 6, 1, 0x5E390F7D, 0xF7A69296, 0xA7553DC1, 0x0AA31F6B,
      0xF7A69296, 0xF7, 0xA6, 0x92, 0x96);
    ColumnTurn(After(5), w, 6, 1, 0x9B, 0x02, 0x19, 0xBC, 0x14, 0x77, 0xD4, 0x65,
      0x28, 0xEE, 0xB3, 0xCA, 0xF7, 0xA6, 0x92, 0x96, 0xF7, 0x5E, 0xED, 0xC3);
  }

  lemma Round6b()
    ensures Reached(6, 2, 0xCC, 0x79, 0x39, 0x5D)
    ensures Reached(6, 3, 0x84, 0xF9, 0xCF, 0x5D)
  {
    hide After, Start, ExampleKey, Expanded, AddKey, Round, LastRound, KeyBytes, RoundKey;
    AfterIs(6);
    Round5a();
    Round5b();
    Key6();
    var w := Expanded(ExampleKey());
    BytesOfKey(w, 6, 2, 0x5E390F7D, 0xF7A69296, 0xA7553DC1, 0x0AA31F6B,
      0xA7553DC1, 0xA7, 0x55, 0x3D, 0xC1);
    ColumnTurn(After(5), w, 6, 2, 0x25, 0x26, 0x77, 0x3B, 0x3F, 0xF7, 0xF5, 0xE2,
      0x7E, 0xF5, 0xF1, 0xDF, 0xA7, 0x55, 0x3D, 0xC1, 0xCC, 0x79, 0x39, 0x5D);
    BytesOfKey(w, 6, 3, 0x5E390F7D, 0xF7A69296, 0xA7553DC1, 0x0AA31F6B,
      0x0AA31F6B, 0x0A, 0xA3, 0x1F, 0x6B);
    ColumnTurn(After(5), w, 6, 3, 0xB0, 0x16, 0xC9, 0x92, 0xE7, 0x47, 0xDD, 0x4F,
      0xD5, 0x8E, 0xA1, 0x9E, 0x0A, 0xA3, 0x1F, 0x6B, 0x84, 0xF9, 0xCF, 0x5D);
  }

  lemma Round7a()
    ensures Reached(7, 0, 0xD1, 0x87, 0x6C, 0x0F)
    ensures Reached(7, 1, 0x79, 0xC4, 0x30, 0x0A)
  {
    hide After, Start, ExampleKey, Expanded, AddKey, Round, LastRound, KeyBytes, RoundKey;
    AfterIs(7);
    Round6a();
    Round6b();
    Key7();
    var w := Expanded(ExampleKey());
    BytesOfKey(w, 7, 0, 0x14F9701A, 0xE35FE28C, 0x440ADF4D, 0x4EA9C026,
      0x14F9701A, 0x14, 0xF9, 0x70, 0x1A);
    ColumnTurn(After(6), w, 7, 0, 0xC6, 0x5E, 0x39, 0x5D, 0xB4, 0x58, 0x12, 0x4C,
      0x73, 0xB0, 0x24, 0x98, 0x14, 0xF9, 0x70, 0x1A, 0xD1, 0x87, 0x6C, 0x0F);
    BytesOfKey(w, 7, 1, 0x14F9701A, 0xE35FE28C, 0x440ADF4D, 0x4EA9C026,
      0xE35FE28C, 0xE3, 0x5F, 0xE2, 0x8C);
    ColumnTurn(After(6), w, 7, 1, 0xF7, 0x79, 0xCF, 0x09, 0x68, 0xB6, 0x8A, 0x01,
      0xD0, 0x77, 0x0F, 0x02, 0xE3, 0x5F, 0xE2, 0x8C, 0x79, 0xC4, 0x30, 0x0A);
  }

  lemma Round7b()
    ensures Reached(7, 2, 0xB4, 0x55, 0x94, 0xAD)
    ensures Reached(7, 3, 0xD6, 0x6F, 0xF4, 0x1F)
  {
    hide After, Start, ExampleKey, Expanded, AddKey, Round, LastRound, KeyBytes, RoundKey;
    AfterIs(7);
    Round6a();
    Round6b();
    Key7();
    var w := Expanded(ExampleKey());
    BytesOfKey(w, 7, 2, 0x14F9701A, 0xE35FE28C, 0x440ADF4D, 0x4EA9C026,
      0x440ADF4D, 0x44, 0x0A, 0xDF, 0x4D);
    ColumnTurn(After(6), w, 7, 2, 0xCC, 0xF9, 0xE1, 0xC3, 0x4B, 0x99, 0xF8, 0x2E,
      0x96, 0x29, 0xEB, 0x5C, 0x44, 0x0A, 0xDF, 0x4D, 0xB4, 0x55, 0x94, 0xAD);
    BytesOfKey(w, 7, 3, 0x14F9701A, 0xE35FE28C, 0x440ADF4D, 0x4EA9C026,
      0x4EA9C026, 0x4E, 0xA9, 0xC0, 0x26);
    ColumnTurn(After(6), w, 7, 3, 0x84, 0x2F, 0xED, 0x5D, 0x5F, 0x15, 0x55, 0x4C,
      0xBE, 0x2A, 0xAA, 0x98, 0x4E, 0xA9, 0xC0, 0x26, 0xD6, 0x6F, 0xF4, 0x1F);
  }

  lemma Round8a()
    ensures Reached(8, 0, 0xFD, 0xE3, 0xBA, 0xD2)
    ensures Reached(8, 1, 0x05, 0xE5, 0xD0, 0xD7)
  {
    hide After, Start, ExampleKey, Expanded, AddKey, Round, LastRound, KeyBytes, RoundKey;
    AfterIs(8);
    Round7a();
    Round7b();
    Key8();
    var w := Expanded(ExampleKey());
    BytesOfKey(w, 8, 0, 0x47438735, 0xA41C65B9, 0xE016BAF4, 0xAEBF7AD2,
      0x47438735, 0x47, 0x43, 0x87, 0x35);
    ColumnTurn(After(7), w, 8, 0, 0xD1, 0xC4, 0x94, 0x1F, 0x3E, 0x1C, 0x22, 0xC0,
      0x7C, 0x38, 0x44, 0x9B, 0x47, 0x43, 0x87, 0x35, 0xFD, 0xE3, 0xBA, 0xD2);
    BytesOfKey(w, 8, 1, 0x47438735, 0xA41C65B9, 0xE016BAF4, 0xAEBF7AD2,
      0xA41C65B9, 0xA4, 0x1C, 0x65, 0xB9);
    ColumnTurn(After(7), w, 8, 1, 0x79, 0x55, 0xF4, 0x0F, 0xB6, 0xFC, 0xBF, 0x76,
      0x77, 0xE3, 0x65, 0xEC, 0xA4, 0x1C, 0x65, 0xB9, 0x05, 0xE5, 0xD0, 0xD7);
  }

  lemma Round8b()
    ensures Reached(8, 2, 0x35, 0x47, 0x96, 0x4E)
    ensures Reached(8, 3, 0xF1, 0xFE, 0x37, 0xF1)
  {
    hide After, Start, ExampleKey, Expanded, AddKey, Round, LastRound, KeyBytes, RoundKey;
    AfterIs(8);
    Round7a();
    Round7b();
    Key8();
    var w := Expanded(ExampleKey());
    BytesOfKey(w, 8, 2, 0x47438735, 0xA41C65B9, 0xE016BAF4, 0xAEBF7AD2,
      0xE016BAF4, 0xE0, 0x16, 0xBA, 0xF4);
    ColumnTurn(After(7), w, 8, 2, 0xB4, 0x6F, 0x6C, 0x0A, 0x8D, 0xA8, 0x50, 0x67,
      0x01, 0x4B, 0xA0, 0xCE, 0xE0, 0x16, 0xBA, 0xF4, 0x35, 0x47, 0x96, 0x4E);
    BytesOfKey(w, 8, 3, 0x47438735, 0xA41C65B9, 0xE016BAF4, 0xAEBF7AD2,
      0xAEBF7AD2, 0xAE, 0xBF, 0x7A, 0xD2);
    ColumnTurn(After(7), w, 8, 3, 0xD6, 0x87, 0x30, 0xAD, 0xF6, 0x17, 0x04, 0x95,
      0xF7, 0x2E, 0x08, 0x31, 0xAE, 0xBF, 0x7A, 0xD2, 0xF1, 0xFE, 0x37, 0xF1);
  }

  lemma Round9a()
    ensures Reached(9, 0, 0xBD, 0x6E, 0x7C, 0x3D)
    ensures Reached(9, 1, 0xF2, 0xB5, 0x77, 0x9E)
  {
    hide After, Start, ExampleKey, Expanded, AddKey, Round, LastRound, KeyBytes, RoundKey;
    AfterIs(9);
    Round8a();
    Round8b();
    Key9();
    var w := Expanded(ExampleKey());
    BytesOfKey(w, 9, 0, 0x549932D1, 0xF0855768, 0x1093ED9C, 0xBE2C974E,
      0x549932D1, 0x54, 0x99, 0x32, 0xD1);
    ColumnTurn(After(8), w, 9, 0, 0xFD, 0xE5, 0x96, 0xF1, 0x54, 0xD9, 0x90, 0xA1,
      0xA8, 0xA9, 0x3B, 0x59, 0x54, 0x99, 0x32, 0xD1, 0xBD, 0x6E, 0x7C, 0x3D);
    BytesOfKey(w, 9, 1, 0x549932D1, 0xF0855768, 0x1093ED9C, 0xBE2C974E,
      0xF0855768, 0xF0, 0x85, 0x57, 0x68);
    ColumnTurn(After(8), w, 9, 1, 0x05, 0x47, 0x37, 0xD2, 0x6B, 0xA0, 0x9A, 0xB5,
      0xD6, 0x5B, 0x2F, 0x71, 0xF0, 0x85, 0x57, 0x68, 0xF2, 0xB5, 0x77, 0x9E);
  }

  lemma Round9b()
    ensures Reached(9, 2, 0x0B, 0x61, 0x21, 0x6E)
    ensures Reached(9, 3, 0x8B, 0x10, 0xB6, 0x89)
  {
    hide After, Start, ExampleKey, Expanded, AddKey, Round, LastRound, KeyBytes, RoundKey;
    AfterIs(9);
    Round8a();
    Round8b();
    Key9();
    var w := Expanded(ExampleKey());
    BytesOfKey(w, 9, 2, 0x549932D1, 0xF0855768, 0x1093ED9C, 0xBE2C974E,
      0x1093ED9C, 0x10, 0x93, 0xED, 0x9C);
    ColumnTurn(After(8), w, 9, 2, 0x35, 0xFE, 0xBA, 0xD7, 0x96, 0xBB, 0xF4, 0x0E,
      0x37, 0x6D, 0xF3, 0x1C, 0x10, 0x93, 0xED, 0x9C, 0x0B, 0x61, 0x21, 0x6E);
    BytesOfKey(w, 9, 3, 0x549932D1, 0xF0855768, 0x1093ED9C, 0xBE2C974E,
      0xBE2C974E, 0xBE, 0x2C, 0x97, 0x4E);
    ColumnTurn(After(8), w, 9, 3, 0xF1, 0xE3, 0xD0, 0x4E, 0xA1, 0x11, 0x70, 0x2F,
      0x59, 0x22, 0xE0, 0x5E, 0xBE, 0x2C, 0x97, 0x4E, 0x8B, 0x10, 0xB6, 0x89);
  }

  lemma Round10a()
    ensures Reached(10, 0, 0x69, 0xC4, 0xE0, 0xD8)
    ensures Reached(10, 1, 0x6A, 0x7B, 0x04, 0x30)
  {
    hide After, Start, ExampleKey, Expanded, AddKey, Round, LastRound, KeyBytes, RoundKey;
    AfterIs(10);
    Round9a();
    Round9b();
    Key10();
    var w := Expanded(ExampleKey());
    BytesOfKey(w, 10, 0, 0x13111D7F, 0xE3944A17, 0xF307A78B, 0x4D2B30C5,
      0x13111D7F, 0x13, 0x11, 0x1D, 0x7F);
    LastColumnTurn(After(9), w, 0, 0xBD, 0xB5, 0x21, 0x89,
      0x7A, 0xD5, 0xFD, 0xA7, 0x13, 0x11, 0x1D, 0x7F, 0x69, 0xC4, 0xE0, 0xD8);
    BytesOfKey(w, 10, 1, 0x13111D7F, 0xE3944A17, 0xF307A78B, 0x4D2B30C5,
      0xE3944A17, 0xE3, 0x94, 0x4A, 0x17);
    LastColumnTurn(After(9), w, 1, 0xF2, 0x61, 0xB6, 0x3D,
      0x89, 0xEF, 0x4E, 0x27, 0xE3, 0x94, 0x4A, 0x17, 0x6A, 0x7B, 0x04, 0x30);
  }

  lemma Round10b()
    ensures Reached(10, 2, 0xD8, 0xCD, 0xB7, 0x80)
    ensures Reached(10, 3, 0x70, 0xB4, 0xC5, 0x5A)
  {
    hide After, Start, ExampleKey, Expanded, AddKey, Round, LastRound, KeyBytes, RoundKey;
    AfterIs(10);
    Round9a();
    Round9b();
    Key10();
    var w := Expanded(ExampleKey());
    BytesOfKey(w, 10, 2, 0x13111D7F, 0xE3944A17, 0xF307A78B, 0x4D2B30C5,
      0xF307A78B, 0xF3, 0x07, 0xA7, 0x8B);
    LastColumnTurn(After(9), w, 2, 0x0B, 0x10, 0x7C, 0x9E,
      0x2B, 0xCA, 0x10, 0x0B, 0xF3, 0x07, 0xA7, 0x8B, 0xD8, 0xCD, 0xB7, 0x80);
    BytesOfKey(w, 10, 3, 0x13111D7F, 0xE3944A17, 0xF307A78B, 0x4D2B30C5,
      0x4D2B30C5, 0x4D, 0x2B, 0x30, 0xC5);
    LastColumnTurn(After(9), w, 3, 0x8B, 0x6E, 0x77, 0x6E,
      0x3D, 0x9F, 0xF5, 0x9F, 0x4D, 0x2B, 0x30, 0xC5, 0x70, 0xB4, 0xC5, 0x5A);
  }

  lemma StartIs()
    ensures Is(Start(), 0, 0x00, 0x11, 0x22, 0x33) && Is(Start(), 1, 0x44, 0x55, 0x66, 0x77)
    ensures Is(Start(), 2, 0x88, 0x99, 0xAA, 0xBB) && Is(Start(), 3, 0xCC, 0xDD, 0xEE, 0xFF)
  {
    ColumnsOf([0x00, 0x11, 0x22, 0x33, 0x44, 0x55, 0x66, 0x77, 0x88, 0x99, 0xAA, 0xBB, 0xCC, 0xDD, 0xEE, 0xFF]);
    hide Is, Transpose;
  }

  lemma AfterIs(r: nat)
    requires r <= 10
    ensures After(r) ==
      if r == 0 then AddKey(Start(), Expanded(ExampleKey()), 0)
      else if r == 10 then LastRound(After(9), Expanded(ExampleKey()))
      else Round(After(r - 1), Expanded(ExampleKey()), r)
  {
    hide AddKey, Columns, ShiftState, SubState, Expanded, Start;
  }

  lemma Transposed(b: State, c: State)
    requires Is(Transpose(b), 0, c[0], c[1], c[2], c[3]) && Is(Transpose(b), 1, c[4], c[5], c[6], c[7])
    requires Is(Transpose(b), 2, c[8], c[9], c[10], c[11]) && Is(Transpose(b), 3, c[12], c[13], c[14], c[15])
    ensures b == c
  {
  }

  lemma ColumnsOf(b: State)
    ensures Is(Transpose(b), 0, b[0], b[1], b[2], b[3]) && Is(Transpose(b), 1, b[4], b[5], b[6], b[7])
    ensures Is(Transpose(b), 2, b[8], b[9], b[10], b[11]) && Is(Transpose(b), 3, b[12], b[13], b[14], b[15])
  {
  }

  lemma OneBlock(b: State, w: Schedule)
    ensures EncryptBlocks(b, w) == EncryptBlock(b, w)
  {
    hide EncryptBlock;
    assert b[..0] == [] && b[0..] == b;
    assert EncryptBlocks([], w) == [];
  }

  lemma Example()
    ensures EncryptBlocks([0x00, 0x11, 0x22, 0x33, 0x44, 0x55, 0x66, 0x77, 0x88, 0x99, 0xAA, 0xBB, 0xCC, 0xDD, 0xEE, 0xFF], Expanded(ExampleKey())) ==
      [0x69, 0xC4, 0xE0, 0xD8, 0x6A, 0x7B, 0x04, 0x30, 0xD8, 0xCD, 0xB7, 0x80, 0x70, 0xB4, 0xC5, 0x5A]
  {
    hide Is, After, Transpose, EncryptBlocks, EncryptBlock, Expanded, ExampleKey;
    var b: State := [0x00, 0x11, 0x22, 0x33, 0x44, 0x55, 0x66, 0x77, 0x88, 0x99, 0xAA, 0xBB, 0xCC, 0xDD, 0xEE, 0xFF];
    var c: State := [0x69, 0xC4, 0xE0, 0xD8, 0x6A, 0x7B, 0x04, 0x30, 0xD8, 0xCD, 0xB7, 0x80, 0x70, 0xB4, 0xC5, 0x5A];
    OneBlock(b, Expanded(ExampleKey()));
    BlockIs();
    TransposeInvolution(After(10));
    Round10a();
    Round10b();
    Transposed(Transpose(After(10)), c);
  }

  lemma BlockIs()
    ensures EncryptBlock([0x00, 0x11, 0x22, 0x33, 0x44, 0x55, 0x66, 0x77, 0x88, 0x99, 0xAA, 0xBB, 0xCC, 0xDD, 0xEE, 0xFF], Expanded(ExampleKey())) == Transpose(After(10))
  {
    hide Transpose, EncryptState, Expanded, ExampleKey;
  }
}
