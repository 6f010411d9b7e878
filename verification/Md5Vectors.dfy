/**
  The digests that appendix A.5 of RFC 1321 gives for the empty message and for "abc", as
  values of module Md5's specification: they fix the round functions, the rotations, the
  constants, the order of the message words and the encoding.
 */
module Md5Vectors {

  import opened Md5

  // ----- one step on given words

  lemma SumTo(a: bv32, m: bv32, x: bv32, k: bv32, t: bv32)
    requires t == a + m + x + k
    ensures Sum(a, m, x, k) == t
  {
  }

  lemma RotateTo(t: bv32, s: bv6, u: bv32)
    requires s <= 32 && u == (t << s) | (t >> (32 - s))
    ensures Rotate(t, s) == u
  {
  }

  lemma PlusTo(u: bv32, b: bv32, r: bv32)
    requires r == u + b
    ensures Plus(u, b) == r
  {
  }

  lemma UpdatedWith(i: nat, a: bv32, b: bv32, c: bv32, d: bv32, x: bv32, m: bv32, k: bv32, s: bv6, r: bv32)
    requires i < 64 && Mix(i, b, c, d) == m && Sine(i) == k && Amount(i) == s
    requires s <= 32 && Plus(Rotate(Sum(a, m, x, k), s), b) == r
    ensures Updated(i, a, b, c, d, x) == r
  {
    hide Mix, Sine, Amount, Plus, Rotate, Sum;
  }

  /** The first word, the length in bits, and zeros. */
  ghost predicate ShortBlock(block: Block, first: bv32, bits: bv32) {
    forall k :: 0 <= k < 16 ==> WordOf(block, k) == if k == 0 then first else if k == 14 then bits else 0
  }

  lemma BlockWord(block: Block, first: bv32, bits: bv32, k: nat, x: bv32)
    requires ShortBlock(block, first, bits) && k < 16
    requires x == if k == 0 then first else if k == 14 then bits else 0
    ensures WordOf(block, k) == x
  {
    hide WordOf;
  }

  /** Step `i` from the registers a, b, c and d: `k` is the number of the message word `x`, `m` what the round function gives. */
  lemma Turn(block: Block, i: nat, a: bv32, b: bv32, c: bv32, d: bv32, k: nat, x: bv32, m: bv32, s: bv6, sine: bv32, t: bv32, u: bv32, r: bv32)
    requires i < 64 && WordIndex(i) == k && WordOf(block, k) == x
    requires Mix(i, b, c, d) == m && Amount(i) == s && s <= 32 && Sine(i) == sine
    requires t == a + m + x + sine && u == (t << s) | (t >> (32 - s)) && r == u + b
    ensures Steps(Words(a, b, c, d), block, i) == Steps(Words(d, r, b, c), block, i + 1)
  {
    hide *;
    SumTo(a, m, x, sine, t);
    RotateTo(t, s, u);
    PlusTo(u, b, r);
    UpdatedWith(i, a, b, c, d, x, m, sine, s, r);
    StepsTurn(a, b, c, d, block, i);
  }

  // ----- padding and encoding of short messages

  /** The padded block of a message of less than 32 bytes. */
  function ShortPad(m: seq<bv8>, k: nat): bv8
    requires |m| < 32
  {
    if k < |m| then m[k] else if k == |m| then 0x80 else if k == 56 then (8 * |m|) as bv8 else 0
  }

  lemma PadShort(m: seq<bv8>)
    requires |m| < 32
    ensures |Pad(m)| == 64 && forall k :: 0 <= k < 64 ==> Pad(m)[k] == ShortPad(m, k)
  {
    ShortLengths(m);
    EncodeTwo(8 * |m|);
    hide EncodeWords, Padding, Zeros, LowBits, HighBits, PadLength;
    var p, tail := Padding()[..56 - |m|], EncodeWords([8 * |m|, 0]);
    assert Pad(m) == m + p + tail;
    forall k | 0 <= k < 64
      ensures (m + p + tail)[k] == ShortPad(m, k)
    {
      if |m| <= k < 56 {
        PaddingAt(k - |m|);
        assert (m + p + tail)[k] == p[k - |m|];
      } else if k >= 56 {
        assert (m + p + tail)[k] == tail[k - 56];
      }
    }
  }

  lemma ShortLengths(m: seq<bv8>)
    requires |m| < 32
    ensures PadLength(|m|) == 56 - |m| && LowBits(|m|) == 8 * |m| && HighBits(|m|) == 0
  {
  }

  lemma PaddingAt(k: nat)
    requires k < 64
    ensures Padding()[k] == if k == 0 then 0x80 else 0
  {
    hide Zeros;
  }

  lemma BytesOf(n: nat, b0: nat, b1: nat, b2: nat, b3: nat)
    requires b0 < 256 && b1 < 256 && b2 < 256 && b3 < 256
    requires n == b0 + 0x100 * b1 + 0x1_0000 * b2 + 0x100_0000 * b3
    ensures n % 256 == b0 && n / 0x100 % 256 == b1 && n / 0x1_0000 % 256 == b2 && n / 0x100_0000 % 256 == b3
  {
  }

  lemma EncodeWordIs(n: nat, b0: bv8, b1: bv8, b2: bv8, b3: bv8)
    requires n == b0 as nat + 0x100 * b1 as nat + 0x1_0000 * b2 as nat + 0x100_0000 * b3 as nat
    ensures EncodeWord(n) == [b0, b1, b2, b3]
  {
    BytesOf(n, b0 as nat, b1 as nat, b2 as nat, b3 as nat);
    ByteBack(b0);
    ByteBack(b1);
    ByteBack(b2);
    ByteBack(b3);
  }

  lemma ByteBack(b: bv8)
    ensures b as nat < 256 && (b as nat) as bv8 == b
  {
  }

  lemma EncodeTwo(n: nat)
    requires n < 256
    ensures EncodeWords([n, 0]) == [n as bv8, 0, 0, 0, 0, 0, 0, 0]
  {
    BytesOf(n, n, 0, 0, 0);
    assert EncodeWord(n) == [n as bv8, 0, 0, 0];
    EncodeWordIs(0, 0, 0, 0, 0);
    hide EncodeWord;
    assert [n, 0][1..] == [0] && [0][1..] == [];
    assert EncodeWords([0]) == EncodeWord(0) + EncodeWords([]);
  }

  lemma EncodeCons(n: nat, rest: seq<nat>)
    ensures EncodeWords([n] + rest) == EncodeWord(n) + EncodeWords(rest)
  {
    assert ([n] + rest)[1..] == rest;
    hide EncodeWord;
  }

  /** The encoding of four words whose values are p, q, r and s. */
  lemma EncodeFour(a: bv32, b: bv32, c: bv32, d: bv32, p: nat, q: nat, r: nat, s: nat)
    requires a as nat == p && b as nat == q && c as nat == r && d as nat == s
    ensures EncodeWords(WordList(Words(a, b, c, d))) == EncodeWord(p) + (EncodeWord(q) + (EncodeWord(r) + EncodeWord(s)))
  {
    FourItems(p, q, r, s);
    hide EncodeWord, EncodeWords;
    EncodeCons(p, [q] + ([r] + ([s] + [])));
    EncodeCons(q, [r] + ([s] + []));
    EncodeCons(r, [s] + []);
    EncodeCons(s, []);
    EncodeNone();
  }

  lemma FourItems(p: nat, q: nat, r: nat, s: nat)
    ensures [p, q, r, s] == [p] + ([q] + ([r] + ([s] + [])))
  {
  }

  lemma EncodeNone()
    ensures EncodeWords([]) == []
  {
  }

  lemma ShortWord(m: seq<bv8>, k: nat)
    requires |m| < 32 && k < 16
    ensures |Pad(m)| == 64
    ensures WordOf(Pad(m), k) ==
      WordFrom(ShortPad(m, 4 * k), ShortPad(m, 4 * k + 1), ShortPad(m, 4 * k + 2), ShortPad(m, 4 * k + 3))
  {
    PadShort(m);
    hide Pad, ShortPad, WordFrom;
  }

  // ----- "abc"

  lemma AbcTurns0(block: Block)
    requires ShortBlock(block, 0x80636261, 24)
    ensures Steps(Words(0x67452301, 0xefcdab89, 0x98badcfe, 0x10325476), block, 0)
         == Steps(Words(0xd6d117b4, 0x7ad956f2, 0x2f6fbd72, 0x344a8432), block, 4)
  {
    hide WordOf, Steps, Updated, ShortBlock, Plus, Rotate, Sum;
    BlockWord(block, 0x80636261, 24, 0, 0x80636261);
    BlockWord(block, 0x80636261, 24, 1, 0x00000000);
    BlockWord(block, 0x80636261, 24, 2, 0x00000000);
    BlockWord(block, 0x80636261, 24, 3, 0x00000000);
    Turn(block, 0, 0x67452301, 0xefcdab89, 0x98badcfe, 0x10325476, 0, 0x80636261, 0x98badcfe, 7, 0xd76aa478, 0x57ce06d8, 0xe7036c2b, 0xd6d117b4);
    Turn(block, 1, 0x10325476, 0xd6d117b4, 0xefcdab89, 0x98badcfe, 1, 0x00000000, 0xceebcbca, 12, 0xe8c7b756, 0xc7e5d796, 0x5d796c7e, 0x344a8432);
    Turn(block, 2, 0x98badcfe, 0x344a8432, 0xd6d117b4, 0xefcdab89, 2, 0x00000000, 0xdfc52fb9, 17, 0x242070db, 0x9ca07d92, 0xfb253940, 0x2f6fbd72);
    Turn(block, 3, 0xefcdab89, 0x2f6fbd72, 0x344a8432, 0xd6d117b4, 3, 0x00000000, 0xf4da86b6, 22, 0xc1bdceee, 0xa666012d, 0x4b699980, 0x7ad956f2);
  }

  lemma AbcTurns1(block: Block)
    requires ShortBlock(block, 0x80636261, 24)
    ensures Steps(Words(0xd6d117b4, 0x7ad956f2, 0x2f6fbd72, 0x344a8432), block, 4)
         == Steps(Words(0xc73741ef, 0x928d99f6, 0x207dc67b, 0x8bac3051), block, 8)
  {
    hide WordOf, Steps, Updated, ShortBlock, Plus, Rotate, Sum;
    BlockWord(block, 0x80636261, 24, 4, 0x00000000);
    BlockWord(block, 0x80636261, 24, 5, 0x00000000);
    BlockWord(block, 0x80636261, 24, 6, 0x00000000);
    BlockWord(block, 0x80636261, 24, 7, 0x00000000);
    Turn(block, 4, 0xd6d117b4, 0x7ad956f2, 0x2f6fbd72, 0x344a8432, 4, 0x00000000, 0x2e4b9472, 7, 0xf57c0faf, 0xfa98bbd5, 0x4c5deafd, 0xc73741ef);
    Turn(block, 5, 0x344a8432, 0xc73741ef, 0x7ad956f2, 0x2f6fbd72, 5, 0x00000000, 0x6a59fcf2, 12, 0x4787c62a, 0xe62c474e, 0xc474ee62, 0x8bac3051);
    Turn(block, 6, 0x2f6fbd72, 0x8bac3051, 0xc73741ef, 0x7ad956f2, 6, 0x00000000, 0xf37546e3, 17, 0xa8304613, 0xcb154a68, 0x94d1962a, 0x207dc67b);
    Turn(block, 7, 0x7ad956f2, 0x207dc67b, 0x8bac3051, 0xc73741ef, 7, 0x00000000, 0xc72e01d5, 22, 0xfd469501, 0x3f4dedc8, 0x720fd37b, 0x928d99f6);
  }

  lemma AbcTurns2(block: Block)
    requires ShortBlock(block, 0x80636261, 24)
    ensures Steps(Words(0xc73741ef, 0x928d99f6, 0x207dc67b, 0x8bac3051), block, 8)
         == Steps(Words(0x854b3712, 0x5ed49596, 0x3020401c, 0x74e2f284), block, 12)
  {
    hide WordOf, Steps, Updated, ShortBlock, Plus, Rotate, Sum;
    BlockWord(block, 0x80636261, 24, 8, 0x00000000);
    BlockWord(block, 0x80636261, 24, 9, 0x00000000);
    BlockWord(block, 0x80636261, 24, 10, 0x00000000);
    BlockWord(block, 0x80636261, 24, 11, 0x00000000);
    Turn(block, 8, 0xc73741ef, 0x928d99f6, 0x207dc67b, 0x8bac3051, 8, 0x00000000, 0x092da073, 7, 0x698098d8, 0x39e57b3a, 0xf2bd9d1c, 0x854b3712);
    Turn(block, 9, 0x8bac3051, 0x854b3712, 0x928d99f6, 0x207dc67b, 9, 0x00000000, 0xa03dd17b, 12, 0x8b44f7af, 0xb72ef97b, 0xef97bb72, 0x74e2f284);
    Turn(block, 10, 0x207dc67b, 0x74e2f284, 0x854b3712, 0x928d99f6, 10, 0x00000000, 0x864f3b72, 17, 0xffff5bb1, 0xa6cc5d9e, 0xbb3d4d98, 0x3020401c);
    Turn(block, 11, 0x928d99f6, 0x3020401c, 0x74e2f284, 0x854b3712, 11, 0x00000000, 0xb56b7706, 22, 0x895cd7be, 0xd155e8ba, 0x2eb4557a, 0x5ed49596);
  }

  lemma AbcTurns3(block: Block)
    requires ShortBlock(block, 0x80636261, 24)
    ensures Steps(Words(0x854b3712, 0x5ed49596, 0x3020401c, 0x74e2f284), block, 12)
         == Steps(Words(0xdda9b9a6, 0x72aff2e0, 0xe396856b, 0xa1051895), block, 16)
  {
    hide WordOf, Steps, Updated, ShortBlock, Plus, Rotate, Sum;
    BlockWord(block, 0x80636261, 24, 12, 0x00000000);
    BlockWord(block, 0x80636261, 24, 13, 0x00000000);
    BlockWord(block, 0x80636261, 24, 14, 0x00000018);
    BlockWord(block, 0x80636261, 24, 15, 0x00000000);
    Turn(block, 12, 0x854b3712, 0x5ed49596, 0x3020401c, 0x74e2f284, 12, 0x00000000, 0x30226214, 7, 0x6b901122, 0x20fdaa48, 0x7ed52410, 0xdda9b9a6);
    Turn(block, 13, 0x74e2f284, 0xdda9b9a6, 0x5ed49596, 0x3020401c, 13, 0x00000000, 0x7c80d19e, 12, 0xfd987193, 0xeefc35b5, 0xc35b5eef, 0xa1051895);
    Turn(block, 14, 0x3020401c, 0xa1051895, 0xdda9b9a6, 0x5ed49596, 14, 0x00000018, 0xdfd19d86, 17, 0xa679438e, 0xb66b2148, 0x42916cd6, 0xe396856b);
    Turn(block, 15, 0x5ed49596, 0xe396856b, 0xa1051895, 0xdda9b9a6, 15, 0x00000000, 0xbd2d3885, 22, 0x49b40821, 0x65b5d63c, 0x8f196d75, 0x72aff2e0);
  }

  lemma AbcTurns4(block: Block)
    requires ShortBlock(block, 0x80636261, 24)
    ensures Steps(Words(0xdda9b9a6, 0x72aff2e0, 0xe396856b, 0xa1051895), block, 16)
         == Steps(Words(0x3e9e9126, 0xb5b204e4, 0xe25e1652, 0x4a1d804e), block, 20)
  {
    hide WordOf, Steps, Updated, ShortBlock, Plus, Rotate, Sum;
    BlockWord(block, 0x80636261, 24, 0, 0x80636261);
    BlockWord(block, 0x80636261, 24, 1, 0x00000000);
    BlockWord(block, 0x80636261, 24, 6, 0x00000000);
    BlockWord(block, 0x80636261, 24, 11, 0x00000000);
    Turn(block, 16, 0xdda9b9a6, 0x72aff2e0, 0xe396856b, 0xa1051895, 1, 0x00000000, 0x629795ea, 5, 0xf61e2562, 0x365f74f2, 0xcbee9e46, 0x3e9e9126);
    Turn(block, 17, 0xa1051895, 0x3e9e9126, 0x72aff2e0, 0xe396856b, 6, 0x00000000, 0x32bff3a2, 9, 0xc040b340, 0x9405bf77, 0x0b7eef28, 0x4a1d804e);
    Turn(block, 18, 0xe396856b, 0x4a1d804e, 0x3e9e9126, 0x72aff2e0, 11, 0x00000000, 0x4e1d8146, 14, 0x265e5a51, 0x58126102, 0x98409604, 0xe25e1652);
    Turn(block, 19, 0x72aff2e0, 0xe25e1652, 0x4a1d804e, 0x3e9e9126, 0, 0x80636261, 0x621f104a, 20, 0xe9b6c7aa, 0x3ee92d35, 0xd353ee92, 0xb5b204e4);
  }

  lemma AbcTurns5(block: Block)
    requires ShortBlock(block, 0x80636261, 24)
    ensures Steps(Words(0x3e9e9126, 0xb5b204e4, 0xe25e1652, 0x4a1d804e), block, 20)
         == Steps(Words(0x59a8ffda, 0x47092c07, 0xabfc7920, 0x6d002f1e), block, 24)
  {
    hide WordOf, Steps, Updated, ShortBlock, Plus, Rotate, Sum;
    BlockWord(block, 0x80636261, 24, 4, 0x00000000);
    BlockWord(block, 0x80636261, 24, 5, 0x00000000);
    BlockWord(block, 0x80636261, 24, 10, 0x00000000);
    BlockWord(block, 0x80636261, 24, 15, 0x00000000);
    Turn(block, 20, 0x3e9e9126, 0xb5b204e4, 0xe25e1652, 0x4a1d804e, 5, 0x00000000, 0xa0521654, 5, 0xd62f105d, 0xb51fb7d7, 0xa3f6faf6, 0x59a8ffda);
    Turn(block, 21, 0x4a1d804e, 0x59a8ffda, 0xb5b204e4, 0xe25e1652, 10, 0x00000000, 0x55a816f6, 9, 0x02441453, 0xa209ab97, 0x13572f44, 0x6d002f1e);
    Turn(block, 22, 0xe25e1652, 0x6d002f1e, 0x59a8ffda, 0xb5b204e4, 15, 0x00000000, 0x6d08ff1e, 14, 0xd8a1e681, 0x2808fbf1, 0x3efc4a02, 0xabfc7920);
    Turn(block, 23, 0xb5b204e4, 0xabfc7920, 0x6d002f1e, 0x59a8ffda, 4, 0x00000000, 0x2da87904, 20, 0xe7d3fbc8, 0xcb2e79b0, 0x9b0cb2e7, 0x47092c07);
  }

  lemma AbcTurns6(block: Block)
    requires ShortBlock(block, 0x80636261, 24)
    ensures Steps(Words(0x59a8ffda, 0x47092c07, 0xabfc7920, 0x6d002f1e), block, 24)
         == Steps(Words(0xb7f268cf, 0x786acb8f, 0xfe1623b1, 0x09388eff), block, 28)
  {
    hide WordOf, Steps, Updated, ShortBlock, Plus, Rotate, Sum;
    BlockWord(block, 0x80636261, 24, 3, 0x00000000);
    BlockWord(block, 0x80636261, 24, 8, 0x00000000);
    BlockWord(block, 0x80636261, 24, 9, 0x00000000);
    BlockWord(block, 0x80636261, 24, 14, 0x00000018);
    Turn(block, 24, 0x59a8ffda, 0x47092c07, 0xabfc7920, 0x6d002f1e, 9, 0x00000000, 0xc7fc7c26, 5, 0x21e1cde6, 0x438749e6, 0x70e93cc8, 0xb7f268cf);
    Turn(block, 25, 0x6d002f1e, 0xb7f268cf, 0x47092c07, 0xabfc7920, 14, 0x00000018, 0xe7f16c07, 9, 0xc33707d6, 0x1828a313, 0x51462630, 0x09388eff);
    Turn(block, 26, 0xabfc7920, 0x09388eff, 0xb7f268cf, 0x47092c07, 3, 0x00000000, 0xb1fa4ccf, 14, 0xf4d50d87, 0x52cbd376, 0xf4dd94b2, 0xfe1623b1);
    Turn(block, 27, 0x47092c07, 0xfe1623b1, 0x09388eff, 0xb7f268cf, 8, 0x00000000, 0xbe1aa6b1, 20, 0x455a14ed, 0x4a7de7a5, 0x7a54a7de, 0x786acb8f);
  }

  lemma AbcTurns7(block: Block)
    requires ShortBlock(block, 0x80636261, 24)
    ensures Steps(Words(0xb7f268cf, 0x786acb8f, 0xfe1623b1, 0x09388eff), block, 28)
         == Steps(Words(0x790a77fb, 0x726342d3, 0xa62884aa, 0x9f47e4f8), block, 32)
  {
    hide WordOf, Steps, Updated, ShortBlock, Plus, Rotate, Sum;
    BlockWord(block, 0x80636261, 24, 2, 0x00000000);
    BlockWord(block, 0x80636261, 24, 7, 0x00000000);
    BlockWord(block, 0x80636261, 24, 12, 0x00000000);
    BlockWord(block, 0x80636261, 24, 13, 0x00000000);
    Turn(block, 28, 0xb7f268cf, 0x786acb8f, 0xfe1623b1, 0x09388eff, 13, 0x00000000, 0xfe2eab8f, 5, 0xa9e3e905, 0x6004fd63, 0x009fac6c, 0x790a77fb);
    Turn(block, 29, 0x09388eff, 0x790a77fb, 0x786acb8f, 0xfe1623b1, 2, 0x00000000, 0x786aebbf, 9, 0xfcefa3f8, 0x7e931eb6, 0x263d6cfd, 0x9f47e4f8);
    Turn(block, 30, 0xfe1623b1, 0x9f47e4f8, 0x790a77fb, 0x786acb8f, 7, 0x00000000, 0x1942f4f8, 14, 0x676f02d9, 0x7ec81b82, 0x06e09fb2, 0xa62884aa);
    Turn(block, 31, 0x786acb8f, 0xa62884aa, 0x9f47e4f8, 0x790a77fb, 12, 0x00000000, 0xa64d84aa, 20, 0x8d2a4c8a, 0xabe29cc3, 0xcc3abe29, 0x726342d3);
  }

  lemma AbcTurns8(block: Block)
    requires ShortBlock(block, 0x80636261, 24)
    ensures Steps(Words(0x790a77fb, 0x726342d3, 0xa62884aa, 0x9f47e4f8), block, 32)
         == Steps(Words(0xb3707ebf, 0x3b0875c7, 0x8d212ff5, 0x60127b2e), block, 36)
  {
    hide WordOf, Steps, Updated, ShortBlock, Plus, Rotate, Sum;
    BlockWord(block, 0x80636261, 24, 5, 0x00000000);
    BlockWord(block, 0x80636261, 24, 8, 0x00000000);
    BlockWord(block, 0x80636261, 24, 11, 0x00000000);
    BlockWord(block, 0x80636261, 24, 14, 0x00000018);
    Turn(block, 32, 0x790a77fb, 0x726342d3, 0xa62884aa, 0x9f47e4f8, 5, 0x00000000, 0x4b0c2281, 4, 0xfffa3942, 0xc410d3be, 0x410d3bec, 0xb3707ebf);
    Turn(block, 33, 0x9f47e4f8, 0xb3707ebf, 0x726342d3, 0xa62884aa, 8, 0x00000000, 0x673bb8c6, 11, 0x8771f681, 0x8df5943f, 0xaca1fc6f, 0x60127b2e);
    Turn(block, 34, 0xa62884aa, 0x60127b2e, 0xb3707ebf, 0x726342d3, 11, 0x00000000, 0xa1014742, 16, 0x6d9d6122, 0xb4c72d0e, 0x2d0eb4c7, 0x8d212ff5);
    Turn(block, 35, 0x726342d3, 0x8d212ff5, 0x60127b2e, 0xb3707ebf, 14, 0x00000018, 0x5e432a64, 23, 0xfde5380c, 0xce8ba55b, 0xade745d2, 0x3b0875c7);
  }

  lemma AbcTurns9(block: Block)
    requires ShortBlock(block, 0x80636261, 24)
    ensures Steps(Words(0xb3707ebf, 0x3b0875c7, 0x8d212ff5, 0x60127b2e), block, 36)
         == Steps(Words(0x21b117b9, 0x5a2f5ea5, 0x3575227e, 0x6e7429d5), block, 40)
  {
    hide WordOf, Steps, Updated, ShortBlock, Plus, Rotate, Sum;
    BlockWord(block, 0x80636261, 24, 1, 0x00000000);
    BlockWord(block, 0x80636261, 24, 4, 0x00000000);
    BlockWord(block, 0x80636261, 24, 7, 0x00000000);
    BlockWord(block, 0x80636261, 24, 10, 0x00000000);
    Turn(block, 36, 0xb3707ebf, 0x3b0875c7, 0x8d212ff5, 0x60127b2e, 1, 0x00000000, 0xd63b211c, 4, 0xa4beea44, 0x2e6a8a1f, 0xe6a8a1f2, 0x21b117b9);
    Turn(block, 37, 0x60127b2e, 0x21b117b9, 0x3b0875c7, 0x8d212ff5, 4, 0x00000000, 0x97984d8b, 11, 0x4bdecfa9, 0x43899862, 0x4cc3121c, 0x6e7429d5);
    Turn(block, 38, 0x8d212ff5, 0x6e7429d5, 0x21b117b9, 0x3b0875c7, 7, 0x00000000, 0x74cd4bab, 16, 0xf6bb4b60, 0xf8a9c700, 0xc700f8a9, 0x3575227e);
    Turn(block, 39, 0x3b0875c7, 0x3575227e, 0x6e7429d5, 0x21b117b9, 10, 0x00000000, 0x7ab01c12, 23, 0xbebfbc70, 0x74784e49, 0x24ba3c27, 0x5a2f5ea5);
  }

  lemma AbcTurns10(block: Block)
    requires ShortBlock(block, 0x80636261, 24)
    ensures Steps(Words(0x21b117b9, 0x5a2f5ea5, 0x3575227e, 0x6e7429d5), block, 40)
         == Steps(Words(0x11de1779, 0x4c6124f4, 0x31c465ca, 0xfadcaa38), block, 44)
  {
    hide WordOf, Steps, Updated, ShortBlock, Plus, Rotate, Sum;
    BlockWord(block, 0x80636261, 24, 0, 0x80636261);
    BlockWord(block, 0x80636261, 24, 3, 0x00000000);
    BlockWord(block, 0x80636261, 24, 6, 0x00000000);
    BlockWord(block, 0x80636261, 24, 13, 0x00000000);
    Turn(block, 40, 0x21b117b9, 0x5a2f5ea5, 0x3575227e, 0x6e7429d5, 13, 0x00000000, 0x012e550e, 4, 0x289b7ec6, 0x4b7aeb8d, 0xb7aeb8d4, 0x11de1779);
    Turn(block, 41, 0x6e7429d5, 0x11de1779, 0x5a2f5ea5, 0x3575227e, 0, 0x80636261, 0x7e846ba2, 11, 0xeaa127fa, 0x57fd1fd2, 0xe8fe92bf, 0xfadcaa38);
    Turn(block, 42, 0x3575227e, 0xfadcaa38, 0x11de1779, 0x5a2f5ea5, 3, 0x00000000, 0xb12de3e4, 16, 0xd4ef3085, 0xbb9236e7, 0x36e7bb92, 0x31c465ca);
    Turn(block, 43, 0x5a2f5ea5, 0x31c465ca, 0xfadcaa38, 0x11de1779, 6, 0x00000000, 0xdac6d88b, 23, 0x04881d05, 0x397e5435, 0x1a9cbf2a, 0x4c6124f4);
  }

  lemma AbcTurns11(block: Block)
    requires ShortBlock(block, 0x80636261, 24)
    ensures Steps(Words(0x11de1779, 0x4c6124f4, 0x31c465ca, 0xfadcaa38), block, 44)
         == Steps(Words(0x7f2e507b, 0x7beb9700, 0x8fae6399, 0x99d9679d), block, 48)
  {
    hide WordOf, Steps, Updated, ShortBlock, Plus, Rotate, Sum;
    BlockWord(block, 0x80636261, 24, 2, 0x00000000);
    BlockWord(block, 0x80636261, 24, 9, 0x00000000);
    BlockWord(block, 0x80636261, 24, 12, 0x00000000);
    BlockWord(block, 0x80636261, 24, 15, 0x00000000);
    Turn(block, 44, 0x11de1779, 0x4c6124f4, 0x31c465ca, 0xfadcaa38, 9, 0x00000000, 0x8779eb06, 4, 0xd9d4d039, 0x732cd2b8, 0x32cd2b87, 0x7f2e507b);
    Turn(block, 45, 0xfadcaa38, 0x7f2e507b, 0x4c6124f4, 0x31c465ca, 12, 0x00000000, 0x028b1145, 11, 0xe6db99e5, 0xe4435562, 0x1aab1722, 0x99d9679d);
    Turn(block, 46, 0x31c465ca, 0x99d9679d, 0x7f2e507b, 0x4c6124f4, 15, 0x00000000, 0xaa961312, 16, 0x1fa27cf8, 0xfbfcf5d4, 0xf5d4fbfc, 0x8fae6399);
    Turn(block, 47, 0x4c6124f4, 0x8fae6399, 0x99d9679d, 0x7f2e507b, 2, 0x00000000, 0x6959547f, 23, 0xc4ac5665, 0x7a66cfd8, 0xec3d3367, 0x7beb9700);
  }

  lemma AbcTurns12(block: Block)
    requires ShortBlock(block, 0x80636261, 24)
    ensures Steps(Words(0x7f2e507b, 0x7beb9700, 0x8fae6399, 0x99d9679d), block, 48)
         == Steps(Words(0x7b201df8, 0x8bf025c4, 0xb298cefd, 0xf4e8e96e), block, 52)
  {
    hide WordOf, Steps, Updated, ShortBlock, Plus, Rotate, Sum;
    BlockWord(block, 0x80636261, 24, 0, 0x80636261);
    BlockWord(block, 0x80636261, 24, 5, 0x00000000);
    BlockWord(block, 0x80636261, 24, 7, 0x00000000);
    BlockWord(block, 0x80636261, 24, 14, 0x00000018);
    Turn(block, 48, 0x7f2e507b, 0x7beb9700, 0x8fae6399, 0x99d9679d, 0, 0x80636261, 0xf041fcfb, 6, 0xf4292244, 0xe3fcd21b, 0xff3486f8, 0x7b201df8);
    Turn(block, 49, 0x99d9679d, 0x7b201df8, 0x7beb9700, 0x8fae6399, 7, 0x00000000, 0x009a0afe, 10, 0x432aff97, 0xdd9e7232, 0x79c8cb76, 0xf4e8e96e);
    Turn(block, 50, 0x8fae6399, 0xf4e8e96e, 0x7b201df8, 0x7beb9700, 14, 0x00000018, 0x8fdcf407, 15, 0xab9423a7, 0xcb1f7b5f, 0xbdafe58f, 0xb298cefd);
    Turn(block, 51, 0x7beb9700, 0xb298cefd, 0xf4e8e96e, 0x7b201df8, 5, 0x00000000, 0x42370791, 21, 0xfc93a039, 0xbab63eca, 0xd95756c7, 0x8bf025c4);
  }

  lemma AbcTurns13(block: Block)
    requires ShortBlock(block, 0x80636261, 24)
    ensures Steps(Words(0x7b201df8, 0x8bf025c4, 0xb298cefd, 0xf4e8e96e), block, 52)
         == Steps(Words(0x06cc5e8a, 0x3bfa2c27, 0x7d632dd0, 0x5b0d97aa), block, 56)
  {
    hide WordOf, Steps, Updated, ShortBlock, Plus, Rotate, Sum;
    BlockWord(block, 0x80636261, 24, 1, 0x00000000);
    BlockWord(block, 0x80636261, 24, 3, 0x00000000);
    BlockWord(block, 0x80636261, 24, 10, 0x00000000);
    BlockWord(block, 0x80636261, 24, 12, 0x00000000);
    Turn(block, 52, 0x7b201df8, 0x8bf025c4, 0xb298cefd, 0xf4e8e96e, 12, 0x00000000, 0x396ff928, 6, 0x655b59c3, 0x19eb70e3, 0x7adc38c6, 0x06cc5e8a);
    Turn(block, 53, 0xf4e8e96e, 0x06cc5e8a, 0x8bf025c4, 0xb298cefd, 3, 0x00000000, 0xc41f5a4e, 10, 0x8f0ccc92, 0x4815104e, 0x54413920, 0x5b0d97aa);
    Turn(block, 54, 0xb298cefd, 0x5b0d97aa, 0x06cc5e8a, 0x8bf025c4, 10, 0x00000000, 0x79c38131, 15, 0xffeff47d, 0x2c4c44ab, 0x22559626, 0x7d632dd0);
    Turn(block, 55, 0x8bf025c4, 0x7d632dd0, 0x5b0d97aa, 0x06cc5e8a, 1, 0x00000000, 0xa67e3a5f, 21, 0x85845dd1, 0xb7f2bdf4, 0xbe96fe57, 0x3bfa2c27);
  }

  lemma AbcTurns14(block: Block)
    requires ShortBlock(block, 0x80636261, 24)
    ensures Steps(Words(0x06cc5e8a, 0x3bfa2c27, 0x7d632dd0, 0x5b0d97aa), block, 56)
         == Steps(Words(0x7f81cc35, 0x7327d604, 0x4f9dbe3f, 0x094454ab), block, 60)
  {
    hide WordOf, Steps, Updated, ShortBlock, Plus, Rotate, Sum;
    BlockWord(block, 0x80636261, 24, 6, 0x00000000);
    BlockWord(block, 0x80636261, 24, 8, 0x00000000);
    BlockWord(block, 0x80636261, 24, 13, 0x00000000);
    BlockWord(block, 0x80636261, 24, 15, 0x00000000);
    Turn(block, 56, 0x06cc5e8a, 0x3bfa2c27, 0x7d632dd0, 0x5b0d97aa, 8, 0x00000000, 0xc29941a7, 6, 0x6fa87e4f, 0x390e1e80, 0x4387a00e, 0x7f81cc35);
    Turn(block, 57, 0x5b0d97aa, 0x7f81cc35, 0x3bfa2c27, 0x7d632dd0, 15, 0x00000000, 0xc467f218, 10, 0xfe2ce6e0, 0x1da270a2, 0x89c28876, 0x094454ab);
    Turn(block, 58, 0x7d632dd0, 0x094454ab, 0x7f81cc35, 0x3bfa2c27, 6, 0x00000000, 0xb2c41bce, 15, 0xa3014314, 0xd3288cb2, 0x46596994, 0x4f9dbe3f);
    Turn(block, 59, 0x3bfa2c27, 0x4f9dbe3f, 0x094454ab, 0x7f81cc35, 13, 0x00000000, 0xc6bbeb54, 21, 0x4e0811a1, 0x50be291c, 0x238a17c5, 0x7327d604);
  }

  lemma AbcTurns15(block: Block)
    requires ShortBlock(block, 0x80636261, 24)
    ensures Steps(Words(0x7f81cc35, 0x7327d604, 0x4f9dbe3f, 0x094454ab), block, 60)
         == Steps(Words(0x310ade8f, 0xc08226b3, 0xe484b9d8, 0x624d8cb2), block, 64)
  {
    hide WordOf, Steps, Updated, ShortBlock, Plus, Rotate, Sum;
    BlockWord(block, 0x80636261, 24, 2, 0x00000000);
    BlockWord(block, 0x80636261, 24, 4, 0x00000000);
    BlockWord(block, 0x80636261, 24, 9, 0x00000000);
    BlockWord(block, 0x80636261, 24, 11, 0x00000000);
    Turn(block, 60, 0x7f81cc35, 0x7327d604, 0x4f9dbe3f, 0x094454ab, 4, 0x00000000, 0xb822416b, 6, 0xf7537e82, 0x2ef78c22, 0xbde3088b, 0x310ade8f);
    Turn(block, 61, 0x094454ab, 0x310ade8f, 0x7327d604, 0x4f9dbe3f, 11, 0x00000000, 0xc24d09cb, 10, 0xbd3af235, 0x88cc50ab, 0x3142ae23, 0x624d8cb2);
    Turn(block, 62, 0x4f9dbe3f, 0x624d8cb2, 0x310ade8f, 0x7327d604, 2, 0x00000000, 0xdfd77374, 15, 0x2ad7d2bb, 0x5a4d046e, 0x82372d26, 0xe484b9d8);
    Turn(block, 63, 0x7327d604, 0xe484b9d8, 0x624d8cb2, 0x310ade8f, 9, 0x00000000, 0x8cb8354a, 21, 0xeb86d391, 0xeb66dedf, 0xdbfd6cdb, 0xc08226b3);
  }

  lemma AbcCompressed(block: Block)
    requires ShortBlock(block, 0x80636261, 24)
    ensures Compress(INITIAL, block) == Words(0x98500190, 0xb04fd23c, 0x7d3f96d6, 0x727fe128)
  {
    hide ShortBlock, Steps;
    AbcTurns0(block);
    AbcTurns1(block);
    AbcTurns2(block);
    AbcTurns3(block);
    AbcTurns4(block);
    AbcTurns5(block);
    AbcTurns6(block);
    AbcTurns7(block);
    AbcTurns8(block);
    AbcTurns9(block);
    AbcTurns10(block);
    AbcTurns11(block);
    AbcTurns12(block);
    AbcTurns13(block);
    AbcTurns14(block);
    AbcTurns15(block);
    StepsEnd(Words(0x310ade8f, 0xc08226b3, 0xe484b9d8, 0x624d8cb2), block);
  }

  lemma AbcBlock()
    ensures |Pad([0x61, 0x62, 0x63])| == 64 && ShortBlock(Pad([0x61, 0x62, 0x63]), 0x80636261, 24)
  {
    PadShort([0x61, 0x62, 0x63]);
    forall k | 0 <= k < 16
      ensures WordOf(Pad([0x61, 0x62, 0x63]), k) == if k == 0 then 0x80636261 else if k == 14 then 24 else 0
    {
      ShortWord([0x61, 0x62, 0x63], k);
    }
  }

  lemma AbcEncoded()
    ensures EncodeWords(WordList(Words(0x98500190, 0xb04fd23c, 0x7d3f96d6, 0x727fe128))) == [
      0x90, 0x01, 0x50, 0x98, 0x3c, 0xd2, 0x4f, 0xb0,
      0xd6, 0x96, 0x3f, 0x7d, 0x28, 0xe1, 0x7f, 0x72]
  {
    hide EncodeWord, EncodeWords, WordList;
    EncodeFour(0x98500190, 0xb04fd23c, 0x7d3f96d6, 0x727fe128, 0x98500190, 0xb04fd23c, 0x7d3f96d6, 0x727fe128);
    EncodeWordIs(0x98500190, 0x90, 0x01, 0x50, 0x98);
    EncodeWordIs(0xb04fd23c, 0x3c, 0xd2, 0x4f, 0xb0);
    EncodeWordIs(0x7d3f96d6, 0xd6, 0x96, 0x3f, 0x7d);
    EncodeWordIs(0x727fe128, 0x28, 0xe1, 0x7f, 0x72);
  }

  /** The digest of "abc". */
  lemma AbcDigest()
    ensures Digest([0x61, 0x62, 0x63]) == [
      0x90, 0x01, 0x50, 0x98, 0x3c, 0xd2, 0x4f, 0xb0,
      0xd6, 0x96, 0x3f, 0x7d, 0x28, 0xe1, 0x7f, 0x72]
  {
    AbcBlock();
    AbcEncoded();
    hide Pad, Compress, ShortBlock, EncodeWords, WordList, Absorb;
    AbcCompressed(Pad([0x61, 0x62, 0x63]));
    OneBlock(Pad([0x61, 0x62, 0x63]));
  }

  // ----- the empty message

  lemma EmptyTurns0(block: Block)
    requires ShortBlock(block, 0x00000080, 0)
    ensures Steps(Words(0x67452301, 0xefcdab89, 0x98badcfe, 0x10325476), block, 0)
         == Steps(Words(0xa5202774, 0x1b163203, 0xe7f06b23, 0xf59592dd), block, 4)
  {
    hide WordOf, Steps, Updated, ShortBlock, Plus, Rotate, Sum;
    BlockWord(block, 0x00000080, 0, 0, 0x00000080);
    BlockWord(block, 0x00000080, 0, 1, 0x00000000);
    BlockWord(block, 0x00000080, 0, 2, 0x00000000);
    BlockWord(block, 0x00000080, 0, 3, 0x00000000);
    Turn(block, 0, 0x67452301, 0xefcdab89, 0x98badcfe, 0x10325476, 0, 0x00000080, 0x98badcfe, 7, 0xd76aa478, 0xd76aa4f7, 0xb5527beb, 0xa5202774);
    Turn(block, 1, 0x10325476, 0xa5202774, 0xefcdab89, 0x98badcfe, 1, 0x00000000, 0xbd9afb8a, 12, 0xe8c7b756, 0xb6950756, 0x50756b69, 0xf59592dd);
    Turn(block, 2, 0x98badcfe, 0xf59592dd, 0xa5202774, 0xefcdab89, 2, 0x00000000, 0xaf482b54, 17, 0x242070db, 0x6c23792d, 0xf25ad846, 0xe7f06b23);
    Turn(block, 3, 0xefcdab89, 0xe7f06b23, 0xf59592dd, 0xa5202774, 3, 0x00000000, 0xe5900655, 22, 0xc1bdceee, 0x971b80cc, 0x3325c6e0, 0x1b163203);
  }

  lemma EmptyTurns1(block: Block)
    requires ShortBlock(block, 0x00000080, 0)
    ensures Steps(Words(0xa5202774, 0x1b163203, 0xe7f06b23, 0xf59592dd), block, 4)
         == Steps(Words(0x32033344, 0x9bc13ce9, 0xf5b158db, 0x2f35d494), block, 8)
  {
    hide WordOf, Steps, Updated, ShortBlock, Plus, Rotate, Sum;
    BlockWord(block, 0x00000080, 0, 4, 0x00000000);
    BlockWord(block, 0x00000080, 0, 5, 0x00000000);
    BlockWord(block, 0x00000080, 0, 6, 0x00000000);
    BlockWord(block, 0x00000080, 0, 7, 0x00000000);
    Turn(block, 4, 0xa5202774, 0x1b163203, 0xe7f06b23, 0xf59592dd, 4, 0x00000000, 0xe791a2df, 7, 0xf57c0faf, 0x822dda02, 0x16ed0141, 0x32033344);
    Turn(block, 5, 0xf59592dd, 0x32033344, 0x1b163203, 0xe7f06b23, 5, 0x00000000, 0xd7f27a23, 12, 0x4787c62a, 0x150fd32a, 0xfd32a150, 0x2f35d494);
    Turn(block, 6, 0xe7f06b23, 0x2f35d494, 0x32033344, 0x1b163203, 6, 0x00000000, 0x32033207, 17, 0xa8304613, 0xc223e33d, 0xc67b8447, 0xf5b158db);
    Turn(block, 7, 0x1b163203, 0xf5b158db, 0x2f35d494, 0x32033344, 7, 0x00000000, 0x27337394, 22, 0xfd469501, 0x3f903a98, 0xa60fe40e, 0x9bc13ce9);
  }

  lemma EmptyTurns2(block: Block)
    requires ShortBlock(block, 0x00000080, 0)
    ensures Steps(Words(0x32033344, 0x9bc13ce9, 0xf5b158db, 0x2f35d494), block, 8)
         == Steps(Words(0x3893b991, 0x70768a29, 0xe1ef0576, 0xfce4a312), block, 12)
  {
    hide WordOf, Steps, Updated, ShortBlock, Plus, Rotate, Sum;
    BlockWord(block, 0x00000080, 0, 8, 0x00000000);
    BlockWord(block, 0x00000080, 0, 9, 0x00000000);
    BlockWord(block, 0x00000080, 0, 10, 0x00000000);
    BlockWord(block, 0x00000080, 0, 11, 0x00000000);
    Turn(block, 8, 0x32033344, 0x9bc13ce9, 0xf5b158db, 0x2f35d494, 8, 0x00000000, 0xb5b5d8dd, 7, 0x698098d8, 0x5139a4f9, 0x9cd27ca8, 0x3893b991);
    Turn(block, 9, 0x2f35d494, 0x3893b991, 0x9bc13ce9, 0xf5b158db, 9, 0x00000000, 0xdda178cb, 12, 0x8b44f7af, 0x981c450e, 0xc450e981, 0xfce4a312);
    Turn(block, 10, 0xf5b158db, 0xfce4a312, 0x3893b991, 0x9bc13ce9, 10, 0x00000000, 0x3b81bdf9, 17, 0xffff5bb1, 0x31327285, 0xe50a6264, 0xe1ef0576);
    Turn(block, 11, 0x9bc13ce9, 0xe1ef0576, 0xfce4a312, 0x3893b991, 11, 0x00000000, 0xf8f4b993, 22, 0x895cd7be, 0x1e12ce3a, 0x8e8784b3, 0x70768a29);
  }

  lemma EmptyTurns3(block: Block)
    requires ShortBlock(block, 0x00000080, 0)
    ensures Steps(Words(0x3893b991, 0x70768a29, 0xe1ef0576, 0xfce4a312), block, 12)
         == Steps(Words(0xf56c7cf1, 0xd6819c6a, 0x5aa53f75, 0x374943a7), block, 16)
  {
    hide WordOf, Steps, Updated, ShortBlock, Plus, Rotate, Sum;
    BlockWord(block, 0x00000080, 0, 12, 0x00000000);
    BlockWord(block, 0x00000080, 0, 13, 0x00000000);
    BlockWord(block, 0x00000080, 0, 14, 0x00000000);
    BlockWord(block, 0x00000080, 0, 15, 0x00000000);
    Turn(block, 12, 0x3893b991, 0x70768a29, 0xe1ef0576, 0xfce4a312, 12, 0x00000000, 0xece62132, 7, 0x6b901122, 0x9109ebe5, 0x84f5f2c8, 0xf56c7cf1);
    Turn(block, 13, 0xfce4a312, 0xf56c7cf1, 0x70768a29, 0xe1ef0576, 13, 0x00000000, 0x70e70927, 12, 0xfd987193, 0x6b641dcc, 0x41dcc6b6, 0x374943a7);
    Turn(block, 14, 0xe1ef0576, 0x374943a7, 0xf56c7cf1, 0x70768a29, 14, 0x00000000, 0x757ec8a9, 17, 0xa679438e, 0xfde711ad, 0x235bfbce, 0x5aa53f75);
    Turn(block, 15, 0x70768a29, 0x5aa53f75, 0x374943a7, 0xf56c7cf1, 15, 0x00000000, 0xb74943a5, 22, 0x49b40821, 0x7173d5ef, 0x7bdc5cf5, 0xd6819c6a);
  }

  lemma EmptyTurns4(block: Block)
    requires ShortBlock(block, 0x00000080, 0)
    ensures Steps(Words(0xf56c7cf1, 0xd6819c6a, 0x5aa53f75, 0x374943a7), block, 16)
         == Steps(Words(0x1c7d7513, 0xbd782e17, 0xc095f13a, 0x7bd57a3a), block, 20)
  {
    hide WordOf, Steps, Updated, ShortBlock, Plus, Rotate, Sum;
    BlockWord(block, 0x00000080, 0, 0, 0x00000080);
    BlockWord(block, 0x00000080, 0, 1, 0x00000000);
    BlockWord(block, 0x00000080, 0, 6, 0x00000000);
    BlockWord(block, 0x00000080, 0, 11, 0x00000000);
    Turn(block, 16, 0xf56c7cf1, 0xd6819c6a, 0x5aa53f75, 0x374943a7, 1, 0x00000000, 0x5ea53c72, 5, 0xf61e2562, 0x4a2fdec5, 0x45fbd8a9, 0x1c7d7513);
    Turn(block, 17, 0x374943a7, 0x1c7d7513, 0xd6819c6a, 0x5aa53f75, 6, 0x00000000, 0x9c25b51b, 9, 0xc040b340, 0x93afac02, 0x5f580527, 0x7bd57a3a);
    Turn(block, 18, 0x5aa53f75, 0x7bd57a3a, 0x1c7d7513, 0xd6819c6a, 11, 0x00000000, 0x5afd793b, 14, 0x265e5a51, 0xdc011301, 0x44c07700, 0xc095f13a);
    Turn(block, 19, 0xd6819c6a, 0xc095f13a, 0x7bd57a3a, 0x1c7d7513, 0, 0x00000080, 0x63957b3a, 20, 0xe9b6c7aa, 0x23cddfce, 0xfce23cdd, 0xbd782e17);
  }

  lemma EmptyTurns5(block: Block)
    requires ShortBlock(block, 0x00000080, 0)
    ensures Steps(Words(0x1c7d7513, 0xbd782e17, 0xc095f13a, 0x7bd57a3a), block, 20)
         == Steps(Words(0x3d1e3e6c, 0xe422531a, 0xeb41643e, 0x68b7b3e3), block, 24)
  {
    hide WordOf, Steps, Updated, ShortBlock, Plus, Rotate, Sum;
    BlockWord(block, 0x00000080, 0, 4, 0x00000000);
    BlockWord(block, 0x00000080, 0, 5, 0x00000000);
    BlockWord(block, 0x00000080, 0, 10, 0x00000000);
    BlockWord(block, 0x00000080, 0, 15, 0x00000000);
    Turn(block, 20, 0x1c7d7513, 0xbd782e17, 0xc095f13a, 0x7bd57a3a, 5, 0x00000000, 0xb950ab12, 5, 0xd62f105d, 0xabfd3082, 0x7fa61055, 0x3d1e3e6c);
    Turn(block, 21, 0x7bd57a3a, 0x3d1e3e6c, 0xbd782e17, 0xc095f13a, 10, 0x00000000, 0x3d7c3e2d, 9, 0x02441453, 0xbb95ccba, 0x2b997577, 0x68b7b3e3);
    Turn(block, 22, 0xc095f13a, 0x68b7b3e3, 0x3d1e3e6c, 0xbd782e17, 15, 0x00000000, 0x2836326b, 14, 0xd8a1e681, 0xc16e0a26, 0x8289b05b, 0xeb41643e);
    Turn(block, 23, 0xbd782e17, 0xeb41643e, 0x68b7b3e3, 0x3d1e3e6c, 4, 0x00000000, 0x69a1a5af, 20, 0xe7d3fbc8, 0x0eedcf8e, 0xf8e0eedc, 0xe422531a);
  }

  lemma EmptyTurns6(block: Block)
    requires ShortBlock(block, 0x00000080, 0)
    ensures Steps(Words(0x3d1e3e6c, 0xe422531a, 0xeb41643e, 0x68b7b3e3), block, 24)
         == Steps(Words(0x306ec122, 0xa0572807, 0xa3c663da, 0xd28c77c2), block, 28)
  {
    hide WordOf, Steps, Updated, ShortBlock, Plus, Rotate, Sum;
    BlockWord(block, 0x00000080, 0, 3, 0x00000000);
    BlockWord(block, 0x00000080, 0, 8, 0x00000000);
    BlockWord(block, 0x00000080, 0, 9, 0x00000000);
    BlockWord(block, 0x00000080, 0, 14, 0x00000000);
    Turn(block, 24, 0x3d1e3e6c, 0xe422531a, 0xeb41643e, 0x68b7b3e3, 9, 0x00000000, 0xe362571e, 5, 0x21e1cde6, 0x42626370, 0x4c4c6e08, 0x306ec122);
    Turn(block, 25, 0x68b7b3e3, 0x306ec122, 0xe422531a, 0xeb41643e, 14, 0x00000000, 0x24625322, 9, 0xc33707d6, 0x50510edb, 0xa21db6a0, 0xd28c77c2);
    Turn(block, 26, 0xeb41643e, 0xd28c77c2, 0x306ec122, 0xe422531a, 3, 0x00000000, 0xd04cd322, 14, 0xf4d50d87, 0xb06344e7, 0xd139ec18, 0xa3c663da);
    Turn(block, 27, 0xe422531a, 0xa3c663da, 0xd28c77c2, 0x306ec122, 8, 0x00000000, 0xe2c677c2, 20, 0x455a14ed, 0x0c42dfc9, 0xfc90c42d, 0xa0572807);
  }

  lemma EmptyTurns7(block: Block)
    requires ShortBlock(block, 0x00000080, 0)
    ensures Steps(Words(0x306ec122, 0xa0572807, 0xa3c663da, 0xd28c77c2), block, 28)
         == Steps(Words(0x13707036, 0xa2205f1f, 0x1c31c384, 0xae7813db), block, 32)
  {
    hide WordOf, Steps, Updated, ShortBlock, Plus, Rotate, Sum;
    BlockWord(block, 0x00000080, 0, 2, 0x00000000);
    BlockWord(block, 0x00000080, 0, 7, 0x00000000);
    BlockWord(block, 0x00000080, 0, 12, 0x00000000);
    BlockWord(block, 0x00000080, 0, 13, 0x00000000);
    Turn(block, 28, 0x306ec122, 0xa0572807, 0xa3c663da, 0xd28c77c2, 13, 0x00000000, 0xa146201a, 5, 0xa9e3e905, 0x7b98ca41, 0x7319482f, 0x13707036);
    Turn(block, 29, 0xd28c77c2, 0x13707036, 0xa0572807, 0xa3c663da, 2, 0x00000000, 0x03516817, 9, 0xfcefa3f8, 0xd2cd83d1, 0x9b07a3a5, 0xae7813db);
    Turn(block, 30, 0xa3c663da, 0xae7813db, 0x13707036, 0xa0572807, 7, 0x00000000, 0xb3705033, 14, 0x676f02d9, 0xbea5b6e6, 0x6db9afa9, 0x1c31c384);
    Turn(block, 31, 0xa0572807, 0x1c31c384, 0xae7813db, 0x13707036, 12, 0x00000000, 0xbc3843cd, 20, 0x8d2a4c8a, 0xe9b9b85e, 0x85ee9b9b, 0xa2205f1f);
  }

  lemma EmptyTurns8(block: Block)
    requires ShortBlock(block, 0x00000080, 0)
    ensures Steps(Words(0x13707036, 0xa2205f1f, 0x1c31c384, 0xae7813db), block, 32)
         == Steps(Words(0xdf63eaa1, 0x004b6669, 0x12f3e755, 0xc3689f5b), block, 36)
  {
    hide WordOf, Steps, Updated, ShortBlock, Plus, Rotate, Sum;
    BlockWord(block, 0x00000080, 0, 5, 0x00000000);
    BlockWord(block, 0x00000080, 0, 8, 0x00000000);
    BlockWord(block, 0x00000080, 0, 11, 0x00000000);
    BlockWord(block, 0x00000080, 0, 14, 0x00000000);
    Turn(block, 32, 0x13707036, 0xa2205f1f, 0x1c31c384, 0xae7813db, 5, 0x00000000, 0x10698f40, 4, 0xfffa3942, 0x23d438b8, 0x3d438b82, 0xdf63eaa1);
    Turn(block, 33, 0xae7813db, 0xdf63eaa1, 0xa2205f1f, 0x1c31c384, 8, 0x00000000, 0x6172763a, 11, 0x8771f681, 0x975c8096, 0xe404b4ba, 0xc3689f5b);
    Turn(block, 34, 0x1c31c384, 0xc3689f5b, 0xdf63eaa1, 0xa2205f1f, 11, 0x00000000, 0xbe2b2ae5, 16, 0x6d9d6122, 0x47fa4f8b, 0x4f8b47fa, 0x12f3e755);
    Turn(block, 35, 0xa2205f1f, 0x12f3e755, 0xc3689f5b, 0xdf63eaa1, 14, 0x00000000, 0x0ef892af, 23, 0xfde5380c, 0xaefe29da, 0xed577f14, 0x004b6669);
  }

  lemma EmptyTurns9(block: Block)
    requires ShortBlock(block, 0x00000080, 0)
    ensures Steps(Words(0xdf63eaa1, 0x004b6669, 0x12f3e755, 0xc3689f5b), block, 36)
         == Steps(Words(0x5f7a9b2e, 0xc5dc8c15, 0x91ca4cb7, 0xabc34e16), block, 40)
  {
    hide WordOf, Steps, Updated, ShortBlock, Plus, Rotate, Sum;
    BlockWord(block, 0x00000080, 0, 1, 0x00000000);
    BlockWord(block, 0x00000080, 0, 4, 0x00000000);
    BlockWord(block, 0x00000080, 0, 7, 0x00000000);
    BlockWord(block, 0x00000080, 0, 10, 0x00000000);
    Turn(block, 36, 0xdf63eaa1, 0x004b6669, 0x12f3e755, 0xc3689f5b, 1, 0x00000000, 0xd1d01e67, 4, 0xa4beea44, 0x55f2f34c, 0x5f2f34c5, 0x5f7a9b2e);
    Turn(block, 37, 0xc3689f5b, 0x5f7a9b2e, 0x004b6669, 0x12f3e755, 4, 0x00000000, 0x4dc21a12, 11, 0x4bdecfa9, 0x5d098916, 0x4c48b2e8, 0xabc34e16);
    Turn(block, 38, 0x12f3e755, 0xabc34e16, 0x5f7a9b2e, 0x004b6669, 7, 0x00000000, 0xf4f2b351, 16, 0xf6bb4b60, 0xfea1e606, 0xe606fea1, 0x91ca4cb7);
    Turn(block, 39, 0x004b6669, 0x91ca4cb7, 0xabc34e16, 0x5f7a9b2e, 10, 0x00000000, 0x6573998f, 23, 0xbebfbc70, 0x247ebc68, 0x34123f5e, 0xc5dc8c15);
  }

  lemma EmptyTurns10(block: Block)
    requires ShortBlock(block, 0x00000080, 0)
    ensures Steps(Words(0x5f7a9b2e, 0xc5dc8c15, 0x91ca4cb7, 0xabc34e16), block, 40)
         == Steps(Words(0x4497169d, 0x0fe32453, 0xfd95f243, 0x76fd93d4), block, 44)
  {
    hide WordOf, Steps, Updated, ShortBlock, Plus, Rotate, Sum;
    BlockWord(block, 0x00000080, 0, 0, 0x00000080);
    BlockWord(block, 0x00000080, 0, 3, 0x00000000);
    BlockWord(block, 0x00000080, 0, 6, 0x00000000);
    BlockWord(block, 0x00000080, 0, 13, 0x00000000);
    Turn(block, 40, 0x5f7a9b2e, 0xc5dc8c15, 0x91ca4cb7, 0xabc34e16, 13, 0x00000000, 0xffd58eb4, 4, 0x289b7ec6, 0x87eba8a8, 0x7eba8a88, 0x4497169d);
    Turn(block, 41, 0xabc34e16, 0x4497169d, 0xc5dc8c15, 0x91ca4cb7, 0, 0x00000080, 0x1081d63f, 11, 0xeaa127fa, 0xa6e64ccf, 0x32667d37, 0x76fd93d4);
    Turn(block, 42, 0x91ca4cb7, 0x76fd93d4, 0x4497169d, 0xc5dc8c15, 3, 0x00000000, 0xf7b6095c, 16, 0xd4ef3085, 0x5e6f8698, 0x86985e6f, 0xfd95f243);
    Turn(block, 43, 0xc5dc8c15, 0xfd95f243, 0x76fd93d4, 0x4497169d, 6, 0x00000000, 0xcfff770a, 23, 0x04881d05, 0x9a642024, 0x124d3210, 0x0fe32453);
  }

  lemma EmptyTurns11(block: Block)
    requires ShortBlock(block, 0x00000080, 0)
    ensures Steps(Words(0x4497169d, 0x0fe32453, 0xfd95f243, 0x76fd93d4), block, 44)
         == Steps(Words(0x3f55edfd, 0xca7d2dbd, 0x68d84ea2, 0x22a31f54), block, 48)
  {
    hide WordOf, Steps, Updated, ShortBlock, Plus, Rotate, Sum;
    BlockWord(block, 0x00000080, 0, 2, 0x00000000);
    BlockWord(block, 0x00000080, 0, 9, 0x00000000);
    BlockWord(block, 0x00000080, 0, 12, 0x00000000);
    BlockWord(block, 0x00000080, 0, 15, 0x00000000);
    Turn(block, 44, 0x4497169d, 0x0fe32453, 0xfd95f243, 0x76fd93d4, 9, 0x00000000, 0x848b45c4, 4, 0xd9d4d039, 0xa2f72c9a, 0x2f72c9aa, 0x3f55edfd);
    Turn(block, 45, 0x76fd93d4, 0x3f55edfd, 0x0fe32453, 0xfd95f243, 12, 0x00000000, 0xcd233bed, 11, 0xe6db99e5, 0x2afc69a6, 0xe34d3157, 0x22a31f54);
    Turn(block, 46, 0xfd95f243, 0x22a31f54, 0x3f55edfd, 0x0fe32453, 15, 0x00000000, 0x1215d6fa, 16, 0x1fa27cf8, 0x2f4e4635, 0x46352f4e, 0x68d84ea2);
    Turn(block, 47, 0x0fe32453, 0x68d84ea2, 0x22a31f54, 0x3f55edfd, 2, 0x00000000, 0x752ebc0b, 23, 0xc4ac5665, 0x49be36c3, 0x61a4df1b, 0xca7d2dbd);
  }

  lemma EmptyTurns12(block: Block)
    requires ShortBlock(block, 0x00000080, 0)
    ensures Steps(Words(0x3f55edfd, 0xca7d2dbd, 0x68d84ea2, 0x22a31f54), block, 48)
         == Steps(Words(0x93aa2577, 0x561e0689, 0xcd85b8cb, 0x1688dc85), block, 52)
  {
    hide WordOf, Steps, Updated, ShortBlock, Plus, Rotate, Sum;
    BlockWord(block, 0x00000080, 0, 0, 0x00000080);
    BlockWord(block, 0x00000080, 0, 5, 0x00000000);
    BlockWord(block, 0x00000080, 0, 7, 0x00000000);
    BlockWord(block, 0x00000080, 0, 14, 0x00000000);
    Turn(block, 48, 0x3f55edfd, 0xca7d2dbd, 0x68d84ea2, 0x22a31f54, 0, 0x00000080, 0xb7a5a31d, 6, 0xf4292244, 0xeb24b3de, 0xc92cf7ba, 0x93aa2577);
    Turn(block, 49, 0x22a31f54, 0x93aa2577, 0xca7d2dbd, 0x68d84ea2, 7, 0x00000000, 0x5dd298c2, 10, 0x432aff97, 0xc3a0b7ad, 0x82deb70e, 0x1688dc85);
    Turn(block, 50, 0x68d84ea2, 0x1688dc85, 0x93aa2577, 0xca7d2dbd, 14, 0x00000000, 0xa420fbb0, 15, 0xab9423a7, 0xb88d6df9, 0xb6fcdc46, 0xcd85b8cb);
    Turn(block, 51, 0xca7d2dbd, 0xcd85b8cb, 0x1688dc85, 0x93aa2577, 5, 0x00000000, 0xfb5d264e, 21, 0xfc93a039, 0xc26df444, 0x88984dbe, 0x561e0689);
  }

  lemma EmptyTurns13(block: Block)
    requires ShortBlock(block, 0x00000080, 0)
    ensures Steps(Words(0x93aa2577, 0x561e0689, 0xcd85b8cb, 0x1688dc85), block, 52)
         == Steps(Words(0x5625a114, 0x1e77fa61, 0x392ad0d0, 0x3450f42b), block, 56)
  {
    hide WordOf, Steps, Updated, ShortBlock, Plus, Rotate, Sum;
    BlockWord(block, 0x00000080, 0, 1, 0x00000000);
    BlockWord(block, 0x00000080, 0, 3, 0x00000000);
    BlockWord(block, 0x00000080, 0, 10, 0x00000000);
    BlockWord(block, 0x00000080, 0, 12, 0x00000000);
    Turn(block, 52, 0x93aa2577, 0x561e0689, 0xcd85b8cb, 0x1688dc85, 12, 0x00000000, 0x32fa9f30, 6, 0x655b59c3, 0x2c001e6a, 0x00079a8b, 0x5625a114);
    Turn(block, 53, 0x1688dc85, 0x5625a114, 0x561e0689, 0xcd85b8cb, 3, 0x00000000, 0x2061e1bd, 10, 0x8f0ccc92, 0xc5f78ad4, 0xde2b5317, 0x3450f42b);
    Turn(block, 54, 0xcd85b8cb, 0x3450f42b, 0x5625a114, 0x561e0689, 10, 0x00000000, 0xebd45c6b, 15, 0xffeff47d, 0xb94a09b3, 0x04d9dca5, 0x392ad0d0);
    Turn(block, 55, 0x561e0689, 0x392ad0d0, 0x3450f42b, 0x5625a114, 1, 0x00000000, 0x8daa2ad0, 21, 0x85845dd1, 0x694c8f2a, 0xe54d2991, 0x1e77fa61);
  }

  lemma EmptyTurns14(block: Block)
    requires ShortBlock(block, 0x00000080, 0)
    ensures Steps(Words(0x5625a114, 0x1e77fa61, 0x392ad0d0, 0x3450f42b), block, 56)
         == Steps(Words(0x474a9c8c, 0x30130182, 0x36594b14, 0xdfce00bc), block, 60)
  {
    hide WordOf, Steps, Updated, ShortBlock, Plus, Rotate, Sum;
    BlockWord(block, 0x00000080, 0, 6, 0x00000000);
    BlockWord(block, 0x00000080, 0, 8, 0x00000000);
    BlockWord(block, 0x00000080, 0, 13, 0x00000000);
    BlockWord(block, 0x00000080, 0, 15, 0x00000000);
    Turn(block, 56, 0x5625a114, 0x1e77fa61, 0x392ad0d0, 0x3450f42b, 8, 0x00000000, 0xe6d52b25, 6, 0x6fa87e4f, 0xaca34a88, 0x28d2a22b, 0x474a9c8c);
    Turn(block, 57, 0x3450f42b, 0x474a9c8c, 0x1e77fa61, 0x392ad0d0, 15, 0x00000000, 0xd9a845ce, 10, 0xfe2ce6e0, 0x0c2620d9, 0x98836430, 0xdfce00bc);
    Turn(block, 58, 0x392ad0d0, 0xdfce00bc, 0x474a9c8c, 0x1e77fa61, 6, 0x00000000, 0xb8849932, 15, 0xa3014314, 0x94b0ad16, 0x568b4a58, 0x36594b14);
    Turn(block, 59, 0x1e77fa61, 0x36594b14, 0xdfce00bc, 0x474a9c8c, 13, 0x00000000, 0x61336bcb, 21, 0x4e0811a1, 0xcdb377cd, 0xf9b9b66e, 0x30130182);
  }

  lemma EmptyTurns15(block: Block)
    requires ShortBlock(block, 0x00000080, 0)
    ensures Steps(Words(0x474a9c8c, 0x30130182, 0x36594b14, 0xdfce00bc), block, 60)
         == Steps(Words(0x7246fad3, 0x14e45506, 0xff4ea3eb, 0x6e10a476), block, 64)
  {
    hide WordOf, Steps, Updated, ShortBlock, Plus, Rotate, Sum;
    BlockWord(block, 0x00000080, 0, 2, 0x00000000);
    BlockWord(block, 0x00000080, 0, 4, 0x00000000);
    BlockWord(block, 0x00000080, 0, 9, 0x00000000);
    BlockWord(block, 0x00000080, 0, 11, 0x00000000);
    Turn(block, 60, 0x474a9c8c, 0x30130182, 0x36594b14, 0xdfce00bc, 4, 0x00000000, 0x066ab4d7, 6, 0xf7537e82, 0x4508cfe5, 0x4233f951, 0x7246fad3);
    Turn(block, 61, 0xdfce00bc, 0x7246fad3, 0x30130182, 0x36594b14, 11, 0x00000000, 0xcbf5ff79, 10, 0xbd3af235, 0x68fef26a, 0xfbc9a9a3, 0x6e10a476);
    Turn(block, 62, 0x36594b14, 0x6e10a476, 0x7246fad3, 0x30130182, 2, 0x00000000, 0x9dba04ac, 15, 0x2ad7d2bb, 0xfeeb227b, 0x913dff75, 0xff4ea3eb);
    Turn(block, 63, 0x30130182, 0xff4ea3eb, 0x6e10a476, 0x7246fad3, 9, 0x00000000, 0x91ef0399, 21, 0xeb86d391, 0xad88d8ac, 0x1595b11b, 0x14e45506);
  }

  lemma EmptyCompressed(block: Block)
    requires ShortBlock(block, 0x00000080, 0)
    ensures Compress(INITIAL, block) == Words(0xd98c1dd4, 0x04b2008f, 0x980980e9, 0x7e42f8ec)
  {
    hide ShortBlock, Steps;
    EmptyTurns0(block);
    EmptyTurns1(block);
    EmptyTurns2(block);
    EmptyTurns3(block);
    EmptyTurns4(block);
    EmptyTurns5(block);
    EmptyTurns6(block);
    EmptyTurns7(block);
    EmptyTurns8(block);
    EmptyTurns9(block);
    EmptyTurns10(block);
    EmptyTurns11(block);
    EmptyTurns12(block);
    EmptyTurns13(block);
    EmptyTurns14(block);
    EmptyTurns15(block);
    StepsEnd(Words(0x7246fad3, 0x14e45506, 0xff4ea3eb, 0x6e10a476), block);
  }

  lemma EmptyBlock()
    ensures |Pad([])| == 64 && ShortBlock(Pad([]), 0x00000080, 0)
  {
    PadShort([]);
    forall k | 0 <= k < 16
      ensures WordOf(Pad([]), k) == if k == 0 then 0x00000080 else if k == 14 then 0 else 0
    {
      ShortWord([], k);
    }
  }

  lemma EmptyEncoded()
    ensures EncodeWords(WordList(Words(0xd98c1dd4, 0x04b2008f, 0x980980e9, 0x7e42f8ec))) == [
      0xd4, 0x1d, 0x8c, 0xd9, 0x8f, 0x00, 0xb2, 0x04,
      0xe9, 0x80, 0x09, 0x98, 0xec, 0xf8, 0x42, 0x7e]
  {
    hide EncodeWord, EncodeWords, WordList;
    EncodeFour(0xd98c1dd4, 0x04b2008f, 0x980980e9, 0x7e42f8ec, 0xd98c1dd4, 0x04b2008f, 0x980980e9, 0x7e42f8ec);
    EncodeWordIs(0xd98c1dd4, 0xd4, 0x1d, 0x8c, 0xd9);
    EncodeWordIs(0x04b2008f, 0x8f, 0x00, 0xb2, 0x04);
    EncodeWordIs(0x980980e9, 0xe9, 0x80, 0x09, 0x98);
    EncodeWordIs(0x7e42f8ec, 0xec, 0xf8, 0x42, 0x7e);
  }

  /** The digest of the empty message. */
  lemma EmptyDigest()
    ensures Digest([]) == [
      0xd4, 0x1d, 0x8c, 0xd9, 0x8f, 0x00, 0xb2, 0x04,
      0xe9, 0x80, 0x09, 0x98, 0xec, 0xf8, 0x42, 0x7e]
  {
    EmptyBlock();
    EmptyEncoded();
    hide Pad, Compress, ShortBlock, EncodeWords, WordList, Absorb;
    EmptyCompressed(Pad([]));
    OneBlock(Pad([]));
  }

  lemma OneBlock(s: seq<bv8>)
    requires |s| == 64
    ensures Absorb(s) == Compress(INITIAL, s)
  {
    assert s[..0] == [] && s[0..] == s;
    hide Compress;
  }
}
