/**
  MD5 as in va_tr/md5.c (RFC 1321): a context absorbs a message in pieces and
  the digest depends only on the message.

  The counters are natural numbers with their 32-bit wrap-around written out; the
  compression function works on 32-bit words.
 */
module Md5 {

  import opened Arith

  const WRAP: nat := 0x1_0000_0000

  // ----- the compression function

  datatype Words = Words(a: bv32, b: bv32, c: bv32, d: bv32)

  const INITIAL := Words(0x67452301, 0xEFCDAB89, 0x98BADCFE, 0x10325476)

  datatype Row = Row(a: bv32, b: bv32, c: bv32, d: bv32)

  /** The constants of steps 4 * `r` to 4 * `r` + 3. */
  function Sines(r: nat): Row
    requires r < 16
  {
    match r
    case 0 => Row(0xd76aa478, 0xe8c7b756, 0x242070db, 0xc1bdceee)
    case 1 => Row(0xf57c0faf, 0x4787c62a, 0xa8304613, 0xfd469501)
    case 2 => Row(0x698098d8, 0x8b44f7af, 0xffff5bb1, 0x895cd7be)
    case 3 => Row(0x6b901122, 0xfd987193, 0xa679438e, 0x49b40821)
    case 4 => Row(0xf61e2562, 0xc040b340, 0x265e5a51, 0xe9b6c7aa)
    case 5 => Row(0xd62f105d, 0x02441453, 0xd8a1e681, 0xe7d3fbc8)
    case 6 => Row(0x21e1cde6, 0xc33707d6, 0xf4d50d87, 0x455a14ed)
    case 7 => Row(0xa9e3e905, 0xfcefa3f8, 0x676f02d9, 0x8d2a4c8a)
    case 8 => Row(0xfffa3942, 0x8771f681, 0x6d9d6122, 0xfde5380c)
    case 9 => Row(0xa4beea44, 0x4bdecfa9, 0xf6bb4b60, 0xbebfbc70)
    case 10 => Row(0x289b7ec6, 0xeaa127fa, 0xd4ef3085, 0x04881d05)
    case 11 => Row(0xd9d4d039, 0xe6db99e5, 0x1fa27cf8, 0xc4ac5665)
    case 12 => Row(0xf4292244, 0x432aff97, 0xab9423a7, 0xfc93a039)
    case 13 => Row(0x655b59c3, 0x8f0ccc92, 0xffeff47d, 0x85845dd1)
    case 14 => Row(0x6fa87e4f, 0xfe2ce6e0, 0xa3014314, 0x4e0811a1)
    case _ => Row(0xf7537e82, 0xbd3af235, 0x2ad7d2bb, 0xeb86d391)
  }

  /** The constant that step `i` adds. */
  function Sine(i: nat): bv32
    requires i < 64
  {
    var row := Sines(i / 4);
    match i % 4
    case 0 => row.a
    case 1 => row.b
    case 2 => row.c
    case _ => row.d
  }

  type Block = s: seq<bv8> | |s| == 64 witness [
    0, 0, 0, 0, 0, 0, 0, 0, 0, 0, 0, 0, 0, 0, 0, 0,
     0, 0, 0, 0, 0, 0, 0, 0, 0, 0, 0, 0, 0, 0, 0, 0,
     0, 0, 0, 0, 0, 0, 0, 0, 0, 0, 0, 0, 0, 0, 0, 0,
     0, 0, 0, 0, 0, 0, 0, 0, 0, 0, 0, 0, 0, 0, 0, 0]

  /** The sum of four words modulo 2^32. */
  function Sum(a: bv32, b: bv32, c: bv32, d: bv32): bv32 { a + b + c + d }

  /** ROTATE_LEFT by `n`. */
  function Rotate(x: bv32, n: bv6): bv32
    requires n <= 32
  {
    (x << n) | (x >> (32 - n))
  }

  function Plus(x: bv32, y: bv32): bv32 { x + y }

  /** The rotation of step `i`. */
  function Amount(i: nat): (n: bv6)
    requires i < 64
    ensures 0 < n < 32
  {
    match (i / 16, i % 4)
    case (0, 0) => 7
    case (0, 1) => 12
    case (0, 2) => 17
    case (0, _) => 22
    case (1, 0) => 5
    case (1, 1) => 9
    case (1, 2) => 14
    case (1, _) => 20
    case (2, 0) => 4
    case (2, 1) => 11
    case (2, 2) => 16
    case (2, _) => 23
    case (_, 0) => 6
    case (_, 1) => 10
    case (_, 2) => 15
    case (_, _) => 21
  }

  /** The message word that step `i` adds. */
  function WordIndex(i: nat): (k: nat)
    requires i < 64
    ensures k < 16
  {
    match i / 16
    case 0 => i
    case 1 => (5 * i + 1) % 16
    case 2 => (3 * i + 5) % 16
    case _ => 7 * i % 16
  }

  /** The round functions F, G, H and I. */
  function Mix(i: nat, x: bv32, y: bv32, z: bv32): bv32
    requires i < 64
  {
    match i / 16
    case 0 => (x & y) | (!x & z)
    case 1 => (x & z) | (y & !z)
    case 2 => x ^ y ^ z
    case _ => y ^ (x | !z)
  }

  /** MD5Decode of word `k`: four bytes, least significant first. */
  function WordOf(block: Block, k: nat): bv32
    requires k < 16
  {
    WordFrom(block[4 * k], block[4 * k + 1], block[4 * k + 2], block[4 * k + 3])
  }

  function WordFrom(b0: bv8, b1: bv8, b2: bv8, b3: bv8): bv32 {
    (b0 as bv32) | (b1 as bv32 << 8) | (b2 as bv32 << 16) | (b3 as bv32 << 24)
  }

  /** What the macros FF, GG, HH and II assign to their first argument. */
  function Updated(i: nat, a: bv32, b: bv32, c: bv32, d: bv32, x: bv32): bv32
    requires i < 64
  {
    Plus(Rotate(Sum(a, Mix(i, b, c, d), x, Sine(i)), Amount(i)), b)
  }

  /** F takes y where x is set and z elsewhere. */
  lemma Round1Selects(i: nat, x: bv32, y: bv32, z: bv32)
    requires i < 16
    ensures Mix(i, x, y, z) & x == y & x && Mix(i, x, y, z) & !x == z & !x
  {
  }

  /** G takes x where z is set and y elsewhere. */
  lemma Round2Selects(i: nat, x: bv32, y: bv32, z: bv32)
    requires 16 <= i < 32
    ensures Mix(i, x, y, z) & z == x & z && Mix(i, x, y, z) & !z == y & !z
  {
  }

  /** H takes x where y and z agree and its complement elsewhere. */
  lemma Round3Selects(i: nat, x: bv32, y: bv32, z: bv32)
    requires 32 <= i < 48
    ensures var differ := (y & !z) | (!y & z);
      Mix(i, x, y, z) & !differ == x & !differ && Mix(i, x, y, z) & differ == !x & differ
  {
  }

  /** I takes y where z is set and x is not, and its complement elsewhere. */
  lemma Round4Selects(i: nat, x: bv32, y: bv32, z: bv32)
    requires 48 <= i < 64
    ensures var only := z & !x; Mix(i, x, y, z) & only == y & only && Mix(i, x, y, z) & !only == !y & !only
  {
  }

  /** The place in its round of the step that uses message word `k`. */
  function StepOf(round: nat, k: nat): (j: nat)
    ensures j < 16
  {
    match round
    case 0 => k % 16
    case 1 => 13 * (k + 15) % 16
    case 2 => 11 * (k + 11) % 16
    case _ => 7 * k % 16
  }

  /** Each round uses each of the sixteen message words once, and each step's word is known from its place. */
  lemma WordsOnce(round: nat, k: nat)
    requires round < 4 && k < 16
    ensures WordIndex(16 * round + StepOf(round, k)) == k
    ensures forall i :: 16 * round <= i < 16 * round + 16 && WordIndex(i) == k ==> i == 16 * round + StepOf(round, k)
  {
    forall i | 16 * round <= i < 16 * round + 16
      ensures StepOf(round, WordIndex(i)) == i - 16 * round
    {
      PlaceOf(round, i);
    }
    WordOfPlace(round, k);
  }

  lemma PlaceOf(round: nat, i: nat)
    requires round < 4 && 16 * round <= i < 16 * round + 16
    ensures StepOf(round, WordIndex(i)) == i - 16 * round
  {
    match round
    case 0 =>
    case 1 => Place1(i);
    case 2 => Place2(i);
    case _ => Place3(i);
  }

  lemma SixteenMore(i: int, k: int)
    ensures (i + 16 * k) % 16 == i % 16
  {
  }

  lemma Place1(i: nat)
    ensures 13 * ((5 * i + 1) % 16 + 15) % 16 == i % 16
  {
    var q := (5 * i + 1) / 16;
    assert 13 * ((5 * i + 1) % 16 + 15) == i + 16 * (4 * i + 13 - 13 * q);
    SixteenMore(i, 4 * i + 13 - 13 * q);
  }

  lemma Place2(i: nat)
    ensures 11 * ((3 * i + 5) % 16 + 11) % 16 == i % 16
  {
    var q := (3 * i + 5) / 16;
    assert 11 * ((3 * i + 5) % 16 + 11) == i + 16 * (2 * i + 11 - 11 * q);
    SixteenMore(i, 2 * i + 11 - 11 * q);
  }

  lemma Place3(i: nat)
    ensures 7 * (7 * i % 16) % 16 == i % 16
  {
    var q := 7 * i / 16;
    assert 7 * (7 * i % 16) == i + 16 * (3 * i - 7 * q);
    SixteenMore(i, 3 * i - 7 * q);
  }

  lemma WordOfPlace(round: nat, k: nat)
    requires round < 4 && k < 16
    ensures WordIndex(16 * round + StepOf(round, k)) == k
  {
    hide *;
    match round
    case 0 => Word0(k);
    case 1 => Word1(k);
    case 2 => Word2(k);
    case _ => Word3(k);
  }

  lemma Word0(k: nat)
    requires k < 16
    ensures WordIndex(16 * 0 + StepOf(0, k)) == k
  {
  }

  lemma Word1(k: nat)
    requires k < 16
    ensures WordIndex(16 * 1 + StepOf(1, k)) == k
  {
    var q := 13 * (k + 15) / 16;
    WordIn(16 + StepOf(1, k), k, 4 * k + 66 - 5 * q);
  }

  lemma Word2(k: nat)
    requires k < 16
    ensures WordIndex(16 * 2 + StepOf(2, k)) == k
  {
    var q := 11 * (k + 11) / 16;
    WordIn(32 + StepOf(2, k), k, 2 * k + 29 - 3 * q);
  }

  lemma Word3(k: nat)
    requires k < 16
    ensures WordIndex(16 * 3 + StepOf(3, k)) == k
  {
    var q := 7 * k / 16;
    WordIn(48 + StepOf(3, k), k, 3 * k + 21 - 7 * q);
  }

  /** Step `i` adds word `k`: its number before the remainder is `k` and 16 * `m`. */
  lemma WordIn(i: nat, k: nat, m: int)
    requires 16 <= i < 64 && k < 16
    requires (if i < 32 then 5 * i + 1 else if i < 48 then 3 * i + 5 else 7 * i) == k + 16 * m
    ensures WordIndex(i) == k
  {
    SixteenMore(k, m);
  }

  // ----- a step undone

  function RotateRight(x: bv32, n: bv6): bv32
    requires n <= 32
  {
    (x >> n) | (x << (32 - n))
  }

  lemma Back4(x: bv32)
    ensures RotateRight(Rotate(x, 4), 4) == x
  {
  }

  lemma Back5(x: bv32)
    ensures RotateRight(Rotate(x, 5), 5) == x
  {
  }

  lemma Back6(x: bv32)
    ensures RotateRight(Rotate(x, 6), 6) == x
  {
  }

  lemma Back7(x: bv32)
    ensures RotateRight(Rotate(x, 7), 7) == x
  {
  }

  lemma Back9(x: bv32)
    ensures RotateRight(Rotate(x, 9), 9) == x
  {
  }

  lemma Back10(x: bv32)
    ensures RotateRight(Rotate(x, 10), 10) == x
  {
  }

  lemma Back11(x: bv32)
    ensures RotateRight(Rotate(x, 11), 11) == x
  {
  }

  lemma Back12(x: bv32)
    ensures RotateRight(Rotate(x, 12), 12) == x
  {
  }

  lemma Back14(x: bv32)
    ensures RotateRight(Rotate(x, 14), 14) == x
  {
  }

  lemma Back15(x: bv32)
    ensures RotateRight(Rotate(x, 15), 15) == x
  {
  }

  lemma Back16(x: bv32)
    ensures RotateRight(Rotate(x, 16), 16) == x
  {
  }

  lemma Back17(x: bv32)
    ensures RotateRight(Rotate(x, 17), 17) == x
  {
  }

  lemma Back20(x: bv32)
    ensures RotateRight(Rotate(x, 20), 20) == x
  {
  }

  lemma Back21(x: bv32)
    ensures RotateRight(Rotate(x, 21), 21) == x
  {
  }

  lemma Back22(x: bv32)
    ensures RotateRight(Rotate(x, 22), 22) == x
  {
  }

  lemma Back23(x: bv32)
    ensures RotateRight(Rotate(x, 23), 23) == x
  {
  }

  /** Rotating back undoes each rotation that a step uses. */
  lemma RotateReturns(x: bv32, i: nat)
    requires i < 64
    ensures RotateRight(Rotate(x, Amount(i)), Amount(i)) == x
  {
    hide Rotate, RotateRight;
    match (i / 16, i % 4)
    case (0, 0) => Back7(x);
    case (0, 1) => Back12(x);
    case (0, 2) => Back17(x);
    case (0, _) => Back22(x);
    case (1, 0) => Back5(x);
    case (1, 1) => Back9(x);
    case (1, 2) => Back14(x);
    case (1, _) => Back20(x);
    case (2, 0) => Back4(x);
    case (2, 1) => Back11(x);
    case (2, 2) => Back16(x);
    case (2, _) => Back23(x);
    case (_, 0) => Back6(x);
    case (_, 1) => Back10(x);
    case (_, 2) => Back15(x);
    case (_, _) => Back21(x);
  }

  /** Addition undone. */
  function Minus(r: bv32, y: bv32): bv32 { r - y }

  lemma MinusIs(t: bv32, y: bv32)
    ensures Minus(t + y, y) == t
  {
  }

  lemma PlusIs(t: bv32, y: bv32)
    ensures Plus(t, y) == t + y
  {
  }

  lemma MinusPlus(t: bv32, y: bv32)
    ensures Minus(Plus(t, y), y) == t
  {
    hide *;
    PlusIs(t, y);
    MinusIs(t, y);
  }

  /** Sum undone. */
  function Less(t: bv32, m: bv32, x: bv32, k: bv32): bv32 { t - k - x - m }

  lemma LessIs(a: bv32, m: bv32, x: bv32, k: bv32)
    ensures Less(a + m + x + k, m, x, k) == a
  {
  }

  lemma SumIs(a: bv32, m: bv32, x: bv32, k: bv32)
    ensures Sum(a, m, x, k) == a + m + x + k
  {
  }

  lemma SumReturns(a: bv32, m: bv32, x: bv32, k: bv32)
    ensures Less(Sum(a, m, x, k), m, x, k) == a
  {
    hide *;
    SumIs(a, m, x, k);
    LessIs(a, m, x, k);
  }

  lemma UpdatedIs(i: nat, a: bv32, b: bv32, c: bv32, d: bv32, x: bv32)
    requires i < 64
    ensures Updated(i, a, b, c, d, x) == Plus(Rotate(Sum(a, Mix(i, b, c, d), x, Sine(i)), Amount(i)), b)
  {
    hide Plus, Rotate, Sum, Mix, Sine, Amount;
  }

  /** The register a step replaces, from its result. */
  function Replaced(i: nat, r: bv32, b: bv32, c: bv32, d: bv32, x: bv32): bv32
    requires i < 64
  {
    Less(RotateRight(Minus(r, b), Amount(i)), Mix(i, b, c, d), x, Sine(i))
  }

  lemma ReplacedIs(i: nat, r: bv32, b: bv32, c: bv32, d: bv32, x: bv32)
    requires i < 64
    ensures Replaced(i, r, b, c, d, x) == Less(RotateRight(Minus(r, b), Amount(i)), Mix(i, b, c, d), x, Sine(i))
  {
    hide Less, RotateRight, Minus, Mix, Sine, Amount;
  }

  /** A step can be undone: its result determines the register it replaces. */
  lemma StepInvertible(i: nat, a: bv32, b: bv32, c: bv32, d: bv32, x: bv32)
    requires i < 64
    ensures Replaced(i, Updated(i, a, b, c, d, x), b, c, d, x) == a
  {
    hide *;
    UpdatedIs(i, a, b, c, d, x);
    ReplacedIs(i, Updated(i, a, b, c, d, x), b, c, d, x);
    var t := Sum(a, Mix(i, b, c, d), x, Sine(i));
    MinusPlus(Rotate(t, Amount(i)), b);
    RotateReturns(t, i);
    SumReturns(a, Mix(i, b, c, d), x, Sine(i));
  }

  /** Steps `i` to 64; each step renames the registers as the unrolled source does. */
  function Steps(w: Words, block: Block, i: nat): Words
    requires i <= 64
    decreases 64 - i
  {
    if i == 64 then w else
      Steps(Words(w.d, Updated(i, w.a, w.b, w.c, w.d, WordOf(block, WordIndex(i))), w.b, w.c), block, i + 1)
  }

  function Added(w: Words, r: Words): Words {
    Words(w.a + r.a, w.b + r.b, w.c + r.c, w.d + r.d)
  }

  function Compress(w: Words, block: Block): Words {
    Added(w, Steps(w, block, 0))
  }

  /** The chaining value after the blocks of `s`. */
  function Absorb(s: seq<bv8>): Words {
    if |s| < 64 then INITIAL else Compress(Absorb(s[..|s| - 64]), s[|s| - 64..])
  }

  lemma AbsorbExtend(s: seq<bv8>, block: Block)
    ensures Absorb(s + block) == Compress(Absorb(s), block)
  {
    hide Compress;
    assert (s + block)[..|s|] == s && (s + block)[|s|..] == block;
  }

  /** The next block of the input behind the message. */
  lemma TakeBlock(m: seq<bv8>, input: seq<bv8>, i: nat)
    requires i + 64 <= |input|
    ensures m + input[..i + 64] == m + input[..i] + input[i..i + 64]
  {
  }

  lemma NextClass(n: int)
    ensures n % 64 == (n + 64) % 64
  {
  }

  /** MD5Decode of a block. */
  method Decode(block: Block) returns (output: seq<bv32>)
    ensures |output| == 16 && forall k :: 0 <= k < 16 ==> output[k] == WordOf(block, k)
  {
    hide WordOf, WordFrom;
    output := [];
    var j := 0;
    while j < 64
      invariant j == 4 * |output| && |output| <= 16
      invariant forall k :: 0 <= k < |output| ==> output[k] == WordOf(block, k)
    {
      WordAt(block, |output|);
      output := output + [WordFrom(block[j], block[j + 1], block[j + 2], block[j + 3])];
      j := j + 4;
    }
  }

  lemma WordAt(block: Block, k: nat)
    requires k < 16
    ensures WordOf(block, k) == WordFrom(block[4 * k], block[4 * k + 1], block[4 * k + 2], block[4 * k + 3])
  {
    hide WordFrom;
  }

  lemma StepsTurn(a: bv32, b: bv32, c: bv32, d: bv32, block: Block, i: nat)
    requires i < 64
    ensures Steps(Words(a, b, c, d), block, i)
         == Steps(Words(d, Updated(i, a, b, c, d, WordOf(block, WordIndex(i))), b, c), block, i + 1)
  {
  }

  lemma StepsEnd(w: Words, block: Block)
    ensures Steps(w, block, 64) == w
  {
  }

  lemma CompressIs(w: Words, block: Block, r: Words)
    requires Steps(w, block, 0) == r
    ensures Compress(w, block) == Added(w, r)
  {
    hide Steps, Added;
  }

  /** MD5Transform; its 64 unrolled steps are the turns of a loop that renames the registers. */
  method Transform(state: Words, block: Block) returns (r: Words)
    ensures r == Compress(state, block)
  {
    hide WordOf, Updated, WordIndex, Steps, Compress, Added;
    var x := Decode(block);
    var a, b, c, d := state.a, state.b, state.c, state.d;
    for i := 0 to 64
      invariant Steps(Words(a, b, c, d), block, i) == Steps(state, block, 0)
    {
      var word := x[WordIndex(i)];
      assert word == WordOf(block, WordIndex(i));
      StepsTurn(a, b, c, d, block, i);
      a, b, c, d := d, Updated(i, a, b, c, d, word), b, c;
    }
    StepsEnd(Words(a, b, c, d), block);
    CompressIs(state, block, Words(a, b, c, d));
    r := Added(state, Words(a, b, c, d));
  }

  // ----- the digest of a whole message

  /** The bytes of a 32-bit word, least significant first. */
  function EncodeWord(n: nat): seq<bv8>
  {
    [(n % 256) as bv8, (n / 0x100 % 256) as bv8, (n / 0x1_0000 % 256) as bv8, (n / 0x100_0000 % 256) as bv8]
  }

  function EncodeWords(words: seq<nat>): (s: seq<bv8>)
    ensures |s| == 4 * |words|
  {
    if words == [] then [] else EncodeWord(words[0]) + EncodeWords(words[1..])
  }

  /** The one bit and the zeros after it. */
  function Padding(): (p: seq<bv8>)
    ensures |p| == 64
  {
    [0x80] + Zeros(63)
  }

  function Zeros(n: nat): (s: seq<bv8>)
    ensures |s| == n && forall k :: 0 <= k < n ==> s[k] == 0
  {
    if n == 0 then [] else [0] + Zeros(n - 1)
  }

  /** The bit length of a message modulo 2^64, as a low and a high word. */
  function LowBits(len: nat): nat { 8 * len % WRAP }

  function HighBits(len: nat): nat { 8 * len / WRAP % WRAP }

  function PadLength(len: nat): (n: nat)
    ensures 1 <= n <= 64 && (len + n) % 64 == 56
  {
    var index := len % 64;
    if index < 56 then 56 - index else 120 - index
  }

  /** Sections 3.1 and 3.2 of RFC 1321: one bit, zeros, then the 64-bit length. */
  function Pad(message: seq<bv8>): seq<bv8> {
    message + Padding()[..PadLength(|message|)] + EncodeWords([LowBits(|message|), HighBits(|message|)])
  }

  function WordList(w: Words): seq<nat> {
    [w.a as nat, w.b as nat, w.c as nat, w.d as nat]
  }

  function Digest(message: seq<bv8>): seq<bv8> {
    EncodeWords(WordList(Absorb(Pad(message))))
  }

  function Joined(chunks: seq<seq<bv8>>): seq<bv8> {
    if chunks == [] then [] else Joined(chunks[..|chunks| - 1]) + chunks[|chunks| - 1]
  }

  // ----- when the block loop of MD5Update ends

  /** The loop index after `n` turns; additions wrap. */
  function LoopIndex(start: nat, n: nat): (i: nat)
    requires start < WRAP
    ensures i < WRAP
  {
    if n == 0 then start else (LoopIndex(start, n - 1) + 64) % WRAP
  }

  predicate Continues(i: nat, len: nat) { (i + 64) % WRAP <= len }

  ghost predicate LoopEnds(start: nat, len: nat)
    requires start < WRAP
  {
    exists n :: !Continues(LoopIndex(start, n), len)
  }

  /** The input is short enough that the index never wraps. */
  predicate NoWrap(start: nat, len: nat) { len < WRAP - 64 + start % 64 }

  lemma WrapKeepsClass(i: nat)
    requires i < WRAP
    ensures (i + 64) % WRAP % 64 == i % 64
  {
    if i + 64 >= WRAP {
      assert (i + 64) % WRAP == i + 64 - WRAP;
      SameClass(i + 64 - WRAP, i);
    }
  }

  lemma {:induction false} IndexClass(start: nat, n: nat)
    requires start < WRAP
    ensures LoopIndex(start, n) % 64 == start % 64
  {
    if n > 0 {
      IndexClass(start, n - 1);
      WrapKeepsClass(LoopIndex(start, n - 1));
    }
  }

  lemma {:induction false} IndexLinear(start: nat, n: nat)
    requires start + 64 * n < WRAP
    ensures LoopIndex(start, n) == start + 64 * n
  {
    if n > 0 {
      IndexLinear(start, n - 1);
    }
  }

  /** The block loop ends exactly when the input stops short of the last index of its class. */
  lemma LoopEndsExactly(start: nat, len: nat)
    requires start <= len < WRAP
    ensures LoopEnds(start, len) <==> NoWrap(start, len)
  {
    if NoWrap(start, len) {
      var n := (len - start) / 64;
      assert start + 64 * n <= len < start + 64 * n + 64;
      NextIndexFits(start, len, start + 64 * n);
      IndexLinear(start, n);
      assert !Continues(LoopIndex(start, n), len);
    } else {
      forall n: nat
        ensures Continues(LoopIndex(start, n), len)
      {
        IndexClass(start, n + 1);
        ClassBelow(start, LoopIndex(start, n + 1));
      }
    }
  }

  lemma NextIndexFits(start: nat, len: nat, i: nat)
    requires NoWrap(start, len) && start <= i <= len && (i - start) % 64 == 0
    ensures i + 64 < WRAP
  {
    SameClass(start, i);
    ClassStep(i, WRAP - 64 + start % 64);
  }

  lemma SameClass(start: nat, i: nat)
    requires start <= i && (i - start) % 64 == 0
    ensures i % 64 == start % 64
  {
  }

  lemma ClassStep(i: nat, limit: nat)
    requires i < limit && i % 64 == limit % 64
    ensures i + 64 <= limit
  {
  }

  lemma ClassBelow(start: nat, i: nat)
    requires i < WRAP && i % 64 == start % 64
    ensures i <= WRAP - 64 + start % 64
  {
  }

  // ----- the 64-bit count

  lemma CountStep(low: nat, high: nat, before: nat, len: nat)
    requires low == LowBits(before) && high == HighBits(before) && len < WRAP
    ensures var add := 8 * len % WRAP; var low' := (low + add) % WRAP;
      var high' := ((if low' < add then (high + 1) % WRAP else high) + len / 0x2000_0000) % WRAP;
      low' == LowBits(before + len) && high' == HighBits(before + len)
  {
    var add, carry := 8 * len % WRAP, 8 * len / WRAP;
    assert carry == len / 0x2000_0000;
    var q := 8 * before / WRAP;
    assert 8 * before == WRAP * q + low;
    var low' := (low + add) % WRAP;
    var over := (low + add) / WRAP;
    assert low + add == WRAP * over + low' && over == (if low' < add then 1 else 0);
    assert 8 * (before + len) == WRAP * (q + carry + over) + low';
    assert 8 * (before + len) / WRAP == q + carry + over;
    ModAdd(q, carry + over);
    ModAdd(q, 1);
    ModAdd((q + over) % WRAP, carry);
    ModAdd(q + over, carry);
  }

  lemma ModAdd(x: nat, y: nat)
    ensures (x % WRAP + y) % WRAP == (x + y) % WRAP
  {
  }

  lemma IndexFromCount(len: nat)
    ensures LowBits(len) / 8 % 64 == len % 64
  {
    var q := 8 * len / WRAP;
    assert 8 * len == WRAP * q + LowBits(len);
    assert LowBits(len) / 8 == len - 0x2000_0000 * q;
    assert 0x2000_0000 * q == 64 * (0x80_0000 * q);
  }

  // ----- the context

  /** The last whole block of a message and its input ends at input index `i`. */
  lemma TailFrom(m: seq<bv8>, input: seq<bv8>, i: nat)
    requires i <= |input| < i + 64 && (|m| + i) % 64 == 0
    ensures var tail := |m + input| % 64;
      tail == |input| - i && (m + input)[..|m + input| - tail] == m + input[..i] && (m + input)[|m + input| - tail..] == input[i..]
  {
    var whole := (|m| + i) / 64;
    assert |m + input| == 64 * whole + (|input| - i);
  }

  /** The buffered tail of a message and the piece that fills it up. */
  lemma WholeBlock(m: seq<bv8>, index: nat, block: Block, piece: seq<bv8>)
    requires index <= |m| && index + |piece| == 64
    requires block[..index] == m[|m| - index..] && block[index..] == piece
    ensures m[..|m| - index] + block == m + piece
  {
    assert block == block[..index] + block[index..];
    assert m == m[..|m| - index] + m[|m| - index..];
  }

  class Context {
    var count0: nat
    var count1: nat
    var state: Words
    const buffer: array<bv8>
    ghost var Message: seq<bv8>

    ghost predicate Valid()
      reads this, buffer
    {
      && buffer.Length == 64
      && count0 == LowBits(|Message|) && count1 == HighBits(|Message|)
      && Holds(Message)
    }

    /** The state has absorbed the whole blocks of `m` and the buffer starts with the rest. */
    ghost predicate Holds(m: seq<bv8>)
      requires buffer.Length == 64
      reads this, buffer
    {
      var tail := |m| % 64;
      state == Absorb(m[..|m| - tail]) && buffer[..tail] == m[|m| - tail..]
    }

    /** MD5Init of a fresh context. */
    constructor ()
      ensures Valid() && fresh(buffer) && Message == []
    {
      buffer := new bv8[64](_ => 0);
      count0, count1 := 0, 0;
      state := INITIAL;
      Message := [];
    }

    /** The counter update at the head of MD5Update. */
    method CountInput(inputlen: nat)
      requires count0 == LowBits(|Message|) && count1 == HighBits(|Message|) && inputlen < WRAP
      modifies `count0, `count1
      ensures count0 == LowBits(|Message| + inputlen) && count1 == HighBits(|Message| + inputlen)
    {
      CountStep(count0, count1, |Message|, inputlen);
      count0 := (count0 + inputlen * 8 % WRAP) % WRAP;
      if count0 < inputlen * 8 % WRAP {
        count1 := (count1 + 1) % WRAP;
      }
      count1 := (count1 + inputlen / 0x2000_0000) % WRAP;
    }

    /** The block loop of MD5Update, from the input index `start` on. */
    method BlockLoop(input: seq<bv8>, start: nat) returns (i: nat)
      requires 0 < start <= 64 && start <= |input| < WRAP && NoWrap(start, |input|)
      requires (|Message| + start) % 64 == 0
      requires state == Absorb(Message + input[..start])
      modifies `state
      ensures start <= i <= |input| < i + 64 && (|Message| + i) % 64 == 0
      ensures state == Absorb(Message + input[..i])
    {
      hide Compress, Absorb, NoWrap;
      i := start;
      while (i + 64) % WRAP <= |input|
        invariant start <= i <= |input| && (i - start) % 64 == 0
        invariant (|Message| + i) % 64 == 0
        invariant state == Absorb(Message + input[..i])
        decreases |input| - i
      {
        NextIndexFits(start, |input|, i);
        NextClass(i - start);
        NextClass(|Message| + i);
        TakeBlock(Message, input, i);
        AbsorbExtend(Message + input[..i], input[i..i + 64]);
        state := Transform(state, input[i..i + 64]);
        i := (i + 64) % WRAP;
      }
      NextIndexFits(start, |input|, i);
    }

    /** The first block of MD5Update, completed from the buffered tail. */
    method FirstBlock(index: nat, input: seq<bv8>, partlen: nat)
      requires buffer.Length == 64 && index == |Message| % 64 && partlen == 64 - index <= |input|
      requires state == Absorb(Message[..|Message| - index])
      requires buffer[..index] == Message[|Message| - index..]
      modifies `state, buffer
      ensures state == Absorb(Message + input[..partlen])
    {
      hide Compress, Absorb;
      Copy(index, input[..partlen]);
      WholeBlock(Message, index, buffer[..], input[..partlen]);
      AbsorbExtend(Message[..|Message| - index], buffer[..]);
      state := Transform(state, buffer[..]);
    }

    /** The branch of MD5Update that completes a block. */
    method TakeBlocks(index: nat, input: seq<bv8>)
      requires buffer.Length == 64 && Holds(Message)
      requires index == |Message| % 64 && 64 - index <= |input| < WRAP && NoWrap(64 - index, |input|)
      modifies `state, buffer
      ensures Holds(Message + input)
    {
      hide Absorb;
      FirstBlock(index, input, 64 - index);
      var i := BlockLoop(input, 64 - index);
      Copy(0, input[i..]);
      TailFrom(Message, input, i);
    }

    /** The branch of MD5Update that only fills the buffer. */
    method TakeTail(index: nat, input: seq<bv8>)
      requires buffer.Length == 64 && Holds(Message)
      requires index == |Message| % 64 && |input| < 64 - index
      modifies buffer
      ensures Holds(Message + input)
    {
      hide Absorb;
      ghost var kept := buffer[..index];
      Copy(index, input);
      ghost var m := Message + input;
      assert |m| % 64 == index + |input|;
      assert m[..|m| - (index + |input|)] == Message[..|Message| - index];
      assert m[|m| - (index + |input|)..] == Message[|Message| - index..] + input;
      assert buffer[..index + |input|] == kept + input;
    }

    /** MD5Update */
    method Update(input: seq<bv8>)
      requires Valid()
      requires |input| < WRAP
      requires 64 - |Message| % 64 <= |input| ==> NoWrap(64 - |Message| % 64, |input|)
      modifies this, buffer
      ensures Valid() && Message == old(Message) + input
    {
      hide Absorb, LowBits, HighBits;
      IndexFromCount(|Message|);
      var index := count0 / 8 % 64;
      var partlen := 64 - index;
      CountInput(|input|);
      if |input| >= partlen {
        TakeBlocks(index, input);
      } else {
        TakeTail(index, input);
      }
      Message := Message + input;
    }

    /** memcpy into the block buffer. */
    method Copy(at: nat, bytes: seq<bv8>)
      requires buffer.Length == 64 && at + |bytes| <= 64
      modifies buffer
      ensures buffer[..at] == old(buffer[..at]) && buffer[at..at + |bytes|] == bytes
    {
      for k := 0 to |bytes|
        invariant buffer[..at] == old(buffer[..at]) && buffer[at..at + k] == bytes[..k]
      {
        buffer[at + k] := bytes[k];
      }
    }

    /** The padding of MD5Final. */
    method PadMessage()
      requires Valid()
      modifies this, buffer
      ensures Valid() && Message == Pad(old(Message))
    {
      hide Absorb, LowBits, HighBits, EncodeWords, Pad, NoWrap, Padding, Zeros;
      PadEnds(Message);
      IndexFromCount(|Message|);
      ShortChunk(|Message|, PadLength(|Message|));
      ShortChunk(|Message| + PadLength(|Message|), 8);
      var index := count0 / 8 % 64;
      var padlen := if index < 56 then 56 - index else 120 - index;
      var bits := Encode([count0, count1]);
      Update(Padding()[..padlen]);
      Update(bits);
    }

    /** MD5Final */
    method Final() returns (digest: seq<bv8>)
      requires Valid()
      modifies this, buffer
      ensures digest == Digest(old(Message))
    {
      PadEnds(Message);
      hide Absorb, LowBits, HighBits, EncodeWords, Pad, Padding, Zeros;
      PadMessage();
      assert Message[..|Message| - 0] == Message;
      digest := Encode(WordList(state));
    }
  }

  lemma PadEnds(message: seq<bv8>)
    ensures Pad(message) == message + Padding()[..PadLength(|message|)] +
      EncodeWords([LowBits(|message|), HighBits(|message|)])
    ensures |EncodeWords([LowBits(|message|), HighBits(|message|)])| == 8
    ensures |Pad(message)| % 64 == 0
  {
    hide LowBits, HighBits, EncodeWords, Padding, Zeros;
  }

  lemma EncodeSnoc(words: seq<nat>, n: nat)
    ensures EncodeWords(words + [n]) == EncodeWords(words) + EncodeWord(n)
  {
    hide EncodeWord;
    if words == [] {
      assert words + [n] == [n];
    } else {
      assert (words + [n])[1..] == words[1..] + [n];
      EncodeSnoc(words[1..], n);
    }
  }

  /** MD5Encode */
  method Encode(words: seq<nat>) returns (output: seq<bv8>)
    ensures output == EncodeWords(words)
  {
    output := [];
    hide EncodeWord;
    var i, j := 0, 0;
    while j < 4 * |words|
      invariant 0 <= i <= |words| && j == 4 * i
      invariant output == EncodeWords(words[..i])
    {
      EncodeSnoc(words[..i], words[i]);
      assert words[..i + 1] == words[..i] + [words[i]];
      output := output + EncodeWord(words[i]);
      i := i + 1;
      j := j + 4;
    }
    assert words[..|words|] == words;
  }

  lemma JoinedNext(chunks: seq<seq<bv8>>, k: nat)
    requires k < |chunks|
    ensures Joined(chunks[..k + 1]) == Joined(chunks[..k]) + chunks[k]
  {
    assert chunks[..k + 1][..k] == chunks[..k];
  }

  lemma ShortChunk(before: nat, len: nat)
    requires len < WRAP - 64
    ensures NoWrap(64 - before % 64, len)
  {
  }

  /** Sections 3.1 to 3.4 of RFC 1321, for any division of the message into pieces. */
  method HashChunks(chunks: seq<seq<bv8>>) returns (digest: seq<bv8>)
    requires forall k :: 0 <= k < |chunks| ==> |chunks[k]| < WRAP - 64
    ensures digest == Digest(Joined(chunks))
  {
    assert Joined(chunks[..0]) == [];
    hide Digest, Joined, NoWrap;
    var context := new Context();
    for k := 0 to |chunks|
      invariant context.Valid() && fresh(context) && fresh(context.buffer)
      invariant context.Message == Joined(chunks[..k])
    {
      JoinedNext(chunks, k);
      ShortChunk(|context.Message|, |chunks[k]|);
      context.Update(chunks[k]);
    }
    assert chunks[..|chunks|] == chunks;
    digest := context.Final();
  }
}
