/**
  Message encryption of smile-case1/rsa.h and the key set-up of main.c: blocks of
  characters are packed base 128, raised to the public exponent, and recovered with
  the private one.  Characters are meant to have 7 bits, but any are taken, signed or not.
 */
module Rsa {

  import opened Arith
  import opened Numbers
  import opened RsaArith

  // ----- raising to e and then to d

  function Phi(p: nat, q: nat): nat
    requires p >= 1 && q >= 1
  {
    (p - 1) * (q - 1)
  }

  /** `x` to a power that is one modulo p - 1 is `x` again modulo p. */
  lemma PowerReturns(p: nat, x: nat, t: nat)
    requires Prime(p)
    ensures Cong(Pow(x, 1 + (p - 1) * t), x, p)
  {
    var y := Pow(x, (p - 1) * t);
    assert Pow(x, 1 + (p - 1) * t) == x * y;
    if Divides(p, x) {
      assert x * y - x == x * (y - 1);
      DividesProduct(p, x, y - 1);
    } else {
      Fermat(x, p);
      PowMul(x, p - 1, t);
      PowCong(Pow(x, p - 1), 1, t, p);
      PowOne(t);
      CongRefl(x, p);
      CongMul(x, x, y, 1, p);
    }
  }

  /** An exponent pair that is inverse modulo (p-1)(q-1) returns every residue modulo p*q. */
  lemma BothPrimes(p: nat, q: nat, x: nat, k: nat)
    requires Prime(p) && Prime(q) && p != q
    ensures Cong(Pow(x, 1 + Phi(p, q) * k), x, p * q)
  {
    MulAssoc(p - 1, q - 1, k);
    PowerReturns(p, x, (q - 1) * k);
    assert Phi(p, q) == (q - 1) * (p - 1);
    MulAssoc(q - 1, p - 1, k);
    PowerReturns(q, x, (p - 1) * k);
    PrimePair(p, q, Pow(x, 1 + Phi(p, q) * k) - x);
  }

  lemma InverseExponent(e: nat, d: nat, phi: nat) returns (k: nat)
    requires phi >= 2 && (e * d) % phi == 1
    ensures e * d == 1 + phi * k
  {
    k := e * d / phi;
  }

  lemma PrimesFactor(p: nat, q: nat)
    requires Prime(p) && Prime(q) && p * q >= 128
    ensures Phi(p, q) >= 2
  {
    assert p * q == Phi(p, q) + p + q - 1;
    if Phi(p, q) < 2 {
      if p == 2 {
      } else if q == 2 {
      } else {
        MulLe(2, p - 1, q - 1);
      }
    }
  }

  /** Section 5.1 of RFC 8017: decryption undoes encryption on every block below the modulus. */
  lemma BlockReturns(p: nat, q: nat, e: nat, d: nat, x: nat)
    requires Prime(p) && Prime(q) && p != q && p * q >= 128
    requires (e * d) % Phi(p, q) == 1
    requires x < p * q
    ensures Pow(Pow(x, e) % (p * q), d) % (p * q) == x
  {
    BlockCong(p, q, e, d, x);
    hide *;
    DecryptionReduces(p * q, e, d, x);
  }

  lemma BlockCong(p: nat, q: nat, e: nat, d: nat, x: nat)
    requires Prime(p) && Prime(q) && p != q && p * q >= 128
    requires (e * d) % Phi(p, q) == 1
    ensures Cong(Pow(x, e * d), x, p * q)
  {
    hide Cong, Pow, Divides;
    PrimesFactor(p, q);
    var k := InverseExponent(e, d, Phi(p, q));
    BothPrimes(p, q, x, k);
  }

  /** Reducing between the two powers changes nothing. */
  lemma DecryptionReduces(n: nat, e: nat, d: nat, x: nat)
    requires x < n && Cong(Pow(x, e * d), x, n)
    ensures Pow(Pow(x, e) % n, d) % n == x
  {
    hide Cong, Pow, Divides;
    PowMul(x, e, d);
    var y := Pow(x, e);
    CongMod(y, n);
    var r := y % n;
    CongSym(y, r, n);
    PowCong(r, y, d, n);
    CongTrans(Pow(r, d), Pow(y, d), x, n);
    ReducedTo(Pow(r, d), x, n);
  }

  lemma ReducedTo(y: int, x: nat, n: nat)
    requires x < n && Cong(y, x, n)
    ensures y % n == x
  {
    CongModEq(y, x, n);
  }

  lemma SquareDividesPower(p: nat, e: nat)
    requires e >= 2
    ensures Divides(p * p, Pow(p, e))
  {
    var t := Pow(p, e - 2);
    assert Pow(p, e - 1) == p * t;
    assert Pow(p, e) == p * (p * t);
    MulAssoc(p, p, t);
    DividesMake(p * p, Pow(p, e), t);
  }

  /** With a repeated prime the block equal to the prime is lost. */
  lemma RepeatedPrimeLosesBlock(p: nat, e: nat, d: nat)
    requires p >= 2 && e >= 2 && d >= 1
    ensures p * p > 0 && Pow(Pow(p, e) % (p * p), d) % (p * p) == 0
  {
    hide Pow;
    MulLe(1, p, p);
    SquareDividesPower(p, e);
    DividesMod(p * p, Pow(p, e));
    PowZero(d);
  }

  lemma PowZero(d: nat)
    requires d >= 1
    ensures Pow(0, d) == 0
  {
  }

  // ----- blocks

  /** All characters are 7-bit. */
  predicate SevenBit(s: seq<int>) {
    forall i :: 0 <= i < |s| ==> 0 <= s[i] < 128
  }

  /** What a char can hold, signed or not. */
  predicate Chars(s: seq<int>) {
    forall i :: 0 <= i < |s| ==> -128 <= s[i] < 256
  }

  /** m1 + m2*128 + m3*128^2 + ... */
  function Packed(block: seq<int>): int {
    if block == [] then 0 else block[0] + 128 * Packed(block[1..])
  }

  /** The first character is the least significant. */
  lemma PackedThree(a: int, b: int, c: int)
    ensures Packed([a, b, c]) == a + 128 * b + 16384 * c
  {
    assert [a, b, c][1..] == [b, c] && [b, c][1..] == [c] && [c][1..] == [];
    assert Packed([c]) == c + 128 * Packed([]);
    assert Packed([b, c]) == b + 128 * Packed([c]);
  }

  /** (x >> 7j) % 128: the shift rounds down, the remainder keeps the sign. */
  function Digit(x: int, j: nat): int {
    PowPositive(128, j);
    TruncMod(x / Pow(128, j), 128)
  }

  lemma {:induction false} PowPositive(a: nat, n: nat)
    requires a > 0
    ensures Pow(a, n) > 0
    decreases n
  {
    if n > 0 {
      PowPositive(a, n - 1);
      MulLe(1, a, Pow(a, n - 1));
    }
  }

  lemma {:induction false} PackedBound(block: seq<int>)
    requires SevenBit(block)
    ensures 0 <= Packed(block) < Pow(128, |block|)
    decreases |block|
  {
    if block != [] {
      PackedBound(block[1..]);
    }
  }

  lemma {:induction false} PackedFits(block: seq<int>)
    requires Chars(block)
    ensures Abs(Packed(block)) <= 3 * (Pow(128, |block|) - 1)
    decreases |block|
  {
    if block != [] {
      PackedFits(block[1..]);
    }
  }

  lemma {:induction false} PackedSnoc(block: seq<int>, c: int)
    ensures Packed(block + [c]) == Packed(block) + c * Pow(128, |block|)
    decreases |block|
  {
    if block == [] {
      assert [c][1..] == [];
    } else {
      assert (block + [c])[1..] == block[1..] + [c];
      PackedSnoc(block[1..], c);
      MulAssoc(128, c, Pow(128, |block| - 1));
      MulAssoc(c, 128, Pow(128, |block| - 1));
    }
  }

  lemma DivDiv(x: int, p: nat)
    requires p > 0
    ensures x / (128 * p) == (x / 128) / p
  {
    var y := x / 128;
    var q, r := y / p, y % p;
    assert y == p * q + r;
    assert x == 128 * (p * q) + 128 * r + x % 128;
    assert 128 * (p * q) == (128 * p) * q;
    DivUnique(x, 128 * p, q, 128 * r + x % 128);
  }

  lemma DivUnique(x: int, m: nat, q: int, r: nat)
    requires m > 0 && x == m * q + r && r < m
    ensures x / m == q
  {
    assert x == m * (x / m) + x % m;
    assert m * (x / m - q) == r - x % m;
    DividesMake(m, r - x % m, x / m - q);
    DividesSmall(m, r - x % m);
    if x / m != q {
      if x / m > q { MulLe(1, x / m - q, m); } else { MulLe(x / m - q, -1, m); }
    }
  }

  lemma DigitNext(x: int, j: nat)
    ensures Digit(x, j + 1) == Digit(x / 128, j) && Digit(x, 0) == TruncMod(x, 128)
  {
    PowPositive(128, j);
    DivDiv(x, Pow(128, j));
  }

  lemma HeadDigit(c: int, tail: nat)
    requires 0 <= c < 128
    ensures (c + 128 * tail) / 128 == tail && TruncMod(c + 128 * tail, 128) == c
  {
  }

  /** Unpacking digit `j` of a packed block gives back character `j`. */
  lemma {:induction false} DigitOfPacked(block: seq<int>, j: nat)
    requires SevenBit(block) && j < |block|
    ensures Digit(Packed(block), j) == block[j]
    decreases j
  {
    var x := Packed(block);
    assert x == block[0] + 128 * Packed(block[1..]);
    PackedBound(block[1..]);
    if j > 0 {
      DigitNext(x, j - 1);
      HeadDigit(block[0], Packed(block[1..]));
      DigitOfPacked(block[1..], j - 1);
    } else {
      HeadDigit(block[0], Packed(block[1..]));
      DigitNext(x, 0);
    }
  }

  function Digits(x: int, n: nat): (s: seq<int>)
    ensures |s| == n && forall j :: 0 <= j < n ==> s[j] == Digit(x, j)
  {
    seq(n, j requires 0 <= j < n => Digit(x, j))
  }

  lemma DigitsTail(x: int, n: nat)
    requires n > 0
    ensures Digits(x, n)[1..] == Digits(x / 128, n - 1) && Digits(x, n)[0] == TruncMod(x, 128)
  {
    forall j | 0 <= j < n - 1 ensures Digits(x, n)[1..][j] == Digit(x / 128, j) {
      DigitNext(x, j);
    }
    DigitNext(x, 0);
  }

  /** Packing the digits of a number that fits gives the number. */
  lemma {:induction false} PackedDigits(x: nat, n: nat)
    requires x < Pow(128, n)
    ensures Packed(Digits(x, n)) == x && SevenBit(Digits(x, n))
    decreases n
  {
    if n > 0 {
      DigitsTail(x, n);
      var rest := Digits(x, n)[1..];
      PackedDigits(x / 128, n - 1);
      forall j | 0 <= j < n ensures 0 <= Digits(x, n)[j] < 128 {
        if j > 0 {
          assert Digits(x, n)[j] == rest[j - 1];
        }
      }
    }
  }

  // ----- which blocks survive unpacking

  /** All characters are zero but the last, which is negative and not -128. */
  predicate ZeroLed(block: seq<int>) {
    block != [] && (forall k :: 0 <= k < |block| - 1 ==> block[k] == 0) && -128 < block[|block| - 1] < 0
  }

  lemma TruncMultiple(y: int)
    ensures TruncMod(128 * y, 128) == 0 && (128 * y) / 128 == y
  {
  }

  lemma ZeroLedTail(block: seq<int>)
    requires ZeroLed(block) && |block| > 1
    ensures block[0] == 0 && ZeroLed(block[1..]) && Packed(block) == 128 * Packed(block[1..])
  {
  }

  lemma HeadTail(s: seq<int>, t: seq<int>)
    requires s != [] && t != [] && s[0] == t[0] && s[1..] == t[1..]
    ensures s == t
  {
    assert s == [s[0]] + s[1..] && t == [t[0]] + t[1..];
  }

  lemma {:induction false} ZeroLedPacked(block: seq<int>)
    requires ZeroLed(block)
    ensures Packed(block) < 0 && -Packed(block) < Pow(128, |block|)
    ensures Digits(Packed(block), |block|) == block
    decreases |block|
  {
    DigitsTail(Packed(block), |block|);
    if |block| > 1 {
      ZeroLedTail(block);
      ZeroLedPacked(block[1..]);
      assert Pow(128, |block|) == 128 * Pow(128, |block| - 1);
      hide TruncMod, ZeroLed, Packed, Digits, Pow;
      TruncMultiple(Packed(block[1..]));
      HeadTail(Digits(Packed(block), |block|), block);
    } else {
      assert Packed(block) == block[0] && block == [block[0]];
      assert Pow(128, 1) == 128;
    }
  }

  predicate NonPositive(s: seq<int>) {
    forall i :: 0 <= i < |s| ==> -128 < s[i] <= 0
  }

  lemma {:induction false} NonPositivePacked(s: seq<int>)
    requires NonPositive(s)
    ensures -Pow(128, |s|) < Packed(s) <= 0
    decreases |s|
  {
    if s != [] {
      NonPositivePacked(s[1..]);
    }
  }

  lemma DigitsSign(y: int, n: nat)
    ensures if y >= 0 then SevenBit(Digits(y, n)) else NonPositive(Digits(y, n))
  {
    forall j | 0 <= j < n
      ensures if y >= 0 then 0 <= Digit(y, j) < 128 else -128 < Digit(y, j) <= 0
    {
      PowPositive(128, j);
      QuotientSign(y, Pow(128, j));
      TruncRange(y / Pow(128, j));
    }
  }

  lemma QuotientSign(y: int, p: nat)
    requires p > 0
    ensures y >= 0 <==> y / p >= 0
  {
    assert y == p * (y / p) + y % p;
    if y < 0 && y / p >= 0 {
      MulLe(0, y / p, p);
    }
  }

  lemma TruncRange(x: int)
    ensures if x >= 0 then 0 <= TruncMod(x, 128) < 128 else -128 < TruncMod(x, 128) <= 0
  {
  }

  /** A negative number that its digits pack to has one digit only, the last. */
  lemma {:induction false} NegativeDigits(block: seq<int>)
    requires Packed(block) < 0 && Digits(Packed(block), |block|) == block
    ensures ZeroLed(block)
    decreases |block|
  {
    var x := Packed(block);
    DigitsTail(x, |block|);
    DigitsSign(x, |block|);
    var rest := block[1..];
    assert x == block[0] + 128 * Packed(rest);
    if rest != [] {
      DigitsTail(x / 128, |rest|);
      assert Packed(rest) == rest[0] + 128 * Packed(rest[1..]);
      hide Digits, TruncMod;
      FirstIsZero(block[0], Packed(rest), rest[0], Packed(rest[1..]));
      TruncMultiple(Packed(rest));
      NegativeDigits(rest);
    }
  }

  /** A negative first digit would make the second one differ from itself by one modulo 128. */
  lemma FirstIsZero(first: int, tail: int, second: int, more: int)
    requires -128 < first <= 0 && first + 128 * tail < 0 && tail == second + 128 * more
    requires second == TruncMod((first + 128 * tail) / 128, 128)
    ensures first == 0
  {
    if first < 0 {
      Borrow(first, tail);
      TruncClass(tail - 1);
      ClassGap(more);
    }
  }

  lemma Borrow(first: int, tail: int)
    requires -128 < first < 0
    ensures (first + 128 * tail) / 128 == tail - 1
  {
  }

  lemma ClassGap(more: int)
    ensures (128 * more - 1) % 128 == 127
  {
  }

  lemma TruncClass(x: int)
    ensures (x - TruncMod(x, 128)) % 128 == 0
  {
    var q := if x >= 0 then x / 128 else -(-x / 128);
    assert x - TruncMod(x, 128) == 128 * q;
    WholeClass(q);
  }

  lemma WholeClass(q: int)
    ensures (128 * q) % 128 == 0
  {
  }

  // ----- whole messages

  /** The number of characters per block that main.c picks from the modulus. */
  function BlockBytes(n: nat): (bytes: nat)
    ensures 1 <= bytes <= 3
  {
    if n / 0x20_0000 != 0 then 3 else if n / 0x4000 != 0 then 2 else 1
  }

  lemma BlockFits(n: nat)
    requires n >= 128
    ensures Pow(128, BlockBytes(n)) <= n && 3 * Pow(128, BlockBytes(n)) < INT_LIMIT
    ensures BlockBytes(n) < 3 ==> n < Pow(128, BlockBytes(n) + 1)
  {
    assert Pow(128, 1) == 128;
    assert Pow(128, 2) == 0x4000;
    assert Pow(128, 3) == 0x20_0000;
  }

  function Block(s: seq<int>, bytes: nat, i: nat): (b: seq<int>)
    requires bytes > 0 && i < |s| / bytes
    ensures |b| == bytes
  {
    BlockInside(|s|, bytes, i);
    s[i * bytes..i * bytes + bytes]
  }

  lemma BlockInside(len: nat, bytes: nat, i: nat)
    requires bytes > 0 && i < len / bytes
    ensures i * bytes + bytes <= len
  {
    MulLe(i + 1, len / bytes, bytes);
    assert len == bytes * (len / bytes) + len % bytes;
  }

  /** encode of one block, and decode of that. */
  function Enciphered(n: nat, e: nat, x: int): int
    requires n > 0
  {
    TruncMod(Pow(x, e), n)
  }

  function Cryptogram(message: seq<int>, bytes: nat, e: nat, n: nat): (c: seq<int>)
    requires bytes > 0 && n > 0
    ensures |c| == |message| / bytes
  {
    seq(|message| / bytes, i requires 0 <= i < |message| / bytes => Enciphered(n, e, Packed(Block(message, bytes, i))))
  }

  function Recovered(cryptogram: seq<int>, bytes: nat, d: nat, n: nat): (m: seq<int>)
    requires bytes > 0 && n > 0
    ensures |m| == |cryptogram| * bytes
  {
    seq(|cryptogram| * bytes, k requires 0 <= k < |cryptogram| * bytes =>
      WithinBlock(|cryptogram|, bytes, k);
      Digit(Enciphered(n, d, cryptogram[k / bytes]), k % bytes))
  }

  lemma WithinBlock(len: nat, bytes: nat, k: nat)
    requires bytes > 0 && k < len * bytes
    ensures k / bytes < len && k == (k / bytes) * bytes + k % bytes
  {
    assert k == bytes * (k / bytes) + k % bytes;
    MulCancelLt(k / bytes, len, bytes);
  }

  /** A key pair as main.c sets it up. */
  ghost predicate KeyPair(p: nat, q: nat, e: nat, d: nat) {
    && Prime(p) && Prime(q) && 128 <= p * q < INT_LIMIT
    && e >= 1 && 1 <= d < Phi(p, q) && (e * d) % Phi(p, q) == 1
  }

  ghost predicate Encodable(message: seq<int>, bytes: nat)
    requires bytes > 0
  {
    SevenBit(message) && |message| % bytes == 0
  }

  ghost predicate Returns(message: seq<int>, p: nat, q: nat, e: nat, d: nat)
    requires p * q > 0
  {
    var bytes := BlockBytes(p * q);
    Recovered(Cryptogram(message, bytes, e, p * q), bytes, d, p * q) == message
  }

  lemma KeyPositive(p: nat, q: nat, e: nat, d: nat)
    requires KeyPair(p, q, e, d)
    ensures p * q > 0
  {
  }

  /** decode of encode of the number `x`. */
  function Decoded(n: nat, e: nat, d: nat, x: int): int
    requires n > 0
  {
    Enciphered(n, d, Enciphered(n, e, x))
  }

  /** One block comes back. */
  ghost predicate BlockReturnsAs(n: nat, e: nat, d: nat, block: seq<int>)
    requires n > 0
  {
    Digits(Decoded(n, e, d, Packed(block)), |block|) == block
  }

  lemma BlockAt(message: seq<int>, bytes: nat, i: nat, j: nat)
    requires bytes > 0 && i < |message| / bytes && j < bytes
    ensures 0 <= i * bytes + j < |message| / bytes * bytes <= |message|
    ensures message[i * bytes + j] == Block(message, bytes, i)[j]
  {
    BlockInside(|message|, bytes, i);
    Within(|message|, bytes, i, j);
  }

  /** What character j of block i comes back as. */
  lemma CharacterOf(message: seq<int>, bytes: nat, n: nat, e: nat, d: nat, i: nat, j: nat)
    requires bytes > 0 && n > 0 && i < |message| / bytes && j < bytes
    ensures 0 <= i * bytes + j < |message| / bytes * bytes
    ensures Recovered(Cryptogram(message, bytes, e, n), bytes, d, n)[i * bytes + j]
         == Digits(Decoded(n, e, d, Packed(Block(message, bytes, i))), bytes)[j]
  {
    hide *;
    Within(|message|, bytes, i, j);
    CryptogramAt(message, bytes, e, n, i);
    DecodedIs(n, e, d, Packed(Block(message, bytes, i)));
    RecoveredAt(Cryptogram(message, bytes, e, n), bytes, d, n, i, j);
  }

  lemma Within(len: nat, bytes: nat, i: nat, j: nat)
    requires bytes > 0 && i < len / bytes && j < bytes
    ensures 0 <= i * bytes + j < len / bytes * bytes <= len
  {
    MulLe(0, i, bytes);
    MulLe(i + 1, len / bytes, bytes);
    assert len == bytes * (len / bytes) + len % bytes;
  }

  lemma BlocksFromMessage(message: seq<int>, p: nat, q: nat, e: nat, d: nat, i: nat)
    requires p * q > 0 && Returns(message, p, q, e, d) && i < |message| / BlockBytes(p * q)
    ensures BlockReturnsAs(p * q, e, d, Block(message, BlockBytes(p * q), i))
  {
    var n, bytes := p * q, BlockBytes(p * q);
    var b := Block(message, bytes, i);
    forall j | 0 <= j < bytes
      ensures Digits(Decoded(n, e, d, Packed(b)), bytes)[j] == b[j]
    {
      BlockAt(message, bytes, i, j);
      CharacterOf(message, bytes, n, e, d, i, j);
    }
  }

  lemma MessageFromBlocks(message: seq<int>, p: nat, q: nat, e: nat, d: nat)
    requires p * q > 0 && |message| % BlockBytes(p * q) == 0
    requires forall i :: 0 <= i < |message| / BlockBytes(p * q) ==>
      BlockReturnsAs(p * q, e, d, Block(message, BlockBytes(p * q), i))
    ensures Returns(message, p, q, e, d)
  {
    var n, bytes := p * q, BlockBytes(p * q);
    WholeBlocks(|message|, bytes);
    var m := Recovered(Cryptogram(message, bytes, e, n), bytes, d, n);
    forall k | 0 <= k < |message|
      ensures m[k] == message[k]
    {
      WithinBlock(|message| / bytes, bytes, k);
      BlockAt(message, bytes, k / bytes, k % bytes);
      CharacterOf(message, bytes, n, e, d, k / bytes, k % bytes);
      assert BlockReturnsAs(n, e, d, Block(message, bytes, k / bytes));
    }
  }

  /** A message comes back exactly when each of its blocks does. */
  lemma ReturnsByBlocks(message: seq<int>, p: nat, q: nat, e: nat, d: nat)
    requires p * q > 0 && |message| % BlockBytes(p * q) == 0
    ensures var bytes := BlockBytes(p * q);
      Returns(message, p, q, e, d) <==>
      forall i :: 0 <= i < |message| / bytes ==> BlockReturnsAs(p * q, e, d, Block(message, bytes, i))
  {
    hide Returns, BlockReturnsAs, BlockBytes;
    var bytes := BlockBytes(p * q);
    if Returns(message, p, q, e, d) {
      forall i | 0 <= i < |message| / bytes
        ensures BlockReturnsAs(p * q, e, d, Block(message, bytes, i))
      {
        BlocksFromMessage(message, p, q, e, d, i);
      }
    } else if forall i :: 0 <= i < |message| / bytes ==> BlockReturnsAs(p * q, e, d, Block(message, bytes, i)) {
      MessageFromBlocks(message, p, q, e, d);
    }
  }

  lemma FirstPowers(n: nat, x: nat)
    requires x < n
    ensures Decoded(n, 1, 1, x) == x
  {
    assert Pow(x, 1) == x * Pow(x, 0) == x;
    SmallMod(x, n);
  }

  lemma SmallMod(x: nat, n: nat)
    requires x < n
    ensures TruncMod(x, n) == x
  {
  }

  lemma NaturalReturns(p: nat, q: nat, e: nat, d: nat, x: nat)
    requires KeyPair(p, q, e, d) && (p != q || e == 1) && x < p * q
    ensures Decoded(p * q, e, d, x) == x
  {
    if p != q {
      BlockReturns(p, q, e, d, x);
      PowNonNegative(x, e);
      PowNonNegative(Pow(x, e) % (p * q), d);
    } else {
      ExponentOne(Phi(p, q), d);
      FirstPowers(p * q, x);
    }
  }

  /** Both exponents of a key pair are odd, so signs survive encoding and decoding. */
  lemma ExponentsOdd(p: nat, q: nat, e: nat, d: nat)
    requires KeyPair(p, q, e, d) && (p != q || e == 1)
    ensures e % 2 == 1 && d % 2 == 1
  {
    if p == q {
      ExponentOne(Phi(p, q), d);
    } else {
      PhiEven(p, q);
      hide Phi, KeyPair;
      OddResidue(e * d, Phi(p, q));
      OddFactors(e, d);
    }
  }

  lemma OddResidue(m: nat, phi: nat)
    requires phi > 0 && phi % 2 == 0 && m % phi == 1
    ensures m % 2 == 1
  {
    var k := m / phi;
    DivMod(m, phi);
    EvenMultiple(phi, k);
    AfterEven(phi * k, m);
  }

  lemma AfterEven(z: int, m: int)
    requires z % 2 == 0 && m == z + 1
    ensures m % 2 == 1
  {
  }

  lemma DivMod(m: nat, d: nat)
    requires d > 0
    ensures m == d * (m / d) + m % d
  {
  }

  lemma PhiEven(p: nat, q: nat)
    requires Prime(p) && Prime(q) && p * q >= 128
    ensures Phi(p, q) % 2 == 0
  {
    var odd := if p > q then p else q;
    if odd == 2 {
      MulLe(p, 2, q);
      MulLe(q, 2, 2);
    }
    OddPrime(odd);
    if p > q {
      EvenMultiple(p - 1, q - 1);
    } else {
      EvenMultiple(q - 1, p - 1);
      assert (p - 1) * (q - 1) == (q - 1) * (p - 1);
    }
  }

  lemma OddPrime(p: nat)
    requires Prime(p) && p > 2
    ensures p % 2 == 1
  {
    if p % 2 == 0 {
      DividesMake(2, p, p / 2);
    }
  }

  lemma EvenMultiple(a: nat, b: nat)
    requires a % 2 == 0
    ensures (a * b) % 2 == 0
  {
    var h := a / 2;
    assert a * b == 2 * (h * b);
  }

  lemma OddFactors(a: nat, b: nat)
    requires (a * b) % 2 == 1
    ensures a % 2 == 1 && b % 2 == 1
  {
    if a % 2 == 0 {
      EvenMultiple(a, b);
    }
    if b % 2 == 0 {
      EvenMultiple(b, a);
    }
  }

  lemma NegatedOnce(n: nat, e: nat, x: nat)
    requires n > 0 && e % 2 == 1
    ensures Enciphered(n, e, 0 - x) == -Enciphered(n, e, x)
  {
    PowSigned(0 - x, e);
    PowSigned(x, e);
    PowNonNegative(x, e);
    if x > 0 {
      TruncSigned(-1, Pow(x, e), n);
    }
  }

  lemma EncipheredRange(n: nat, e: nat, x: nat)
    requires n > 0
    ensures 0 <= Enciphered(n, e, x) < n
  {
    PowNonNegative(x, e);
  }

  /** Every number smaller than the modulus in absolute value comes back, negative ones included. */
  lemma NumberReturns(p: nat, q: nat, e: nat, d: nat, x: int)
    requires KeyPair(p, q, e, d) && (p != q || e == 1) && Abs(x) < p * q
    ensures Decoded(p * q, e, d, x) == x
  {
    NaturalReturns(p, q, e, d, Abs(x));
    if x < 0 {
      ExponentsOdd(p, q, e, d);
      EncipheredRange(p * q, e, -x);
      hide *;
      NegatedOnce(p * q, e, -x);
      NegatedOnce(p * q, d, Enciphered(p * q, e, -x));
      DecodedIs(p * q, e, d, x);
      DecodedIs(p * q, e, d, -x);
      AbsNegative(x);
    }
  }

  lemma DecodedIs(n: nat, e: nat, d: nat, x: int)
    requires n > 0
    ensures Decoded(n, e, d, x) == Enciphered(n, d, Enciphered(n, e, x))
  {
  }

  lemma AbsNegative(x: int)
    ensures x < 0 ==> Abs(x) == -x
  {
  }

  /** A block comes back exactly when it is 7-bit, or all zero but for a negative last character. */
  lemma BlockReturnsExactly(p: nat, q: nat, e: nat, d: nat, block: seq<int>)
    requires KeyPair(p, q, e, d) && (p != q || e == 1) && |block| == BlockBytes(p * q)
    ensures p * q > 0 && (BlockReturnsAs(p * q, e, d, block) <==> SevenBit(block) || ZeroLed(block))
  {
    var n, x := p * q, Packed(block);
    BlockFits(n);
    hide KeyPair, Decoded, BlockBytes;
    if SevenBit(block) {
      PackedBound(block);
      NumberReturns(p, q, e, d, x);
      forall j | 0 <= j < |block| ensures Digits(x, |block|)[j] == block[j] {
        DigitOfPacked(block, j);
      }
    } else if ZeroLed(block) {
      ZeroLedPacked(block);
      NumberReturns(p, q, e, d, x);
    } else if BlockReturnsAs(n, e, d, block) {
      DigitsSign(Decoded(n, e, d, x), |block|);
      NonPositivePacked(block);
      NumberReturns(p, q, e, d, x);
      if x < 0 {
        NegativeDigits(block);
      } else {
        DigitsSign(x, |block|);
      }
    }
  }

  /** Exactly which messages of whole blocks come back. */
  lemma ReturnsExactly(p: nat, q: nat, e: nat, d: nat, message: seq<int>)
    requires KeyPair(p, q, e, d) && (p != q || e == 1) && |message| % BlockBytes(p * q) == 0
    ensures var bytes := BlockBytes(p * q);
      p * q > 0 && (Returns(message, p, q, e, d) <==>
      forall i :: 0 <= i < |message| / bytes ==> SevenBit(Block(message, bytes, i)) || ZeroLed(Block(message, bytes, i)))
  {
    var n, bytes := p * q, BlockBytes(p * q);
    KeyPositive(p, q, e, d);
    ReturnsByBlocks(message, p, q, e, d);
    hide *;
    forall i | 0 <= i < |message| / bytes
      ensures BlockReturnsAs(n, e, d, Block(message, bytes, i)) <==>
        SevenBit(Block(message, bytes, i)) || ZeroLed(Block(message, bytes, i))
    {
      BlockReturnsExactly(p, q, e, d, Block(message, bytes, i));
    }
  }

  /** Where characters are unsigned: exactly the 7-bit messages come back. */
  lemma UnsignedReturnsExactly(p: nat, q: nat, e: nat, d: nat, message: seq<int>)
    requires KeyPair(p, q, e, d) && (p != q || e == 1) && |message| % BlockBytes(p * q) == 0
    requires forall k :: 0 <= k < |message| ==> message[k] >= 0
    ensures p * q > 0 && (Returns(message, p, q, e, d) <==> SevenBit(message))
  {
    var bytes := BlockBytes(p * q);
    ReturnsExactly(p, q, e, d, message);
    hide KeyPair, Returns, BlockBytes;
    if forall i :: 0 <= i < |message| / bytes ==> SevenBit(Block(message, bytes, i)) || ZeroLed(Block(message, bytes, i)) {
      forall k | 0 <= k < |message| ensures 0 <= message[k] < 128 {
        NaturalCharacter(message, bytes, k);
      }
    } else {
      var i :| 0 <= i < |message| / bytes && !SevenBit(Block(message, bytes, i)) && !ZeroLed(Block(message, bytes, i));
      SevenBitBlock(message, bytes, i);
    }
  }

  lemma NaturalCharacter(message: seq<int>, bytes: nat, k: nat)
    requires bytes > 0 && |message| % bytes == 0 && k < |message|
    requires forall k :: 0 <= k < |message| ==> message[k] >= 0
    requires forall i :: 0 <= i < |message| / bytes ==> SevenBit(Block(message, bytes, i)) || ZeroLed(Block(message, bytes, i))
    ensures message[k] < 128
  {
    WholeBlocks(|message|, bytes);
    WithinBlock(|message| / bytes, bytes, k);
    var i := k / bytes;
    BlockInside(|message|, bytes, i);
    var b := Block(message, bytes, i);
    assert b[k % bytes] == message[k] && b[bytes - 1] == message[i * bytes + bytes - 1];
  }

  lemma SevenBitBlock(message: seq<int>, bytes: nat, i: nat)
    requires bytes > 0 && i < |message| / bytes
    ensures SevenBit(message) ==> SevenBit(Block(message, bytes, i))
  {
    BlockInside(|message|, bytes, i);
  }

  /** Decoding returns every 7-bit message, blocks divisible by a prime included. */
  lemma RoundTrip(p: nat, q: nat, e: nat, d: nat, message: seq<int>)
    requires KeyPair(p, q, e, d) && (p != q || e == 1)
    requires Encodable(message, BlockBytes(p * q))
    ensures p * q > 0 && Returns(message, p, q, e, d)
  {
    UnsignedReturnsExactly(p, q, e, d, message);
  }

  /** The bytes that main.c encodes, as signed characters. */
  const MAIN_KEY: seq<int> := [43, 126, 21, 22, 40, -82, -46, -90, -85, -9, 21, -120, 9, -49, 79, 60]

  /** With two characters a block they do not come back; with three they are not whole blocks. */
  lemma MainKeyFails(p: nat, q: nat, e: nat, d: nat)
    requires KeyPair(p, q, e, d) && (p != q || e == 1) && BlockBytes(p * q) >= 2
    ensures p * q > 0 && if BlockBytes(p * q) == 3 then |MAIN_KEY| % 3 != 0 else !Returns(MAIN_KEY, p, q, e, d)
  {
    hide Returns, KeyPair, BlockBytes, SevenBit, ZeroLed, Block;
    KeyPositive(p, q, e, d);
    ThirdBlock();
    if BlockBytes(p * q) == 2 {
      ReturnsExactly(p, q, e, d, MAIN_KEY);
    }
  }

  lemma ThirdBlock()
    ensures |MAIN_KEY| == 16 && !SevenBit(Block(MAIN_KEY, 2, 2)) && !ZeroLed(Block(MAIN_KEY, 2, 2))
  {
    var b := Block(MAIN_KEY, 2, 2);
    assert b[0] == 40 && b[1] == -82;
  }

  /** The loop of encodeMessage stays inside both arrays. */
  ghost predicate StaysInside(len: nat, bytes: nat)
    requires bytes > 0
  {
    forall i :: 0 <= i && i * bytes < len ==> i * bytes + bytes <= len && i < len / bytes
  }

  /** It does so exactly when the length is a multiple of the block size. */
  lemma StaysInsideExactly(len: nat, bytes: nat)
    requires bytes > 0
    ensures StaysInside(len, bytes) <==> len % bytes == 0
  {
    var q := len / bytes;
    assert len == bytes * q + len % bytes && bytes * q == q * bytes;
    if len % bytes == 0 {
      forall i | 0 <= i && i * bytes < len ensures i * bytes + bytes <= len && i < len / bytes {
        MulCancelLt(i, q, bytes);
        MulLe(i + 1, q, bytes);
      }
    } else {
      assert q * bytes < len;
    }
  }

  lemma WholeBlocks(len: nat, bytes: nat)
    requires bytes > 0 && len % bytes == 0
    ensures len / bytes * bytes == len
  {
    assert len == bytes * (len / bytes) + len % bytes;
  }

  lemma ExponentOne(phi: nat, d: nat)
    requires d < phi && (1 * d) % phi == 1
    ensures d == 1
  {
  }

  /** The digits of a repeated prime are a message that does not come back. */
  lemma RepeatedPrimeFails(p: nat, e: nat, d: nat)
    requires KeyPair(p, p, e, d) && e >= 2
    ensures p * p > 0 && exists message :: Encodable(message, BlockBytes(p * p)) && !Returns(message, p, p, e, d)
  {
    var n, bytes := p * p, BlockBytes(p * p);
    PrimeFitsBlock(p);
    PackedDigits(p, bytes);
    var message := Digits(p, bytes);
    assert message == Block(message, bytes, 0);
    RepeatedPrimeLosesBlock(p, e, d);
    PowNonNegative(p, e);
    PowNonNegative(Pow(p, e) % n, d);
    assert Decoded(n, e, d, p) == 0;
    ReturnsByBlocks(message, p, p, e, d);
    if Returns(message, p, p, e, d) {
      assert BlockReturnsAs(n, e, d, Block(message, bytes, 0));
      ZeroDigits(bytes);
      PackedZeros(message);
    }
    assert Encodable(message, bytes);
  }

  lemma ZeroDigits(n: nat)
    ensures forall k :: 0 <= k < n ==> Digits(0, n)[k] == 0
  {
    forall k | 0 <= k < n ensures Digit(0, k) == 0 {
      PowPositive(128, k);
    }
  }

  lemma {:induction false} PackedZeros(block: seq<int>)
    requires forall k :: 0 <= k < |block| ==> block[k] == 0
    ensures Packed(block) == 0
    decreases |block|
  {
    if block != [] {
      PackedZeros(block[1..]);
    }
  }

  lemma PrimeFitsBlock(p: nat)
    requires 128 <= p * p < INT_LIMIT
    ensures p < Pow(128, BlockBytes(p * p))
  {
    assert Pow(128, 1) == 128;
    assert Pow(128, 2) == 0x4000;
    assert Pow(128, 3) == 0x20_0000;
    var bytes := BlockBytes(p * p);
    if bytes == 1 {
      SquareBelow(p, 128);
    } else if bytes == 2 {
      SquareBelow(p, 0x4000);
    } else {
      SquareBelow(p, 0x20_0000);
    }
  }

  lemma SquareBelow(p: nat, b: nat)
    requires p * p < b * b
    ensures p < b
  {
    if p >= b {
      MulLe(b, p, b);
      MulLe(b, p, p);
    }
  }

  /** Exactly when the round trip works for all 7-bit messages: the primes differ, or the exponent is one. */
  lemma RoundTripExactly(p: nat, q: nat, e: nat, d: nat)
    requires KeyPair(p, q, e, d)
    ensures p * q > 0
    ensures (forall message :: Encodable(message, BlockBytes(p * q)) ==> Returns(message, p, q, e, d))
      <==> p != q || e == 1
  {
    KeyPositive(p, q, e, d);
    if p != q || e == 1 {
      forall message | Encodable(message, BlockBytes(p * q))
        ensures Returns(message, p, q, e, d)
      {
        RoundTrip(p, q, e, d, message);
      }
    } else {
      RepeatedPrimeFails(p, e, d);
    }
  }

  // ----- the loops

  /** 1 << (7 * j) */
  function Shl7(j: nat): (w: nat)
    ensures w > 0
  {
    PowPositive(2, 7 * j);
    Pow(2, 7 * j)
  }

  lemma Shl7Is(j: nat)
    ensures Shl7(j) == Pow(128, j)
  {
    PowMul(2, 7, j);
    assert Pow(2, 3) == 8;
    assert Pow(2, 5) == 32;
    assert Pow(2, 7) == 128;
  }

  /** encode */
  method Encode(m: int, e: nat, n: nat) returns (c: int)
    requires Abs(m) < INT_LIMIT && 1 < n < INT_LIMIT
    ensures c == Enciphered(n, e, m)
  {
    c := ModPow(m, e, n);
  }

  /** decode */
  method Decode(c: int, d: nat, n: nat) returns (m: int)
    requires Abs(c) < INT_LIMIT && 1 < n < INT_LIMIT
    ensures m == Enciphered(n, d, c)
  {
    m := ModPow(c, d, n);
  }

  lemma CryptogramAt(message: seq<int>, bytes: nat, e: nat, n: nat, k: nat)
    requires bytes > 0 && n > 0 && k < |message| / bytes
    ensures Cryptogram(message, bytes, e, n)[k] == Enciphered(n, e, Packed(Block(message, bytes, k)))
  {
  }

  lemma BlockBelow(message: seq<int>, bytes: nat, k: nat)
    requires bytes > 0 && k < |message| / bytes && Chars(message) && 3 * Pow(128, bytes) < INT_LIMIT
    ensures Abs(Packed(Block(message, bytes, k))) < INT_LIMIT
  {
    BlockInside(|message|, bytes, k);
    PackedFits(Block(message, bytes, k));
  }

  /** The position reached after `done` blocks. */
  lemma BlockPosition(len: nat, bytes: nat, done: nat)
    requires bytes > 0 && len % bytes == 0 && done <= len / bytes
    ensures done * bytes <= len && (done * bytes < len <==> done < len / bytes)
    ensures done * bytes / bytes == done
    ensures (done + 1) * bytes == done * bytes + bytes
  {
    WholeBlocks(len, bytes);
    MulLe(done, len / bytes, bytes);
    if done < len / bytes {
      MulLt(done, len / bytes, bytes);
    }
    DivUnique(done * bytes, bytes, done, 0);
  }

  lemma SliceOfPrefix(a: array<int>, len: nat, i: nat, n: nat)
    requires i + n <= len <= a.Length
    ensures a[i..i + n] == a[..len][i..i + n]
  {
  }

  /** encodeMessage, on the lengths where it stays inside its arrays */
  method EncodeMessage(len: nat, bytes: nat, message: array<int>, exponent: nat, modulus: nat)
    returns (encoded: array<int>)
    requires 0 < bytes && len <= message.Length && StaysInside(len, bytes)
    requires Chars(message[..len])
    requires 3 * Pow(128, bytes) < INT_LIMIT && 1 < modulus < INT_LIMIT
    ensures fresh(encoded)
    ensures encoded[..] == Cryptogram(message[..len], bytes, exponent, modulus)
  {
    StaysInsideExactly(len, bytes);
    hide Packed, Pow, Chars, Enciphered, StaysInside;
    encoded := new int[len / bytes];
    ghost var text := message[..len];
    var i: nat := 0;
    ghost var done: nat := 0;
    BlockPosition(len, bytes, 0);
    while i < len
      invariant done <= len / bytes && i == done * bytes
      invariant message[..len] == text
      invariant forall k :: 0 <= k < done ==> encoded[k] == Cryptogram(text, bytes, exponent, modulus)[k]
    {
      BlockPosition(len, bytes, done);
      BlockInside(len, bytes, done);
      BlockBelow(text, bytes, done);
      SliceOfPrefix(message, len, i, bytes);
      var x := PackLoop(bytes, message[i..i + bytes]);
      var c := Encode(x, exponent, modulus);
      CryptogramAt(text, bytes, exponent, modulus, done);
      encoded[i / bytes] := c;
      i := i + bytes;
      done := done + 1;
    }
    BlockPosition(len, bytes, done);
  }

  /** The inner loop of encodeMessage. */
  method PackLoop(bytes: nat, block: seq<int>) returns (x: int)
    requires |block| == bytes
    ensures x == Packed(block)
  {
    x := 0;
    var j := 0;
    while j < bytes
      invariant 0 <= j <= bytes
      invariant x == Packed(block[..j])
    {
      Shl7Is(j);
      PackedSnoc(block[..j], block[j]);
      assert block[..j + 1] == block[..j] + [block[j]];
      x := x + block[j] * Shl7(j);
      j := j + 1;
    }
    assert block[..bytes] == block;
  }

  lemma RecoveredAt(cryptogram: seq<int>, bytes: nat, d: nat, n: nat, i: nat, j: nat)
    requires bytes > 0 && n > 0 && i < |cryptogram| && j < bytes
    ensures 0 <= i * bytes + j < |cryptogram| * bytes
    ensures Recovered(cryptogram, bytes, d, n)[i * bytes + j] == Digit(Enciphered(n, d, cryptogram[i]), j)
  {
    MulLe(i + 1, |cryptogram|, bytes);
    DivUnique(i * bytes + j, bytes, i, j);
    WithinBlock(|cryptogram|, bytes, i * bytes + j);
  }

  /** Each cryptogram entry accounts for one run of characters. */
  lemma RecoveredBlock(cryptogram: seq<int>, bytes: nat, d: nat, n: nat, i: nat)
    requires bytes > 0 && n > 0 && i < |cryptogram|
    ensures 0 <= i * bytes && (i + 1) * bytes == i * bytes + bytes <= |cryptogram| * bytes
    ensures Recovered(cryptogram, bytes, d, n)[..i * bytes + bytes] ==
      Recovered(cryptogram, bytes, d, n)[..i * bytes] + Digits(Enciphered(n, d, cryptogram[i]), bytes)
  {
    hide Recovered, Digit, Enciphered;
    MulLe(0, i, bytes);
    MulLe(i + 1, |cryptogram|, bytes);
    var goal, tail := Recovered(cryptogram, bytes, d, n), Digits(Enciphered(n, d, cryptogram[i]), bytes);
    forall j | 0 <= j < bytes
      ensures goal[i * bytes + j] == tail[j]
    {
      RecoveredAt(cryptogram, bytes, d, n, i, j);
    }
  }

  /** The inner loop of decodeMessage writes the digits of one block. */
  method UnpackLoop(decoded: array<int>, start: nat, bytes: nat, x: int)
    requires start + bytes <= decoded.Length
    modifies decoded
    ensures decoded[..start + bytes] == old(decoded[..start]) + Digits(x, bytes)
  {
    var j: nat := 0;
    while j < bytes
      invariant j <= bytes
      invariant decoded[..start + j] == old(decoded[..start]) + Digits(x, bytes)[..j]
    {
      Shl7Is(j);
      decoded[start + j] := TruncMod(x / Shl7(j), 128);
      assert decoded[..start + j + 1] == decoded[..start + j] + [decoded[start + j]];
      j := j + 1;
    }
  }

  /** decodeMessage */
  method DecodeMessage(len: nat, bytes: nat, cryptogram: array<int>, exponent: nat, modulus: nat)
    returns (decoded: array<int>)
    requires 0 < bytes && len <= cryptogram.Length
    requires 1 < modulus < INT_LIMIT
    requires forall i :: 0 <= i < len ==> Abs(cryptogram[i]) < INT_LIMIT
    ensures fresh(decoded)
    ensures decoded[..] == Recovered(cryptogram[..len], bytes, exponent, modulus)
  {
    hide Recovered, Digits, Pow, Enciphered, Abs;
    decoded := new int[len * bytes];
    ghost var text := cryptogram[..len];
    ghost var goal := Recovered(text, bytes, exponent, modulus);
    var i: nat := 0;
    while i < len
      invariant i <= len
      invariant cryptogram[..len] == text
      invariant 0 <= i * bytes <= decoded.Length && decoded[..i * bytes] == goal[..i * bytes]
    {
      RecoveredBlock(text, bytes, exponent, modulus, i);
      assert cryptogram[i] == text[i];
      var x := Decode(cryptogram[i], exponent, modulus);
      UnpackLoop(decoded, i * bytes, bytes, x);
      assert cryptogram[..len] == text;
      i := i + 1;
    }
    assert decoded[..] == decoded[..len * bytes];
    assert goal == goal[..len * bytes];
  }

  lemma EncipheredBelow(n: nat, e: nat, x: int)
    requires n > 0
    ensures Abs(Enciphered(n, e, x)) < n
  {
  }

  /**
    The key set-up of main.c for given primes and public exponent, encoding and decoding: the
    message comes back exactly when each block is 7-bit, or zero but for a negative last character.
   */
  method EncodeThenDecode(p: nat, q: nat, e: nat, len: nat, message: array<int>) returns (decoded: array<int>)
    requires Prime(p) && Prime(q) && p != q && 128 <= p * q < INT_LIMIT
    requires 0 < e < INT_LIMIT && Gcd(e, Phi(p, q)) == 1
    requires len <= message.Length && Chars(message[..len]) && StaysInside(len, BlockBytes(p * q))
    ensures decoded[..] == message[..len] <==>
      forall i :: 0 <= i < len / BlockBytes(p * q) ==>
        SevenBit(Block(message[..len], BlockBytes(p * q), i)) || ZeroLed(Block(message[..len], BlockBytes(p * q), i))
  {
    var n := p * q;
    var bytes := if n / 0x20_0000 != 0 then 3 else if n / 0x4000 != 0 then 2 else 1;
    var phi := (p - 1) * (q - 1);
    PrimesFactor(p, q);
    PhiBelow(p, q);
    var d := Inverse(e, phi);
    BlockFits(n);
    StaysInsideExactly(len, bytes);
    ghost var text := message[..len];
    var encoded := EncodeMessage(len, bytes, message, e, n);
    assert encoded[..len / bytes] == encoded[..];
    forall i | 0 <= i < len / bytes ensures Abs(encoded[i]) < INT_LIMIT {
      CryptogramAt(text, bytes, e, n, i);
      assert encoded[i] == encoded[..][i];
      EncipheredBelow(n, e, Packed(Block(text, bytes, i)));
    }
    decoded := DecodeMessage(len / bytes, bytes, encoded, d, n);
    ReturnsExactly(p, q, e, d, text);
  }

  lemma PhiBelow(p: nat, q: nat)
    requires p >= 1 && q >= 1
    ensures Phi(p, q) <= p * q
  {
    MulLe(p - 1, p, q - 1);
    MulLe(q - 1, q, p);
  }
}
