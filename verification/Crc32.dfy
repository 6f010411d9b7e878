/**
  The bitwise reflected CRC-32 of va_tr/crc.c.

  The byte loop is proved equal to a bit-serial register fed one message bit at
  a time, least significant bit first.  The checksum is the complement of the message
  polynomial's remainder modulo the generator.  The register step is xor-linear and has
  a trivial kernel, which gives the burst theorem: two messages of the same length
  that differ only inside 32 consecutive bits never share a checksum.
 */
module Crc32 {

  const POLY: bv32 := 0xEDB88320

  const ALL_ONES: bv32 := 0xFFFFFFFF

  function Xor(s: bv32, t: bv32): bv32 { s ^ t }

  function BitWord(b: bool): bv32 { if b then 1 else 0 }

  function Half(s: bv32): bv32 { s >> 1 }

  function Feedback(s: bv32): bv32 { POLY & (0 - (s & 1)) }

  /** One turn of the inner loop. */
  function Shift(s: bv32): bv32 {
    Xor(Half(s), Feedback(s))
  }

  /** `n` turns of the inner loop. */
  function Shifts(s: bv32, n: nat): bv32
    decreases n
  {
    if n == 0 then s else Shifts(Shift(s), n - 1)
  }

  /** A message bit is xored into the low end of the register, which then shifts. */
  function Step(s: bv32, b: bool): bv32 {
    Shift(Xor(s, BitWord(b)))
  }

  function Feed(s: bv32, bits: seq<bool>): bv32
    decreases |bits|
  {
    if bits == [] then s else Feed(Step(s, bits[0]), bits[1..])
  }

  predicate ByteBit(x: bv8, k: nat)
    requires k < 8
  {
    (x >> k) & 1 == 1
  }

  /** Bit `i` of a message, taking each byte from its least significant bit up. */
  predicate Bit(data: seq<bv8>, i: nat)
    requires i < 8 * |data|
  {
    ByteBit(data[i / 8], i % 8)
  }

  function Bits(data: seq<bv8>): (bits: seq<bool>)
    ensures |bits| == 8 * |data|
    ensures forall i :: 0 <= i < |bits| ==> bits[i] == Bit(data, i)
  {
    seq(8 * |data|, i requires 0 <= i < 8 * |data| => Bit(data, i))
  }

  /** The checksum as a bit-serial computation over the whole message. */
  function Checksum(data: seq<bv8>): bv32 {
    Feed(ALL_ONES, Bits(data)) ^ ALL_ONES
  }

  // ----- the register step is linear with a trivial kernel

  lemma LowBit(s: bv32)
    ensures s & 1 == 0 || s & 1 == 1
  {
  }

  lemma LowBitLinear(s: bv32, t: bv32)
    ensures (s ^ t) & 1 == (s & 1) ^ (t & 1)
  {
  }

  lemma FeedbackLinear(s: bv32, t: bv32)
    ensures Feedback(Xor(s, t)) == Xor(Feedback(s), Feedback(t))
  {
    LowBit(s);
    LowBit(t);
    LowBitLinear(s, t);
  }

  lemma HalfLinear(s: bv32, t: bv32)
    ensures Half(Xor(s, t)) == Xor(Half(s), Half(t))
  {
  }

  lemma XorAssoc(a: bv32, b: bv32, c: bv32)
    ensures Xor(Xor(a, b), c) == Xor(a, Xor(b, c))
  {
  }

  lemma XorComm(a: bv32, b: bv32)
    ensures Xor(a, b) == Xor(b, a)
  {
  }

  lemma XorSwap(a: bv32, b: bv32, c: bv32, d: bv32)
    ensures Xor(Xor(a, b), Xor(c, d)) == Xor(Xor(a, c), Xor(b, d))
  {
    hide Xor;
    XorAssoc(a, b, Xor(c, d));
    XorAssoc(b, c, d);
    XorComm(b, c);
    XorAssoc(c, b, d);
    XorAssoc(a, c, Xor(b, d));
  }

  lemma ShiftLinear(s: bv32, t: bv32)
    ensures Shift(Xor(s, t)) == Xor(Shift(s), Shift(t))
  {
    hide Feedback, Half, Xor;
    HalfLinear(s, t);
    FeedbackLinear(s, t);
    XorSwap(Half(s), Half(t), Feedback(s), Feedback(t));
  }

  lemma BitWordLinear(a: bool, b: bool)
    ensures BitWord(a != b) == Xor(BitWord(a), BitWord(b))
  {
  }

  lemma StepLinear(s: bv32, t: bv32, a: bool, b: bool)
    ensures Step(Xor(s, t), a != b) == Xor(Step(s, a), Step(t, b))
  {
    hide Shift, Xor, BitWord;
    BitWordLinear(a, b);
    XorSwap(s, t, BitWord(a), BitWord(b));
    ShiftLinear(Xor(s, BitWord(a)), Xor(t, BitWord(b)));
  }

  lemma ShiftKernel(s: bv32)
    ensures Shift(s) == 0 <==> s == 0
  {
    LowBit(s);
  }

  lemma {:induction false} ShiftsKernel(s: bv32, n: nat)
    ensures Shifts(s, n) == 0 <==> s == 0
    decreases n
  {
    if n > 0 {
      ShiftKernel(s);
      ShiftsKernel(Shift(s), n - 1);
    }
  }

  function Difference(u: seq<bool>, v: seq<bool>): (w: seq<bool>)
    requires |u| == |v|
    ensures |w| == |u|
    ensures forall i :: 0 <= i < |w| ==> w[i] == (u[i] != v[i])
  {
    seq(|u|, i requires 0 <= i < |u| => u[i] != v[i])
  }

  /** Feeding is linear in register and message together. */
  lemma {:induction false} FeedLinear(s: bv32, t: bv32, u: seq<bool>, v: seq<bool>)
    requires |u| == |v|
    ensures Feed(Xor(s, t), Difference(u, v)) == Xor(Feed(s, u), Feed(t, v))
    decreases |u|
  {
    hide Step, Xor;
    if u != [] {
      StepLinear(s, t, u[0], v[0]);
      assert Difference(u, v)[1..] == Difference(u[1..], v[1..]);
      FeedLinear(Step(s, u[0]), Step(t, v[0]), u[1..], v[1..]);
    }
  }

  lemma {:induction false} FeedAppend(s: bv32, u: seq<bool>, v: seq<bool>)
    ensures Feed(s, u + v) == Feed(Feed(s, u), v)
    decreases |u|
  {
    hide Step;
    if u == [] {
      assert u + v == v;
    } else {
      assert (u + v)[1..] == u[1..] + v;
      FeedAppend(Step(s, u[0]), u[1..], v);
    }
  }

  predicate AllClear(bits: seq<bool>) {
    forall i :: 0 <= i < |bits| ==> !bits[i]
  }

  lemma StepClear(s: bv32)
    ensures Step(s, false) == Shift(s)
  {
    hide Shift;
    assert s ^ 0 == s;
  }

  lemma {:induction false} FeedZeros(s: bv32, bits: seq<bool>)
    requires AllClear(bits)
    ensures Feed(s, bits) == Shifts(s, |bits|)
    decreases |bits|
  {
    hide Step, Shift;
    if bits != [] {
      StepClear(s);
      FeedZeros(Shift(s), bits[1..]);
    }
  }

  // ----- up to 32 bits can be xored in at once

  function WordCons(b: bool, w: bv32): bv32 {
    BitWord(b) | (w << 1)
  }

  /** The bits as one word, first bit least significant. */
  function Word(bits: seq<bool>): bv32 {
    if bits == [] then 0 else WordCons(bits[0], Word(bits[1..]))
  }

  const TOP: bv32 := 0x80000000

  function Double(w: bv32): bv32 { w << 1 }

  /** All bits at position `n` and above. */
  function HighMask(n: nat): bv32 {
    if n == 0 then 0xFFFFFFFF else Double(HighMask(n - 1))
  }

  predicate Inside(x: bv32, y: bv32) { x & y == x }

  lemma DoubleInside(x: bv32, y: bv32)
    requires Inside(x, y)
    ensures Inside(Double(x), Double(y))
  {
    DoubleAnd(x, y);
  }

  lemma DoubleAnd(x: bv32, y: bv32)
    ensures (x << 1) & (y << 1) == (x & y) << 1
  {
  }

  lemma InsideTransitive(x: bv32, y: bv32, z: bv32)
    requires Inside(x, y) && Inside(y, z)
    ensures Inside(x, z)
  {
    assert (x & y) & z == x & (y & z);
  }

  lemma {:induction false} HighMaskNested(n: nat)
    ensures Inside(HighMask(n + 1), HighMask(n))
  {
    hide Inside, Double;
    if n == 0 {
      FirstMask();
    } else {
      HighMaskNested(n - 1);
      DoubleInside(HighMask(n), HighMask(n - 1));
    }
  }

  lemma FirstMask()
    ensures Inside(Double(ALL_ONES), ALL_ONES)
  {
  }

  lemma LastMask()
    ensures HighMask(31) == TOP
  {
    assert HighMask(4) == 0xFFFFFFF0;
    assert HighMask(8) == 0xFFFFFF00;
    assert HighMask(12) == 0xFFFFF000;
    assert HighMask(16) == 0xFFFF0000;
    assert HighMask(20) == 0xFFF00000;
    assert HighMask(24) == 0xFF000000;
    assert HighMask(28) == 0xF0000000;
  }

  lemma {:induction false} HighMaskTop(n: nat)
    requires n < 32
    ensures Inside(TOP, HighMask(n))
    decreases 32 - n
  {
    if n == 31 {
      LastMask();
    } else {
      hide Inside, HighMask;
      HighMaskTop(n + 1);
      HighMaskNested(n);
      InsideTransitive(TOP, HighMask(n + 1), HighMask(n));
    }
  }

  predicate Clear(w: bv32, mask: bv32) { w & mask == 0 }

  lemma ClearInside(w: bv32, x: bv32, y: bv32)
    requires Clear(w, y) && Inside(x, y)
    ensures Clear(w, x)
  {
    assert w & (x & y) == (w & y) & x;
  }

  lemma ClearCons(b: bool, w: bv32, mask: bv32)
    requires Clear(w, mask)
    ensures Clear(WordCons(b, w), Double(mask))
  {
    assert (w << 1) & (mask << 1) == (w & mask) << 1;
  }

  predicate TopClear(w: bv32) { Clear(w, TOP) }

  lemma {:induction false} WordFits(bits: seq<bool>)
    ensures Clear(Word(bits), HighMask(|bits|))
  {
    hide WordCons, Double;
    if bits != [] {
      WordFits(bits[1..]);
      ClearCons(bits[0], Word(bits[1..]), HighMask(|bits| - 1));
    }
  }

  lemma WordTopClear(bits: seq<bool>)
    requires |bits| < 32
    ensures TopClear(Word(bits))
  {
    WordFits(bits);
    HighMaskTop(|bits|);
    ClearInside(Word(bits), TOP, HighMask(|bits|));
  }

  lemma WordConsXor(s: bv32, b: bool, w: bv32)
    ensures Xor(s, WordCons(b, w)) == Xor(Xor(s, BitWord(b)), w << 1)
  {
    if b {
      assert s ^ (1 | (w << 1)) == (s ^ 1) ^ (w << 1);
    } else {
      assert s ^ (0 | (w << 1)) == (s ^ 0) ^ (w << 1);
    }
  }

  lemma ShiftDoubled(w: bv32)
    requires TopClear(w)
    ensures Shift(w << 1) == w
  {
  }

  /** Shifting after a whole word was xored in absorbs the word's lowest bit. */
  lemma ShiftWord(s: bv32, b: bool, w: bv32)
    requires TopClear(w)
    ensures Shift(Xor(s, WordCons(b, w))) == Xor(Step(s, b), w)
  {
    hide Shift, Xor, WordCons, BitWord, TopClear;
    WordConsXor(s, b, w);
    ShiftLinear(Xor(s, BitWord(b)), w << 1);
    ShiftDoubled(w);
  }

  lemma {:induction false} FeedWord(s: bv32, bits: seq<bool>)
    requires |bits| <= 32
    ensures Feed(s, bits) == Shifts(Xor(s, Word(bits)), |bits|)
    decreases |bits|
  {
    if bits == [] {
      assert s ^ 0 == s;
    } else {
      hide Step, Xor, Shift, WordCons, TopClear;
      var rest := bits[1..];
      WordTopClear(rest);
      ShiftWord(s, bits[0], Word(rest));
      FeedWord(Step(s, bits[0]), rest);
    }
  }

  lemma WordConsZero(b: bool, w: bv32)
    requires TopClear(w)
    ensures WordCons(b, w) == 0 <==> !b && w == 0
  {
  }

  lemma {:induction false} WordZero(bits: seq<bool>)
    requires |bits| <= 32
    ensures Word(bits) == 0 <==> AllClear(bits)
    decreases |bits|
  {
    hide WordCons, TopClear;
    if bits != [] {
      var rest := bits[1..];
      WordTopClear(rest);
      WordConsZero(bits[0], Word(rest));
      WordZero(rest);
      assert bits == [bits[0]] + rest;
    }
  }

  // ----- bursts

  /** A non-zero register survives any number of clear bits. */
  lemma ZerosKeep(s: bv32, bits: seq<bool>)
    requires AllClear(bits)
    ensures Feed(s, bits) == 0 <==> s == 0
  {
    FeedZeros(s, bits);
    ShiftsKernel(s, |bits|);
  }

  lemma XorZero(w: bv32)
    ensures Xor(0, w) == w && Xor(w, w) == 0
  {
  }

  lemma WindowSurvives(burst: seq<bool>)
    requires |burst| <= 32 && !AllClear(burst)
    ensures Feed(0, burst) != 0
  {
    hide Xor, Step, Shift, WordCons;
    FeedWord(0, burst);
    WordZero(burst);
    XorZero(Word(burst));
    ShiftsKernel(Word(burst), |burst|);
  }

  /** A difference that is clear before and after a non-clear window of at most 32 bits. */
  lemma BurstSurvives(head: seq<bool>, burst: seq<bool>, tail: seq<bool>)
    requires AllClear(head) && AllClear(tail)
    requires |burst| <= 32 && !AllClear(burst)
    ensures Feed(0, head + (burst + tail)) != 0
  {
    hide Step, AllClear;
    FeedAppend(0, head, burst + tail);
    ZerosKeep(0, head);
    FeedAppend(0, burst, tail);
    WindowSurvives(burst);
    ZerosKeep(Feed(0, burst), tail);
  }

  /** Every set bit lies between `start` and `start + 32`. */
  predicate Windowed(diff: seq<bool>, start: nat) {
    forall i :: 0 <= i < |diff| && !(start <= i < start + 32) ==> !diff[i]
  }

  lemma InWindow(diff: seq<bool>, start: nat, i: nat)
    requires i < |diff| && diff[i] && Windowed(diff, start)
    ensures start <= i < start + 32
  {
  }

  /** Before and after its window a windowed difference is clear. */
  lemma OutsideClear(diff: seq<bool>, start: nat, stop: nat)
    requires Windowed(diff, start) && start <= stop <= |diff|
    requires stop == start + 32 || stop == |diff|
    ensures AllClear(diff[..start]) && AllClear(diff[stop..])
  {
  }

  lemma SetInside(diff: seq<bool>, start: nat, stop: nat, i: nat)
    requires start <= i < stop <= |diff| && diff[i]
    ensures !AllClear(diff[start..stop])
  {
    assert diff[start..stop][i - start];
  }

  lemma ThreeParts<T>(s: seq<T>, start: nat, stop: nat)
    requires start <= stop <= |s|
    ensures s == s[..start] + (s[start..stop] + s[stop..])
  {
  }

  /** A non-zero difference confined to a window of 32 bits leaves a non-zero register. */
  lemma WindowedDifference(diff: seq<bool>, start: nat)
    requires !AllClear(diff) && Windowed(diff, start)
    ensures Feed(0, diff) != 0
  {
    var i :| 0 <= i < |diff| && diff[i];
    hide *;
    InWindow(diff, start, i);
    var stop := if start + 32 <= |diff| then start + 32 else |diff|;
    OutsideClear(diff, start, stop);
    SetInside(diff, start, stop, i);
    BurstSurvives(diff[..start], diff[start..stop], diff[stop..]);
    ThreeParts(diff, start, stop);
  }

  lemma ByteFromBits(x: bv8, y: bv8)
    requires forall k :: 0 <= k < 8 ==> ByteBit(x, k) == ByteBit(y, k)
    ensures x == y
  {
    assert ByteBit(x, 0) == ByteBit(y, 0) && ByteBit(x, 1) == ByteBit(y, 1);
    assert ByteBit(x, 2) == ByteBit(y, 2) && ByteBit(x, 3) == ByteBit(y, 3);
    assert ByteBit(x, 4) == ByteBit(y, 4) && ByteBit(x, 5) == ByteBit(y, 5);
    assert ByteBit(x, 6) == ByteBit(y, 6) && ByteBit(x, 7) == ByteBit(y, 7);
    EightBits(x);
    EightBits(y);
  }

  lemma BitsInjective(a: seq<bv8>, b: seq<bv8>)
    requires |a| == |b| && Bits(a) == Bits(b)
    ensures a == b
  {
    hide ByteBit;
    forall n | 0 <= n < |a|
      ensures a[n] == b[n]
    {
      forall k | 0 <= k < 8
        ensures ByteBit(a[n], k) == ByteBit(b[n], k)
      {
        assert Bits(a)[8 * n + k] == Bits(b)[8 * n + k];
        assert (8 * n + k) / 8 == n && (8 * n + k) % 8 == k;
      }
      ByteFromBits(a[n], b[n]);
    }
  }

  lemma Differ(a: seq<bv8>, b: seq<bv8>)
    requires |a| == |b| && a != b
    ensures !AllClear(Difference(Bits(a), Bits(b)))
  {
    hide Bit;
    var diff := Difference(Bits(a), Bits(b));
    if AllClear(diff) {
      forall i | 0 <= i < 8 * |a|
        ensures Bits(a)[i] == Bits(b)[i]
      {
        assert !diff[i];
      }
      assert Bits(a) == Bits(b);
      BitsInjective(a, b);
    }
  }

  /** The xor of two checksums is the register fed with the difference of the messages. */
  lemma ChecksumDifference(a: seq<bv8>, b: seq<bv8>)
    requires |a| == |b|
    ensures Xor(Checksum(a), Checksum(b)) == Feed(0, Difference(Bits(a), Bits(b)))
  {
    hide Feed, Xor, Bits;
    FeedLinear(ALL_ONES, ALL_ONES, Bits(a), Bits(b));
    XorZero(ALL_ONES);
    XorOnes(Feed(ALL_ONES, Bits(a)), Feed(ALL_ONES, Bits(b)));
  }

  /** Every error burst of at most 32 bits changes the checksum. */
  lemma BurstDetected(a: seq<bv8>, b: seq<bv8>, start: nat)
    requires |a| == |b| && a != b
    requires forall i :: 0 <= i < 8 * |a| && !(start <= i < start + 32) ==> Bit(a, i) == Bit(b, i)
    ensures Checksum(a) != Checksum(b)
  {
    hide Bit, Feed, Xor, Checksum, AllClear;
    Differ(a, b);
    WindowedDifference(Difference(Bits(a), Bits(b)), start);
    ChecksumDifference(a, b);
    XorZero(Checksum(a));
  }

  lemma XorOnes(x: bv32, y: bv32)
    ensures Xor(x ^ ALL_ONES, y ^ ALL_ONES) == Xor(x, y)
  {
  }

  // ----- the checksum as a polynomial remainder

  /** The exponents of the generator polynomial. */
  const GENERATOR: set<nat> := {32, 26, 23, 22, 16, 12, 11, 10, 8, 7, 5, 4, 2, 1, 0}

  // A polynomial over the two-element field is written as its coefficients, highest power first.

  function Zeros(n: nat): (p: seq<bool>)
    ensures |p| == n
  {
    seq(n, _ => false)
  }

  function Ones(n: nat): (p: seq<bool>)
    ensures |p| == n
  {
    seq(n, _ => true)
  }

  /** The generator times the power of x that gives it `n` coefficients. */
  function Aligned(n: nat): (p: seq<bool>)
    requires n > 32
    ensures |p| == n
  {
    seq(n, k requires 0 <= k < n => k <= 32 && 32 - k in GENERATOR)
  }

  /** One step of long division: the leading coefficient is cancelled and dropped. */
  function Cancelled(p: seq<bool>): (r: seq<bool>)
    requires |p| > 32
    ensures |r| == |p| - 1
  {
    (if p[0] then Difference(p, Aligned(|p|)) else p)[1..]
  }

  /** The remainder of long division by the generator. */
  function Remainder(p: seq<bool>): (r: seq<bool>)
    requires |p| >= 32
    ensures |r| == 32
    decreases |p|
  {
    if |p| == 32 then p else Remainder(Cancelled(p))
  }

  /** The product of `q` and the generator. */
  function Times(q: seq<bool>): (p: seq<bool>)
    ensures |p| == |q| + 32
  {
    if q == [] then Zeros(32)
    else Difference(if q[0] then Aligned(|q| + 32) else Zeros(|q| + 32), [false] + Times(q[1..]))
  }

  /** Some multiple of the generator and `r` make up `p`. */
  ghost predicate Leaves(p: seq<bool>, q: seq<bool>, r: seq<bool>) {
    |r| == 32 && |p| == |q| + 32 && p == Difference(Times(q), Zeros(|q|) + r)
  }

  lemma TimesAt(q: seq<bool>, k: nat)
    requires q != [] && k < |q| + 32
    ensures Times(q)[k] == ((q[0] && Aligned(|q| + 32)[k]) != (k > 0 && Times(q[1..])[k - 1]))
  {
    TimesIs(q);
    hide Aligned, Times;
    var first, rest := if q[0] then Aligned(|q| + 32) else Zeros(|q| + 32), [false] + Times(q[1..]);
    assert Difference(first, rest)[k] == (first[k] != rest[k]);
  }

  lemma TimesIs(q: seq<bool>)
    requires q != []
    ensures Times(q) == Difference(if q[0] then Aligned(|q| + 32) else Zeros(|q| + 32), [false] + Times(q[1..]))
  {
    hide Aligned, Zeros;
  }

  lemma AlignedFirst(n: nat)
    requires n > 32
    ensures Aligned(n)[0]
  {
  }

  lemma CancelledAt(p: seq<bool>, k: nat)
    requires |p| > 32 && k < |p| - 1
    ensures Cancelled(p)[k] == (p[k + 1] != (p[0] && Aligned(|p|)[k + 1]))
  {
    hide Aligned;
  }

  lemma ZerosThen(n: nat, r: seq<bool>, k: nat)
    requires k < n + |r|
    ensures (Zeros(n) + r)[k] == (k >= n && r[k - n])
  {
  }

  /** Coefficient `k` of a quotient times the generator and a remainder. */
  ghost predicate Made(q: seq<bool>, r: seq<bool>, k: nat)
    requires |r| == 32 && k < |q| + 32
  {
    Times(q)[k] != (k >= |q| && r[k - |q|])
  }

  lemma LeavesIs(p: seq<bool>, q: seq<bool>, r: seq<bool>)
    requires |p| == |q| + 32 && |r| == 32
    ensures Leaves(p, q, r) <==> forall k :: 0 <= k < |p| ==> p[k] == Made(q, r, k)
  {
    hide Times, Zeros;
    var d := Difference(Times(q), Zeros(|q|) + r);
    forall k | 0 <= k < |q| + 32
      ensures d[k] == Made(q, r, k)
    {
      ZerosThen(|q|, r, k);
    }
  }

  lemma MadeFirst(q: seq<bool>, r: seq<bool>)
    requires |r| == 32 && q != []
    ensures Made(q, r, 0) == q[0]
  {
    hide Times, Aligned;
    TimesAt(q, 0);
    AlignedFirst(|q| + 32);
  }

  /** The other coefficients are those of one step of long division. */
  lemma MadeRest(p: seq<bool>, q: seq<bool>, r: seq<bool>, k: nat)
    requires |p| == |q| + 32 && |r| == 32 && q != [] && k + 1 < |p| && p[0] == q[0]
    ensures p[k + 1] == Made(q, r, k + 1) <==> Cancelled(p)[k] == Made(q[1..], r, k)
  {
    hide Times, Aligned, Cancelled;
    TimesAt(q, k + 1);
    CancelledAt(p, k);
  }

  /** A step of long division takes the first coefficient of the quotient. */
  lemma LeavesTail(p: seq<bool>, q: seq<bool>, r: seq<bool>)
    requires |p| == |q| + 32 && |r| == 32 && q != []
    ensures Leaves(p, q, r) <==> p[0] == q[0] && Leaves(Cancelled(p), q[1..], r)
  {
    hide Leaves, Made, Cancelled;
    LeavesIs(p, q, r);
    LeavesIs(Cancelled(p), q[1..], r);
    MadeFirst(q, r);
    if p[0] == q[0] {
      forall k | 0 <= k < |p| - 1
        ensures p[k + 1] == Made(q, r, k + 1) <==> Cancelled(p)[k] == Made(q[1..], r, k)
      {
        MadeRest(p, q, r, k);
      }
    }
    if p[0] == q[0] && Leaves(Cancelled(p), q[1..], r) {
      forall k | 0 < k < |p|
        ensures p[k] == Made(q, r, k)
      {
        assert Cancelled(p)[k - 1] == Made(q[1..], r, k - 1);
      }
    }
  }

  /** The coefficients that long division finds. */
  function Quotient(p: seq<bool>): (q: seq<bool>)
    requires |p| >= 32
    ensures |q| == |p| - 32
    decreases |p|
  {
    if |p| == 32 then [] else [p[0]] + Quotient(Cancelled(p))
  }

  lemma QuotientIs(p: seq<bool>)
    requires |p| > 32
    ensures Quotient(p) == [p[0]] + Quotient(Cancelled(p)) && Remainder(p) == Remainder(Cancelled(p))
  {
    hide Cancelled;
  }

  /** Quotient and remainder make up the dividend, and no other remainder of degree below 32 does. */
  lemma {:induction false} DivisionExactly(p: seq<bool>, q: seq<bool>, r: seq<bool>)
    requires |p| == |q| + 32 && |r| == 32
    ensures Leaves(p, q, r) <==> q == Quotient(p) && r == Remainder(p)
    decreases |p|
  {
    if q == [] {
      assert Difference(Times(q), Zeros(0) + r) == r;
    } else {
      LeavesTail(p, q, r);
      DivisionExactly(Cancelled(p), q[1..], r);
      QuotientIs(p);
      hide *;
      assert q == [q[0]] + q[1..];
      assert ([p[0]] + Quotient(Cancelled(p)))[1..] == Quotient(Cancelled(p));
    }
  }

  /** The message times x^32, with ones added to its first 32 coefficients. */
  function Dividend(start: seq<bool>, message: seq<bool>): (p: seq<bool>)
    requires |start| == 32
    ensures |p| == |message| + 32
  {
    Difference(start + Zeros(|message|), message + Zeros(32))
  }

  // A register holds the coefficients of x^31 to x^0 from its least significant bit up.

  /** The generator's coefficients below x^32 as a register. */
  function Lower(): (c: seq<bool>)
    ensures |c| == 32
  {
    seq(32, k requires 0 <= k < 32 => 31 - k in GENERATOR)
  }

  lemma ConsOne(w: bv32)
    ensures WordCons(true, w) == 1 ^ (w << 1)
  {
  }

  lemma ConsZero(w: bv32)
    ensures WordCons(false, w) == 0 ^ (w << 1)
  {
  }

  lemma WordConsIs(b: bool, w: bv32)
    ensures WordCons(b, w) == Xor(BitWord(b), Double(w))
  {
    if b {
      ConsOne(w);
    } else {
      ConsZero(w);
    }
    hide WordCons;
  }

  lemma DoubleLinear(v: bv32, w: bv32)
    ensures Double(Xor(v, w)) == Xor(Double(v), Double(w))
  {
  }

  lemma WordConsLinear(a: bool, b: bool, v: bv32, w: bv32)
    ensures WordCons(a != b, Xor(v, w)) == Xor(WordCons(a, v), WordCons(b, w))
  {
    hide *;
    WordConsIs(a != b, Xor(v, w));
    WordConsIs(a, v);
    WordConsIs(b, w);
    BitWordLinear(a, b);
    DoubleLinear(v, w);
    XorSwap(BitWord(a), BitWord(b), Double(v), Double(w));
  }

  lemma {:induction false} WordLinear(u: seq<bool>, v: seq<bool>)
    requires |u| == |v|
    ensures Word(Difference(u, v)) == Xor(Word(u), Word(v))
  {
    hide WordCons, Xor;
    if u == [] {
      XorZero(0);
    } else {
      var d := Difference(u, v);
      assert d[1..] == Difference(u[1..], v[1..]);
      WordLinear(u[1..], v[1..]);
      WordConsLinear(u[0], v[0], Word(u[1..]), Word(v[1..]));
    }
  }

  lemma WordConsNone()
    ensures WordCons(false, 0) == 0
  {
  }

  lemma {:induction false} WordPadded(bits: seq<bool>)
    ensures Word(bits + [false]) == Word(bits)
  {
    hide WordCons;
    WordConsNone();
    if bits == [] {
      assert ([false])[1..] == [];
    } else {
      WordPadded(bits[1..]);
      assert (bits + [false])[1..] == bits[1..] + [false];
    }
  }

  lemma ConsTo(b: bool, w: bv32, r: bv32)
    requires r == (if b then 1 else 0) ^ (w << 1)
    ensures WordCons(b, w) == r
  {
    if b {
      ConsOne(w);
    } else {
      ConsZero(w);
    }
    hide WordCons;
  }

  lemma LowerTurn(k: nat, b: bool, w: bv32, r: bv32)
    requires k < 32 && b == (31 - k in GENERATOR) && r == (if b then 1 else 0) ^ (w << 1)
    requires Word(Lower()[k + 1..]) == w
    ensures Word(Lower()[k..]) == r
  {
    LowerAt(k);
    hide *;
    WordUnfold(Lower(), k);
    ConsTo(b, w, r);
  }

  lemma LowerAt(k: nat)
    requires k < 32
    ensures Lower()[k] == (31 - k in GENERATOR)
  {
  }

  lemma LowerFrom24()
    ensures Word(Lower()[24..]) == 0xED
  {
    assert Lower()[32..] == [];
    WordEmpty();
    hide Lower, Word;
    LowerTurn(31, true, 0x0, 0x1);
    LowerTurn(30, true, 0x1, 0x3);
    LowerTurn(29, true, 0x3, 0x7);
    LowerTurn(28, false, 0x7, 0xE);
    LowerTurn(27, true, 0xE, 0x1D);
    LowerTurn(26, true, 0x1D, 0x3B);
    LowerTurn(25, false, 0x3B, 0x76);
    LowerTurn(24, true, 0x76, 0xED);
  }

  lemma LowerFrom16()
    ensures Word(Lower()[16..]) == 0xEDB8
  {
    LowerFrom24();
    hide Lower, Word;
    LowerTurn(23, true, 0xED, 0x1DB);
    LowerTurn(22, false, 0x1DB, 0x3B6);
    LowerTurn(21, true, 0x3B6, 0x76D);
    LowerTurn(20, true, 0x76D, 0xEDB);
    LowerTurn(19, true, 0xEDB, 0x1DB7);
    LowerTurn(18, false, 0x1DB7, 0x3B6E);
    LowerTurn(17, false, 0x3B6E, 0x76DC);
    LowerTurn(16, false, 0x76DC, 0xEDB8);
  }

  lemma LowerFrom8()
    ensures Word(Lower()[8..]) == 0xEDB883
  {
    LowerFrom16();
    hide Lower, Word;
    LowerTurn(15, true, 0xEDB8, 0x1DB71);
    LowerTurn(14, false, 0x1DB71, 0x3B6E2);
    LowerTurn(13, false, 0x3B6E2, 0x76DC4);
    LowerTurn(12, false, 0x76DC4, 0xEDB88);
    LowerTurn(11, false, 0xEDB88, 0x1DB710);
    LowerTurn(10, false, 0x1DB710, 0x3B6E20);
    LowerTurn(9, true, 0x3B6E20, 0x76DC41);
    LowerTurn(8, true, 0x76DC41, 0xEDB883);
  }

  lemma LowerFrom0()
    ensures Word(Lower()[0..]) == 0xEDB88320
  {
    LowerFrom8();
    hide Lower, Word;
    LowerTurn(7, false, 0xEDB883, 0x1DB7106);
    LowerTurn(6, false, 0x1DB7106, 0x3B6E20C);
    LowerTurn(5, true, 0x3B6E20C, 0x76DC419);
    LowerTurn(4, false, 0x76DC419, 0xEDB8832);
    LowerTurn(3, false, 0xEDB8832, 0x1DB71064);
    LowerTurn(2, false, 0x1DB71064, 0x3B6E20C8);
    LowerTurn(1, false, 0x3B6E20C8, 0x76DC4190);
    LowerTurn(0, false, 0x76DC4190, 0xEDB88320);
  }

  /** The source's constant is the generator without x^32, x^31 in its least significant bit. */
  lemma LowerWord()
    ensures Word(Lower()) == POLY
  {
    LowerFrom0();
    hide Word, Lower;
    assert Lower()[0..] == Lower();
  }

  lemma {:induction false} WordOnes(n: nat)
    requires n <= 32
    ensures Word(Ones(n)) == !HighMask(n)
  {
    hide WordCons, Double;
    if n == 0 {
      NoOnes();
    } else {
      assert Ones(n)[1..] == Ones(n - 1);
      WordOnes(n - 1);
      OnesMore(HighMask(n - 1));
    }
  }

  lemma NoOnes()
    ensures !HighMask(0) == 0
  {
  }

  lemma OnesMore(mask: bv32)
    ensures WordCons(true, !mask) == !Double(mask)
  {
  }

  lemma OnesWord()
    ensures Word(Ones(32)) == ALL_ONES
  {
    WordOnes(32);
    LastMask();
    hide Word;
    assert HighMask(32) == Double(HighMask(31));
  }

  lemma ShiftOne(d: bool)
    ensures Shift(BitWord(d)) == if d then POLY else 0
  {
  }

  lemma StepBits(a: bool, b: bool)
    ensures Step(BitWord(a), b) == if a != b then POLY else 0
  {
    hide Shift, Xor, BitWord;
    BitWordLinear(a, b);
    ShiftOne(a != b);
  }

  /** The coefficients after one more message bit. */
  function Divided(c: seq<bool>, b: bool): (r: seq<bool>)
    requires |c| == 32
    ensures |r| == 32
  {
    Difference(c[1..] + [false], if c[0] != b then Lower() else Zeros(32))
  }

  lemma NoWord()
    ensures Word(Zeros(32)) == 0
  {
    hide WordCons;
    WordZero(Zeros(32));
  }

  lemma DividedStep(c: seq<bool>, b: bool)
    requires |c| == 32
    ensures Word(Divided(c, b)) == Step(Word(c), b)
  {
    var w := Word(c[1..]);
    WordTopClear(c[1..]);
    WordLinear(c[1..] + [false], if c[0] != b then Lower() else Zeros(32));
    WordPadded(c[1..]);
    LowerWord();
    NoWord();
    hide Lower, Xor, Shift, WordCons, TopClear, BitWord;
    ShiftWord(BitWord(b), c[0], w);
    StepBits(b, c[0]);
    XorComm(BitWord(b), Word(c));
    XorComm(w, if c[0] != b then POLY else 0);
  }

  lemma LowerIs(n: nat, k: nat)
    requires n > 32 && k < n - 1
    ensures Aligned(n)[k + 1] == (k < 32 && Lower()[k])
  {
  }

  /** One step of long division of the dividend is one step of the register's coefficients. */
  lemma DividendStep(c: seq<bool>, bits: seq<bool>)
    requires |c| == 32 && bits != []
    ensures Cancelled(Dividend(c, bits)) == Dividend(Divided(c, bits[0]), bits[1..])
  {
    var p, p' := Dividend(c, bits), Dividend(Divided(c, bits[0]), bits[1..]);
    forall k | 0 <= k < |p| - 1
      ensures Cancelled(p)[k] == p'[k]
    {
      CancelledAt(p, k);
      LowerIs(|p|, k);
      hide Cancelled, Aligned, Lower;
      if k < 32 {
        assert (Divided(c, bits[0]) + Zeros(|bits| - 1))[k] == Divided(c, bits[0])[k];
      }
    }
  }

  lemma FirstDividend(c: seq<bool>)
    requires |c| == 32
    ensures Dividend(c, []) == c
  {
  }

  /** The register is the remainder of the message behind the register's own coefficients. */
  lemma {:induction false} FeedIsRemainder(c: seq<bool>, bits: seq<bool>)
    requires |c| == 32
    ensures Feed(Word(c), bits) == Word(Remainder(Dividend(c, bits)))
    decreases |bits|
  {
    hide Word, Step, Cancelled, Divided, Dividend;
    if bits == [] {
      FirstDividend(c);
    } else {
      DividedStep(c, bits[0]);
      DividendStep(c, bits);
      FeedIsRemainder(Divided(c, bits[0]), bits[1..]);
    }
  }

  /**
    The checksum is the complement of the remainder of the message polynomial, first bit highest,
    times x^32 with ones in its first 32 coefficients, modulo the generator.
   */
  lemma ChecksumIsRemainder(data: seq<bv8>)
    ensures Checksum(data) == Word(Difference(Ones(32), Remainder(Dividend(Ones(32), Bits(data)))))
  {
    OnesWord();
    var r := Remainder(Dividend(Ones(32), Bits(data)));
    FeedIsRemainder(Ones(32), Bits(data));
    WordLinear(Ones(32), r);
    hide Word, Feed, Remainder, Dividend, Bits;
    XorComm(ALL_ONES, Word(r));
  }

  // ----- the byte loop

  function ByteWord(x: bv8): bv32 { x as bv32 }

  lemma EightBits(x: bv8)
    ensures ByteWord(x) ==
      WordCons(ByteBit(x, 0), WordCons(ByteBit(x, 1), WordCons(ByteBit(x, 2), WordCons(ByteBit(x, 3),
      WordCons(ByteBit(x, 4), WordCons(ByteBit(x, 5), WordCons(ByteBit(x, 6), WordCons(ByteBit(x, 7), 0))))))))
  {
  }

  lemma WordUnfold(bits: seq<bool>, k: nat)
    requires k < |bits|
    ensures Word(bits[k..]) == WordCons(bits[k], Word(bits[k + 1..]))
  {
    assert bits[k..][1..] == bits[k + 1..];
  }

  lemma WordEmpty()
    ensures Word([]) == 0
  {
  }

  lemma WordOfByte(x: bv8)
    ensures Word(Bits([x])) == ByteWord(x)
  {
    hide WordCons, ByteBit, ByteWord, Word;
    WordEmpty();
    var b := Bits([x]);
    assert b[0..] == b;
    assert b[8..] == [];
    WordUnfold(b, 0);
    WordUnfold(b, 1);
    WordUnfold(b, 2);
    WordUnfold(b, 3);
    WordUnfold(b, 4);
    WordUnfold(b, 5);
    WordUnfold(b, 6);
    WordUnfold(b, 7);
    EightBits(x);
  }

  /** The register after a byte is the register fed with the byte's eight bits. */
  lemma ByteFed(s: bv32, x: bv8)
    ensures Shifts(Xor(s, ByteWord(x)), 8) == Feed(s, Bits([x]))
  {
    hide Xor, Step, ByteWord, Word;
    WordOfByte(x);
    FeedWord(s, Bits([x]));
  }

  lemma {:induction false} ShiftsSnoc(s: bv32, n: nat)
    ensures Shifts(s, n + 1) == Shift(Shifts(s, n))
    decreases n
  {
    hide Shift;
    if n > 0 {
      ShiftsSnoc(Shift(s), n - 1);
    }
  }

  lemma BitsAppend(a: seq<bv8>, b: seq<bv8>)
    ensures Bits(a + b) == Bits(a) + Bits(b)
  {
    hide ByteBit;
    forall i | 0 <= i < 8 * |a + b|
      ensures Bits(a + b)[i] == (Bits(a) + Bits(b))[i]
    {
      if i >= 8 * |a| {
        assert i / 8 == |a| + (i - 8 * |a|) / 8 && i % 8 == (i - 8 * |a|) % 8;
      }
    }
  }

  lemma MessageExtended(data: seq<bv8>, x: bv8)
    ensures Feed(ALL_ONES, Bits(data + [x])) == Shifts(Xor(Feed(ALL_ONES, Bits(data)), ByteWord(x)), 8)
  {
    hide Xor, Step, ByteWord, ByteBit;
    BitsAppend(data, [x]);
    FeedAppend(ALL_ONES, Bits(data), Bits([x]));
    ByteFed(Feed(ALL_ONES, Bits(data)), x);
  }

  /** crc32(ptr, len): the byte-at-a-time loop computes the bit-serial checksum. */
  method Crc(ptr: array<bv8>, len: nat) returns (crc: bv32)
    requires len <= ptr.Length
    ensures crc == Checksum(ptr[..len])
  {
    hide Xor, ByteWord, Step, ByteBit, Half, Feedback;
    crc := ALL_ONES;
    var i := 0;
    while i < len
      invariant 0 <= i <= len
      invariant crc == Feed(ALL_ONES, Bits(ptr[..i]))
    {
      ghost var before := crc;
      crc := Xor(crc, ByteWord(ptr[i]));
      ghost var mixed := crc;
      var j := 8;
      while j > 0
        invariant 0 <= j <= 8
        invariant crc == Shifts(mixed, 8 - j)
      {
        ShiftsSnoc(mixed, 8 - j);
        crc := Xor(Half(crc), Feedback(crc));
        j := j - 1;
      }
      MessageExtended(ptr[..i], ptr[i]);
      assert ptr[..i + 1] == ptr[..i] + [ptr[i]];
      i := i + 1;
    }
    crc := crc ^ ALL_ONES;
  }
}
