/**
  kvm_get_time_scale of va_tr/kvm/x86.c: the loop pair that turns a frequency
  ratio into a 32-bit fixed-point multiplier and a power-of-two shift.

  Machine words are natural numbers; the one product that can wrap,
  `scaled64*2`, is reduced modulo 2^64 as the code does.
 */
module TimeScale {

  import opened Arith

  const TWO32: nat := 0x1_0000_0000

  const TWO64: nat := 0x1_0000_0000_0000_0000

  function Pow2(n: nat): (p: nat)
    ensures p >= 1
  {
    if n == 0 then 1 else 2 * Pow2(n - 1)
  }

  lemma {:induction false} Pow2Monotone(m: nat, n: nat)
    requires m <= n
    ensures Pow2(m) <= Pow2(n)
    decreases n
  {
    if m < n {
      Pow2Monotone(m, n - 1);
    }
  }

  lemma Pow2Values()
    ensures Pow2(32) == TWO32 && Pow2(64) == TWO64
  {
    assert Pow2(8) == 0x100;
    assert Pow2(16) == 0x1_0000;
    assert Pow2(24) == 0x100_0000;
    assert Pow2(32) == 0x1_0000_0000;
    assert Pow2(40) == 0x100_0000_0000;
    assert Pow2(48) == 0x1_0000_0000_0000;
    assert Pow2(56) == 0x100_0000_0000_0000;
  }

  lemma Pow2Bound(n: nat, bits: nat, x: nat)
    requires Pow2(n) <= x < Pow2(bits)
    ensures n < bits
  {
    if n >= bits {
      Pow2Monotone(bits, n);
    }
  }

  /** `x` shifted right `n` times. */
  function Shr(x: nat, n: nat): nat {
    if n == 0 then x else Shr(x, n - 1) / 2
  }

  lemma HalfStep(h: nat, p: nat)
    ensures (h / 2) * (2 * p) <= h * p
    ensures (h + 1) * p <= (h / 2 + 1) * (2 * p)
  {
    var g := h / 2;
    assert g * (2 * p) == (2 * g) * p;
    assert (g + 1) * (2 * p) == (2 * g + 2) * p;
    MulLe(2 * g, h, p);
    MulLe(h + 1, 2 * g + 2, p);
  }

  lemma {:induction false} ShrBelow(x: nat, n: nat)
    ensures Shr(x, n) * Pow2(n) <= x < (Shr(x, n) + 1) * Pow2(n)
  {
    if n > 0 {
      ShrBelow(x, n - 1);
      HalfStep(Shr(x, n - 1), Pow2(n - 1));
    }
  }

  lemma ShrCount(x: nat, n: nat)
    requires 0 < Shr(x, n) && x < TWO64
    ensures n < 64
  {
    ShrBelow(x, n);
    MulLe(1, Shr(x, n), Pow2(n));
    Pow2Values();
    Pow2Bound(n, 64, x);
  }

  // ----- the two loops, one turn at a time

  /** The wrapped product the first guard compares with. */
  function Twice(scaled: nat): nat { (2 * scaled) % TWO64 }

  predicate Guard1(tps: nat, scaled: nat) {
    tps > Twice(scaled) || tps >= TWO32
  }

  predicate Guard2(tps: nat, scaled: nat) {
    tps <= scaled || scaled >= TWO32
  }

  function Turn2(tps: nat, scaled: nat): (nat, nat) {
    if scaled >= TWO32 || tps >= TWO32 / 2 then (tps, scaled / 2) else (2 * tps % TWO32, scaled)
  }

  function Turns2(tps: nat, scaled: nat, n: nat): (nat, nat)
    decreases n
  {
    if n == 0 then (tps, scaled) else
      var (t, s) := Turn2(tps, scaled);
      Turns2(t, s, n - 1)
  }

  /** `n` is the number of turns after which the first loop leaves. */
  ghost predicate Leaves1(base: nat, scaled: nat, n: nat) {
    && !Guard1(Shr(base, n), scaled)
    && forall k :: 0 <= k < n ==> Guard1(Shr(base, k), scaled)
  }

  ghost predicate Leaves2(tps: nat, scaled: nat, n: nat) {
    var (t, s) := Turns2(tps, scaled, n);
    !Guard2(t, s)
  }

  /** The pair of loops runs to completion on these frequencies. */
  ghost predicate Halts(scaled: nat, base: nat) {
    exists n, m :: Leaves1(base, scaled, n) && Leaves2(Shr(base, n), scaled, m)
  }

  // ----- termination, exactly

  lemma {:induction false} Loop1Leaves(base: nat, scaled: nat, k: nat) returns (n: nat)
    requires forall j :: 0 <= j < k ==> Guard1(Shr(base, j), scaled)
    ensures Leaves1(base, scaled, n)
    ensures base > 0 && Twice(scaled) > 0 && (k > 0 ==> Shr(base, k) > 0) ==> Shr(base, n) > 0
    decreases Shr(base, k)
  {
    if Guard1(Shr(base, k), scaled) {
      n := Loop1Leaves(base, scaled, k + 1);
    } else {
      n := k;
    }
  }

  lemma {:induction false} Loop2Leaves(tps: nat, scaled: nat) returns (n: nat)
    requires 0 < tps < TWO32
    ensures Leaves2(tps, scaled, n)
    decreases scaled, TWO32 - tps
  {
    if Guard2(tps, scaled) {
      var (t, s) := Turn2(tps, scaled);
      n := Loop2Leaves(t, s);
      n := n + 1;
    } else {
      n := 0;
    }
  }

  lemma {:induction false} ZeroNeverLeaves(scaled: nat, n: nat)
    ensures !Leaves2(0, scaled, n)
    decreases n
  {
    if n > 0 {
      var (t, s) := Turn2(0, scaled);
      ZeroNeverLeaves(s, n - 1);
    }
  }

  lemma {:induction false} ZeroShr(n: nat)
    ensures Shr(0, n) == 0
  {
    if n > 0 {
      ZeroShr(n - 1);
    }
  }

  /** The loops stop exactly when the base is non-zero and twice the target does not wrap to zero. */
  lemma HaltsExactly(scaled: nat, base: nat)
    ensures Halts(scaled, base) <==> base > 0 && Twice(scaled) > 0
  {
    if base > 0 && Twice(scaled) > 0 {
      var n := Loop1Leaves(base, scaled, 0);
      var m := Loop2Leaves(Shr(base, n), scaled);
    } else {
      forall n, m | Leaves1(base, scaled, n)
        ensures !Leaves2(Shr(base, n), scaled, m)
      {
        if base == 0 {
          ZeroShr(n);
        }
        ZeroNeverLeaves(scaled, m);
      }
    }
  }

  // ----- the function

  /** How the loops reduced the two frequencies: halvings of base, doublings of base, halvings of scaled. */
  ghost predicate Reduced(scaledHz: nat, baseHz: nat, down: nat, up: nat, cut: nat, tps: nat, scaled: nat) {
    && Leaves1(baseHz, scaledHz, down)
    && tps == Shr(baseHz, down) * Pow2(up)
    && scaled == Shr(scaledHz, cut)
  }

  /** The returned pair is the exact 32-bit quotient of two reduced frequencies with the matching shift. */
  ghost predicate Represents(scaledHz: nat, baseHz: nat, shift: int, multiplier: nat) {
    exists down: nat, up: nat, cut: nat, tps: nat, scaled: nat ::
      && Reduced(scaledHz, baseHz, down, up, cut, tps, scaled)
      && shift == up + cut - down
      && 0 < scaled < tps < TWO32
      && multiplier * tps <= scaled * TWO32 < (multiplier + 1) * tps
  }

  /** Kept by the second loop; it bounds the multiplier from below. */
  predicate NearHalf(tps: nat, scaled: nat) {
    tps <= 2 * scaled || (tps >= TWO32 / 2 && tps <= 2 * scaled + 1)
  }

  lemma QuotientBounds(tps: nat, scaled: nat, q: nat)
    requires 0 < scaled < tps < TWO32 && NearHalf(tps, scaled)
    requires q * tps <= scaled * TWO32 < (q + 1) * tps
    ensures TWO32 / 2 - 1 <= q < TWO32
  {
    MulCancelLt(q, TWO32, tps);
    var h := TWO32 / 2;
    assert (h - 1) * tps == h * tps - tps;
    MulCancelLt(h - 1, q + 1, tps);
  }

  // ----- how near the pair comes to the true ratio

  /** 2^shift is PowUp over PowDown. */
  function PowUp(shift: int): nat { if shift > 0 then Pow2(shift) else 1 }

  function PowDown(shift: int): nat { if shift < 0 then Pow2(-shift) else 1 }

  /** What the first loop keeps of the base frequency, at least: half of the wrapped guard, and at most 31 bits. */
  function Kept(scaledHz: nat): nat { if Twice(scaledHz) / 2 < TWO32 / 2 then Twice(scaledHz) / 2 else TWO32 / 2 }

  const CUT: nat := 0x4000_0000

  /** `x` exceeds `y` by at most one part in `m`. */
  predicate AtMostAbove(x: int, y: int, m: int) { x * m <= y * (m + 1) }

  /**
    multiplier * 2^(shift - 32) is too large by at most one part in Kept(scaledHz), and with
    the multiplier's last place added too small by at most one part in 2^30.
   */
  predicate Accurate(scaledHz: nat, baseHz: nat, shift: int, multiplier: nat) {
    && AtMostAbove(multiplier * PowUp(shift) * baseHz, scaledHz * TWO32 * PowDown(shift), Kept(scaledHz))
    && AtMostAbove(scaledHz * TWO32 * PowDown(shift), (multiplier + 1) * PowUp(shift) * baseHz, CUT)
  }

  lemma AboveLess(x: int, y: int, m: int, k: int)
    requires AtMostAbove(x, y, k) && 0 <= m <= k && 0 <= y
    ensures AtMostAbove(x, y, m)
  {
    if x <= y {
      MulLe(x, y, m);
    } else {
      MulLe(m, k, x - y);
      assert x * k == y * k + (x - y) * k && x * m == y * m + (x - y) * m;
    }
  }

  lemma AboveNever(x: int, y: int, m: int)
    requires x <= y && 0 <= y && 0 <= m
    ensures AtMostAbove(x, y, m)
  {
    MulLe(x, y, m);
  }

  lemma AboveCancel(x: int, y: int, m: int, f: int)
    requires f > 0 && AtMostAbove(x * f, y * f, m)
    ensures AtMostAbove(x, y, m)
  {
    assert x * f * m == x * m * f && y * f * (m + 1) == y * (m + 1) * f;
    if x * m > y * (m + 1) {
      MulLt(y * (m + 1), x * m, f);
    }
  }

  /** Swapping and regrouping factors. */
  lemma Regroup(a: int, b: int, c: int, d: int)
    ensures a * b * (c * d) == (a * c) * (b * d) && a * b * c == a * c * b && a * b * c == a * (b * c)
  {
    assert a * b * c == a * (b * c);
    assert a * b * (c * d) == a * (b * (c * d)) && b * (c * d) == c * (b * d);
    assert a * (c * (b * d)) == (a * c) * (b * d);
  }

  lemma UnderTarget(q: nat, u: nat, c: nat, b: nat, s: nat, scaled: nat, t: nat)
    requires q * (b * u) <= s * t && s * c <= scaled
    ensures q * (b * u) * c <= scaled * t
  {
    MulLe(q * (b * u), s * t, c);
    Regroup(s, t, c, 1);
    MulLe(s * c, scaled, t);
  }

  /** The quotient of the kept parts is above the true one by at most one part in the kept base. */
  lemma KeptAbove(q: nat, u: nat, c: nat, d: nat, b: nat, s: nat, base: nat, scaled: nat, t: nat)
    requires q * (b * u) <= s * t && s * c <= scaled && base <= (b + 1) * d
    ensures AtMostAbove(q * (u * c) * base, scaled * t * d, b)
  {
    UnderTarget(q, u, c, b, s, scaled, t);
    KeptFactors(q, u, c, b, base);
    KeptChain(q * (b * u) * c, scaled * t, base, b + 1, d);
  }

  lemma KeptChain(x: nat, y: nat, z: nat, k: nat, d: nat)
    requires x <= y && z <= k * d
    ensures x * z <= y * d * k
  {
    MulLe(x, y, z);
    MulLe(z, k * d, y);
    Regroup(y, k, d, 1);
  }

  lemma KeptAll(q: nat, u: nat, c: nat, d: nat, b: nat, s: nat, scaled: nat, t: nat)
    requires q * (b * u) <= s * t && s * c <= scaled
    ensures q * (u * c) * (b * d) <= scaled * t * d
  {
    UnderTarget(q, u, c, b, s, scaled, t);
    KeptFactors(q, u, c, b, d);
    Regroup(q * (u * c), b, d, 1);
    MulLe(q * (b * u) * c, scaled * t, d);
  }

  lemma KeptFactors(q: int, u: int, c: int, b: int, z: int)
    ensures q * (u * c) * z * b == q * (b * u) * c * z
  {
    Regroup(q * (u * c), z, b, 1);
    assert q * (u * c) * b == q * (u * c * b) && u * c * b == b * u * c;
    assert q * (b * u * c) == q * (b * u) * c;
  }

  /** With one added to the quotient it is below by at most one part in the kept target. */
  lemma KeptBelow(q: nat, u: nat, c: nat, d: nat, b: nat, s: nat, base: nat, scaled: nat, t: nat)
    requires s * t <= q * (b * u) && scaled <= (s + 1) * c && b * d <= base
    ensures AtMostAbove(scaled * t * d, q * (u * c) * base, s)
    ensures scaled == s * c ==> scaled * t * d <= q * (u * c) * base
  {
    var y := q * (u * c);
    Lifted(q, u, c, d, b, base);
    assert q * (b * u) * (c * d) <= y * base;
    MulLe(s * t, q * (b * u), c * d);
    MulLe(s * t * (c * d), y * base, s + 1);
    MulLe(scaled, (s + 1) * c, t * d * s);
    assert scaled * (t * d * s) == scaled * t * d * s by { Regroup(scaled, t * d, s, 1); Regroup(scaled, t, d, 1); }
    assert (s + 1) * c * (t * d * s) == s * t * (c * d) * (s + 1) by { Crossed(s + 1, c, t, d, s); }
    if scaled == s * c {
      assert s * c * t * d == s * t * (c * d) by { Regroup(s, c, t, 1); Regroup(s * t, c, d, 1); }
    }
  }

  lemma Lifted(q: nat, u: nat, c: nat, d: nat, b: nat, base: nat)
    requires b * d <= base
    ensures q * (b * u) * (c * d) <= q * (u * c) * base
  {
    MulLe(b * d, base, q * (u * c));
    assert q * (u * c) * (b * d) == q * (b * u) * (c * d) by {
      assert u * c * (b * d) == b * u * (c * d) by { Regroup(u, c, b, d); Regroup(b, u, c, d); }
      Regroup(q, u * c, b * d, 1);
      Regroup(q, b * u, c * d, 1);
    }
  }

  lemma Crossed(a: int, c: int, t: int, d: int, s: int)
    ensures a * c * (t * d * s) == s * t * (c * d) * a
  {
    assert t * d * s == s * t * d;
    assert c * (s * t * d) == s * t * (c * d) by { Regroup(s * t, c, d, 1); }
    assert a * c * (s * t * d) == a * (c * (s * t * d)) by { Regroup(a, c, s * t * d, 1); }
  }

  lemma {:induction false} Pow2Sum(m: nat, n: nat)
    ensures Pow2(m + n) == Pow2(m) * Pow2(n)
    decreases n
  {
    if n > 0 {
      Pow2Sum(m, n - 1);
      Regroup(Pow2(m), 2, Pow2(n - 1), 1);
    }
  }

  /** Only the difference of the two exponents matters. */
  lemma ShiftFactor(up: nat, down: nat) returns (f: nat)
    ensures f > 0 && Pow2(up) == PowUp(up - down) * f && Pow2(down) == PowDown(up - down) * f
  {
    if up >= down {
      Pow2Sum(up - down, down);
      f := Pow2(down);
    } else {
      Pow2Sum(down - up, up);
      f := Pow2(up);
    }
  }

  /** The first loop keeps enough of the base, unless it keeps all of it. */
  lemma KeptEnough(scaledHz: nat, baseHz: nat, down: nat)
    requires Leaves1(baseHz, scaledHz, down) && down > 0
    ensures Kept(scaledHz) <= Shr(baseHz, down)
  {
    assert Guard1(Shr(baseHz, down - 1), scaledHz);
  }

  lemma AboveScaled(q: int, p: int, f: int, base: int, z: int, d: int, m: int)
    requires f > 0
    requires AtMostAbove(q * (p * f) * base, z * (d * f), m)
    ensures AtMostAbove(q * p * base, z * d, m)
  {
    hide AtMostAbove;
    FactorOut(q, p, f, base);
    Regroup(z, d, f, 1);
    AboveCancel(q * p * base, z * d, m, f);
  }

  lemma BelowScaled(q: int, p: int, f: int, base: int, z: int, d: int, m: int)
    requires f > 0
    requires AtMostAbove(z * (d * f), q * (p * f) * base, m)
    ensures AtMostAbove(z * d, q * p * base, m)
  {
    hide AtMostAbove;
    FactorOut(q, p, f, base);
    Regroup(z, d, f, 1);
    AboveCancel(z * d, q * p * base, m, f);
  }

  /** All of it kept, or enough. */
  lemma EnoughAbove(x: int, y: int, m: int, k: int, all: bool)
    requires AtMostAbove(x, y, k) && 0 <= m && 0 <= y
    requires if all then x <= y else m <= k
    ensures AtMostAbove(x, y, m)
  {
    if all {
      AboveNever(x, y, m);
    } else {
      AboveLess(x, y, m, k);
    }
  }

  lemma KeptAboveOrAll(q: nat, u: nat, c: nat, d: nat, b: nat, s: nat, base: nat, scaled: nat, t: nat, m: nat)
    requires q * (b * u) <= s * t && s * c <= scaled && b * d <= base <= (b + 1) * d
    requires m <= b || (d == 1 && b == base)
    ensures AtMostAbove(q * (u * c) * base, scaled * t * d, m)
  {
    hide AtMostAbove;
    KeptAbove(q, u, c, d, b, s, base, scaled, t);
    KeptAll(q, u, c, d, b, s, scaled, t);
    Positive(scaled, t, d);
    EnoughAbove(q * (u * c) * base, scaled * t * d, m, b, !(m <= b));
  }

  lemma KeptBelowOrAll(q: nat, u: nat, c: nat, d: nat, b: nat, s: nat, base: nat, scaled: nat, t: nat, m: nat)
    requires s * t <= q * (b * u) && scaled <= (s + 1) * c && b * d <= base
    requires m <= s || (c == 1 && s == scaled)
    ensures AtMostAbove(scaled * t * d, q * (u * c) * base, m)
  {
    hide AtMostAbove;
    KeptBelow(q, u, c, d, b, s, base, scaled, t);
    Positive(q, u * c, base);
    EnoughAbove(scaled * t * d, q * (u * c) * base, m, s, !(m <= s));
  }

  lemma Positive(x: nat, y: nat, z: nat)
    ensures x * y * z >= 0
  {
    MulLe(0, x, y);
    MulLe(0, x * y, z);
  }

  lemma PairAccurate(scaledHz: nat, baseHz: nat, down: nat, up: nat, cut: nat, tps: nat, scaled: nat, multiplier: nat)
    requires Reduced(scaledHz, baseHz, down, up, cut, tps, scaled) && (cut > 0 ==> scaled >= CUT)
    requires multiplier * tps <= scaled * TWO32 < (multiplier + 1) * tps
    ensures Accurate(scaledHz, baseHz, up + cut - down, multiplier)
  {
    PairAbove(scaledHz, baseHz, down, up, cut, tps, scaled, multiplier);
    PairBelow(scaledHz, baseHz, down, up, cut, tps, scaled, multiplier);
    Pow2Sum(up, cut);
    var f := ShiftFactor(up + cut, down);
    var shift := up + cut - down;
    AboveScaled(multiplier, PowUp(shift), f, baseHz, scaledHz * TWO32, PowDown(shift), Kept(scaledHz));
    BelowScaled(multiplier + 1, PowUp(shift), f, baseHz, scaledHz * TWO32, PowDown(shift), CUT);
  }

  lemma PairAbove(scaledHz: nat, baseHz: nat, down: nat, up: nat, cut: nat, tps: nat, scaled: nat, multiplier: nat)
    requires Reduced(scaledHz, baseHz, down, up, cut, tps, scaled)
    requires multiplier * tps <= scaled * TWO32
    ensures AtMostAbove(multiplier * (Pow2(up) * Pow2(cut)) * baseHz, scaledHz * TWO32 * Pow2(down), Kept(scaledHz))
  {
    var b, d := Shr(baseHz, down), Pow2(down);
    ShrBelow(baseHz, down);
    ShrBelow(scaledHz, cut);
    if down > 0 {
      KeptEnough(scaledHz, baseHz, down);
    }
    PowZero();
    ShrZero(baseHz);
    hide Pow2, Leaves1, Kept, AtMostAbove, Shr;
    KeptAboveOrAll(multiplier, Pow2(up), Pow2(cut), d, b, scaled, baseHz, scaledHz, TWO32, Kept(scaledHz));
  }

  lemma PairBelow(scaledHz: nat, baseHz: nat, down: nat, up: nat, cut: nat, tps: nat, scaled: nat, multiplier: nat)
    requires Reduced(scaledHz, baseHz, down, up, cut, tps, scaled) && (cut > 0 ==> scaled >= CUT)
    requires scaled * TWO32 < (multiplier + 1) * tps
    ensures AtMostAbove(scaledHz * TWO32 * Pow2(down), (multiplier + 1) * (Pow2(up) * Pow2(cut)) * baseHz, CUT)
  {
    ShrBelow(baseHz, down);
    ShrBelow(scaledHz, cut);
    PowZero();
    ShrZero(scaledHz);
    hide Pow2, Leaves1, AtMostAbove, Shr;
    KeptBelowOrAll(multiplier + 1, Pow2(up), Pow2(cut), Pow2(down), Shr(baseHz, down), scaled, baseHz, scaledHz, TWO32, CUT);
  }

  lemma ShrZero(x: nat)
    ensures Shr(x, 0) == x
  {
  }

  lemma PowZero()
    ensures Pow2(0) == 1
  {
  }

  lemma FactorOut(q: int, p: int, f: int, z: int)
    ensures q * (p * f) * z == q * p * z * f
  {
    Regroup(q, p, f, 1);
    Regroup(q * p, f, z, 1);
  }

  method GetTimeScale(scaledHz: nat, baseHz: nat) returns (shift: int, multiplier: nat)
    requires scaledHz < TWO64 && 0 < baseHz < TWO64
    requires Twice(scaledHz) != 0
    ensures Represents(scaledHz, baseHz, shift, multiplier)
    ensures TWO32 / 2 - 1 <= multiplier < TWO32
    ensures -128 <= shift < 128
    ensures Accurate(scaledHz, baseHz, shift, multiplier)
  {
    shift := 0;
    var tps64 := baseHz;
    var scaled64 := scaledHz;
    ghost var down := 0;
    while tps64 > (scaled64 * 2) % TWO64 || tps64 >= TWO32
      invariant tps64 == Shr(baseHz, down) && tps64 > 0 && shift == -down
      invariant forall k :: 0 <= k < down ==> Guard1(Shr(baseHz, k), scaledHz)
      decreases tps64
    {
      assert Guard1(tps64, scaledHz);
      tps64 := tps64 / 2;
      shift := shift - 1;
      down := down + 1;
    }
    assert Leaves1(baseHz, scaledHz, down);
    var tps32 := tps64;
    ghost var up, cut := 0, 0;
    assert NearHalf(tps32, scaled64);
    while tps32 <= scaled64 || scaled64 >= TWO32
      invariant 0 < tps32 < TWO32 && 0 < scaled64
      invariant Reduced(scaledHz, baseHz, down, up, cut, tps32, scaled64)
      invariant shift == up + cut - down
      invariant NearHalf(tps32, scaled64) && (cut > 0 ==> scaled64 >= CUT)
      decreases scaled64, TWO32 - tps32
    {
      if scaled64 >= TWO32 || tps32 >= TWO32 / 2 {
        scaled64 := scaled64 / 2;
        cut := cut + 1;
      } else {
        DoubleShifted(Shr(baseHz, down), up);
        tps32 := tps32 * 2;
        up := up + 1;
      }
      shift := shift + 1;
    }
    multiplier := DivFrac(scaled64, tps32);
    QuotientBounds(tps32, scaled64, multiplier);
    ShrCount(baseHz, down);
    ShrCount(scaledHz, cut);
    UpCount(Shr(baseHz, down), up);
    PairAccurate(scaledHz, baseHz, down, up, cut, tps32, scaled64, multiplier);
  }

  /** do_shl32_div32: the dividend moved up 32 bits, divided. */
  function DivFrac(dividend: nat, divisor: nat): (q: nat)
    requires divisor > 0
    ensures q * divisor <= dividend * TWO32 < (q + 1) * divisor
  {
    var n := dividend * TWO32;
    assert n == n / divisor * divisor + n % divisor;
    n / divisor
  }

  lemma DoubleShifted(x: nat, n: nat)
    ensures x * Pow2(n + 1) == 2 * (x * Pow2(n))
  {
  }

  lemma UpCount(x: nat, n: nat)
    requires 0 < x && x * Pow2(n) < TWO32
    ensures n < 32
  {
    Pow2Values();
    MulLe(1, x, Pow2(n));
    Pow2Bound(n, 32, x * Pow2(n));
  }
}
