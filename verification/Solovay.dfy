/**
  The Jacobi symbol and the primality test of smile-case1/rsa.h.

  The symbol of coprime a and odd n is defined by counting, as Gauss did: the parity of how many of
  the remainders of a, 2a, ..., (n/2)a modulo n lie above n/2.  This function obeys the laws of the
  Jacobi symbol, reciprocity included, so it is what jacobi computes; for primes it is the residue of
  a to the power n/2, so the test never rejects a prime.
 */
module Solovay {

  import opened Arith
  import opened Numbers
  import opened RsaArith

  // ----- the symbol

  predicate Large(a: nat, n: nat, k: nat)
    requires n > 0
  {
    (a * k) % n > n / 2
  }

  /** How many of the first `m` multiples of `a` leave a large remainder. */
  function Count(a: nat, n: nat, m: nat): nat
    requires n > 0
  {
    if m == 0 then 0 else Count(a, n, m - 1) + if Large(a, n, m) then 1 else 0
  }

  function Sign(c: nat): int { if c % 2 == 0 then 1 else -1 }

  function GaussSymbol(a: nat, n: nat): int {
    if OddModulus(n) && Gcd(a, n) == 1 then Sign(Count(a, n, n / 2)) else 0
  }

  lemma SignSum(x: nat, y: nat)
    ensures Sign(x + y) == Sign(x) * Sign(y)
  {
    ParitySum(x, y);
  }

  lemma ParitySum(x: int, y: int)
    ensures (x + y) % 2 == 0 <==> x % 2 == y % 2
  {
  }

  lemma OddSplit(n: nat)
    requires n % 2 == 1
    ensures n == 2 * (n / 2) + 1
  {
  }

  // ----- remainders folded to the lower half

  function Folded(a: nat, n: nat, k: nat): (r: nat)
    requires n > 0
  {
    var r := (a * k) % n;
    if Large(a, n, k) then n - r else r
  }

  /** Euclid's lemma for coprime numbers. */
  lemma CoprimeDivides(n: nat, a: nat, b: int)
    requires Gcd(a, n) == 1 && Divides(n, a * b)
    ensures Divides(n, b)
  {
    var x, y := Bezout(a, n);
    DividesProduct(n, a * b, x);
    DividesMake(n, n, 1);
    DividesProduct(n, n, y * b);
    DividesSum(n, a * b * x, n * (y * b));
    Distribute(a, x, n, y, b);
  }

  lemma RemainderOf(x: nat, n: nat)
    requires n > 0
    ensures 0 <= x % n < n && Divides(n, x - x % n)
  {
    DividesMod(n, x);
  }

  lemma FoldedRange(a: nat, n: nat, k: nat)
    requires OddModulus(n) && Gcd(a, n) == 1 && 0 < k <= n / 2
    ensures 0 < Folded(a, n, k) <= n / 2
  {
    RemainderOf(a * k, n);
    OddSplit(n);
    if (a * k) % n == 0 {
      CoprimeDivides(n, a, k);
      DividesSmall(n, k);
    }
  }

  /** Different multiples have different folded remainders. */
  lemma FoldedDiffer(a: nat, n: nat, j: nat, k: nat)
    requires OddModulus(n) && Gcd(a, n) == 1 && 0 < j < k <= n / 2
    ensures Folded(a, n, j) != Folded(a, n, k)
  {
    OddSplit(n);
    RemainderOf(a * j, n);
    RemainderOf(a * k, n);
    hide Divides;
    var r, t := (a * j) % n, (a * k) % n;
    if r == t {
      DividesSum(n, a * k - t, a * j - r);
      assert a * k - t - (a * j - r) == a * (k - j);
      CoprimeDivides(n, a, k - j);
      DividesSmall(n, k - j);
    } else if r + t == n {
      DividesSum(n, a * k - t, a * j - r);
      DividesMake(n, n, 1);
      DividesSum(n, a * k - t + (a * j - r), n);
      assert a * k - t + (a * j - r) + n == a * (k + j);
      CoprimeDivides(n, a, k + j);
      DividesSmall(n, k + j);
    }
  }

  ghost function Image(a: nat, n: nat, m: nat): set<nat>
    requires n > 0
  {
    if m == 0 then {} else Image(a, n, m - 1) + {Folded(a, n, m)}
  }

  lemma {:induction false} ImageMember(a: nat, n: nat, m: nat, x: nat) returns (k: nat)
    requires n > 0 && x in Image(a, n, m)
    ensures 0 < k <= m && x == Folded(a, n, k)
    decreases m
  {
    if x == Folded(a, n, m) {
      k := m;
    } else {
      k := ImageMember(a, n, m - 1, x);
    }
  }

  lemma ImageFresh(a: nat, n: nat, m: nat)
    requires OddModulus(n) && Gcd(a, n) == 1 && 0 < m <= n / 2
    ensures Folded(a, n, m) !in Image(a, n, m - 1)
  {
    hide Folded, Image, Gcd;
    if Folded(a, n, m) in Image(a, n, m - 1) {
      var k := ImageMember(a, n, m - 1, Folded(a, n, m));
      FoldedDiffer(a, n, k, m);
    }
  }

  lemma {:induction false} ImageSize(a: nat, n: nat, m: nat)
    requires OddModulus(n) && Gcd(a, n) == 1 && m <= n / 2
    ensures |Image(a, n, m)| == m && forall x :: x in Image(a, n, m) ==> 0 < x <= n / 2
    decreases m
  {
    hide Folded;
    if m > 0 {
      ImageSize(a, n, m - 1);
      ImageFresh(a, n, m);
      FoldedRange(a, n, m);
    }
  }

  /** The folded remainders are the numbers up to n/2 in some order. */
  lemma ImageAll(a: nat, n: nat)
    requires OddModulus(n) && Gcd(a, n) == 1
    ensures Image(a, n, n / 2) == UpTo(n / 2)
  {
    hide Image;
    ImageSize(a, n, n / 2);
    SubsetSize(Image(a, n, n / 2), UpTo(n / 2));
  }

  // ----- sums

  ghost function Sum(s: set<nat>): nat {
    if s == {} then 0 else
      var x :| x in s;
      x + Sum(s - {x})
  }

  lemma {:induction false} SumPick(s: set<nat>, y: nat)
    requires y in s
    ensures Sum(s) == y + Sum(s - {y})
    decreases |s|
  {
    var x :| x in s && Sum(s) == x + Sum(s - {x});
    if x != y {
      SumPick(s - {x}, y);
      SumPick(s - {y}, x);
      assert s - {x} - {y} == s - {y} - {x};
    }
  }

  lemma SumAdd(s: set<nat>, y: nat)
    requires y !in s
    ensures Sum(s + {y}) == Sum(s) + y
  {
    SumPick(s + {y}, y);
    assert s + {y} - {y} == s;
  }

  /** 1 + 2 + ... + m */
  function Tri(m: nat): nat { if m == 0 then 0 else Tri(m - 1) + m }

  lemma {:induction false} SumUpTo(m: nat)
    ensures Sum(UpTo(m)) == Tri(m)
  {
    hide Sum;
    if m == 0 {
      SumNone();
    } else {
      SumUpTo(m - 1);
      SumAdd(UpTo(m - 1), m);
    }
  }

  lemma SumNone()
    ensures Sum({}) == 0
  {
  }

  lemma {:induction false} TriParity(m: nat)
    ensures Tri(m) % 2 == if m % 4 == 1 || m % 4 == 2 then 1 else 0
  {
    hide Tri;
    if m >= 4 {
      TriParity(m - 4);
      TriFour(m - 4);
      TwiceMore(Tri(m - 4), 2 * m - 3);
      FourMore(m - 4);
    } else {
      TriSmall(m);
    }
  }

  lemma FourMore(m: nat)
    ensures (m + 4) % 4 == m % 4
  {
  }

  lemma TriSmall(m: nat)
    requires m < 4
    ensures Tri(m) == if m == 0 then 0 else if m == 1 then 1 else if m == 2 then 3 else 6
  {
    assert Tri(1) == 1 && Tri(2) == 3 && Tri(3) == 6;
  }

  lemma TriFour(m: nat)
    ensures Tri(m + 4) == Tri(m) + 2 * (2 * m + 5)
  {
    assert Tri(m + 2) == Tri(m + 1) + (m + 2) && Tri(m + 1) == Tri(m) + (m + 1);
    assert Tri(m + 4) == Tri(m + 3) + (m + 4) && Tri(m + 3) == Tri(m + 2) + (m + 3);
  }

  // ----- Eisenstein's sum

  function Floors(a: nat, n: nat, m: nat): nat
    requires n > 0
  {
    if m == 0 then 0 else Floors(a, n, m - 1) + a * m / n
  }

  /** Up to twice something, the multiples of `a` add up to n times the quotients and large remainders, and the image. */
  lemma {:induction false} MultiplesSum(a: nat, n: nat, m: nat) returns (w: int)
    requires OddModulus(n) && Gcd(a, n) == 1 && m <= n / 2
    ensures a * Tri(m) == n * (Floors(a, n, m) + Count(a, n, m)) + Sum(Image(a, n, m)) - 2 * w
    decreases m
  {
    hide Sum, Gcd, Folded, Large;
    if m == 0 {
      SumNone();
      w := 0;
    } else {
      var v := MultiplesSum(a, n, m - 1);
      ImageFresh(a, n, m);
      SumAdd(Image(a, n, m - 1), Folded(a, n, m));
      var l := if Large(a, n, m) then 1 else 0;
      w := v + if l == 1 then Folded(a, n, m) else 0;
      MultipleIs(a, n, m, l);
      MultiplesStep(a, n, m, Tri(m - 1), Floors(a, n, m - 1), a * m / n, Count(a, n, m - 1), l,
                    Sum(Image(a, n, m - 1)), Folded(a, n, m), v, w);
    }
  }

  lemma MultipleIs(a: nat, n: nat, m: nat, l: int)
    requires n > 0 && l == if Large(a, n, m) then 1 else 0
    ensures a * m == n * (a * m / n) + if l == 1 then n - Folded(a, n, m) else Folded(a, n, m)
  {
    QuotientOf(a * m, n);
  }

  lemma QuotientOf(x: nat, n: nat)
    requires n > 0
    ensures x == n * (x / n) + x % n
  {
  }

  lemma MultiplesStep(a: int, n: int, m: int, t: int, f: int, q: int, c: int, l: int, s: int, x: int, v: int, w: int)
    requires a * t == n * (f + c) + s - 2 * v
    requires l == 0 || l == 1
    requires a * m == n * q + if l == 1 then n - x else x
    requires w == v + if l == 1 then x else 0
    ensures a * (t + m) == n * (f + q + (c + l)) + (s + x) - 2 * w
  {
    assert a * (t + m) == a * t + a * m;
    assert n * (f + q + (c + l)) == n * (f + c) + n * q + n * l;
  }

  /** Quotients and large remainders agree in parity with (a - 1) (1 + ... + n/2). */
  lemma EisensteinParity(a: nat, n: nat)
    requires OddModulus(n) && Gcd(a, n) == 1
    ensures (Floors(a, n, n / 2) + Count(a, n, n / 2)) % 2 == ((a + 1) * Tri(n / 2)) % 2
  {
    var h := n / 2;
    var w := MultiplesSum(a, n, h);
    ImageAll(a, n);
    SumUpTo(h);
    OddSplit(n);
    ParityFrom(a, n, h, Tri(h), Floors(a, n, h) + Count(a, n, h), w);
  }

  lemma ParityFrom(a: int, n: int, h: int, t: int, x: int, w: int)
    requires n == 2 * h + 1 && a * t == n * x + t - 2 * w
    ensures x % 2 == ((a + 1) * t) % 2
  {
    assert (a + 1) * t == a * t + t;
    assert n * x == 2 * (h * x) + x;
    assert (a + 1) * t == x + 2 * (h * x + t - w);
    TwiceMore(x, h * x + t - w);
  }

  lemma TwiceMore(x: int, k: int)
    ensures (x + 2 * k) % 2 == x % 2
  {
  }

  // ----- the law for two

  /** Doubling turns large remainders into odd quotients. */
  lemma {:induction false} DoubledFloors(a: nat, n: nat, m: nat)
    requires n % 2 == 1
    ensures Floors(2 * a, n, m) == 2 * Floors(a, n, m) + Count(a, n, m)
    decreases m
  {
    hide Large;
    if m > 0 {
      DoubledFloors(a, n, m - 1);
      DoubledMultiple(a, n, m);
    }
  }

  function Quotient(x: nat, n: nat): nat
    requires n > 0
  {
    x / n
  }

  function Remainder(x: nat, n: nat): nat
    requires n > 0
  {
    x % n
  }

  lemma DoubledMultiple(a: nat, n: nat, m: nat)
    requires n % 2 == 1
    ensures 2 * a * m / n == 2 * (a * m / n) + if Large(a, n, m) then 1 else 0
  {
    assert 2 * a * m == 2 * (a * m);
    DoubledAt(2 * a * m, a * m, n, n / 2);
    assert Quotient(2 * a * m, n) == 2 * a * m / n;
  }

  lemma DoubledAt(z: nat, x: nat, n: nat, h: nat)
    requires n % 2 == 1 && h == n / 2 && z == 2 * x
    ensures Quotient(z, n) == 2 * Quotient(x, n) + if Remainder(x, n) > h then 1 else 0
  {
    OddSplit(n);
    DivisionOf(x, n);
    hide Quotient, Remainder;
    DoubledQuotient(z, x, n, Quotient(x, n), Remainder(x, n), h);
  }

  lemma DivisionOf(x: nat, n: nat)
    requires n > 0
    ensures x == n * Quotient(x, n) + Remainder(x, n) && Remainder(x, n) < n
  {
  }

  lemma DoubledQuotient(z: nat, x: nat, n: nat, q: nat, r: nat, h: nat)
    requires n == 2 * h + 1 && z == 2 * x && x == n * q + r && r < n
    ensures Quotient(z, n) == 2 * q + if r > h then 1 else 0
  {
    assert n * (2 * q) == 2 * (n * q) && n * (2 * q + 1) == 2 * (n * q) + n;
    if r > h {
      QuotientIs(z, n, 2 * q + 1, 2 * r - n);
    } else {
      QuotientIs(z, n, 2 * q, 2 * r);
    }
  }

  lemma QuotientIs(x: nat, n: nat, q: nat, r: nat)
    requires n > 0 && x == n * q + r && r < n
    ensures x / n == q
  {
    var k := x / n - q;
    QuotientOf(x, n);
    assert n * k == r - x % n;
    if k >= 1 {
      MulLe(1, k, n);
    } else if k <= -1 {
      MulLe(k, -1, n);
    }
  }

  lemma TwoSignIs(n: nat)
    requires n % 2 == 1
    ensures TwoSign(n) == Sign(Tri(n / 2))
  {
    TriParity(n / 2);
    OddSplit(n);
    QuotientOf(n / 2, 4);
    var q, t := n / 2 / 4, n / 2 % 4;
    RemainderIs(n, 8, q, 2 * t + 1);
    hide Tri;
  }

  lemma GaussTwo(a: nat, n: nat)
    requires OddModulus(n)
    ensures TwoLaw(GaussSymbol, a, n)
  {
    CoprimeHalve(a, n);
    CoprimeGcd(a, n);
    CoprimeGcd(2 * a, n);
    hide Gcd, Coprime;
    if Gcd(a, n) == 1 {
      var h := n / 2;
      EisensteinParity(2 * a, n);
      DoubledFloors(a, n, h);
      TwoSignIs(n);
      TwoParity(Floors(a, n, h), Count(a, n, h), Count(2 * a, n, h), a, Tri(h));
      SignSum(Tri(h), Count(a, n, h));
    }
  }

  lemma TwoParity(f: nat, c: nat, d: nat, a: nat, t: nat)
    requires (2 * f + c + d) % 2 == ((2 * a + 1) * t) % 2
    ensures Sign(d) == Sign(t + c)
  {
    assert (2 * a + 1) * t == t + 2 * (a * t);
    TwiceMore(t, a * t);
    TwiceMore(c + d, f);
    ParitySum(c, d);
    ParitySum(t, c);
  }

  // ----- reciprocity: counting the points of a rectangle

  /** The points of column `x` up to height `m` that lie below the line from the origin to (n, a). */
  function Column(a: nat, n: nat, x: nat, m: nat): nat {
    if m == 0 then 0 else Column(a, n, x, m - 1) + if n * m < a * x then 1 else 0
  }

  function Columns(a: nat, n: nat, w: nat, m: nat): nat {
    if w == 0 then 0 else Columns(a, n, w - 1, m) + Column(a, n, w, m)
  }

  /** No point of the rectangle lies on the line. */
  ghost predicate NoTie(a: nat, n: nat, w: nat, m: nat) {
    forall x, y :: 0 < x <= w && 0 < y <= m ==> a * x != n * y
  }

  /** Column `x` split at the line. */
  function Above(a: nat, n: nat, x: nat, m: nat): nat {
    if m == 0 then 0 else Above(a, n, x, m - 1) + if a * x < n * m then 1 else 0
  }

  lemma {:induction false} ColumnSplit(a: nat, n: nat, x: nat, m: nat)
    requires forall y :: 0 < y <= m ==> a * x != n * y
    ensures Column(a, n, x, m) + Above(a, n, x, m) == m
    decreases m
  {
    if m > 0 {
      ColumnSplit(a, n, x, m - 1);
      assert a * x != n * m;
    }
  }

  /** Widening every row by one cell adds the cells above the line in the new column. */
  lemma {:induction false} RowsWiden(a: nat, n: nat, w: nat, m: nat)
    requires w > 0
    ensures Columns(n, a, m, w) == Columns(n, a, m, w - 1) + Above(a, n, w, m)
    decreases m
  {
    if m > 0 {
      RowsWiden(a, n, w, m - 1);
    }
  }

  /** Points below the line, counted by columns, and above it, counted by rows, fill the rectangle. */
  lemma {:induction false} Rectangle(a: nat, n: nat, w: nat, m: nat)
    requires NoTie(a, n, w, m)
    ensures Columns(a, n, w, m) + Columns(n, a, m, w) == w * m
    decreases w
  {
    if w == 0 {
      EmptyRows(a, n, m);
    } else {
      Rectangle(a, n, w - 1, m);
      RowsWiden(a, n, w, m);
      ColumnSplit(a, n, w, m);
      assert w * m == (w - 1) * m + m;
    }
  }

  lemma {:induction false} EmptyRows(a: nat, n: nat, m: nat)
    ensures Columns(n, a, m, 0) == 0
  {
    if m > 0 {
      EmptyRows(a, n, m - 1);
    }
  }

  /** A column below the line has as many points as the quotient. */
  lemma {:induction false} ColumnHeight(a: nat, n: nat, x: nat, m: nat, q: nat)
    requires n > 0 && q == a * x / n && forall y :: 0 < y <= m ==> a * x != n * y
    ensures Column(a, n, x, m) == if m <= q then m else q
    decreases m
  {
    if m > 0 {
      ColumnHeight(a, n, x, m - 1, q);
      assert a * x != n * m;
      BelowLine(a * x, n, m, q);
      ColumnStep(a, n, x, m);
    }
  }

  lemma ColumnStep(a: nat, n: nat, x: nat, m: nat)
    requires m > 0
    ensures Column(a, n, x, m) == Column(a, n, x, m - 1) + if n * m < a * x then 1 else 0
  {
  }

  lemma BelowLine(z: nat, n: nat, m: nat, q: nat)
    requires n > 0 && z != n * m && q == z / n
    ensures n * m < z <==> m <= q
  {
    QuotientOf(z, n);
    if m <= q {
      MulLe(m, q, n);
    } else {
      MulLe(q + 1, m, n);
    }
  }

  lemma {:induction false} FloorsAreColumns(a: nat, n: nat, w: nat, m: nat)
    requires n > 0 && NoTie(a, n, w, m) && (w > 0 ==> a * w / n <= m)
    ensures Floors(a, n, w) == Columns(a, n, w, m)
    decreases w
  {
    hide NoTie, Column;
    if w > 0 {
      NoTieColumn(a, n, w, m);
      ColumnHeight(a, n, w, m, a * w / n);
      EarlierHeight(a, n, w);
      FloorsAreColumns(a, n, w - 1, m);
    }
  }

  lemma NoTieColumn(a: nat, n: nat, w: nat, m: nat)
    requires w > 0 && NoTie(a, n, w, m)
    ensures NoTie(a, n, w - 1, m) && forall y :: 0 < y <= m ==> a * w != n * y
  {
  }

  lemma EarlierHeight(a: nat, n: nat, w: nat)
    requires n > 0 && w > 0
    ensures a * (w - 1) / n <= a * w / n
  {
    MulLe(w - 1, w, a);
    QuotientMonotone(a * (w - 1), a * w, n);
  }

  lemma QuotientMonotone(x: nat, y: nat, n: nat)
    requires n > 0 && x <= y
    ensures x / n <= y / n
  {
    QuotientOf(x, n);
    QuotientOf(y, n);
    if x / n > y / n {
      MulLe(y / n + 1, x / n, n);
    }
  }

  lemma CoprimeNoTie(a: nat, n: nat)
    requires OddModulus(n) && Gcd(a, n) == 1
    ensures NoTie(a, n, n / 2, a / 2)
  {
    forall x, y | 0 < x <= n / 2 && 0 < y <= a / 2
      ensures a * x != n * y
    {
      if a * x == n * y {
        DividesMake(n, a * x, y);
        CoprimeDivides(n, a, x);
        DividesSmall(n, x);
      }
    }
  }

  lemma NoTieSwap(a: nat, n: nat, w: nat, m: nat)
    requires NoTie(a, n, w, m)
    ensures NoTie(n, a, m, w)
  {
  }

  /** The last quotient stays in the rectangle. */
  lemma LastHeight(a: nat, n: nat)
    requires OddModulus(a) && OddModulus(n)
    ensures a * (n / 2) / n <= a / 2
  {
    OddSplit(a);
    OddSplit(n);
    var h, g := n / 2, a / 2;
    QuotientOf(a * h, n);
    HeightBound(a, n, h, g);
    MulCancelLt(a * h / n, g + 1, n);
  }

  lemma HeightBound(a: nat, n: nat, h: nat, g: nat)
    requires a == 2 * g + 1 && n == 2 * h + 1
    ensures a * h < (g + 1) * n
  {
    assert a * h == 2 * (g * h) + h;
    assert (g + 1) * n == 2 * (g * h) + g + 2 * h + 1;
  }

  lemma GaussReciprocity(a: nat, n: nat)
    requires OddModulus(a) && OddModulus(n)
    ensures ReciprocityLaw(GaussSymbol, a, n)
  {
    CoprimeSwap(a, n);
    CoprimeGcd(a, n);
    CoprimeGcd(n, a);
    hide Gcd, Coprime;
    if Gcd(a, n) == 1 {
      var h, g := n / 2, a / 2;
      FloorSums(a, n);
      EisensteinParity(a, n);
      EisensteinParity(n, a);
      EvenFactor(a, Tri(h));
      EvenFactor(n, Tri(g));
      ReciprocityParity(Floors(a, n, h), Count(a, n, h), Floors(n, a, g), Count(n, a, g), h * g);
      FlipSignIs(a, n);
      SignSum(h * g, Count(n, a, g));
    }
  }

  lemma FloorSums(a: nat, n: nat)
    requires OddModulus(a) && OddModulus(n) && Gcd(a, n) == 1
    ensures Floors(a, n, n / 2) + Floors(n, a, a / 2) == n / 2 * (a / 2)
  {
    CoprimeNoTie(a, n);
    NoTieSwap(a, n, n / 2, a / 2);
    LastHeight(a, n);
    LastHeight(n, a);
    FloorsAreColumns(a, n, n / 2, a / 2);
    FloorsAreColumns(n, a, a / 2, n / 2);
    Rectangle(a, n, n / 2, a / 2);
  }

  lemma EvenFactor(a: nat, t: nat)
    requires a % 2 == 1
    ensures ((a + 1) * t) % 2 == 0
  {
    var k := (a + 1) / 2;
    assert a + 1 == 2 * k;
    assert (a + 1) * t == 2 * (k * t);
    TwiceMore(0, k * t);
  }

  lemma ReciprocityParity(f: nat, c: nat, g: nat, d: nat, area: nat)
    requires f + g == area && (f + c) % 2 == 0 && (g + d) % 2 == 0
    ensures Sign(c) == Sign(area + d)
  {
    ParitySum(f, c);
    ParitySum(g, d);
    ParitySum(f, g);
    ParitySum(area, d);
  }

  lemma FlipSignIs(a: nat, n: nat)
    requires a % 2 == 1 && n % 2 == 1
    ensures FlipSign(a, n) == Sign(n / 2 * (a / 2))
  {
    HalfClass(a);
    HalfClass(n);
    ProductParity(n / 2, a / 2);
  }

  lemma HalfClass(a: nat)
    requires a % 2 == 1
    ensures a % 4 == 3 <==> a / 2 % 2 == 1
  {
    OddClass(a);
    QuotientOf(a, 4);
    var q, t := a / 4, if a % 4 == 3 then 1 else 0;
    QuotientIs(a, 2, 2 * q + t, 1);
    TwiceMore(t, q);
  }

  lemma ProductParity(x: nat, y: nat)
    ensures (x * y) % 2 == 1 <==> x % 2 == 1 && y % 2 == 1
  {
    if x % 2 == 0 {
      EvenTimes(x / 2, y);
    } else if y % 2 == 0 {
      EvenTimes(y / 2, x);
    } else {
      OddSplit(x);
      OddSplit(y);
      OddTimes(x / 2, y / 2);
    }
  }

  lemma EvenTimes(i: int, y: int)
    ensures (2 * i * y) % 2 == 0 && (y * (2 * i)) % 2 == 0
  {
    assert 2 * i * y == 2 * (i * y) && y * (2 * i) == 2 * (i * y);
    TwiceMore(0, i * y);
  }

  lemma OddTimes(i: int, j: int)
    ensures ((2 * i + 1) * (2 * j + 1)) % 2 == 1
  {
    assert (2 * i + 1) * (2 * j + 1) == 1 + 2 * (2 * (i * j) + i + j);
    TwiceMore(1, 2 * (i * j) + i + j);
  }

  // ----- the laws

  lemma SameRemainder(a: nat, n: nat, k: nat)
    requires n > 0
    ensures ((a % n) * k) % n == (a * k) % n
  {
    CongMod(a, n);
    CongRefl(k, n);
    CongMul(a, a % n, k, k, n);
    CongModEq(a * k, (a % n) * k, n);
  }

  lemma {:induction false} CountPeriod(a: nat, n: nat, m: nat)
    requires n > 0
    ensures Count(a % n, n, m) == Count(a, n, m)
    decreases m
  {
    if m > 0 {
      CountPeriod(a, n, m - 1);
      SameRemainder(a, n, m);
    }
  }

  lemma GaussPeriod(a: nat, n: nat)
    requires OddModulus(n)
    ensures PeriodLaw(GaussSymbol, a, n)
  {
    CoprimeReduce(a, n);
    CoprimeGcd(a, n);
    CoprimeGcd(a % n, n);
    CountPeriod(a, n, n / 2);
  }

  lemma {:induction false} CountOne(n: nat, m: nat)
    requires n > 0 && m <= n / 2
    ensures Count(1, n, m) == 0
    decreases m
  {
    hide Large;
    if m > 0 {
      CountOne(n, m - 1);
      OneSmall(n, m);
    }
  }

  lemma OneSmall(n: nat, m: nat)
    requires n > 0 && m <= n / 2
    ensures !Large(1, n, m)
  {
    assert 1 * m == m;
    RemainderIs(m, n, 0, m);
  }

  lemma GaussEnds(n: nat)
    requires OddModulus(n)
    ensures GaussSymbol(1, n) == 1 && GaussSymbol(0, n) == 0
  {
    CountOne(n, n / 2);
    CoprimeEnds(n);
    CoprimeGcd(1, n);
    CoprimeGcd(0, n);
  }

  /** There is a function that obeys the laws of the Jacobi symbol. */
  lemma LawsHold()
    ensures JacobiLaws(GaussSymbol)
  {
    hide GaussSymbol, PeriodLaw, TwoLaw, ReciprocityLaw;
    forall a: nat, n: nat | OddModulus(n) ensures PeriodLaw(GaussSymbol, a, n) { GaussPeriod(a, n); }
    forall a: nat, n: nat | OddModulus(n) ensures TwoLaw(GaussSymbol, a, n) { GaussTwo(a, n); }
    forall a: nat, n: nat | OddModulus(n) && OddModulus(a) ensures ReciprocityLaw(GaussSymbol, a, n) {
      GaussReciprocity(a, n);
    }
    forall n: nat | OddModulus(n) ensures GaussSymbol(1, n) == 1 && GaussSymbol(0, n) == 0 { GaussEnds(n); }
  }

  // ----- primes

  /** The sign that folding the remainder of `a * k` takes off. */
  function FoldSign(a: nat, n: nat, k: nat): int
    requires n > 0
  {
    if Large(a, n, k) then -1 else 1
  }

  lemma FoldedCong(a: nat, n: nat, k: nat)
    requires n > 0
    ensures Cong(a * k, FoldSign(a, n, k) * Folded(a, n, k), n)
  {
    CongMod(a * k, n);
    if Large(a, n, k) {
      DividesMake(n, n, 1);
      DividesSum(n, a * k - (a * k) % n, n);
    }
  }

  /** a^m m! is the product of the signs and the folded remainders. */
  lemma {:induction false} GaussProduct(a: nat, n: nat, m: nat)
    requires OddModulus(n) && Gcd(a, n) == 1 && m <= n / 2
    ensures Cong(Pow(a, m) * Product(UpTo(m)), Sign(Count(a, n, m)) * Product(Image(a, n, m)), n)
    decreases m
  {
    hide Cong, Product, Gcd, Folded, Large, FoldSign;
    if m == 0 {
      NoFactors();
      CongRefl(1, n);
    } else {
      GaussProduct(a, n, m - 1);
      ImageFresh(a, n, m);
      ProductAdd(Image(a, n, m - 1), Folded(a, n, m));
      ProductAdd(UpTo(m - 1), m);
      FoldedCong(a, n, m);
      SignStep(a, n, m);
      var u, v := Pow(a, m - 1), Product(UpTo(m - 1));
      var e, w := Sign(Count(a, n, m - 1)), Product(Image(a, n, m - 1));
      CongMul(a * m, FoldSign(a, n, m) * Folded(a, n, m), u * v, e * w, n);
      Regroup(a, m, u, v);
      Regroup(FoldSign(a, n, m), Folded(a, n, m), e, w);
    }
  }

  lemma NoFactors()
    ensures Product({}) == 1
  {
  }

  lemma ProductAdd(s: set<nat>, y: nat)
    requires y !in s
    ensures Product(s + {y}) == y * Product(s)
  {
    ProductPick(s + {y}, y);
    assert s + {y} - {y} == s;
  }

  lemma SignStep(a: nat, n: nat, m: nat)
    requires n > 0 && m > 0
    ensures Sign(Count(a, n, m)) == FoldSign(a, n, m) * Sign(Count(a, n, m - 1))
  {
    hide Large;
    SignSum(if Large(a, n, m) then 1 else 0, Count(a, n, m - 1));
  }

  lemma CancelCommon(p: nat, f: nat, x: int, y: int)
    requires Prime(p) && !Divides(p, f) && Cong(x * f, y * f, p)
    ensures Cong(x, y, p)
  {
    assert x * f - y * f == f * (x - y);
    PrimeDivides(p, f, x - y);
  }

  /** Euler's criterion: modulo an odd prime the symbol is a to the power (p - 1) / 2. */
  lemma EulerCriterion(a: nat, p: nat)
    requires Prime(p) && OddModulus(p) && !Divides(p, a)
    ensures Gcd(a, p) == 1 && Cong(Pow(a, p / 2), GaussSymbol(a, p), p)
  {
    hide Divides, Cong, Product, Gcd;
    PrimeCoprime(p, a);
    GaussProduct(a, p, p / 2);
    ImageAll(a, p);
    ProductCoprime(p, UpTo(p / 2));
    CancelCommon(p, Product(UpTo(p / 2)), Pow(a, p / 2), GaussSymbol(a, p));
  }

  // ----- the test

  /** `a` is no witness against `n`: coprime, and Euler's criterion holds. */
  ghost predicate Passes(a: nat, n: nat) {
    n > 0 && Gcd(a, n) == 1 && Cong(Pow(a, n / 2), GaussSymbol(a, n), n)
  }

  lemma PrimePasses(a: nat, p: nat)
    requires Prime(p) && OddModulus(p) && 0 < a < p
    ensures Passes(a, p)
  {
    if Divides(p, a) {
      DividesSmall(p, a);
    }
    EulerCriterion(a, p);
  }

  /** The comparison of the code, with n - 1 for -1, is the congruence. */
  lemma ComparedExactly(x: nat, j: int, n: nat)
    requires n >= 3 && (j == 1 || j == -1)
    ensures Cong(x, j, n) <==> x % n == if j == -1 then n - 1 else j
  {
    CongModEq(x, j, n);
  }

  /** solovayPrime */
  method SolovayPrime(a: nat, n: nat) returns (ok: bool)
    requires OddModulus(n) && n < INT_LIMIT && a < INT_LIMIT
    ensures ok <==> Passes(a, n)
    ensures Prime(n) && 0 < a < n ==> ok
  {
    LawsHold();
    hide JacobiLaws, GaussSymbol, Gcd, Cong, Pow, Prime;
    var x := Jacobi(a, n);
    assert SymbolIs(GaussSymbol, a, n, x);
    assert x == GaussSymbol(a, n);
    if x != 0 {
      PowNonNegative(a, n / 2);
      ComparedExactly(Pow(a, n / 2), x, n);
    }
    if Prime(n) && 0 < a < n {
      PrimePasses(a, n);
    }
    if x == -1 {
      x := n - 1;
    }
    if x == 0 {
      return false;
    }
    var y := ModPow(a, (n - 1) / 2, n);
    ok := y == x;
  }

  /** The candidate witness made of a random number. */
  function Witness(draw: nat, n: nat): (a: nat)
    requires n >= 3
    ensures 2 <= a < n
  {
    draw % (n - 2) + 2
  }

  /** All `k` draws from `from` on pass. */
  ghost predicate AllPass(n: nat, k: nat, draws: nat -> nat, from: nat)
    requires n >= 3
  {
    forall i :: from <= i < from + k ==> Passes(Witness(draws(i), n), n)
  }

  ghost predicate Probable(n: nat, k: nat, draws: nat -> nat, from: nat) {
    n == 2 || (OddModulus(n) && AllPass(n, k, draws, from))
  }

  /** A prime is probable whatever is drawn. */
  lemma PrimeProbable(p: nat, k: nat, draws: nat -> nat, from: nat)
    requires Prime(p)
    ensures Probable(p, k, draws, from)
  {
    if p % 2 == 0 {
      DividesMake(2, p, p / 2);
    } else {
      forall i | from <= i < from + k
        ensures Passes(Witness(draws(i), p), p)
      {
        PrimePasses(Witness(draws(i), p), p);
      }
    }
  }

  /** probablePrime; `draws` is what rand returns and `used` how often it was asked. */
  method ProbablePrime(n: nat, k: nat, draws: nat -> nat, from: nat) returns (ok: bool, used: nat)
    requires n < INT_LIMIT
    ensures ok <==> Probable(n, k, draws, from)
    ensures Prime(n) ==> ok
    ensures used <= k
  {
    if Prime(n) {
      PrimeProbable(n, k, draws, from);
    }
    hide Prime, Passes;
    used := 0;
    if n == 2 {
      return true, 0;
    } else if n % 2 == 0 || n == 1 {
      return false, 0;
    }
    while used < k
      invariant used <= k
      invariant AllPass(n, used, draws, from)
    {
      var passed := SolovayPrime(Witness(draws(from + used), n), n);
      used := used + 1;
      if !passed {
        assert !Passes(Witness(draws(from + used - 1), n), n);
        return false, used;
      }
    }
    ok := true;
  }

  // ----- the search

  const ACCURACY: nat := 5

  /** The even number that candidates wrap at. */
  function Bound(n: nat): nat { n + n % 2 }

  /** The next odd number below the bound. */
  function Turn(c: nat, bound: nat): nat
    requires bound > 0
  {
    (c + 2) % bound
  }

  /** The candidate of randPrime after `i` turns. */
  function Candidate(n: nat, first: nat, i: nat): nat
    requires n > 0
  {
    if i == 0 then first % n + 1 - first % n % 2 else Turn(Candidate(n, first, i - 1), Bound(n))
  }

  lemma CandidateNext(n: nat, first: nat, i: nat)
    requires n > 0
    ensures Candidate(n, first, i + 1) == Turn(Candidate(n, first, i), Bound(n))
  {
  }

  lemma FirstCandidate(n: nat, first: nat)
    requires n > 0
    ensures Candidate(n, first, 0) == first % n + 1 - first % n % 2
    ensures Candidate(n, first, 0) % 2 == 1 && Candidate(n, first, 0) < Bound(n)
  {
    var r := first % n;
    assert r < n;
    if r % 2 == 0 && r == n - 1 {
      assert n % 2 == 1;
    }
  }

  lemma RemainderIs(x: nat, n: nat, q: nat, r: nat)
    requires n > 0 && x == n * q + r && r < n
    ensures x % n == r
  {
    QuotientIs(x, n, q, r);
    QuotientOf(x, n);
  }

  lemma NextCandidate(c: nat, bound: nat)
    requires c % 2 == 1 && c < bound && bound % 2 == 0
    ensures (c + 2) % bound == if c == bound - 1 then 1 else c + 2
  {
    OddSplit(c);
    var k := bound / 2;
    assert bound == 2 * k;
    if c == bound - 1 {
      RemainderIs(c + 2, bound, 1, 1);
    } else {
      RemainderIs(c + 2, bound, 0, c + 2);
    }
  }

  /** A turn from any candidate but three comes one nearer to three. */
  lemma TurnNearer(c: nat, bound: nat)
    requires c % 2 == 1 && c < bound && bound % 2 == 0 && bound >= 4 && c != 3
    ensures var d := Turn(c, bound); d % 2 == 1 && d < bound && ToThree(d, bound) + 1 == ToThree(c, bound)
  {
    NextCandidate(c, bound);
    OddSplit(c);
    var k := bound / 2;
    assert bound == 2 * k;
  }

  lemma ThreeIsPrime()
    ensures Prime(3)
  {
    forall d: nat | Divides(d, 3)
      ensures d == 1 || d == 3
    {
      var k :| 3 == d * k;
      if d > 3 {
        DividesSmall(d, 3);
      }
      assert d != 0 && d != 2;
    }
  }

  /** How many turns a candidate is away from three. */
  function ToThree(c: nat, bound: nat): nat {
    if c <= 3 then (3 - c) / 2 else if c <= bound then (bound + 3 - c) / 2 else 0
  }

  /**
    randPrime: because primes are never rejected and three is on the way, the search ends within one
    round of the candidates, whatever rand returns, with an odd number of at least three that passed.
   */
  method RandPrime(n0: nat, first: nat, draws: nat -> nat) returns (prime: nat, ghost turns: nat, ghost from: nat)
    requires 3 <= n0 < INT_LIMIT - 1
    ensures 3 <= prime < Bound(n0) && prime % 2 == 1
    ensures prime == Candidate(n0, first, turns) && turns <= Bound(n0) / 2
    ensures Probable(prime, ACCURACY, draws, from)
  {
    var n := n0;
    FirstCandidate(n0, first);
    BoundEven(n0);
    ThreeIsPrime();
    prime := first % n;
    n := n + n % 2;
    prime := prime + 1 - prime % 2;
    hide Prime, Probable, ToThree, Candidate, Bound, Turn;
    turns := 0;
    StartNear(prime, n);
    var asked := 0;
    while true
      invariant n == Bound(n0) && prime == Candidate(n0, first, turns) && prime % 2 == 1 && prime < n
      invariant turns + ToThree(prime, n) <= n / 2
      decreases ToThree(prime, n)
    {
      from := asked;
      var ok, used := ProbablePrime(prime, ACCURACY, draws, asked);
      asked := asked + used;
      if ok {
        NotOne(prime, draws, from);
        return;
      }
      TurnNearer(prime, n);
      CandidateNext(n0, first, turns);
      prime := Turn(prime, n);
      turns := turns + 1;
    }
  }

  lemma BoundEven(n: nat)
    requires n >= 3
    ensures Bound(n) % 2 == 0 && Bound(n) >= 4
  {
    ParitySum(n, n % 2);
  }

  lemma StartNear(c: nat, bound: nat)
    requires c % 2 == 1 && c < bound && bound >= 4
    ensures ToThree(c, bound) <= bound / 2
  {
    OddSplit(c);
  }

  lemma NotOne(c: nat, draws: nat -> nat, from: nat)
    requires Probable(c, ACCURACY, draws, from)
    ensures c != 1
  {
  }

  /** Below three the only candidate is one, which is always rejected: the search never ends. */
  lemma {:induction false} SmallNeverEnds(n: nat, first: nat, i: nat, draws: nat -> nat, from: nat)
    requires 1 <= n <= 2
    ensures Candidate(n, first, i) == 1 && !Probable(1, ACCURACY, draws, from)
    decreases i
  {
    if i > 0 {
      SmallNeverEnds(n, first, i - 1, draws, from);
    }
  }
}
