/** Divisibility, congruences, greatest common divisors and Fermat's little theorem. */
module Numbers {

  import opened Arith

  ghost predicate Divides(d: int, x: int) {
    exists k :: x == d * k
  }

  ghost predicate Cong(x: int, y: int, m: int) {
    Divides(m, x - y)
  }

  // ----- divisibility

  lemma DividesMake(d: int, x: int, k: int)
    requires x == d * k
    ensures Divides(d, x)
  {
  }

  lemma DividesSum(d: int, x: int, y: int)
    requires Divides(d, x) && Divides(d, y)
    ensures Divides(d, x + y) && Divides(d, x - y)
  {
    var j :| x == d * j;
    var k :| y == d * k;
    assert x + y == d * (j + k);
    assert x - y == d * (j - k);
  }

  lemma DividesProduct(d: int, x: int, y: int)
    requires Divides(d, x)
    ensures Divides(d, x * y) && Divides(d, y * x)
  {
    var j :| x == d * j;
    MulAssoc(d, j, y);
    DividesMake(d, x * y, j * y);
  }

  lemma MulAssoc(a: int, b: int, c: int)
    ensures a * b * c == a * (b * c)
  {
  }

  lemma DividesSmall(d: int, x: int)
    requires Divides(d, x) && -d < x < d
    ensures x == 0
  {
    var k :| x == d * k;
    if k >= 1 {
      MulLe(1, k, d);
    } else if k <= -1 {
      MulLe(k, -1, d);
    }
  }

  lemma DividesMod(d: int, x: int)
    requires d > 0
    ensures Divides(d, x) <==> x % d == 0
    ensures Divides(d, x - x % d)
  {
    assert x == d * (x / d) + x % d;
    DividesMake(d, x - x % d, x / d);
    if Divides(d, x) {
      DividesSum(d, x, x - x % d);
      DividesSmall(d, x % d);
    }
    if x % d == 0 {
      DividesMake(d, x, x / d);
    }
  }

  // ----- congruences

  lemma CongMod(x: int, m: int)
    requires m > 0
    ensures Cong(x, x % m, m)
  {
    DividesMod(m, x);
  }

  lemma CongRefl(x: int, m: int)
    ensures Cong(x, x, m)
  {
    DividesMake(m, 0, 0);
  }

  lemma CongSym(x: int, y: int, m: int)
    requires Cong(x, y, m)
    ensures Cong(y, x, m)
  {
    DividesMake(m, 0, 0);
    DividesSum(m, 0, x - y);
  }

  lemma CongTrans(x: int, y: int, z: int, m: int)
    requires Cong(x, y, m) && Cong(y, z, m)
    ensures Cong(x, z, m)
  {
    DividesSum(m, x - y, y - z);
  }

  lemma CongMul(x: int, y: int, u: int, v: int, m: int)
    requires Cong(x, y, m) && Cong(u, v, m)
    ensures Cong(x * u, y * v, m)
  {
    DividesProduct(m, x - y, u);
    DividesProduct(m, u - v, y);
    DividesSum(m, (x - y) * u, (u - v) * y);
    assert (x - y) * u + (u - v) * y == x * u - y * v;
  }

  lemma CongUnique(x: int, y: int, m: int)
    requires Cong(x, y, m) && 0 <= x < m && 0 <= y < m
    ensures x == y
  {
    DividesSmall(m, x - y);
  }

  lemma CongModEq(x: int, y: int, m: int)
    requires m > 0
    ensures Cong(x, y, m) <==> x % m == y % m
  {
    CongMod(x, m);
    CongMod(y, m);
    if Cong(x, y, m) {
      CongSym(x, x % m, m);
      CongTrans(x % m, x, y, m);
      CongTrans(x % m, y, y % m, m);
      CongUnique(x % m, y % m, m);
    } else if x % m == y % m {
      CongSym(y, y % m, m);
      CongTrans(x, x % m, y, m);
    }
  }

  // ----- powers

  function Pow(a: int, n: nat): int {
    if n == 0 then 1 else a * Pow(a, n - 1)
  }

  lemma {:induction false} PowAdd(a: int, m: nat, n: nat)
    ensures Pow(a, m + n) == Pow(a, m) * Pow(a, n)
    decreases m
  {
    if m > 0 {
      PowAdd(a, m - 1, n);
      MulAssoc(a, Pow(a, m - 1), Pow(a, n));
    }
  }

  lemma {:induction false} PowMul(a: int, m: nat, n: nat)
    ensures Pow(a, m * n) == Pow(Pow(a, m), n)
    decreases n
  {
    if n > 0 {
      assert m * n == m + m * (n - 1);
      PowAdd(a, m, m * (n - 1));
      PowMul(a, m, n - 1);
    }
  }

  lemma {:induction false} PowCong(x: int, y: int, n: nat, m: int)
    requires Cong(x, y, m)
    ensures Cong(Pow(x, n), Pow(y, n), m)
    decreases n
  {
    if n == 0 {
      CongRefl(1, m);
    } else {
      PowCong(x, y, n - 1, m);
      CongMul(x, y, Pow(x, n - 1), Pow(y, n - 1), m);
    }
  }

  lemma {:induction false} PowOne(n: nat)
    ensures Pow(1, n) == 1
  {
    if n > 0 {
      PowOne(n - 1);
    }
  }

  lemma {:induction false} PowNonNegative(a: nat, n: nat)
    ensures Pow(a, n) >= 0
  {
    if n > 0 {
      PowNonNegative(a, n - 1);
    }
  }

  // ----- greatest common divisor

  function Gcd(a: nat, b: nat): nat
    decreases b
  {
    if b == 0 then a else Gcd(b, a % b)
  }

  lemma DividesRemainder(d: int, a: nat, b: nat)
    requires b > 0 && Divides(d, b)
    ensures Divides(d, a) <==> Divides(d, a % b)
  {
    DividesProduct(d, b, a / b);
    assert a == b * (a / b) + a % b;
    if Divides(d, a) {
      DividesSum(d, a, b * (a / b));
    }
    if Divides(d, a % b) {
      DividesSum(d, a % b, b * (a / b));
    }
  }

  lemma {:induction false} GcdDivides(a: nat, b: nat)
    ensures Divides(Gcd(a, b), a) && Divides(Gcd(a, b), b)
    decreases b
  {
    if b == 0 {
      DividesMake(a, a, 1);
      DividesMake(a, 0, 0);
    } else {
      GcdDivides(b, a % b);
      DividesRemainder(Gcd(a, b), a, b);
    }
  }

  lemma {:induction false} GcdGreatest(a: nat, b: nat, d: int)
    requires Divides(d, a) && Divides(d, b)
    ensures Divides(d, Gcd(a, b))
    decreases b
  {
    if b > 0 {
      DividesRemainder(d, a, b);
      GcdGreatest(b, a % b, d);
    }
  }

  lemma {:induction false} GcdPositive(a: nat, b: nat)
    requires a > 0 || b > 0
    ensures Gcd(a, b) > 0
    decreases b
  {
    if b > 0 {
      GcdPositive(b, a % b);
    }
  }

  lemma {:induction false} Bezout(a: nat, b: nat) returns (x: int, y: int)
    ensures a * x + b * y == Gcd(a, b)
    decreases b
  {
    if b == 0 {
      x, y := 1, 0;
    } else {
      var u, v := Bezout(b, a % b);
      x, y := v, u - (a / b) * v;
      assert a == b * (a / b) + a % b;
      BezoutStep(a, b, a / b, a % b, u, v);
    }
  }

  lemma BezoutStep(a: int, b: int, q: int, r: int, u: int, v: int)
    requires a == b * q + r
    ensures a * v + b * (u - q * v) == b * u + r * v
  {
    assert a * v == b * q * v + r * v;
    MulAssoc(b, q, v);
  }

  // ----- primes

  ghost predicate Prime(p: nat) {
    p >= 2 && forall d: nat :: Divides(d, p) ==> d == 1 || d == p
  }

  lemma PrimeCoprime(p: nat, a: nat)
    requires Prime(p) && !Divides(p, a)
    ensures Gcd(a, p) == 1
  {
    GcdDivides(a, p);
  }

  /** Euclid's lemma. */
  lemma PrimeDivides(p: nat, a: nat, b: int)
    requires Prime(p) && Divides(p, a * b)
    ensures Divides(p, a) || Divides(p, b)
  {
    if !Divides(p, a) {
      PrimeCoprime(p, a);
      var x, y := Bezout(a, p);
      DividesProduct(p, a * b, x);
      DividesMake(p, p, 1);
      DividesProduct(p, p, y * b);
      DividesSum(p, a * b * x, p * (y * b));
      Distribute(a, x, p, y, b);
    }
  }

  lemma Distribute(a: int, x: int, p: int, y: int, b: int)
    requires a * x + p * y == 1
    ensures a * b * x + p * (y * b) == b
  {
    assert a * b * x == (a * x) * b;
    assert p * (y * b) == (p * y) * b;
    assert (a * x) * b + (p * y) * b == (a * x + p * y) * b;
  }

  /** Two distinct primes dividing a number have their product divide it. */
  lemma PrimePair(p: nat, q: nat, x: int)
    requires Prime(p) && Prime(q) && p != q
    requires Divides(p, x) && Divides(q, x)
    ensures Divides(p * q, x)
  {
    var t :| x == p * t;
    PrimeDivides(q, p, t);
    assert Divides(q, t);
    var u :| t == q * u;
    MulAssoc(p, q, u);
    DividesMake(p * q, x, u);
  }

  // ----- Fermat's little theorem

  ghost function Product(s: set<nat>): nat {
    if s == {} then 1 else
      var x :| x in s;
      x * Product(s - {x})
  }

  lemma {:induction false} ProductPick(s: set<nat>, y: nat)
    requires y in s
    ensures Product(s) == y * Product(s - {y})
    decreases |s|
  {
    var x :| x in s && Product(s) == x * Product(s - {x});
    if x != y {
      ProductPick(s - {x}, y);
      ProductPick(s - {y}, x);
      assert s - {x} - {y} == s - {y} - {x};
      var r := Product(s - {x} - {y});
      assert x * (y * r) == y * (x * r);
    }
  }

  lemma {:induction false} ProductCoprime(p: nat, s: set<nat>)
    requires Prime(p) && forall x :: x in s ==> 0 < x < p
    ensures !Divides(p, Product(s))
    decreases |s|
  {
    if s == {} {
      if Divides(p, 1) {
        DividesSmall(p, 1);
      }
    } else {
      var x :| x in s;
      ProductPick(s, x);
      ProductCoprime(p, s - {x});
      if Divides(p, Product(s)) {
        PrimeDivides(p, x, Product(s - {x}));
        DividesSmall(p, x);
      }
    }
  }

  /** The residues of `a * x` for the members of `s`. */
  ghost function Scaled(a: nat, p: nat, s: set<nat>): set<nat>
    requires p > 0
  {
    set x | x in s :: (a * x) % p
  }

  ghost predicate Residues(p: nat, s: set<nat>) {
    forall x :: x in s ==> 0 < x < p
  }

  /** Multiplying by a non-multiple of `p` is injective on residues. */
  lemma ScaleInjective(a: nat, p: nat, x: nat, y: nat)
    requires Prime(p) && !Divides(p, a) && x < p && y < p
    requires (a * x) % p == (a * y) % p
    ensures x == y
  {
    CongModEq(a * x, a * y, p);
    assert a * x - a * y == a * (x - y);
    PrimeDivides(p, a, x - y);
    DividesSmall(p, x - y);
  }

  lemma ScaleNonZero(a: nat, p: nat, x: nat)
    requires Prime(p) && !Divides(p, a) && 0 < x < p
    ensures 0 < (a * x) % p < p
  {
    DividesMod(p, a * x);
    if Divides(p, a * x) {
      PrimeDivides(p, a, x);
      DividesSmall(p, x);
    }
  }

  /** The image of a set gains exactly one residue with each new member. */
  lemma ScaledStep(a: nat, p: nat, s: set<nat>, x: nat)
    requires Prime(p) && !Divides(p, a) && Residues(p, s) && x in s
    ensures (a * x) % p in Scaled(a, p, s)
    ensures Scaled(a, p, s) - {(a * x) % p} == Scaled(a, p, s - {x})
  {
    ScaledPick(a, p, s, x);
    ScaledUnion(a, p, s, x);
  }

  lemma ScaledUnion(a: nat, p: nat, s: set<nat>, x: nat)
    requires p > 0 && x in s
    ensures Scaled(a, p, s) == Scaled(a, p, s - {x}) + {(a * x) % p}
  {
    forall y | y in Scaled(a, p, s)
      ensures y in Scaled(a, p, s - {x}) + {(a * x) % p}
    {
      var z :| z in s && y == (a * z) % p;
      assert z == x || z in s - {x};
    }
  }

  lemma {:induction false} ScaledSize(a: nat, p: nat, s: set<nat>)
    requires Prime(p) && !Divides(p, a) && Residues(p, s)
    ensures Residues(p, Scaled(a, p, s)) && |Scaled(a, p, s)| == |s|
    decreases |s|
  {
    if s == {} {
      assert Scaled(a, p, s) == {};
    } else {
      var x :| x in s;
      ScaledSize(a, p, s - {x});
      ScaledStep(a, p, s, x);
      ScaleNonZero(a, p, x);
      ScaledUnion(a, p, s, x);
    }
  }

  /** The product of the scaled residues is the scaled product. */
  lemma {:induction false} ScaledProduct(a: nat, p: nat, s: set<nat>)
    requires Prime(p) && !Divides(p, a) && Residues(p, s)
    ensures Cong(Product(Scaled(a, p, s)), Pow(a, |s|) * Product(s), p)
    decreases |s|
  {
    if s == {} {
      assert Scaled(a, p, s) == {};
      CongRefl(1, p);
    } else {
      hide Cong, Divides;
      var x :| x in s;
      var rest := s - {x};
      var y := (a * x) % p;
      ScaledProduct(a, p, rest);
      ScaledStep(a, p, s, x);
      ProductPick(Scaled(a, p, s), y);
      ProductPick(s, x);
      ScaledProductStep(a, p, x, y, Product(Scaled(a, p, rest)), Pow(a, |rest|), Product(rest));
    }
  }

  lemma ScaledProductStep(a: nat, p: nat, x: nat, y: nat, image: int, u: int, v: int)
    requires p > 0 && y == (a * x) % p && Cong(image, u * v, p)
    ensures Cong(y * image, (a * u) * (x * v), p)
  {
    CongMod(a * x, p);
    CongSym(a * x, y, p);
    CongMul(y, a * x, image, u * v, p);
    Regroup(a, x, u, v);
  }

  lemma Regroup(a: int, x: int, u: int, v: int)
    ensures (a * x) * (u * v) == (a * u) * (x * v)
  {
  }

  lemma ScaledPick(a: nat, p: nat, s: set<nat>, x: nat)
    requires Prime(p) && !Divides(p, a) && Residues(p, s) && x in s
    ensures (a * x) % p !in Scaled(a, p, s - {x})
  {
    if (a * x) % p in Scaled(a, p, s - {x}) {
      var z :| z in s - {x} && (a * z) % p == (a * x) % p;
      ScaleInjective(a, p, x, z);
    }
  }

  /** The numbers from 1 to `n`. */
  ghost function UpTo(n: nat): (s: set<nat>)
    ensures |s| == n && forall x :: x in s <==> 0 < x <= n
  {
    if n == 0 then {} else UpTo(n - 1) + {n}
  }

  lemma {:induction false} SubsetSize<T>(s: set<T>, t: set<T>)
    requires s <= t && |s| == |t|
    ensures s == t
    decreases |s|
  {
    if s == {} {
    } else {
      var x :| x in s;
      SubsetSize(s - {x}, t - {x});
      assert s == s - {x} + {x};
    }
  }

  lemma ScaledAll(a: nat, p: nat)
    requires Prime(p) && !Divides(p, a)
    ensures Scaled(a, p, UpTo(p - 1)) == UpTo(p - 1)
  {
    hide Divides, Scaled;
    ScaledSize(a, p, UpTo(p - 1));
    SubsetSize(Scaled(a, p, UpTo(p - 1)), UpTo(p - 1));
  }

  lemma CancelFactor(p: nat, f: nat, u: int)
    requires Prime(p) && !Divides(p, f) && Cong(f, u * f, p)
    ensures Cong(u, 1, p)
  {
    CongSym(f, u * f, p);
    assert u * f - f == f * (u - 1);
    PrimeDivides(p, f, u - 1);
  }

  lemma Fermat(a: nat, p: nat)
    requires Prime(p) && !Divides(p, a)
    ensures Cong(Pow(a, p - 1), 1, p)
  {
    hide Divides, Cong, Scaled, Product;
    var s := UpTo(p - 1);
    ScaledAll(a, p);
    ScaledProduct(a, p, s);
    ProductCoprime(p, s);
    CancelFactor(p, Product(s), Pow(a, p - 1));
  }
}
