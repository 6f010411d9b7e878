/** modpow, gcd, inverse and jacobi of smile-case1/rsa.h. */
module RsaArith {

  import opened Arith
  import opened Numbers

  const INT_LIMIT: nat := 0x8000_0000

  const LONG_LIMIT: nat := 0x8000_0000_0000_0000

  function Abs(x: int): nat { if x < 0 then -x else x }

  // ----- square and multiply

  lemma PowHalves(a: nat, b: nat)
    ensures Pow(a, b) == Pow(a * a, b / 2) * (if b % 2 == 1 then a else 1)
  {
    var h := b / 2;
    assert Pow(a, 2) == a * Pow(a, 1) == a * a;
    PowMul(a, 2, h);
  }

  lemma SquareStep(a: nat, b: nat, c: nat)
    requires c > 0
    ensures Cong(Pow((a * a) % c, b / 2) * (if b % 2 == 1 then a else 1), Pow(a, b), c)
  {
    hide Cong;
    var low := if b % 2 == 1 then a else 1;
    PowHalves(a, b);
    CongMod(a * a, c);
    CongSym(a * a, (a * a) % c, c);
    PowCong((a * a) % c, a * a, b / 2, c);
    CongRefl(low, c);
    CongMul(Pow((a * a) % c, b / 2), Pow(a * a, b / 2), low, low, c);
  }

  lemma ModPowStep(res: nat, a: nat, b: nat, c: nat, goal: int)
    requires c > 0 && Cong(res * Pow(a, b), goal, c)
    ensures Cong((if b % 2 == 1 then (res * a) % c else res) * Pow((a * a) % c, b / 2), goal, c)
  {
    hide Cong;
    var low := if b % 2 == 1 then a else 1;
    var tail := Pow((a * a) % c, b / 2);
    var next := if b % 2 == 1 then (res * a) % c else res;
    SquareStep(a, b, c);
    CongRefl(res, c);
    CongMul(res, res, tail * low, Pow(a, b), c);
    CongMod(res * low, c);
    assert Cong(next, res * low, c) by {
      CongSym(res * low, (res * low) % c, c);
    }
    CongRefl(tail, c);
    CongMul(next, res * low, tail, tail, c);
    MulAssoc(res, low, tail);
    assert low * tail == tail * low;
    CongTrans(next * tail, res * (tail * low), res * Pow(a, b), c);
    CongTrans(next * tail, res * Pow(a, b), goal, c);
  }

  lemma ProductFits(x: nat, y: nat)
    requires x < INT_LIMIT && y < INT_LIMIT
    ensures x * y < LONG_LIMIT
  {
    MulLe(x, INT_LIMIT, y);
    MulLe(y, INT_LIMIT, INT_LIMIT);
  }

  lemma ModPowStart(a: nat, b: nat, c: nat)
    ensures Cong(1 * Pow(a, b), Pow(a, b), c)
  {
    CongRefl(Pow(a, b), c);
  }

  lemma ModPowEnd(res: nat, a: nat, goal: int, c: nat)
    requires c > 0 && Cong(res * Pow(a, 0), goal, c) && res < c
    ensures res == goal % c
  {
    CongModEq(res, goal, c);
  }

  /** The remainder of C: its sign is the dividend's. */
  function TruncMod(x: int, c: nat): int
    requires c > 0
  {
    if x >= 0 then x % c else -((-x) % c)
  }

  predicate IsSign(s: int) { s == 1 || s == -1 }

  lemma TruncSigned(s: int, x: nat, c: nat)
    requires c > 0 && IsSign(s)
    ensures TruncMod(s * x, c) == s * (x % c)
  {
    if s == -1 && x > 0 {
      assert s * x == 0 - x;
    }
  }

  function SignOf(x: int): int { if x < 0 then -1 else 1 }

  /** The sign of a power. */
  function PowSign(base: int, exponent: nat): int { if exponent % 2 == 1 then SignOf(base) else 1 }

  lemma {:induction false} PowSigned(base: int, n: nat)
    ensures Pow(base, n) == PowSign(base, n) * Pow(Abs(base), n)
    decreases n
  {
    if n > 0 {
      PowSigned(base, n - 1);
      SignProduct(base, PowSign(base, n - 1), Pow(Abs(base), n - 1));
      var s := SignOf(base) * PowSign(base, n - 1);
      assert s == PowSign(base, n) by {
        assert (n - 1) % 2 == 1 - n % 2;
      }
    }
  }

  lemma SignProduct(base: int, s: int, y: int)
    requires IsSign(s)
    ensures base * (s * y) == (SignOf(base) * s) * (Abs(base) * y)
  {
  }

  lemma SignedFits(s: int, x: nat, t: int, y: nat)
    requires IsSign(s) && IsSign(t) && x < INT_LIMIT && y < INT_LIMIT
    ensures Abs((s * x) * (t * y)) < LONG_LIMIT
  {
    ProductFits(x, y);
    assert (s * x) * (t * y) == (s * t) * (x * y);
  }

  /** Two signed factors and what C's remainder makes of their product. */
  lemma TruncProduct(s: int, x: nat, t: int, y: nat, c: nat)
    requires c > 0 && IsSign(s) && IsSign(t)
    ensures TruncMod((s * x) * (t * y), c) == (s * t) * (x * y % c) && IsSign(s * t)
  {
    assert (s * x) * (t * y) == (s * t) * (x * y);
    TruncSigned(s * t, x * y, c);
  }

  /** modpow: no product leaves 64 bits, and only the zeroth power to modulus one is not reduced. */
  method ModPow(base: int, exponent: nat, c: nat) returns (res: int)
    requires Abs(base) < INT_LIMIT && 0 < c < INT_LIMIT
    ensures res == if exponent == 0 then 1 else TruncMod(Pow(base, exponent), c)
  {
    hide Cong, Pow, TruncMod;
    var a: int, b: nat := base, exponent;
    res := 1;
    ghost var sa: int, x: nat, sr: int, y: nat := SignOf(base), Abs(base), 1, 1;
    ModPowStart(Abs(base), exponent, c);
    while b > 0
      invariant IsSign(sa) && IsSign(sr) && a == sa * x && res == sr * y
      invariant x < INT_LIMIT && y < INT_LIMIT
      invariant sr * (if b % 2 == 1 then sa else 1) == PowSign(base, exponent)
      invariant Cong(y * Pow(x, b), Pow(Abs(base), exponent), c)
      invariant exponent == 0 ==> b == 0 && res == 1
      invariant exponent > 0 && b == 0 ==> y < c
    {
      ModPowStep(y, x, b, c, Pow(Abs(base), exponent));
      TruncProduct(sr, y, sa, x, c);
      TruncProduct(sa, x, sa, x, c);
      SignedFits(sr, y, sa, x);
      SignedFits(sa, x, sa, x);
      if b % 2 == 1 {
        assert Abs(res * a) < LONG_LIMIT;
        res := TruncMod(res * a, c);
        sr, y := sr * sa, y * x % c;
      }
      b := b / 2;
      assert Abs(a * a) < LONG_LIMIT;
      a := TruncMod(a * a, c);
      sa, x := 1, x * x % c;
    }
    if exponent > 0 {
      ModPowEnd(y, x, Pow(Abs(base), exponent), c);
      PowSigned(base, exponent);
      PowNonNegative(Abs(base), exponent);
      TruncSigned(PowSign(base, exponent), Pow(Abs(base), exponent), c);
    }
  }

  // ----- greatest common divisor

  method GcdLoop(a0: nat, b0: nat) returns (a: nat)
    ensures a == Gcd(a0, b0)
    ensures Divides(a, a0) && Divides(a, b0)
    ensures forall d :: Divides(d, a0) && Divides(d, b0) ==> Divides(d, a)
  {
    a := a0;
    var b: nat := b0;
    while b != 0
      invariant Gcd(a, b) == Gcd(a0, b0)
    {
      var temp: nat := b;
      b := a % b;
      a := temp;
    }
    GcdDivides(a0, b0);
    forall d | Divides(d, a0) && Divides(d, b0)
      ensures Divides(d, a)
    {
      GcdGreatest(a0, b0, d);
    }
  }

  // ----- extended Euclid

  /** The loop's coefficients: combinations of the inputs, of opposite sign, weighted sum constant. */
  ghost predicate Coefficients(n: nat, m: nat, a: nat, b: nat, x0: int, y0: int, x: int, y: int) {
    && a == x0 * n + y0 * m && b == x * n + y * m
    && (x0 >= 0 >= x || x0 <= 0 <= x) && (y0 >= 0 >= y || y0 <= 0 <= y)
    && a * Abs(x) + b * Abs(x0) == m
    && a * Abs(y) + b * Abs(y0) == n
  }

  lemma CoefficientSigns(n: nat, m: nat, a: nat, b: nat, x0: int, y0: int, x: int, y: int)
    requires Coefficients(n, m, a, b, x0, y0, x, y)
    ensures (x0 >= 0 >= x || x0 <= 0 <= x) && (y0 >= 0 >= y || y0 <= 0 <= y)
  {
  }

  lemma CombineStep(a: int, b: int, q: int, u: int, v: int)
    ensures b * (u + q * v) + (a - q * b) * v == a * v + b * u
  {
    assert b * (q * v) == (q * b) * v;
    assert b * (u + q * v) == b * u + b * (q * v);
    assert (a - q * b) * v == a * v - (q * b) * v;
  }

  lemma AbsStep(u: int, v: int, q: nat)
    requires u >= 0 >= v || u <= 0 <= v
    ensures Abs(u - q * v) == Abs(u) + q * Abs(v)
    ensures v >= 0 >= u - q * v || v <= 0 <= u - q * v
  {
    if v >= 0 {
      MulLe(0, q, v);
    } else {
      MulLe(0, q, -v);
      assert q * (-v) == -(q * v);
    }
  }

  lemma LinearStep(n: int, m: int, a: int, b: int, q: int, x0: int, y0: int, x: int, y: int)
    requires a == x0 * n + y0 * m && b == x * n + y * m
    ensures a - q * b == (x0 - q * x) * n + (y0 - q * y) * m
  {
    assert q * b == q * (x * n) + q * (y * m);
    MulAssoc(q, x, n);
    MulAssoc(q, y, m);
    assert (x0 - q * x) * n == x0 * n - (q * x) * n;
    assert (y0 - q * y) * m == y0 * m - (q * y) * m;
  }

  lemma WeightStep(a: nat, b: nat, q: nat, r: nat, u: int, v: int, weight: int)
    requires r == a - q * b && (u >= 0 >= v || u <= 0 <= v)
    requires a * Abs(v) + b * Abs(u) == weight
    ensures b * Abs(u - q * v) + r * Abs(v) == weight
    ensures v >= 0 >= u - q * v || v <= 0 <= u - q * v
  {
    AbsStep(u, v, q);
    hide Abs;
    CombineStep(a, b, q, Abs(u), Abs(v));
  }

  lemma QuotientStep(a: nat, b: nat)
    requires b > 0
    ensures a % b == a - a / b * b
  {
  }

  lemma CoefficientStep(n: nat, m: nat, a: nat, b: nat, x0: int, y0: int, x: int, y: int)
    requires b > 0 && Coefficients(n, m, a, b, x0, y0, x, y)
    ensures Coefficients(n, m, b, a % b, x, y, x0 - a / b * x, y0 - a / b * y)
  {
    hide Abs;
    var q, r := a / b, a % b;
    QuotientStep(a, b);
    LinearStep(n, m, a, b, q, x0, y0, x, y);
    WeightStep(a, b, q, r, x0, x, m);
    WeightStep(a, b, q, r, y0, y, n);
  }

  /** While the first remainder is positive the newer coefficients stay within the inputs. */
  lemma CoefficientBound(n: nat, m: nat, a: nat, b: nat, x0: int, y0: int, x: int, y: int)
    requires a > 0 && Coefficients(n, m, a, b, x0, y0, x, y)
    ensures Abs(x) <= m && Abs(y) <= n
  {
    MulLe(1, a, Abs(x));
    MulLe(1, a, Abs(y));
    MulLe(0, b, Abs(x0));
    MulLe(0, b, Abs(y0));
  }

  lemma StepProductBound(u: int, v: int, q: nat, limit: nat)
    requires u >= 0 >= v || u <= 0 <= v
    requires Abs(u - q * v) <= limit
    ensures Abs(q * v) <= limit
  {
    AbsStep(u, v, q);
    if v >= 0 {
      MulLe(0, q, v);
    } else {
      assert q * (-v) == -(q * v);
    }
  }

  lemma CoefficientStart(n: nat, m: nat)
    ensures Coefficients(n, m, n, m, 1, 0, 0, 1)
  {
  }

  lemma CoefficientEnd(n: nat, m: nat, x0: int, y0: int, x: int, y: int)
    requires Coefficients(n, m, 1, 0, x0, y0, x, y)
    ensures x0 * n + y0 * m == 1
  {
  }

  lemma InverseNotEnd(n: nat, m: nat, x0: int, y0: int)
    requires m >= 2 && x0 * n + y0 * m == 1
    ensures !Divides(m, x0)
  {
    if Divides(m, x0) {
      DividesProduct(m, x0, n);
      DividesMake(m, y0 * m, y0);
      DividesSum(m, x0 * n, y0 * m);
      DividesSmall(m, 1);
    }
  }

  lemma InverseProduct(n: nat, m: nat, x0: int, y0: int, r: nat, t: int)
    requires m >= 2 && x0 * n + y0 * m == 1 && r == x0 + t * m
    ensures (n * r) % m == 1
  {
    ProductExpands(n, m, x0, y0, t);
    var k := n * t - y0;
    assert n * r - 1 == m * k;
    hide Cong;
    DividesMake(m, n * r - 1, k);
    CongIs(n * r, 1, m);
    CongModEq(n * r, 1, m);
  }

  lemma ProductExpands(n: int, m: int, x0: int, y0: int, t: int)
    requires x0 * n + y0 * m == 1
    ensures n * (x0 + t * m) - 1 == m * (n * t - y0)
  {
    assert n * (t * m) == m * (n * t);
  }

  lemma CongIs(x: int, y: int, m: int)
    requires Divides(m, x - y)
    ensures Cong(x, y, m)
  {
  }

  lemma InverseInRange(n: nat, m: nat, x0: int, y0: int)
    requires m >= 2 && Abs(x0) <= m && x0 * n + y0 * m == 1
    ensures var r := if x0 < 0 then x0 + m else x0; 1 <= r < m && (n * r) % m == 1
  {
    InverseNotEnd(n, m, x0, y0);
    DividesMake(m, 0, 0);
    DividesMake(m, m, 1);
    if x0 + m == 0 {
      DividesMake(m, x0, -1);
    }
    if x0 < 0 {
      InverseProduct(n, m, x0, y0, x0 + m, 1);
    } else {
      InverseProduct(n, m, x0, y0, x0, 0);
    }
  }

  lemma TurnBounds(n: nat, m: nat, b: nat, r: nat, q: nat, x0: int, y0: int, x: int, y: int)
    requires b > 0 && Coefficients(n, m, b, r, x, y, x0 - q * x, y0 - q * y)
    requires (x0 >= 0 >= x || x0 <= 0 <= x) && (y0 >= 0 >= y || y0 <= 0 <= y)
    ensures Abs(q * x) <= m && Abs(q * y) <= n
    ensures Abs(x0 - q * x) <= m && Abs(y0 - q * y) <= n
  {
    hide Coefficients, Abs;
    CoefficientBound(n, m, b, r, x, y, x0 - q * x, y0 - q * y);
    StepProductBound(x0, x, q, m);
    StepProductBound(y0, y, q, n);
  }

  lemma GcdTurn(a: nat, b: nat)
    requires b > 0
    ensures Gcd(b, a % b) == Gcd(a, b)
  {
  }

  /** One turn of the loop: the coefficients stay combinations, and nothing leaves the inputs' size. */
  lemma InverseTurn(n: nat, m: nat, a: nat, b: nat, q: nat, r: nat, x0: int, y0: int, x: int, y: int)
    requires b > 0 && Gcd(a, b) == 1 && Coefficients(n, m, a, b, x0, y0, x, y)
    requires q == a / b && r == a % b
    ensures Gcd(b, r) == 1 && Coefficients(n, m, b, r, x, y, x0 - q * x, y0 - q * y)
    ensures Abs(q * x) <= m && Abs(q * y) <= n
    ensures Abs(x0 - q * x) <= m && Abs(y0 - q * y) <= n
  {
    hide *;
    GcdTurn(a, b);
    CoefficientSigns(n, m, a, b, x0, y0, x, y);
    CoefficientStep(n, m, a, b, x0, y0, x, y);
    TurnBounds(n, m, b, r, q, x0, y0, x, y);
  }

  /** What the loop keeps. */
  ghost predicate Euclid(n: nat, m: nat, a: nat, b: nat, x0: int, y0: int, x: int, y: int) {
    && a > 0 && Gcd(a, b) == 1 && Coefficients(n, m, a, b, x0, y0, x, y)
    && Abs(x0) <= m && Abs(y0) <= n + 1 && Abs(x) <= m && Abs(y) <= n + 1
  }

  lemma EuclidStart(n: nat, m: nat)
    requires n > 0 && m >= 1 && Gcd(n, m) == 1
    ensures Euclid(n, m, n, m, 1, 0, 0, 1)
  {
    CoefficientStart(n, m);
  }

  lemma EuclidTurn(n: nat, m: nat, a: nat, b: nat, q: nat, r: nat, x0: int, y0: int, x: int, y: int)
    requires b > 0 && Euclid(n, m, a, b, x0, y0, x, y) && q == a / b && r == a % b && n < INT_LIMIT && m < INT_LIMIT
    ensures Euclid(n, m, b, r, x, y, x0 - q * x, y0 - q * y)
    ensures Abs(q * x) < INT_LIMIT && Abs(q * y) < INT_LIMIT
  {
    InverseTurn(n, m, a, b, q, r, x0, y0, x, y);
  }

  lemma EuclidEnd(n: nat, m: nat, a: nat, x0: int, y0: int, x: int, y: int)
    requires m >= 2 && Euclid(n, m, a, 0, x0, y0, x, y)
    ensures var r := if x0 < 0 then x0 + m else x0; 1 <= r < m && (n * r) % m == 1
  {
    GcdZero(a);
    CoefficientEnd(n, m, x0, y0, x, y);
    InverseInRange(n, m, x0, y0);
  }

  /** inverse: the coefficients and every product in the loop stay within the inputs. */
  method Inverse(n: nat, modulus: nat) returns (r: nat)
    requires 0 < n < INT_LIMIT && 2 <= modulus < INT_LIMIT
    requires Gcd(n, modulus) == 1
    ensures 1 <= r < modulus
    ensures (n * r) % modulus == 1
  {
    hide *;
    var a: nat, b: nat := n, modulus;
    var x: int, y: int, x0: int, y0: int := 0, 1, 1, 0;
    EuclidStart(n, modulus);
    while b != 0
      invariant Euclid(n, modulus, a, b, x0, y0, x, y)
      decreases b
    {
      var q: nat := a / b;
      EuclidTurn(n, modulus, a, b, q, a % b, x0, y0, x, y);
      assert Abs(q * x) < INT_LIMIT && Abs(q * y) < INT_LIMIT;
      var temp: int := a % b;
      a := b;
      b := temp;
      temp := x;
      x := x0 - q * x;
      x0 := temp;
      temp := y;
      y := y0 - q * y;
      y0 := temp;
    }
    EuclidEnd(n, modulus, a, x0, y0, x, y);
    r := if x0 < 0 then x0 + modulus else x0;
  }

  lemma GcdZero(a: nat)
    ensures Gcd(a, 0) == a
  {
  }

  // ----- the Jacobi symbol

  predicate OddModulus(n: nat) { n >= 3 && n % 2 == 1 }

  function TwoSign(n: nat): int { if n % 8 == 1 || n % 8 == 7 then 1 else -1 }

  function FlipSign(a: nat, n: nat): int { if a % 4 == 3 && n % 4 == 3 then -1 else 1 }

  ghost predicate PeriodLaw(J: (nat, nat) -> int, a: nat, n: nat)
    requires n > 0
  {
    J(a, n) == J(a % n, n)
  }

  ghost predicate TwoLaw(J: (nat, nat) -> int, a: nat, n: nat) { J(2 * a, n) == TwoSign(n) * J(a, n) }

  ghost predicate ReciprocityLaw(J: (nat, nat) -> int, a: nat, n: nat) { J(a, n) == FlipSign(a, n) * J(n, a) }

  /** The textbook laws of the Jacobi symbol for odd moduli above one. */
  ghost predicate JacobiLaws(J: (nat, nat) -> int) {
    && (forall a: nat, n: nat :: OddModulus(n) ==> PeriodLaw(J, a, n))
    && (forall a: nat, n: nat :: OddModulus(n) ==> TwoLaw(J, a, n))
    && (forall a: nat, n: nat :: OddModulus(n) && OddModulus(a) ==> ReciprocityLaw(J, a, n))
    && (forall n: nat :: OddModulus(n) ==> J(1, n) == 1 && J(0, n) == 0)
  }

  ghost predicate Coprime(a: nat, b: nat) { exists x, y :: a * x + b * y == 1 }

  lemma CoprimeGcd(a: nat, b: nat)
    ensures Coprime(a, b) <==> Gcd(a, b) == 1
  {
    if Gcd(a, b) == 1 {
      var x, y := Bezout(a, b);
    }
    if Coprime(a, b) {
      var x, y :| a * x + b * y == 1;
      GcdDivides(a, b);
      DividesProduct(Gcd(a, b), a, x);
      DividesProduct(Gcd(a, b), b, y);
      DividesSum(Gcd(a, b), a * x, b * y);
      if Gcd(a, b) > 1 {
        DividesSmall(Gcd(a, b), 1);
      }
      if Gcd(a, b) == 0 {
        var k :| 1 == Gcd(a, b) * k;
      }
    }
  }

  lemma CoprimeSwap(a: nat, b: nat)
    ensures Coprime(a, b) <==> Coprime(b, a)
  {
    if x, y :| a * x + b * y == 1 {
      assert b * y + a * x == 1;
    }
    if x, y :| b * x + a * y == 1 {
      assert a * y + b * x == 1;
    }
  }

  lemma CoprimeReduce(a: nat, n: nat)
    requires n > 0
    ensures Coprime(a % n, n) <==> Coprime(a, n)
  {
    var q := a / n;
    assert a == n * q + a % n;
    if x, y :| a * x + n * y == 1 {
      ReduceTerm(a, n, q, a % n, x);
      assert (a % n) * x + n * (q * x + y) == 1;
    }
    if x, y :| (a % n) * x + n * y == 1 {
      ReduceTerm(a, n, q, a % n, x);
      assert a * x + n * (y - q * x) == 1;
    }
  }

  lemma ReduceTerm(a: int, n: int, q: int, r: int, x: int)
    requires a == n * q + r
    ensures a * x == n * (q * x) + r * x
  {
    MulAssoc(n, q, x);
  }

  lemma CoprimeHalve(a: nat, n: nat)
    requires n % 2 == 1
    ensures Coprime(2 * a, n) <==> Coprime(a, n)
  {
    if x, y :| (2 * a) * x + n * y == 1 {
      assert a * (2 * x) + n * y == 1;
    }
    if x, y :| a * x + n * y == 1 {
      var h := n / 2;
      assert n == 2 * h + 1;
      HalveTerms(a, n, h, x, y);
    }
  }

  lemma HalveTerms(a: int, n: int, h: int, x: int, y: int)
    requires a * x + n * y == 1 && n == 2 * h + 1
    ensures (2 * a) * (-(h * x)) + n * (a * x + y) == 1
  {
    assert (2 * a) * (-(h * x)) == -(2 * h) * (a * x);
    assert n * (a * x + y) == n * (a * x) + n * y;
    assert n * (a * x) == (2 * h) * (a * x) + a * x;
  }

  lemma CoprimeEnds(n: nat)
    requires n >= 2
    ensures Coprime(1, n) && !Coprime(0, n) && !Coprime(n, n)
  {
    assert 1 * 1 + n * 0 == 1;
    CoprimeGcd(0, n);
    CoprimeGcd(n, n);
    assert Gcd(n, n) == Gcd(n, 0) == n;
  }

  type Symbol = (nat, nat) -> int

  ghost predicate SameValue(J: Symbol, a0: nat, n0: nat, a: nat, n: nat, mult: int) {
    mult * J(a, n) == J(a0, n0)
  }

  /** Under the laws, `mult` times the symbol of (a, n) is the symbol of (a0, n0), and coprimality agrees. */
  ghost predicate Tracks(a0: nat, n0: nat, a: nat, n: nat, mult: int) {
    && (forall J: Symbol :: JacobiLaws(J) ==> SameValue(J, a0, n0, a, n, mult))
    && (Coprime(a, n) <==> Coprime(a0, n0))
  }

  lemma TracksStart(a: nat, n: nat)
    ensures Tracks(a, n, a, n, 1)
  {
  }

  lemma TracksReduce(a0: nat, n0: nat, a: nat, n: nat, mult: int)
    requires OddModulus(n) && Tracks(a0, n0, a, n, mult)
    ensures Tracks(a0, n0, a % n, n, mult)
  {
    CoprimeReduce(a, n);
    forall J: Symbol | JacobiLaws(J)
      ensures SameValue(J, a0, n0, a % n, n, mult)
    {
      assert PeriodLaw(J, a, n);
      assert SameValue(J, a0, n0, a, n, mult);
    }
  }

  lemma TracksHalve(a0: nat, n0: nat, h: nat, n: nat, mult: int)
    requires OddModulus(n) && Tracks(a0, n0, 2 * h, n, mult)
    ensures Tracks(a0, n0, h, n, mult * TwoSign(n))
  {
    CoprimeHalve(h, n);
    forall J: Symbol | JacobiLaws(J)
      ensures SameValue(J, a0, n0, h, n, mult * TwoSign(n))
    {
      assert TwoLaw(J, h, n);
      assert SameValue(J, a0, n0, 2 * h, n, mult);
    }
  }

  lemma FlipIs(a: nat, n: nat, mult: int)
    requires a % 2 == 1 && n % 2 == 1
    ensures (if n % 4 != 1 && a % 4 != 1 then mult * -1 else mult) == mult * FlipSign(a, n)
    ensures FlipSign(a, n) * FlipSign(a, n) == 1
  {
    OddClass(a);
    OddClass(n);
    assert FlipSign(a, n) == if n % 4 != 1 && a % 4 != 1 then -1 else 1;
  }

  lemma OddClass(a: nat)
    requires a % 2 == 1
    ensures a % 4 == 1 || a % 4 == 3
  {
    var q, r := a / 4, a % 4;
    assert a == 4 * q + r;
    if r == 0 {
      Even(2 * q);
    } else if r == 2 {
      Even(2 * q + 1);
    }
  }

  lemma Even(k: int)
    ensures (2 * k) % 2 == 0
  {
  }

  lemma TracksFlip(a0: nat, n0: nat, a: nat, n: nat, mult: int)
    requires OddModulus(n) && OddModulus(a) && Tracks(a0, n0, a, n, mult)
    ensures Tracks(a0, n0, n, a, if n % 4 != 1 && a % 4 != 1 then mult * -1 else mult)
  {
    CoprimeSwap(a, n);
    FlipIs(a, n, mult);
    hide FlipSign;
    forall J: Symbol | JacobiLaws(J)
      ensures SameValue(J, a0, n0, n, a, if n % 4 != 1 && a % 4 != 1 then mult * -1 else mult)
    {
      assert ReciprocityLaw(J, a, n);
      assert SameValue(J, a0, n0, a, n, mult);
    }
  }

  lemma EndValue(J: Symbol, a: nat, n: nat)
    requires JacobiLaws(J) && OddModulus(n) && (a <= 1 || a == n)
    ensures J(a, n) == if a == 1 then 1 else 0
  {
    assert PeriodLaw(J, n, n);
    assert n % n == 0;
  }

  lemma EndCoprime(a: nat, n: nat)
    requires OddModulus(n) && (a <= 1 || a == n)
    ensures Coprime(a, n) <==> a == 1
  {
    CoprimeEnds(n);
  }

  ghost predicate SymbolIs(J: Symbol, a: nat, n: nat, r: int) { J(a, n) == r }

  lemma TracksEnd(a0: nat, n0: nat, a: nat, n: nat, mult: int)
    requires OddModulus(n) && Tracks(a0, n0, a, n, mult)
    requires (a <= 1 || a == n) && (mult == 1 || mult == -1)
    ensures forall J: Symbol :: JacobiLaws(J) ==> SymbolIs(J, a0, n0, if a == 1 then mult else 0)
    ensures Gcd(a0, n0) == 1 <==> a == 1
  {
    CoprimeGcd(a0, n0);
    EndCoprime(a, n);
    hide JacobiLaws, Gcd, Coprime;
    forall J: Symbol | JacobiLaws(J)
      ensures SymbolIs(J, a0, n0, if a == 1 then mult else 0)
    {
      EndValue(J, a, n);
      assert SameValue(J, a0, n0, a, n, mult);
    }
  }

  /** The part of jacobi that factors out multiples of two. */
  method DropTwos(ghost a0: nat, ghost n0: nat, start: nat, n: nat, sign: int) returns (a: nat, mult: int)
    requires OddModulus(n) && 0 < start < n && (sign == 1 || sign == -1)
    requires Tracks(a0, n0, start, n, sign)
    ensures 0 < a < n && a % 2 == 1 && (mult == 1 || mult == -1)
    ensures Tracks(a0, n0, a, n, mult)
  {
    hide Tracks;
    a, mult := start, sign;
    var twos := 0;
    while a % 2 == 0
      invariant 0 < a < n && twos >= 0
      invariant Tracks(a0, n0, a, n, if twos % 2 == 1 then sign * TwoSign(n) else sign)
      decreases a
    {
      TracksHalve(a0, n0, a / 2, n, if twos % 2 == 1 then sign * TwoSign(n) else sign);
      twos := twos + 1;
      a := a / 2;
    }
    if twos > 0 && twos % 2 == 1 {
      mult := mult * ((if n % 8 == 1 || n % 8 == 7 then 1 else 0) * 2 - 1);
    }
  }

  /**
    jacobi: the result is the value at (a, n) of every function that obeys the laws
    of the Jacobi symbol, and it is zero exactly when a and n share a factor.
   */
  method Jacobi(a0: nat, n0: nat) returns (r: int)
    requires OddModulus(n0)
    ensures forall J: Symbol :: JacobiLaws(J) ==> SymbolIs(J, a0, n0, r)
    ensures r == -1 || r == 0 || r == 1
    ensures r != 0 <==> Gcd(a0, n0) == 1
  {
    var a: nat, n: nat, mult: int := a0, n0, 1;
    TracksStart(a0, n0);
    hide Tracks, JacobiLaws, Gcd;
    while a > 1 && a != n
      invariant OddModulus(n) && (mult == 1 || mult == -1)
      invariant Tracks(a0, n0, a, n, mult)
      decreases n
    {
      TracksReduce(a0, n0, a, n, mult);
      a := a % n;
      if a <= 1 || a == n {
        break;
      }
      a, mult := DropTwos(a0, n0, a, n, mult);
      if a <= 1 || a == n {
        break;
      }
      TracksFlip(a0, n0, a, n, mult);
      if n % 4 != 1 && a % 4 != 1 {
        mult := mult * -1;
      }
      var temp := a;
      a := n;
      n := temp;
    }
    TracksEnd(a0, n0, a, n, mult);
    if a == 0 {
      r := 0;
    } else if a == 1 {
      r := mult;
    } else {
      r := 0;
    }
  }
}
