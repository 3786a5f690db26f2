/**
 * The prime field F_p on which the curve is defined (the template parameter `Fp`
 * of `EcT`). An element is its canonical integer representative 0 <= x < p.
 * The field's own implementation (Montgomery arithmetic, its inversion and square
 * root algorithms) is not part of this model: inversion is the extended Euclidean
 * algorithm and the square root is a search over the field, each proved to meet
 * the contract the curve code relies on.
 */
module Fp {
  import opened Wrappers

  /** `d` divides `n`. */
  predicate Divides(d: int, n: int)
  {
    d > 0 && n % d == 0
  }

  ghost predicate IsPrime(p: int)
  {
    p > 1 && forall d :: 1 < d < p ==> !Divides(d, p)
  }

  // ---------------------------------------------------------------------------
  // Integer facts about Euclidean division by a positive modulus
  // ---------------------------------------------------------------------------

  lemma MulAtLeast(k: int, p: int)
    requires k >= 1 && p > 0
    ensures k * p >= p
  {
  }

  /** Quotient and remainder are unique. */
  lemma DivModUnique(n: int, p: int, q: int, r: int)
    requires p > 0 && 0 <= r < p && n == q * p + r
    ensures n % p == r && n / p == q
  {
    var q0, r0 := n / p, n % p;
    assert (q0 - q) * p == r - r0;
    if q0 > q {
      MulAtLeast(q0 - q, p);
    } else if q0 < q {
      MulAtLeast(q - q0, p);
    }
  }

  lemma ModOfMod(a: int, p: int)
    requires p > 0
    ensures (a % p) % p == a % p
  {
    DivModUnique(a % p, p, 0, a % p);
  }

  lemma ModAddMultiple(a: int, k: int, p: int)
    requires p > 0
    ensures (a + k * p) % p == a % p
  {
    assert a + k * p == (a / p + k) * p + a % p;
    DivModUnique(a + k * p, p, a / p + k, a % p);
  }

  lemma MulMod(a: int, b: int, p: int)
    requires p > 0
    ensures (a * b) % p == ((a % p) * (b % p)) % p
  {
    var qa, ra, qb, rb := a / p, a % p, b / p, b % p;
    assert a == qa * p + ra;
    assert b == qb * p + rb;
    assert a * b == ra * rb + (qa * qb * p + qa * rb + ra * qb) * p;
    ModAddMultiple(ra * rb, qa * qb * p + qa * rb + ra * qb, p);
  }

  lemma AddMod(a: int, b: int, p: int)
    requires p > 0
    ensures (a + b) % p == ((a % p) + (b % p)) % p
  {
    var qa, qb := a / p, b / p;
    assert a + b == (a % p + b % p) + (qa + qb) * p;
    ModAddMultiple(a % p + b % p, qa + qb, p);
  }

  lemma SubMod(a: int, b: int, p: int)
    requires p > 0
    ensures (a - b) % p == ((a % p) - (b % p)) % p
  {
    var qa, qb := a / p, b / p;
    assert a - b == (a % p - b % p) + (qa - qb) * p;
    ModAddMultiple(a % p - b % p, qa - qb, p);
  }

  /** Congruence modulo p is preserved by products. */
  lemma MulCong(p: int, a: int, b: int, a': int, b': int)
    requires p > 0 && a % p == a' % p && b % p == b' % p
    ensures (a * b) % p == (a' * b') % p
  {
    MulMod(a, b, p);
    MulMod(a', b', p);
  }

  lemma AddCong(p: int, a: int, b: int, a': int, b': int)
    requires p > 0 && a % p == a' % p && b % p == b' % p
    ensures (a + b) % p == (a' + b') % p
  {
    AddMod(a, b, p);
    AddMod(a', b', p);
  }

  lemma SubCong(p: int, a: int, b: int, a': int, b': int)
    requires p > 0 && a % p == a' % p && b % p == b' % p
    ensures (a - b) % p == (a' - b') % p
  {
    SubMod(a, b, p);
    SubMod(a', b', p);
  }

  /** A positive divisor of a positive number is no larger than it. */
  lemma DivisorAtMost(g: int, n: int)
    requires g > 0 && n > 0 && Divides(g, n)
    ensures g <= n
  {
    DivModUnique(n, g, n / g, 0);
    MulAtLeast(n / g, g);
  }

  /** A common divisor of `a` and `r` divides `q * a + r`. */
  lemma DividesCombination(g: int, a: int, r: int, q: int)
    requires g > 0 && Divides(g, a) && Divides(g, r)
    ensures Divides(g, q * a + r)
  {
    var ka, kr := a / g, r / g;
    assert a == ka * g;
    assert r == kr * g;
    assert q * a + r == 0 + (q * ka + kr) * g;
    ModAddMultiple(0, q * ka + kr, g);
  }

  /**
   * The extended Euclidean algorithm: `(g, s, t)` with `g` a common divisor of
   * `a` and `b` and `s * a + t * b == g` (so `g` is their greatest common divisor).
   */
  function EGcd(a: int, b: int): (r: (int, int, int))
    requires a >= 0 && b > 0
    ensures r.0 > 0 && Divides(r.0, a) && Divides(r.0, b)
    ensures r.1 * a + r.2 * b == r.0
    decreases a
  {
    if a == 0 then (b, 0, 1)
    else
      var e := EGcd(b % a, a);
      EGcdStep(a, b, e.0, e.1, e.2);
      (e.0, e.2 - e.1 * (b / a), e.1)
  }

  /** One step of Euclid: what divides a and b % a divides b, and the coefficients carry over. */
  lemma EGcdStep(a: int, b: int, g: int, s: int, t: int)
    requires a > 0 && b > 0 && g > 0 && Divides(g, b % a) && Divides(g, a)
    requires s * (b % a) + t * a == g
    ensures Divides(g, b)
    ensures (t - s * (b / a)) * a + s * b == g
  {
    var q, r := b / a, b % a;
    assert b == q * a + r;
    DividesCombination(g, a, r, q);
    assert (t - s * q) * a + s * b == t * a + s * (b - q * a);
  }

  /** In a prime field the only positive common divisor of p and 0 < x < p is 1. */
  lemma GcdWithPrime(p: int, x: int, g: int)
    requires IsPrime(p) && 0 < x < p && g > 0 && Divides(g, x) && Divides(g, p)
    ensures g == 1
  {
    DivisorAtMost(g, x);
  }

  /** The Bezout coefficient of x, reduced, is the inverse of x modulo a prime. */
  lemma BezoutInverse(p: int, x: int, e: (int, int, int))
    requires p > 0 && 0 <= x < p
    requires e.0 > 0 && Divides(e.0, x) && Divides(e.0, p) && e.1 * x + e.2 * p == e.0
    ensures IsPrime(p) && x != 0 ==> (x * (e.1 % p)) % p == 1
  {
    if IsPrime(p) && x != 0 {
      GcdWithPrime(p, x, e.0);
      ModAddMultiple(e.1 * x, e.2, p);
      DivModUnique(1, p, 0, 1);
      MulMod(x, e.1, p);
      ModOfMod(x, p);
      ModOfMod(e.1, p);
      MulMod(x, e.1 % p, p);
    }
  }

  // ---------------------------------------------------------------------------
  // The field
  // ---------------------------------------------------------------------------

  datatype Field = Field(p: int) {

    /** p is an odd prime: `Fp::init` is only ever given one. */
    ghost predicate Valid()
    {
      p > 2 && IsPrime(p)
    }

    /** `x` is the canonical representative of an element. */
    predicate In(x: int)
    {
      0 <= x < p
    }

    function Add(x: int, y: int): int
      requires p > 0
    {
      (x + y) % p
    }

    function Sub(x: int, y: int): int
      requires p > 0
    {
      (x - y) % p
    }

    function Neg(x: int): int
      requires p > 0
    {
      (0 - x) % p
    }

    function Mul(x: int, y: int): int
      requires p > 0
    {
      (x * y) % p
    }

    function Sqr(x: int): int
      requires p > 0
    {
      (x * x) % p
    }

    /** `F::mul2`: x + x. */
    function Mul2(x: int): int
      requires p > 0
    {
      (x + x) % p
    }

    /** Parity of the canonical representative (`Fp::isOdd`). */
    predicate IsOdd(x: int)
    {
      x % 2 == 1
    }

    /** The representative of an integer constant such as -3 or 4 (`Fp == int`). */
    function FromInt(k: int): int
      requires p > 0
    {
      k % p
    }

    /** `Fp::inv`: the multiplicative inverse of a nonzero element. */
    function Inv(x: int): (r: int)
      requires p > 0 && In(x)
      ensures In(r)
      ensures IsPrime(p) && x != 0 ==> (x * r) % p == 1
    {
      var e := EGcd(x, p);
      BezoutInverse(p, x, e);
      e.1 % p
    }

    /** `F::div`: x / y, computed as x * inv(y). */
    function Div(x: int, y: int): int
      requires p > 0 && In(y)
    {
      Mul(x, Inv(y))
    }

    /** First square root of `v` among t, t + 1, ..., p - 1. */
    function SqrtFrom(v: int, t: int): (r: Option<int>)
      requires p > 0 && 0 <= t <= p
      ensures r.Some? ==> In(r.value) && Sqr(r.value) == v
      ensures r.None? ==> forall u :: t <= u < p ==> Sqr(u) != v
      decreases p - t
    {
      if t == p then None
      else if Sqr(t) == v then Some(t)
      else SqrtFrom(v, t + 1)
    }

    /**
     * `Fp::squareRoot`: a square root of `v` when `v` is a square, and failure
     * exactly when it is not.
     */
    function SquareRoot(v: int): (r: Option<int>)
      requires p > 0
      ensures r.Some? ==> In(r.value) && Sqr(r.value) == v
      ensures r.None? ==> forall u :: 0 <= u < p ==> Sqr(u) != v
    {
      SqrtFrom(v, 0)
    }
  }

  // ---------------------------------------------------------------------------
  // Steps of a computation: an element `x` "stands for" the integer X when
  // x == X % p. Each field operation on such elements stands for the
  // corresponding integer operation.
  // ---------------------------------------------------------------------------

  lemma MulStep(f: Field, x: int, y: int, X: int, Y: int)
    requires f.p > 0 && x == X % f.p && y == Y % f.p
    ensures f.Mul(x, y) == (X * Y) % f.p
  {
    ModOfMod(X, f.p);
    ModOfMod(Y, f.p);
    MulCong(f.p, x, y, X, Y);
  }

  /** MulStep with the integer product written the other way round. */
  lemma MulStepSwap(f: Field, x: int, y: int, X: int, Y: int)
    requires f.p > 0 && x == X % f.p && y == Y % f.p
    ensures f.Mul(x, y) == (Y * X) % f.p
  {
    MulStep(f, x, y, X, Y);
    assert X * Y == Y * X;
  }

  lemma SqrStep(f: Field, x: int, X: int)
    requires f.p > 0 && x == X % f.p
    ensures f.Sqr(x) == (X * X) % f.p
  {
    MulStep(f, x, x, X, X);
  }

  lemma AddStep(f: Field, x: int, y: int, X: int, Y: int)
    requires f.p > 0 && x == X % f.p && y == Y % f.p
    ensures f.Add(x, y) == (X + Y) % f.p
  {
    ModOfMod(X, f.p);
    ModOfMod(Y, f.p);
    AddCong(f.p, x, y, X, Y);
  }

  lemma SubStep(f: Field, x: int, y: int, X: int, Y: int)
    requires f.p > 0 && x == X % f.p && y == Y % f.p
    ensures f.Sub(x, y) == (X - Y) % f.p
  {
    ModOfMod(X, f.p);
    ModOfMod(Y, f.p);
    SubCong(f.p, x, y, X, Y);
  }

  lemma NegStep(f: Field, x: int, X: int)
    requires f.p > 0 && x == X % f.p
    ensures f.Neg(x) == (0 - X) % f.p
  {
    DivModUnique(0, f.p, 0, 0);
    SubStep(f, 0, x, 0, X);
  }

  lemma Mul2Step(f: Field, x: int, X: int)
    requires f.p > 0 && x == X % f.p
    ensures f.Mul2(x) == (2 * X) % f.p
  {
    AddStep(f, x, x, X, X);
  }

  /** A canonical element stands for itself. */
  lemma Canonical(f: Field, x: int)
    requires f.p > 0 && f.In(x)
    ensures x == x % f.p
  {
    DivModUnique(x, f.p, 0, x);
  }

  // ---------------------------------------------------------------------------
  // Field facts
  // ---------------------------------------------------------------------------

  /** A prime above 2 is odd. */
  lemma OddPrime(f: Field)
    requires f.Valid()
    ensures f.p % 2 == 1
  {
    assert !Divides(2, f.p);
  }

  lemma OneIsCanonical(f: Field)
    requires f.Valid()
    ensures 1 % f.p == 1 && 0 % f.p == 0
  {
    DivModUnique(1, f.p, 0, 1);
    DivModUnique(0, f.p, 0, 0);
  }

  /** F_p has no zero divisors. */
  lemma NoZeroDivisors(f: Field, a: int, b: int)
    requires f.Valid()
    ensures (a * b) % f.p == 0 ==> a % f.p == 0 || b % f.p == 0
  {
    var p := f.p;
    if (a * b) % p == 0 && a % p != 0 {
      var a0, b0 := a % p, b % p;
      var u := f.Inv(a0);
      OneIsCanonical(f);
      MulMod(a, b, p);
      assert (a0 * b0) % p == 0;
      MulCong(p, a0 * u, b0, 1, b0);
      assert (a0 * u) * b0 == u * (a0 * b0);
      MulCong(p, u, a0 * b0, u, 0);
      ModOfMod(b, p);
    }
  }

  /** Two integers whose difference is a multiple of p are congruent. */
  lemma ModEqFromDiff(p: int, x: int, y: int)
    requires p > 0 && (x - y) % p == 0
    ensures x % p == y % p
  {
    var d := x % p - y % p;
    SubMod(x, y, p);
    assert d % p == 0;
    DivModUnique(d, p, d / p, 0);
    DivModUnique(-d, p, -(d / p), 0);
    var m := if d >= 0 then d else -d;
    assert m % p == 0;
    DivModUnique(m, p, 0, m);
  }

  /** A factor that is not zero modulo p can be cancelled. */
  lemma Cancel(f: Field, x: int, y: int, k: int)
    requires f.Valid() && k % f.p != 0
    ensures (x * k) % f.p == (y * k) % f.p <==> x % f.p == y % f.p
  {
    var p := f.p;
    if x % p == y % p {
      MulCong(p, x, k, y, k);
    }
    if (x * k) % p == (y * k) % p {
      assert (x - y) * k == x * k - y * k;
      SubMod(x * k, y * k, p);
      DivModUnique(0, p, 0, 0);
      NoZeroDivisors(f, x - y, k);
      ModEqFromDiff(p, x, y);
    }
  }

  /** A product of two factors that are not zero modulo p is not zero modulo p. */
  lemma NonZeroProduct(f: Field, a: int, b: int)
    requires f.Valid() && a % f.p != 0 && b % f.p != 0
    ensures (a * b) % f.p != 0
  {
    NoZeroDivisors(f, a, b);
  }

  /** The inverse of a nonzero element is nonzero and unique. */
  lemma InvUnique(f: Field, x: int, u: int)
    requires f.Valid() && f.In(x) && x != 0 && f.In(u) && (x * u) % f.p == 1
    ensures u == f.Inv(x)
  {
    var v := f.Inv(x);
    assert (x * v) % f.p == 1;
    SameInverse(f.p, x, u, v);
  }

  /** Two residues below p that are both inverses of x modulo p are equal. */
  lemma SameInverse(p: int, x: int, u: int, v: int)
    requires p > 1 && 0 <= u < p && 0 <= v < p && (x * u) % p == 1 && (x * v) % p == 1
    ensures u == v
  {
    DivModUnique(1, p, 0, 1);
    DivModUnique(u, p, 0, u);
    DivModUnique(v, p, 0, v);
    // u == u * (x * v) == (x * u) * v == v
    MulCong(p, u, x * v, u, 1);
    assert u * (x * v) == (x * u) * v;
    MulCong(p, x * u, v, 1, v);
    assert u * 1 == u && 1 * v == v;
  }

  lemma InvOf(f: Field, x: int, u: int)
    requires f.Valid() && f.In(x) && f.In(u)
    ensures x != 0 && (x * u) % f.p == 1 ==> u == f.Inv(x)
  {
    if x != 0 && (x * u) % f.p == 1 {
      InvUnique(f, x, u);
    }
  }

  lemma InvOne(f: Field)
    requires f.Valid()
    ensures f.Inv(1) == 1
  {
    OneIsCanonical(f);
    InvUnique(f, 1, 1);
  }

  lemma InvNonZero(f: Field, x: int)
    requires f.Valid() && f.In(x) && x != 0
    ensures f.Inv(x) != 0
  {
    OneIsCanonical(f);
  }

  /** Negation flips the parity of a nonzero element (p is odd). */
  lemma NegParity(f: Field, y: int)
    requires f.Valid() && f.In(y) && y != 0
    ensures f.Neg(y) == f.p - y && f.IsOdd(f.Neg(y)) == !f.IsOdd(y)
  {
    OddPrime(f);
    DivModUnique(0 - y, f.p, -1, f.p - y);
  }

  lemma NegZero(f: Field)
    requires f.Valid()
    ensures f.Neg(0) == 0
  {
    DivModUnique(0, f.p, 0, 0);
  }

  lemma NegCanonical(f: Field, y: int)
    requires f.Valid() && f.In(y)
    ensures f.In(f.Neg(y)) && f.Neg(f.Neg(y)) == y
  {
    if y == 0 {
      NegZero(f);
    } else {
      NegParity(f, y);
      NegParity(f, f.p - y);
    }
  }

  /** (-x) (-y) == x y modulo p. */
  lemma NegTimesNeg(f: Field, x: int, y: int)
    requires f.p > 0
    ensures (f.Neg(x) * f.Neg(y)) % f.p == (x * y) % f.p
  {
    var p := f.p;
    ModOfMod(0 - x, p);
    ModOfMod(0 - y, p);
    MulCong(p, f.Neg(x), f.Neg(y), 0 - x, 0 - y);
    RingNegNeg(x, y);
  }

  lemma RingNegNeg(x: int, y: int)
    ensures (0 - x) * (0 - y) == x * y
  {
  }

  lemma RingSwap(a: int, b: int, c: int)
    ensures a * (b * c) == b * (a * c)
  {
  }

  lemma RingRot(a: int, v: int, s: int)
    ensures (a * v) * s == a * (s * v)
  {
  }

  lemma RingNegSwap(a: int, b: int, v: int)
    ensures (a - b) * (0 - v) == (b - a) * v
  {
  }

  /** Squaring forgets the sign. */
  lemma SqrNeg(f: Field, y: int)
    requires f.p > 0
    ensures f.Sqr(f.Neg(y)) == f.Sqr(y)
  {
    NegTimesNeg(f, y, y);
  }

  /** Only zero is its own negation (p is odd). */
  lemma SelfNegZero(f: Field, y: int)
    requires f.Valid() && f.In(y)
    ensures f.Neg(y) == y ==> y == 0
  {
    if y != 0 {
      NegParity(f, y);
      OddPrime(f);
    }
  }

  /** The square roots of y * y are y and -y. */
  lemma SquareRoots(f: Field, s: int, y: int)
    requires f.Valid() && f.In(s) && f.In(y) && f.Sqr(s) == f.Sqr(y)
    ensures s == y || s == f.Neg(y)
  {
    var p := f.p;
    assert (s - y) * (s + y) == s * s - y * y;
    SubMod(s * s, y * y, p);
    DivModUnique(0, p, 0, 0);
    NoZeroDivisors(f, s - y, s + y);
    Canonical(f, s);
    if (s - y) % p == 0 {
      ModEqFromDiff(p, s, y);
      Canonical(f, y);
    } else {
      assert s - (0 - y) == s + y;
      ModEqFromDiff(p, s, 0 - y);
    }
  }

  /** Both factors of a product congruent to 1 are nonzero modulo p. */
  lemma UnitNonZero(f: Field, w: int, v: int)
    requires f.Valid() && (w * v) % f.p == 1
    ensures w % f.p != 0 && v % f.p != 0
  {
    MulMod(w, v, f.p);
    OneIsCanonical(f);
  }

  /** If z * u == 1 then z^2 * u^2 == 1 and z^3 * u^3 == 1. */
  lemma UnitPowers(f: Field, z: int, u: int)
    requires f.p > 0 && (z * u) % f.p == 1
    ensures ((z * z) * (u * u)) % f.p == 1
    ensures (((z * z) * z) * ((u * u) * u)) % f.p == 1
  {
    var w := z * u;
    assert (z * z) * (u * u) == w * w;
    assert ((z * z) * z) * ((u * u) * u) == (w * w) * w;
    MulCong(f.p, w, w, 1, 1);
    MulCong(f.p, w * w, w, 1, 1);
  }

  /**
   * Comparing cross-multiplied coordinates is comparing the scaled ones:
   * when w1 * v1 == 1 and w2 * v2 == 1, A1 w2 == A2 w1 exactly when A1 v1 == A2 v2.
   */
  lemma ScaledEq(f: Field, A1: int, A2: int, w1: int, w2: int, v1: int, v2: int)
    requires f.Valid() && (w1 * v1) % f.p == 1 && (w2 * v2) % f.p == 1
    ensures (A1 * w2) % f.p == (A2 * w1) % f.p <==> (A1 * v1) % f.p == (A2 * v2) % f.p
  {
    var p, k := f.p, v1 * v2;
    UnitNonZero(f, w1, v1);
    UnitNonZero(f, w2, v2);
    NonZeroProduct(f, v1, v2);
    Cancel(f, A1 * w2, A2 * w1, k);
    assert (A1 * w2) * k == (A1 * v1) * (w2 * v2);
    assert (A2 * w1) * k == (A2 * v2) * (w1 * v1);
    OneIsCanonical(f);
    MulCong(p, A1 * v1, w2 * v2, A1 * v1, 1);
    MulCong(p, A2 * v2, w1 * v1, A2 * v2, 1);
  }

  /** (-y) * k == -(y * k) modulo p. */
  lemma NegMulLeft(f: Field, y: int, k: int)
    requires f.p > 0
    ensures (f.Neg(y) * k) % f.p == f.Neg((y * k) % f.p)
  {
    NegStep(f, (y * k) % f.p, y * k);
    ModOfMod(0 - y, f.p);
    MulCong(f.p, f.Neg(y), k, 0 - y, k);
    assert (0 - y) * k == 0 - y * k;
  }

  /** A difference is zero modulo p exactly when the two sides are congruent. */
  lemma DiffZero(p: int, a: int, b: int)
    requires p > 0
    ensures (a - b) % p == 0 <==> a % p == b % p
  {
    if (a - b) % p == 0 {
      ModEqFromDiff(p, a, b);
    }
    if a % p == b % p {
      SubMod(a, b, p);
      DivModUnique(0, p, 0, 0);
    }
  }

  /** a and b are congruent when their difference is that of two congruent numbers. */
  lemma CongFromDiff(p: int, a: int, b: int, e: int, g: int)
    requires p > 0 && a - b == e - g && e % p == g % p
    ensures a % p == b % p
  {
    DiffZero(p, e, g);
    DiffZero(p, a, b);
  }

  /** If w == 1 modulo p then so are w^2, w^3, w^4 and w^6. */
  lemma PowersOfOne(p: int, w: int)
    requires p > 1 && w % p == 1
    ensures (w * w) % p == 1
    ensures ((w * w) * w) % p == 1
    ensures ((w * w) * (w * w)) % p == 1
    ensures (((w * w) * (w * w)) * (w * w)) % p == 1
  {
    DivModUnique(1, p, 0, 1);
    MulCong(p, w, w, 1, 1);
    MulCong(p, w * w, w, 1, 1);
    MulCong(p, w * w, w * w, 1, 1);
    MulCong(p, (w * w) * (w * w), w * w, 1, 1);
  }
}
