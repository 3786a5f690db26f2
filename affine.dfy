/**
 * Affine coordinates: z only marks the point at infinity (z == 0); any other
 * point stands for (x, y) itself and the formulas return z == 1.
 */
module Affine {
  import opened Fp
  import opened Curve

  /** The affine point a triple stands for in Affine mode. */
  function Meaning(P: Point): (A: AffinePoint)
    ensures A.Infinity? <==> IsZero(P)
  {
    if P.z == 0 then Infinity else Finite(P.x, P.y)
  }

  /** The curve's right-hand side x^3 + a x + b, as an integer. */
  function Rhs(c: Curve, x: int): int {
    x * x * x + c.a * x + c.b
  }

  // ---------------------------------------------------------------------------
  // Validity
  // ---------------------------------------------------------------------------

  /** `isValidAffine`: y^2 == (x^2 + a) x + b. */
  predicate IsValid(c: Curve, P: Point)
    requires c.f.p > 0
  {
    var f := c.f;
    f.Sqr(P.y) == f.Add(f.Mul(f.Add(f.Sqr(P.x), c.a), P.x), c.b)
  }

  /** `isValidAffine` is the curve equation on (x, y). */
  lemma IsValidMeaning(c: Curve, P: Point)
    requires c.Valid() && c.Has(P)
    ensures IsValid(c, P) <==> c.OnCurve(P.x, P.y)
  {
    RhsSteps(c, P.x);
  }

  /** (x^2 + a) x + b computed in the field is x^3 + a x + b modulo p. */
  lemma RhsSteps(c: Curve, X: int)
    requires c.Valid() && c.f.In(X)
    ensures var f := c.f;
      f.Add(f.Mul(f.Add(f.Sqr(X), c.a), X), c.b) == Rhs(c, X) % c.f.p
  {
    var f := c.f;
    Canonical(f, X);
    Canonical(f, c.a);
    Canonical(f, c.b);
    SqrStep(f, X, X);
    AddStep(f, f.Sqr(X), c.a, X * X, c.a);
    MulStep(f, f.Add(f.Sqr(X), c.a), X, X * X + c.a, X);
    AddStep(f, f.Mul(f.Add(f.Sqr(X), c.a), X), c.b, (X * X + c.a) * X, c.b);
    assert (X * X + c.a) * X + c.b == X * X * X + c.a * X + c.b;
  }

  // ---------------------------------------------------------------------------
  // Doubling
  // ---------------------------------------------------------------------------

  /** The tangent slope (3 x^2 + a) / (2 y) at a point with y != 0. */
  function TangentSlope(c: Curve, P: Point): int
    requires c.f.p > 0 && c.f.In(P.y)
  {
    var p := c.f.p;
    ((3 * (P.x * P.x) + c.a) * c.f.Inv((2 * P.y) % p)) % p
  }

  /**
   * Affine doubling (the textbook tangent rule): the identity and points with
   * y == 0 double to the cleared identity; otherwise, with slope l,
   * x3 = l^2 - 2 x and y3 = l (x - x3) - y.
   */
  function DblRef(c: Curve, P: Point): (R: Point)
    requires c.f.p > 0 && c.f.In(P.y)
    ensures c.f.p > 1 && c.Has(P) ==> c.Has(R)
    ensures IsZero(R) <==> IsZero(P) || P.y == 0
  {
    if IsZero(P) || P.y == 0 then Clear(c)
    else
      var p := c.f.p;
      var l := TangentSlope(c, P);
      var x3 := (l * l - 2 * P.x) % p;
      Point(x3, (l * (P.x - x3) - P.y) % p, 1)
  }

  /** `dblAffine`. */
  method Dbl(c: Curve, P: Point) returns (R: Point)
    requires c.Valid() && c.Has(P)
    ensures R == DblRef(c, P)
  {
    var f := c.f;
    if IsZero(P) {
      R := Clear(c);
      return;
    }
    if P.y == 0 {
      R := Clear(c);
      return;
    }
    var t := f.Sqr(P.x);
    var s := f.Add(t, t);
    t := f.Add(t, s);
    t := f.Add(t, c.a);
    s := f.Add(P.y, P.y);
    DblSteps(c, P);
    t := f.Div(t, s);
    s := f.Sqr(t);
    s := f.Sub(s, P.x);
    var x3 := f.Sub(s, P.x);
    s := f.Sub(P.x, x3);
    s := f.Mul(s, t);
    var ry := f.Sub(s, P.y);
    LineSteps(f, t, P.x, P.x, P.y);
    R := Point(x3, ry, 1);
  }

  /** The numerator and denominator of the tangent slope, as `dblAffine` computes them. */
  lemma DblSteps(c: Curve, P: Point)
    requires c.Valid() && c.Has(P)
    ensures var f := c.f;
      var x2 := f.Sqr(P.x);
      var t := f.Add(f.Add(x2, f.Add(x2, x2)), c.a);
      f.Div(t, f.Add(P.y, P.y)) == TangentSlope(c, P)
  {
    var f := c.f;
    var X2 := P.x * P.x;
    var x2 := f.Sqr(P.x);
    Canonical(f, c.a);
    AddStep(f, x2, x2, X2, X2);
    AddStep(f, x2, f.Add(x2, x2), X2, X2 + X2);
    AddStep(f, f.Add(x2, f.Add(x2, x2)), c.a, X2 + (X2 + X2), c.a);
    var t := f.Add(f.Add(x2, f.Add(x2, x2)), c.a);
    assert t == (3 * X2 + c.a) % f.p;
    var s := f.Add(P.y, P.y);
    assert s == (2 * P.y) % f.p;
    var v := f.Inv(s);
    Canonical(f, v);
    MulStep(f, t, v, 3 * X2 + c.a, v);
  }

  /**
   * The common tail of `dblAffine` and `addAffine`: from the slope l,
   * x3 = l^2 - x1 - x2 and y3 = l (x1 - x3) - y1.
   */
  lemma LineSteps(f: Field, l: int, x1: int, x2: int, y1: int)
    requires f.Valid() && f.In(x1) && f.In(x2) && f.In(y1) && f.In(l)
    ensures var x3 := f.Sub(f.Sub(f.Sqr(l), x1), x2);
      && x3 == (l * l - x1 - x2) % f.p
      && f.Sub(f.Mul(f.Sub(x1, x3), l), y1) == (l * (x1 - x3) - y1) % f.p
  {
    LineX(f, l, x1, x2);
    LineY(f, l, x1, f.Sub(f.Sub(f.Sqr(l), x1), x2), y1);
  }

  lemma LineX(f: Field, l: int, x1: int, x2: int)
    requires f.p > 0 && f.In(x1) && f.In(x2)
    ensures f.Sub(f.Sub(f.Sqr(l), x1), x2) == (l * l - x1 - x2) % f.p
  {
    Canonical(f, x1);
    Canonical(f, x2);
    SubStep(f, f.Sqr(l), x1, l * l, x1);
    SubStep(f, f.Sub(f.Sqr(l), x1), x2, l * l - x1, x2);
  }

  lemma LineY(f: Field, l: int, x1: int, x3: int, y1: int)
    requires f.p > 0 && f.In(x1) && f.In(x3) && f.In(y1) && f.In(l)
    ensures f.Sub(f.Mul(f.Sub(x1, x3), l), y1) == (l * (x1 - x3) - y1) % f.p
  {
    Canonical(f, x1);
    Canonical(f, x3);
    Canonical(f, y1);
    Canonical(f, l);
    SubStep(f, x1, x3, x1, x3);
    MulStepSwap(f, f.Sub(x1, x3), l, x1 - x3, l);
    SubStep(f, f.Mul(f.Sub(x1, x3), l), y1, l * (x1 - x3), y1);
  }

  /** The tangent slope l satisfies 2 y l == 3 x^2 + a. */
  lemma TangentSlopeProp(c: Curve, P: Point)
    requires c.Valid() && c.Has(P) && P.y != 0
    ensures c.f.In(TangentSlope(c, P))
    ensures (2 * P.y * TangentSlope(c, P)) % c.f.p == (3 * (P.x * P.x) + c.a) % c.f.p
  {
    var f, p := c.f, c.f.p;
    var s := (2 * P.y) % p;
    var v := f.Inv(s);
    var N := 3 * (P.x * P.x) + c.a;
    var l := (N * v) % p;
    TwoYNonZero(f, P.y);
    OneIsCanonical(f);
    assert (s * v) % p == 1;
    // (2 y) l == s (N v) == N (s v) == N
    ModOfMod(2 * P.y, p);
    ModOfMod(N * v, p);
    MulCong(p, 2 * P.y, l, s, N * v);
    RingSwap(s, N, v);
    MulCong(p, N, s * v, N, 1);
  }

  /** 2 y is not zero modulo p for a nonzero element y (p is odd). */
  lemma TwoYNonZero(f: Field, y: int)
    requires f.Valid() && f.In(y) && y != 0
    ensures (2 * y) % f.p != 0
  {
    NoZeroDivisors(f, 2, y);
    DivModUnique(2, f.p, 0, 2);
    Canonical(f, y);
  }

  /**
   * For the line through (x, y) with slope l, where l satisfies the tangent
   * condition and t == l^2 - 2 x, the curve and the line agree at t up to
   * multiples of the two defects.
   */
  lemma TangentIdentity(t: int, l: int, x: int, y: int, a: int, b: int)
    ensures (t * t * t + a * t + b) - (l * (t - x) + y) * (l * (t - x) + y)
      == -(2 * y * l - (3 * (x * x) + a)) * (t - x) - (y * y - (x * x * x + a * x + b))
         - (l * l - t - 2 * x) * ((t - x) * (t - x))
  {
  }

  /** TangentIdentity at t == l^2 - 2 x, where the last term vanishes. */
  lemma TangentAt(l: int, x: int, y: int, a: int, b: int)
    ensures var t := l * l - 2 * x;
      (t * t * t + a * t + b) - (l * (t - x) + y) * (l * (t - x) + y)
      == 0 - (2 * y * l - (3 * (x * x) + a)) * (t - x) - (y * y - (x * x * x + a * x + b))
  {
    var t := l * l - 2 * x;
    TangentIdentity(t, l, x, y, a, b);
    var K := l * l - t - 2 * x;
    assert K == 0;
    assert K * ((t - x) * (t - x)) == 0;
    assert -(2 * y * l - (3 * (x * x) + a)) * (t - x) == 0 - (2 * y * l - (3 * (x * x) + a)) * (t - x);
  }

  /** The tangent line meets the curve again at x3 = l^2 - 2 x. */
  lemma TangentMeets(c: Curve, P: Point)
    requires c.Valid() && c.Has(P) && P.y != 0 && c.OnCurve(P.x, P.y)
    ensures var l := TangentSlope(c, P);
      var t := l * l - 2 * P.x;
      (Rhs(c, t) - (l * (t - P.x) + P.y) * (l * (t - P.x) + P.y)) % c.f.p == 0
  {
    var f, p := c.f, c.f.p;
    var l := TangentSlope(c, P);
    var t := l * l - 2 * P.x;
    var D1 := P.y * P.y - Rhs(c, P.x);
    var D2 := 2 * P.y * l - (3 * (P.x * P.x) + c.a);
    TangentAt(l, P.x, P.y, c.a, c.b);
    TangentSlopeProp(c, P);
    DiffZero(p, P.y * P.y, Rhs(c, P.x));
    DiffZero(p, 2 * P.y * l, 3 * (P.x * P.x) + c.a);
    DivModUnique(0, p, 0, 0);
    MulCong(p, D2, t - P.x, 0, t - P.x);
    ZeroSum(p, D2 * (t - P.x), D1);
  }

  /** 0 - m - d is zero modulo p when m and d are. */
  lemma ZeroSum(p: int, m: int, d: int)
    requires p > 0 && m % p == 0 && d % p == 0
    ensures (0 - m - d) % p == 0
  {
    DivModUnique(0, p, 0, 0);
    SubCong(p, 0, m, 0, 0);
    SubCong(p, 0 - m, d, 0, 0);
  }

  /**
   * If the line through (x1, y1) with slope l meets the curve at the integer t,
   * then (t, l (x1 - t) - y1) reduced modulo p is on the curve.
   */
  lemma LineFinish(c: Curve, l: int, x1: int, y1: int, t: int)
    requires c.Valid()
    requires (Rhs(c, t) - (l * (t - x1) + y1) * (l * (t - x1) + y1)) % c.f.p == 0
    ensures var x3 := t % c.f.p;
      c.OnCurve(x3, (l * (x1 - x3) - y1) % c.f.p)
  {
    var p := c.f.p;
    var x3 := t % p;
    var S := l * (t - x1) + y1;
    var y3 := (l * (x1 - x3) - y1) % p;
    DiffZero(p, Rhs(c, t), S * S);
    ModOfMod(t, p);
    WeierCong(c, t, x3);
    // y3 == -S modulo p
    SubCong(p, x1, x3, x1, t);
    MulCong(p, l, x1 - x3, l, x1 - t);
    SubCong(p, l * (x1 - x3), y1, l * (x1 - t), y1);
    assert l * (x1 - t) - y1 == -S;
    ModOfMod(l * (x1 - x3) - y1, p);
    MulCong(p, y3, y3, -S, -S);
    assert (-S) * (-S) == S * S;
  }

  /** Doubling a point on the curve gives a point on the curve (or the identity). */
  lemma DblOnCurve(c: Curve, P: Point)
    requires c.Valid() && c.Has(P) && c.OnCurve(P.x, P.y)
    ensures var R := DblRef(c, P);
      !IsZero(R) ==> c.OnCurve(R.x, R.y)
  {
    if !IsZero(P) && P.y != 0 {
      TangentMeets(c, P);
      LineFinish(c, TangentSlope(c, P), P.x, P.y, TangentSlope(c, P) * TangentSlope(c, P) - 2 * P.x);
    }
  }

  // ---------------------------------------------------------------------------
  // Addition
  // ---------------------------------------------------------------------------

  /** The chord slope (y2 - y1) / (x2 - x1). */
  function ChordSlope(c: Curve, P: Point, Q: Point): int
    requires c.f.p > 0
  {
    var p := c.f.p;
    ((Q.y - P.y) * c.f.Inv((Q.x - P.x) % p)) % p
  }

  /**
   * Affine addition (the textbook chord rule): an identity operand gives the
   * other operand; equal x doubles when y agrees too and gives the cleared
   * identity otherwise; else, with slope l, x3 = l^2 - x1 - x2 and
   * y3 = l (x1 - x3) - y1.
   */
  function AddRef(c: Curve, P: Point, Q: Point): Point
    requires c.f.p > 0 && c.f.In(P.y)
  {
    if IsZero(P) then Q
    else if IsZero(Q) then P
    else
      var p := c.f.p;
      if (Q.x - P.x) % p == 0 then (if P.y == Q.y then DblRef(c, P) else Clear(c))
      else
        var l := ChordSlope(c, P, Q);
        var x3 := (l * l - P.x - Q.x) % p;
        Point(x3, (l * (P.x - x3) - P.y) % p, 1)
  }

  /** `addAffine`. */
  method Add(c: Curve, P: Point, Q: Point) returns (R: Point)
    requires c.Valid() && c.Has(P) && c.Has(Q)
    ensures R == AddRef(c, P, Q)
    ensures IsZero(P) ==> R == Q
    ensures !IsZero(P) && IsZero(Q) ==> R == P
  {
    var f := c.f;
    if IsZero(P) {
      R := Q;
      return;
    }
    if IsZero(Q) {
      R := P;
      return;
    }
    var t := f.Sub(Q.x, P.x);
    if t == 0 {
      if P.y == Q.y {
        R := Dbl(c, P);
      } else {
        R := Clear(c);
      }
      return;
    }
    var s := f.Sub(Q.y, P.y);
    ChordSteps(c, P, Q);
    t := f.Div(s, t);
    var x3 := f.Sqr(t);
    x3 := f.Sub(x3, P.x);
    x3 := f.Sub(x3, Q.x);
    s := f.Sub(P.x, x3);
    s := f.Mul(s, t);
    var ry := f.Sub(s, P.y);
    LineSteps(f, t, P.x, Q.x, P.y);
    R := Point(x3, ry, 1);
  }

  /** The chord slope as `addAffine` computes it. */
  lemma ChordSteps(c: Curve, P: Point, Q: Point)
    requires c.Valid() && c.Has(P) && c.Has(Q)
    ensures c.f.Div(c.f.Sub(Q.y, P.y), c.f.Sub(Q.x, P.x)) == ChordSlope(c, P, Q)
  {
    var f := c.f;
    var v := f.Inv(f.Sub(Q.x, P.x));
    Canonical(f, v);
    MulStep(f, f.Sub(Q.y, P.y), v, Q.y - P.y, v);
  }

  /** The chord slope l satisfies l (x2 - x1) == y2 - y1. */
  lemma ChordSlopeProp(c: Curve, P: Point, Q: Point)
    requires c.Valid() && (Q.x - P.x) % c.f.p != 0
    ensures c.f.In(ChordSlope(c, P, Q))
    ensures (ChordSlope(c, P, Q) * (Q.x - P.x)) % c.f.p == (Q.y - P.y) % c.f.p
  {
    QuotientProp(c.f, Q.x - P.x, Q.y - P.y);
  }

  /** The quotient l = N / d, computed as N inv(d mod p), satisfies l d == N. */
  lemma QuotientProp(f: Field, d: int, N: int)
    requires f.Valid() && d % f.p != 0
    ensures ((N * f.Inv(d % f.p)) % f.p * d) % f.p == N % f.p
  {
    var p := f.p;
    var s := d % p;
    var v := f.Inv(s);
    var l := (N * v) % p;
    OneIsCanonical(f);
    assert (s * v) % p == 1;
    // l d == (N v) s == N (s v) == N
    ModOfMod(N * v, p);
    ModOfMod(d, p);
    MulCong(p, l, d, N * v, s);
    RingRot(N, v, s);
    MulCong(p, N, s * v, N, 1);
  }

  /**
   * For the line through (x1, y1) with slope l and any X, the curve minus the
   * line minus (X - x1)(X - x2)(X - t) is linear in X when l^2 == x1 + x2 + t.
   */
  lemma ChordIdentity(X: int, l: int, x1: int, x2: int, t: int, y1: int, a: int, b: int)
    ensures (X * X * X + a * X + b) - (l * (X - x1) + y1) * (l * (X - x1) + y1) - (X - x1) * (X - x2) * (X - t)
      == -(l * l - x1 - x2 - t) * (X * X)
         + (a + 2 * (l * l) * x1 - 2 * l * y1 - x1 * x2 - x1 * t - x2 * t) * X
         + (b - (l * l) * (x1 * x1) + 2 * l * y1 * x1 - y1 * y1 + x1 * x2 * t)
  {
  }

  /** The curve minus the chord through P, at X, with t == l^2 - x1 - x2. */
  function ChordGap(c: Curve, l: int, P: Point, X: int): int {
    Rhs(c, X) - (l * (X - P.x) + P.y) * (l * (X - P.x) + P.y)
  }

  /**
   * The chord gap agrees with one linear function al X + be at the three
   * points where (X - x1)(X - x2)(X - t) vanishes, t == l^2 - x1 - x2.
   */
  lemma ChordGapLinear(c: Curve, l: int, P: Point, Q: Point) returns (al: int, be: int)
    ensures var t := l * l - P.x - Q.x;
      && ChordGap(c, l, P, P.x) == al * P.x + be
      && ChordGap(c, l, P, Q.x) == al * Q.x + be
      && ChordGap(c, l, P, t) == al * t + be
  {
    var t := l * l - P.x - Q.x;
    al := c.a + 2 * (l * l) * P.x - 2 * l * P.y - P.x * Q.x - P.x * t - Q.x * t;
    be := c.b - (l * l) * (P.x * P.x) + 2 * l * P.y * P.x - P.y * P.y + P.x * Q.x * t;
    ChordIdentity(P.x, l, P.x, Q.x, t, P.y, c.a, c.b);
    ChordIdentity(Q.x, l, P.x, Q.x, t, P.y, c.a, c.b);
    ChordIdentity(t, l, P.x, Q.x, t, P.y, c.a, c.b);
  }

  /** The chord gap vanishes modulo p at x1 when P is on the curve. */
  lemma ChordAtP(c: Curve, l: int, P: Point)
    requires c.Valid() && c.OnCurve(P.x, P.y)
    ensures ChordGap(c, l, P, P.x) % c.f.p == 0
  {
    assert l * (P.x - P.x) + P.y == P.y;
    DiffZero(c.f.p, Rhs(c, P.x), P.y * P.y);
  }

  /** A linear function zero modulo p at two distinct points is zero modulo p everywhere. */
  lemma LinearZero(f: Field, al: int, be: int, x1: int, x2: int, t: int)
    requires f.Valid() && (x2 - x1) % f.p != 0
    requires (al * x1 + be) % f.p == 0 && (al * x2 + be) % f.p == 0
    ensures (al * t + be) % f.p == 0
  {
    var p := f.p;
    DiffZero(p, al * x2 + be, al * x1 + be);
    assert (al * x2 + be) - (al * x1 + be) == al * (x2 - x1);
    NoZeroDivisors(f, al, x2 - x1);
    DivModUnique(0, p, 0, 0);
    MulCong(p, al, x1, 0, x1);
    MulCong(p, al, t, 0, t);
    SubCong(p, al * x1 + be, al * x1, 0, 0);
    assert (al * x1 + be) - al * x1 == be;
    AddCong(p, al * t, be, 0, 0);
  }

  /** The chord gap vanishes modulo p at x2 when Q is on the curve. */
  lemma ChordAtQ(c: Curve, P: Point, Q: Point)
    requires c.Valid() && (Q.x - P.x) % c.f.p != 0 && c.OnCurve(Q.x, Q.y)
    ensures ChordGap(c, ChordSlope(c, P, Q), P, Q.x) % c.f.p == 0
  {
    var p := c.f.p;
    var l := ChordSlope(c, P, Q);
    var S := l * (Q.x - P.x) + P.y;
    ChordSlopeProp(c, P, Q);
    AddCong(p, l * (Q.x - P.x), P.y, Q.y - P.y, P.y);
    MulCong(p, S, S, Q.y, Q.y);
    DiffZero(p, Rhs(c, Q.x), S * S);
  }

  /** The chord through two points of the curve with distinct x meets it again at l^2 - x1 - x2. */
  lemma ChordMeets(c: Curve, P: Point, Q: Point)
    requires c.Valid() && (Q.x - P.x) % c.f.p != 0
    requires c.OnCurve(P.x, P.y) && c.OnCurve(Q.x, Q.y)
    ensures var l := ChordSlope(c, P, Q);
      ChordGap(c, l, P, l * l - P.x - Q.x) % c.f.p == 0
  {
    var l := ChordSlope(c, P, Q);
    var al, be := ChordGapLinear(c, l, P, Q);
    ChordAtP(c, l, P);
    ChordAtQ(c, P, Q);
    LinearZero(c.f, al, be, P.x, Q.x, l * l - P.x - Q.x);
  }

  /** Adding two points of the curve gives a point of the curve (or the identity). */
  lemma AddOnCurve(c: Curve, P: Point, Q: Point)
    requires c.Valid() && c.Has(P) && c.Has(Q)
    requires c.OnCurve(P.x, P.y) && c.OnCurve(Q.x, Q.y)
    ensures var R := AddRef(c, P, Q);
      !IsZero(R) ==> c.OnCurve(R.x, R.y)
  {
    if !IsZero(P) && !IsZero(Q) {
      if (Q.x - P.x) % c.f.p == 0 {
        DblOnCurve(c, P);
      } else {
        ChordOnCurve(c, P, Q);
      }
    }
  }

  /** The third point of the chord through two points of the curve is on the curve. */
  lemma ChordOnCurve(c: Curve, P: Point, Q: Point)
    requires c.Valid() && (Q.x - P.x) % c.f.p != 0
    requires c.OnCurve(P.x, P.y) && c.OnCurve(Q.x, Q.y)
    ensures var l := ChordSlope(c, P, Q);
      var x3 := (l * l - P.x - Q.x) % c.f.p;
      c.OnCurve(x3, (l * (P.x - x3) - P.y) % c.f.p)
  {
    var l := ChordSlope(c, P, Q);
    ChordMeets(c, P, Q);
    LineFinish(c, l, P.x, P.y, l * l - P.x - Q.x);
  }

  /**
   * Same x: `addAffine` doubles when y agrees and gives the cleared identity
   * otherwise. Different x: the sum is a finite point.
   */
  lemma AddRefCases(c: Curve, P: Point, Q: Point)
    requires c.Valid() && c.Has(P) && c.Has(Q) && !IsZero(P) && !IsZero(Q)
    ensures P.x == Q.x ==> AddRef(c, P, Q) == if P.y == Q.y then DblRef(c, P) else Clear(c)
    ensures P.x != Q.x ==> AddRef(c, P, Q).z == 1
  {
    Canonical(c.f, P.x);
    Canonical(c.f, Q.x);
    DiffZero(c.f.p, Q.x, P.x);
  }

  /** `add(P, P)` is `dbl(P)`. */
  lemma AddRefSelf(c: Curve, P: Point)
    requires c.Valid() && c.Has(P) && !IsZero(P)
    ensures AddRef(c, P, P) == DblRef(c, P)
  {
    AddRefCases(c, P, P);
  }

  /** P + (-P) is the identity. */
  lemma AddNeg(c: Curve, P: Point)
    requires c.Valid() && c.Has(P)
    ensures IsZero(AddRef(c, P, Neg(c, P)))
  {
    if !IsZero(P) {
      AddRefCases(c, P, Neg(c, P));
      if P.y != 0 {
        NegParity(c.f, P.y);
      } else {
        NegZero(c.f);
      }
    }
  }

  /** Inverting a negated element negates the inverse. */
  lemma InvNeg(f: Field, d: int)
    requires f.Valid() && f.In(d) && d != 0
    ensures f.Inv(f.Neg(d)) == f.Neg(f.Inv(d))
  {
    var v := f.Inv(d);
    NegCanonical(f, d);
    NegCanonical(f, v);
    NegParity(f, d);
    NegTimesNeg(f, d, v);
    InvOf(f, f.Neg(d), f.Neg(v));
  }

  /** The chord slope does not depend on the order of the two points. */
  lemma ChordSlopeSym(c: Curve, P: Point, Q: Point)
    requires c.Valid() && (Q.x - P.x) % c.f.p != 0
    ensures ChordSlope(c, P, Q) == ChordSlope(c, Q, P)
  {
    SlopeSym(c.f, P.x, P.y, Q.x, Q.y);
  }

  /** (y2 - y1) / (x2 - x1) == (y1 - y2) / (x1 - x2). */
  lemma SlopeSym(f: Field, x1: int, y1: int, x2: int, y2: int)
    requires f.Valid() && (x2 - x1) % f.p != 0
    ensures ((y2 - y1) * f.Inv((x2 - x1) % f.p)) % f.p == ((y1 - y2) * f.Inv((x1 - x2) % f.p)) % f.p
  {
    var p := f.p;
    var d := (x2 - x1) % p;
    var v := f.Inv(d);
    // (x1 - x2) mod p is -d, whose inverse is -v
    NegDiff(p, x2, x1);
    InvNeg(f, d);
    assert f.Inv((x1 - x2) % p) == f.Neg(v);
    ModOfMod(0 - v, p);
    MulCong(p, y1 - y2, f.Neg(v), y1 - y2, 0 - v);
    RingNegSwap(y1, y2, v);
  }

  /** (b - a) mod p is -((a - b) mod p). */
  lemma NegDiff(p: int, a: int, b: int)
    requires p > 0
    ensures (b - a) % p == (0 - (a - b) % p) % p
  {
    ModOfMod(a - b, p);
    SubCong(p, 0, a - b, 0, (a - b) % p);
    assert 0 - (a - b) == b - a;
  }

  /** The sum's y does not depend on which of the two chord points it is read from. */
  lemma ChordYSym(c: Curve, P: Point, Q: Point)
    requires c.Valid() && (Q.x - P.x) % c.f.p != 0
    ensures var l := ChordSlope(c, P, Q);
      var x3 := (l * l - P.x - Q.x) % c.f.p;
      (l * (P.x - x3) - P.y) % c.f.p == (l * (Q.x - x3) - Q.y) % c.f.p
  {
    var p := c.f.p;
    ChordSlopeProp(c, P, Q);
    LineYSym(c.f, ChordSlope(c, P, Q), P.x, P.y, Q.x, Q.y);
  }

  /** On a line of slope l through both points, y3 read from either point is the same. */
  lemma LineYSym(f: Field, l: int, x1: int, y1: int, x2: int, y2: int)
    requires f.p > 0 && (l * (x2 - x1)) % f.p == (y2 - y1) % f.p
    ensures var x3 := (l * l - x1 - x2) % f.p;
      (l * (x1 - x3) - y1) % f.p == (l * (x2 - x3) - y2) % f.p
  {
    var x3 := (l * l - x1 - x2) % f.p;
    RingChordY(l, x1, y1, x2, y2, x3);
    CongFromDiff(f.p, l * (x2 - x3) - y2, l * (x1 - x3) - y1, l * (x2 - x1), y2 - y1);
  }

  lemma RingChordY(l: int, x1: int, y1: int, x2: int, y2: int, x3: int)
    ensures (l * (x2 - x3) - y2) - (l * (x1 - x3) - y1) == l * (x2 - x1) - (y2 - y1)
  {
  }

  /** Affine addition is commutative, as a map on affine meanings. */
  lemma AddRefComm(c: Curve, P: Point, Q: Point)
    requires c.Valid() && c.Has(P) && c.Has(Q)
    ensures Meaning(AddRef(c, P, Q)) == Meaning(AddRef(c, Q, P))
  {
    if !IsZero(P) && !IsZero(Q) {
      AddRefCases(c, P, Q);
      AddRefCases(c, Q, P);
      if P.x != Q.x {
        ChordComm(c, P, Q);
      } else if P.y == Q.y {
        DblRefXY(c, P, Q);
      }
    }
  }

  /** Doubling reads only x and y of a finite point. */
  lemma DblRefXY(c: Curve, P: Point, Q: Point)
    requires c.f.p > 0 && c.f.In(P.y) && !IsZero(P) && !IsZero(Q) && P.x == Q.x && P.y == Q.y
    ensures DblRef(c, P) == DblRef(c, Q)
  {
    assert TangentSlope(c, P) == TangentSlope(c, Q);
  }

  /** For finite points with distinct x, the chord rule gives the same point in both orders. */
  lemma ChordComm(c: Curve, P: Point, Q: Point)
    requires c.Valid() && c.Has(P) && c.Has(Q) && !IsZero(P) && !IsZero(Q) && P.x != Q.x
    ensures AddRef(c, P, Q) == AddRef(c, Q, P)
  {
    var p := c.f.p;
    Canonical(c.f, P.x);
    Canonical(c.f, Q.x);
    DiffZero(p, Q.x, P.x);
    DiffZero(p, P.x, Q.x);
    var l := ChordSlope(c, P, Q);
    ChordSlopeSym(c, P, Q);
    ChordYSym(c, P, Q);
    assert l * l - P.x - Q.x == l * l - Q.x - P.x;
  }

  // ---------------------------------------------------------------------------
  // Negation and equality
  // ---------------------------------------------------------------------------

  /** `neg` negates the meaning. */
  lemma NegMeaning(c: Curve, P: Point)
    requires c.f.Valid()
    ensures Meaning(Neg(c, P)) == NegA(c.f, Meaning(P))
  {
  }

  /** `operator==` in Affine mode: all three coordinates agree. */
  predicate IsEqual(P1: Point, P2: Point) {
    P1.x == P2.x && P1.y == P2.y && P1.z == P2.z
  }

  /** `isEqualOrMinus` in Affine mode: x and z agree, then y == y' gives 1 and y == -y' gives -1. */
  function IsEqualOrMinus(c: Curve, P1: Point, P2: Point): int
    requires c.f.p > 0
  {
    if P1.x == P2.x && P1.z == P2.z then
      if P1.y == P2.y then 1
      else if P1.y == c.f.Neg(P2.y) then -1
      else 0
    else 0
  }

  /**
   * `isEqualOrMinus` is 1 exactly for equal points, and always one of -1, 0
   * and 1; for a finite P2 it is -1 exactly when P1 is neg(P2) but not P2, and
   * 0 exactly when P1 is neither.
   */
  lemma IsEqualOrMinusMeaning(c: Curve, P1: Point, P2: Point)
    requires c.f.Valid()
    ensures IsEqualOrMinus(c, P1, P2) == 1 <==> IsEqual(P1, P2)
    ensures !IsZero(P2) ==> (IsEqualOrMinus(c, P1, P2) == -1 <==> !IsEqual(P1, P2) && IsEqual(P1, Neg(c, P2)))
    ensures -1 <= IsEqualOrMinus(c, P1, P2) <= 1
    ensures !IsZero(P2) ==> (IsEqualOrMinus(c, P1, P2) == 0 <==> !IsEqual(P1, P2) && !IsEqual(P1, Neg(c, P2)))
  {
  }
}
