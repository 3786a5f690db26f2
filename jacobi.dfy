/**
 * Jacobian coordinates: (X, Y, Z) with Z != 0 stands for the affine point
 * (X / Z^2, Y / Z^3); Z == 0 is the point at infinity.
 */
module Jacobi {
  import opened Fp
  import opened Curve

  // ---------------------------------------------------------------------------
  // Meaning
  // ---------------------------------------------------------------------------

  /** The affine point (x / z^2, y / z^3) that a Jacobian triple stands for. */
  ghost function Meaning(c: Curve, P: Point): AffinePoint
    requires c.f.Valid() && c.Has(P)
  {
    if P.z == 0 then Infinity
    else
      var f := c.f;
      var u := f.Inv(P.z);
      Finite(f.Mul(P.x, f.Sqr(u)), f.Mul(f.Mul(P.y, f.Sqr(u)), u))
  }

  /** The meaning of a point with z != 0, as integers reduced modulo p. */
  lemma Coords(c: Curve, P: Point)
    requires c.f.Valid() && c.Has(P) && P.z != 0
    ensures (P.z * c.f.Inv(P.z)) % c.f.p == 1
    ensures c.f.Inv(P.z) % c.f.p != 0
    ensures Meaning(c, P) == Finite((P.x * (c.f.Inv(P.z) * c.f.Inv(P.z))) % c.f.p,
                                    (P.y * ((c.f.Inv(P.z) * c.f.Inv(P.z)) * c.f.Inv(P.z))) % c.f.p)
  {
    var f, u := c.f, c.f.Inv(P.z);
    ScaleSq(f, P.x, u);
    ScaleCube(f, P.y, u);
    UnitNonZero(f, P.z, u);
  }

  /** x inv^2 as an integer reduced modulo p. */
  lemma ScaleSq(f: Field, x: int, u: int)
    requires f.Valid() && f.In(x) && f.In(u)
    ensures f.Mul(x, f.Sqr(u)) == (x * (u * u)) % f.p
  {
    Canonical(f, x);
    MulStep(f, x, f.Sqr(u), x, u * u);
  }

  /** y inv^2 inv as an integer reduced modulo p. */
  lemma ScaleCube(f: Field, y: int, u: int)
    requires f.Valid() && f.In(y) && f.In(u)
    ensures f.Mul(f.Mul(y, f.Sqr(u)), u) == (y * ((u * u) * u)) % f.p
  {
    Canonical(f, y);
    Canonical(f, u);
    MulStep(f, y, f.Sqr(u), y, u * u);
    MulStep(f, f.Mul(y, f.Sqr(u)), u, y * (u * u), u);
    AssocCube(f.p, y, u);
  }

  lemma AssocCube(p: int, y: int, u: int)
    requires p > 0
    ensures ((y * (u * u)) * u) % p == (y * ((u * u) * u)) % p
  {
    assert (y * (u * u)) * u == y * ((u * u) * u);
  }

  /**
   * The normal form of a point: z == 0 or z == 1 is kept, any other point is
   * replaced by its affine coordinates with z == 1.
   */
  ghost function NormalForm(c: Curve, P: Point): (Q: Point)
    requires c.f.Valid() && c.Has(P)
    ensures c.Has(Q) && IsNormalized(Q)
    ensures Meaning(c, Q) == Meaning(c, P)
    ensures IsNormalized(P) ==> Q == P
  {
    if IsNormalized(P) then P
    else
      var A := Meaning(c, P);
      var Q := Point(A.x, A.y, 1);
      AffineIsNormal(c, Q);
      Q
  }

  /** A point with z == 1 stands for (x, y). */
  lemma AffineIsNormal(c: Curve, P: Point)
    requires c.f.Valid() && c.Has(P) && P.z == 1
    ensures Meaning(c, P) == Finite(P.x, P.y)
  {
    InvOne(c.f);
    Canonical(c.f, P.x);
    Canonical(c.f, P.y);
    OneIsCanonical(c.f);
  }

  // ---------------------------------------------------------------------------
  // Normalization
  // ---------------------------------------------------------------------------

  /** `_normalizeJacobi(Q, P, inv)`: (x inv^2, y inv^3, 1). */
  function NormalizeWith(c: Curve, P: Point, inv: int): (Q: Point)
    requires c.f.Valid() && c.Has(P) && c.f.In(inv)
    ensures c.Has(Q) && Q.z == 1
    ensures P.z != 0 && (P.z * inv) % c.f.p == 1 && !IsNormalized(P) ==> Q == NormalForm(c, P)
  {
    var f := c.f;
    var inv2 := f.Sqr(inv);
    var Q := Point(f.Mul(P.x, inv2), f.Mul(f.Mul(P.y, inv2), inv), 1);
    InvOf(f, P.z, inv);
    Q
  }

  /** `normalizeJacobi`: reduce a point to z == 1 unless z is already 0 or 1. */
  method Normalize(c: Curve, P: Point) returns (Q: Point)
    requires c.Valid() && c.Has(P)
    ensures Q == NormalForm(c, P)
  {
    if P.z == 0 || P.z == 1 {
      Q := P;
      return;
    }
    var inv := c.f.Inv(P.z);
    Q := NormalizeWith(c, P, inv);
  }

  // ---------------------------------------------------------------------------
  // Equality
  // ---------------------------------------------------------------------------

  /** `isEqualJacobi`: compare x1 z2^2 with x2 z1^2 and y1 z2^3 with y2 z1^3. */
  predicate IsEqual(c: Curve, P1: Point, P2: Point)
    requires c.f.p > 0
  {
    if IsZero(P1) then IsZero(P2)
    else if IsZero(P2) then false
    else
      var f := c.f;
      var s1, s2 := f.Sqr(P1.z), f.Sqr(P2.z);
      f.Mul(P1.x, s2) == f.Mul(P2.x, s1)
      && f.Mul(f.Mul(P1.y, s2), P2.z) == f.Mul(f.Mul(P2.y, s1), P1.z)
  }

  /** The compared products, as integers reduced modulo p. */
  lemma CrossTerms(c: Curve, P1: Point, P2: Point)
    requires c.f.Valid() && c.Has(P1) && c.Has(P2)
    ensures c.f.Mul(P1.x, c.f.Sqr(P2.z)) == (P1.x * (P2.z * P2.z)) % c.f.p
    ensures c.f.Mul(c.f.Mul(P1.y, c.f.Sqr(P2.z)), P2.z) == (P1.y * ((P2.z * P2.z) * P2.z)) % c.f.p
  {
    ScaleSq(c.f, P1.x, P2.z);
    ScaleCube(c.f, P1.y, P2.z);
  }

  /** The x comparison of `isEqualJacobi` compares the affine x coordinates. */
  lemma CompareX(c: Curve, P1: Point, P2: Point)
    requires c.f.Valid() && c.Has(P1) && c.Has(P2) && P1.z != 0 && P2.z != 0
    ensures Meaning(c, P1).Finite? && Meaning(c, P2).Finite?
    ensures c.f.Mul(P1.x, c.f.Sqr(P2.z)) == c.f.Mul(P2.x, c.f.Sqr(P1.z))
            <==> Meaning(c, P1).x == Meaning(c, P2).x
  {
    var f := c.f;
    var u1, u2 := f.Inv(P1.z), f.Inv(P2.z);
    Coords(c, P1);
    Coords(c, P2);
    ScaleSq(f, P1.x, P2.z);
    ScaleSq(f, P2.x, P1.z);
    UnitPowers(f, P1.z, u1);
    UnitPowers(f, P2.z, u2);
    ScaledEq(f, P1.x, P2.x, P1.z * P1.z, P2.z * P2.z, u1 * u1, u2 * u2);
  }

  /** The y comparison of `isEqualJacobi` compares the affine y coordinates. */
  lemma CompareY(c: Curve, P1: Point, P2: Point)
    requires c.f.Valid() && c.Has(P1) && c.Has(P2) && P1.z != 0 && P2.z != 0
    ensures Meaning(c, P1).Finite? && Meaning(c, P2).Finite?
    ensures c.f.Mul(c.f.Mul(P1.y, c.f.Sqr(P2.z)), P2.z) == c.f.Mul(c.f.Mul(P2.y, c.f.Sqr(P1.z)), P1.z)
            <==> Meaning(c, P1).y == Meaning(c, P2).y
  {
    var f := c.f;
    var u1, u2 := f.Inv(P1.z), f.Inv(P2.z);
    Coords(c, P1);
    Coords(c, P2);
    ScaleCube(f, P1.y, P2.z);
    ScaleCube(f, P2.y, P1.z);
    UnitPowers(f, P1.z, u1);
    UnitPowers(f, P2.z, u2);
    ScaledEq(f, P1.y, P2.y, (P1.z * P1.z) * P1.z, (P2.z * P2.z) * P2.z, (u1 * u1) * u1, (u2 * u2) * u2);
  }

  /** The negated y comparison of `isEqualOrMinusJacobi` compares y1 with -y2. */
  lemma CompareNegY(c: Curve, P1: Point, P2: Point)
    requires c.f.Valid() && c.Has(P1) && c.Has(P2) && P1.z != 0 && P2.z != 0
    ensures Meaning(c, P1).Finite? && Meaning(c, P2).Finite?
    ensures c.f.Neg(c.f.Mul(c.f.Mul(P1.y, c.f.Sqr(P2.z)), P2.z)) == c.f.Mul(c.f.Mul(P2.y, c.f.Sqr(P1.z)), P1.z)
            <==> Meaning(c, P1).y == c.f.Neg(Meaning(c, P2).y)
  {
    var f := c.f;
    var P2' := Point(P2.x, f.Neg(P2.y), P2.z);
    NegCanonical(f, P2.y);
    CompareY(c, P1, P2');
    NegOfScaled(c, P1, P2);
    NegCanonical(f, f.Mul(f.Mul(P1.y, f.Sqr(P2.z)), P2.z));
    NegCanonical(f, f.Mul(f.Mul(P2.y, f.Sqr(P1.z)), P1.z));
  }

  /** Negating y negates both the compared product and the affine y. */
  lemma NegOfScaled(c: Curve, P1: Point, P2: Point)
    requires c.f.Valid() && c.Has(P1) && c.Has(P2) && P1.z != 0 && P2.z != 0
    ensures var P2' := Point(P2.x, c.f.Neg(P2.y), P2.z);
      && c.Has(P2')
      && c.f.Mul(c.f.Mul(P2'.y, c.f.Sqr(P1.z)), P1.z) == c.f.Neg(c.f.Mul(c.f.Mul(P2.y, c.f.Sqr(P1.z)), P1.z))
      && Meaning(c, P2').y == c.f.Neg(Meaning(c, P2).y)
  {
    var f := c.f;
    var P2' := Point(P2.x, f.Neg(P2.y), P2.z);
    NegCanonical(f, P2.y);
    var u := f.Inv(P2.z);
    NegMulLeft(f, P2.y, (P1.z * P1.z) * P1.z);
    ScaleCube(f, P2.y, P1.z);
    ScaleCube(f, P2'.y, P1.z);
    NegMulLeft(f, P2.y, (u * u) * u);
    ScaleCube(f, P2.y, u);
    ScaleCube(f, P2'.y, u);
  }

  /** `isEqualJacobi` holds exactly when both points stand for the same affine point. */
  lemma IsEqualMeaning(c: Curve, P1: Point, P2: Point)
    requires c.f.Valid() && c.Has(P1) && c.Has(P2)
    ensures IsEqual(c, P1, P2) <==> Meaning(c, P1) == Meaning(c, P2)
  {
    if P1.z != 0 && P2.z != 0 {
      CompareX(c, P1, P2);
      CompareY(c, P1, P2);
    }
  }

  /** `isEqualOrMinusJacobi`: 1 if P1 == P2, -1 if P1 == -P2, 0 otherwise. */
  function IsEqualOrMinus(c: Curve, P1: Point, P2: Point): int
    requires c.f.p > 0
  {
    if IsZero(P1) then (if IsZero(P2) then 1 else 0)
    else if IsZero(P2) then 0
    else
      var f := c.f;
      var s1, s2 := f.Sqr(P1.z), f.Sqr(P2.z);
      if f.Mul(P1.x, s2) != f.Mul(P2.x, s1) then 0
      else
        var t1, t2 := f.Mul(f.Mul(P1.y, s2), P2.z), f.Mul(f.Mul(P2.y, s1), P1.z);
        if t1 == t2 then 1
        else if f.Neg(t1) == t2 then -1
        else 0
  }

  /**
   * `isEqualOrMinusJacobi` is 1 exactly for equal points, -1 exactly for
   * opposite points that are not equal, and 0 otherwise.
   */
  lemma IsEqualOrMinusMeaning(c: Curve, P1: Point, P2: Point)
    requires c.f.Valid() && c.Has(P1) && c.Has(P2)
    ensures IsEqualOrMinus(c, P1, P2) == 1 <==> Meaning(c, P1) == Meaning(c, P2)
    ensures IsEqualOrMinus(c, P1, P2) == -1
            <==> Meaning(c, P1) != Meaning(c, P2) && Meaning(c, P1) == NegA(c.f, Meaning(c, P2))
    ensures -1 <= IsEqualOrMinus(c, P1, P2) <= 1
    ensures IsEqualOrMinus(c, P1, P2) == 0
            <==> Meaning(c, P1) != Meaning(c, P2) && Meaning(c, P1) != NegA(c.f, Meaning(c, P2))
  {
    if P1.z != 0 && P2.z != 0 {
      var f := c.f;
      CompareX(c, P1, P2);
      CompareY(c, P1, P2);
      CompareNegY(c, P1, P2);
      var t1 := f.Mul(f.Mul(P1.y, f.Sqr(P2.z)), P2.z);
      var t2 := f.Mul(f.Mul(P2.y, f.Sqr(P1.z)), P1.z);
      NegCanonical(f, t1);
      NegCanonical(f, t2);
    }
  }

  // ---------------------------------------------------------------------------
  // Doubling
  // ---------------------------------------------------------------------------

  /**
   * Doubling in Jacobian coordinates (the textbook formula):
   * M = 3 X^2 + a Z^4, S = 4 X Y^2, X3 = M^2 - 2 S, Y3 = M (S - X3) - 8 Y^4, Z3 = 2 Y Z.
   * The identity doubles to the cleared identity.
   */
  function DblRef(c: Curve, P: Point): Point
    requires c.f.p > 0
  {
    if IsZero(P) then Clear(c)
    else
      var p := c.f.p;
      var M := 3 * (P.x * P.x) + c.a * ((P.z * P.z) * (P.z * P.z));
      var S := 4 * (P.x * (P.y * P.y));
      var X3 := M * M - 2 * S;
      Point(X3 % p, (M * (S - X3) - 8 * ((P.y * P.y) * (P.y * P.y))) % p, (2 * (P.y * P.z)) % p)
  }

  /** `dblJacobi`, with the branch for elements of at most 32 bytes (M == S). */
  method Dbl(c: Curve, P: Point) returns (R: Point)
    requires c.Valid() && c.Has(P)
    ensures R == DblRef(c, P)
  {
    var f := c.f;
    if IsZero(P) {
      R := Clear(c);
      return;
    }
    var isPzOne := P.z == 1;
    var x2 := f.Sqr(P.x);
    var y2 := f.Sqr(P.y);
    var xy := f.Mul(P.x, y2);
    xy := f.Add(xy, xy);
    y2 := f.Sqr(y2);
    xy := f.Add(xy, xy);
    DblHead(f, P.x, P.y);
    var t;
    match c.specialA {
      case Zero =>
        t := f.Mul2(x2);
        x2 := f.Add(x2, t);
        DblMZero(c, P);
      case Minus3 =>
        if isPzOne {
          x2 := f.Sub(x2, P.z);
        } else {
          t := f.Sqr(P.z);
          t := f.Sqr(t);
          x2 := f.Sub(x2, t);
        }
        t := f.Mul2(x2);
        x2 := f.Add(x2, t);
        DblMMinus3(c, P);
      case GenericA =>
        if isPzOne {
          t := c.a;
        } else {
          t := f.Sqr(P.z);
          t := f.Sqr(t);
          t := f.Mul(t, c.a);
        }
        t := f.Add(t, x2);
        x2 := f.Mul2(x2);
        x2 := f.Add(x2, t);
        DblMGeneric(c, P);
    }
    var rx := f.Sqr(x2);
    rx := f.Sub(rx, xy);
    rx := f.Sub(rx, xy);
    var rz;
    if isPzOne {
      rz := P.y;
    } else {
      rz := f.Mul(P.y, P.z);
    }
    rz := f.Mul2(rz);
    var ry := f.Sub(xy, rx);
    ry := f.Mul(ry, x2);
    y2 := f.Mul2(y2);
    y2 := f.Mul2(y2);
    y2 := f.Mul2(y2);
    ry := f.Sub(ry, y2);
    DblTail(c, P, x2, xy, f.Sqr(f.Sqr(P.y)));
    DblZ(c, P);
    R := Point(rx, ry, rz);
  }

  /** 4 x y^2 and y^4 as computed by `dblJacobi`. */
  lemma DblHead(f: Field, X: int, Y: int)
    requires f.Valid() && f.In(X) && f.In(Y)
    ensures var v := f.Mul(X, f.Sqr(Y));
      var w := f.Add(v, v);
      f.Add(w, w) == (4 * (X * (Y * Y))) % f.p
    ensures f.Sqr(f.Sqr(Y)) == ((Y * Y) * (Y * Y)) % f.p
  {
    Canonical(f, X);
    Canonical(f, Y);
    var v := f.Mul(X, f.Sqr(Y));
    MulStep(f, X, f.Sqr(Y), X, Y * Y);
    AddStep(f, v, v, X * (Y * Y), X * (Y * Y));
    AddStep(f, f.Add(v, v), f.Add(v, v), 2 * (X * (Y * Y)), 2 * (X * (Y * Y)));
    SqrStep(f, f.Sqr(Y), Y * Y);
  }

  /** The last steps of `dblJacobi`, from M, S and Y^4. */
  lemma DblTail(c: Curve, P: Point, m: int, s: int, y4: int)
    requires c.Valid() && c.Has(P)
    requires m == (3 * (P.x * P.x) + c.a * ((P.z * P.z) * (P.z * P.z))) % c.f.p
    requires s == (4 * (P.x * (P.y * P.y))) % c.f.p
    requires y4 == ((P.y * P.y) * (P.y * P.y)) % c.f.p
    ensures var f := c.f;
      var M := 3 * (P.x * P.x) + c.a * ((P.z * P.z) * (P.z * P.z));
      var S := 4 * (P.x * (P.y * P.y));
      var X3 := M * M - 2 * S;
      var rx := f.Sub(f.Sub(f.Sqr(m), s), s);
      && rx == X3 % c.f.p
      && f.Sub(f.Mul(f.Sub(s, rx), m), f.Mul2(f.Mul2(f.Mul2(y4))))
         == (M * (S - X3) - 8 * ((P.y * P.y) * (P.y * P.y))) % c.f.p
  {
    var f := c.f;
    var M := 3 * (P.x * P.x) + c.a * ((P.z * P.z) * (P.z * P.z));
    var S := 4 * (P.x * (P.y * P.y));
    var Y4 := (P.y * P.y) * (P.y * P.y);
    var X3 := M * M - 2 * S;
    SqrStep(f, m, M);
    SubStep(f, f.Sqr(m), s, M * M, S);
    SubStep(f, f.Sub(f.Sqr(m), s), s, M * M - S, S);
    var rx := f.Sub(f.Sub(f.Sqr(m), s), s);
    SubStep(f, s, rx, S, X3);
    MulStep(f, f.Sub(s, rx), m, S - X3, M);
    Mul2Step(f, y4, Y4);
    Mul2Step(f, f.Mul2(y4), 2 * Y4);
    Mul2Step(f, f.Mul2(f.Mul2(y4)), 2 * (2 * Y4));
    SubStep(f, f.Mul(f.Sub(s, rx), m), f.Mul2(f.Mul2(f.Mul2(y4))), (S - X3) * M, 2 * (2 * (2 * Y4)));
    assert (S - X3) * M - 2 * (2 * (2 * Y4)) == M * (S - X3) - 8 * Y4;
  }

  /** Z3 = 2 y z as computed by `dblJacobi`. */
  lemma DblZ(c: Curve, P: Point)
    requires c.Valid() && c.Has(P)
    ensures c.f.Mul2(if P.z == 1 then P.y else c.f.Mul(P.y, P.z)) == (2 * (P.y * P.z)) % c.f.p
  {
    var f := c.f;
    Canonical(f, P.y);
    Canonical(f, P.z);
    MulStep(f, P.y, P.z, P.y, P.z);
    Mul2Step(f, f.Mul(P.y, P.z), P.y * P.z);
  }

  lemma DblMZero(c: Curve, P: Point)
    requires c.Valid() && c.Has(P) && c.specialA == Zero
    ensures var x2 := c.f.Sqr(P.x);
      c.f.Add(x2, c.f.Mul2(x2)) == (3 * (P.x * P.x) + c.a * ((P.z * P.z) * (P.z * P.z))) % c.f.p
  {
    var f := c.f;
    Mul2Step(f, f.Sqr(P.x), P.x * P.x);
    AddStep(f, f.Sqr(P.x), f.Mul2(f.Sqr(P.x)), P.x * P.x, 2 * (P.x * P.x));
  }

  lemma DblMMinus3(c: Curve, P: Point)
    requires c.Valid() && c.Has(P) && c.specialA == Minus3
    ensures var f := c.f;
      var d := if P.z == 1 then f.Sub(f.Sqr(P.x), P.z) else f.Sub(f.Sqr(P.x), f.Sqr(f.Sqr(P.z)));
      f.Add(d, f.Mul2(d)) == (3 * (P.x * P.x) + c.a * ((P.z * P.z) * (P.z * P.z))) % c.f.p
  {
    var f, p := c.f, c.f.p;
    var Z4 := (P.z * P.z) * (P.z * P.z);
    Canonical(f, P.z);
    SqrStep(f, f.Sqr(P.z), P.z * P.z);
    var d := if P.z == 1 then f.Sub(f.Sqr(P.x), P.z) else f.Sub(f.Sqr(P.x), f.Sqr(f.Sqr(P.z)));
    SubStep(f, f.Sqr(P.x), if P.z == 1 then P.z else f.Sqr(f.Sqr(P.z)), P.x * P.x, Z4);
    Mul2Step(f, d, P.x * P.x - Z4);
    AddStep(f, d, f.Mul2(d), P.x * P.x - Z4, 2 * (P.x * P.x - Z4));
    Minus3Term(c, Z4, 3 * (P.x * P.x));
  }

  /** With a == -3, a Z4 + W == W - 3 Z4 modulo p. */
  lemma Minus3Term(c: Curve, Z4: int, W: int)
    requires c.Valid() && c.specialA == Minus3
    ensures (W + c.a * Z4) % c.f.p == (W - 3 * Z4) % c.f.p
  {
    var p := c.f.p;
    Canonical(c.f, c.a);
    ModOfMod(-3, p);
    MulCong(p, c.a, Z4, -3, Z4);
    AddCong(p, W, c.a * Z4, W, -3 * Z4);
  }

  lemma DblMGeneric(c: Curve, P: Point)
    requires c.Valid() && c.Has(P)
    ensures var f := c.f;
      var t := if P.z == 1 then c.a else f.Mul(f.Sqr(f.Sqr(P.z)), c.a);
      var x2 := f.Sqr(P.x);
      f.Add(f.Mul2(x2), f.Add(t, x2)) == (3 * (P.x * P.x) + c.a * ((P.z * P.z) * (P.z * P.z))) % c.f.p
  {
    DblMSteps(c.f, c.a, P.x, P.z);
  }

  lemma DblMSteps(f: Field, a: int, x: int, z: int)
    requires f.p > 0 && f.In(a) && f.In(z)
    ensures var t := if z == 1 then a else f.Mul(f.Sqr(f.Sqr(z)), a);
      var x2 := f.Sqr(x);
      f.Add(f.Mul2(x2), f.Add(t, x2)) == (3 * (x * x) + a * ((z * z) * (z * z))) % f.p
  {
    var Z4, X2 := (z * z) * (z * z), x * x;
    ATerm(f, a, z);
    var t := if z == 1 then a else f.Mul(f.Sqr(f.Sqr(z)), a);
    var x2 := f.Sqr(x);
    AddStep(f, t, x2, a * Z4, X2);
    Mul2Step(f, x2, X2);
    AddStep(f, f.Mul2(x2), f.Add(t, x2), 2 * X2, a * Z4 + X2);
    assert 2 * X2 + (a * Z4 + X2) == 3 * X2 + a * Z4;
  }

  /** a z^4, with the z == 1 shortcut of `dblJacobi`. */
  lemma ATerm(f: Field, a: int, z: int)
    requires f.p > 0 && f.In(a) && f.In(z)
    ensures (if z == 1 then a else f.Mul(f.Sqr(f.Sqr(z)), a)) == (a * ((z * z) * (z * z))) % f.p
  {
    Canonical(f, a);
    if z == 1 {
      assert z * z == 1;
      assert a * ((z * z) * (z * z)) == a;
    } else {
      Canonical(f, z);
      SqrStep(f, f.Sqr(z), z * z);
      MulStepSwap(f, f.Sqr(f.Sqr(z)), a, (z * z) * (z * z), a);
    }
  }

  /**
   * A doubled point is the identity exactly when the point is the identity or
   * has y == 0 (a point of order two).
   */
  lemma DblRefZero(c: Curve, P: Point)
    requires c.Valid() && c.Has(P)
    ensures IsZero(DblRef(c, P)) <==> IsZero(P) || P.y == 0
  {
    if !IsZero(P) {
      var f := c.f;
      OddPrime(f);
      Canonical(f, P.y);
      Canonical(f, P.z);
      NoZeroDivisors(f, 2, P.y * P.z);
      NoZeroDivisors(f, P.y, P.z);
      DivModUnique(2, f.p, 0, 2);
      if P.y == 0 {
        DivModUnique(0, f.p, 0, 0);
      }
    }
  }

  // ---------------------------------------------------------------------------
  // Addition
  // ---------------------------------------------------------------------------

  /**
   * Addition in Jacobian coordinates (the textbook formula):
   * U1 = X1 Z2^2, U2 = X2 Z1^2, S1 = Y1 Z2^3, S2 = Y2 Z1^3, H = U2 - U1, r = S2 - S1,
   * X3 = r^2 - H^3 - 2 U1 H^2, Y3 = r (U1 H^2 - X3) - S1 H^3, Z3 = Z1 Z2 H.
   * An identity operand gives the other operand; H == 0 means equal x, which
   * doubles when r == 0 too and gives the cleared identity otherwise.
   */
  function AddRef(c: Curve, P: Point, Q: Point): Point
    requires c.f.p > 0
  {
    if IsZero(P) then Q
    else if IsZero(Q) then P
    else
      var p := c.f.p;
      var U1 := P.x * (Q.z * Q.z);
      var U2 := Q.x * (P.z * P.z);
      var S1 := P.y * ((Q.z * Q.z) * Q.z);
      var S2 := Q.y * ((P.z * P.z) * P.z);
      var H := U2 - U1;
      var r := S2 - S1;
      if H % p == 0 then (if r % p == 0 then DblRef(c, P) else Clear(c))
      else
        var X3 := r * r - H * H * H - 2 * (U1 * (H * H));
        Point(X3 % p, (r * (U1 * (H * H) - X3) - S1 * (H * H * H)) % p, ((P.z * Q.z) * H) % p)
  }

  /** `addJacobi`. */
  method Add(c: Curve, P: Point, Q: Point) returns (R: Point)
    requires c.Valid() && c.Has(P) && c.Has(Q)
    ensures R == AddRef(c, P, Q)
    ensures IsZero(P) ==> R == Q
    ensures !IsZero(P) && IsZero(Q) ==> R == P
  {
    var f := c.f;
    if IsZero(P) {
      R := Q;
      return;
    }
    if IsZero(Q) {
      R := P;
      return;
    }
    var isPzOne := P.z == 1;
    var isQzOne := Q.z == 1;
    var r, U1, S1, H, H3;
    if !isPzOne {
      r := f.Sqr(P.z);
    }
    if isQzOne {
      U1 := P.x;
      if isPzOne {
        H := Q.x;
      } else {
        H := f.Mul(Q.x, r);
      }
      H := f.Sub(H, U1);
      S1 := P.y;
    } else {
      S1 := f.Sqr(Q.z);
      U1 := f.Mul(P.x, S1);
      if isPzOne {
        H := Q.x;
      } else {
        H := f.Mul(Q.x, r);
      }
      H := f.Sub(H, U1);
      S1 := f.Mul(S1, Q.z);
      S1 := f.Mul(S1, P.y);
    }
    if isPzOne {
      r := Q.y;
    } else {
      r := f.Mul(r, P.z);
      r := f.Mul(r, Q.y);
    }
    r := f.Sub(r, S1);
    ghost var U1i, S1i := P.x * (Q.z * Q.z), P.y * ((Q.z * Q.z) * Q.z);
    ghost var Hi := Q.x * (P.z * P.z) - U1i;
    ghost var ri := Q.y * ((P.z * P.z) * P.z) - S1i;
    AddTerms(c, P, Q);
    ghost var u1 := U1;
    if H == 0 {
      if r == 0 {
        R := Dbl(c, P);
      } else {
        R := Clear(c);
      }
      return;
    }
    var rz;
    if isPzOne {
      if isQzOne {
        rz := H;
      } else {
        rz := f.Mul(H, Q.z);
      }
    } else {
      if isQzOne {
        rz := f.Mul(P.z, H);
      } else {
        rz := f.Mul(P.z, Q.z);
        rz := f.Mul(rz, H);
      }
    }
    AddZ(c, P, Q, H, Hi);
    H3 := f.Sqr(H);
    var ry := f.Sqr(r);
    U1 := f.Mul(U1, H3);
    H3 := f.Mul(H3, H);
    ry := f.Sub(ry, U1);
    ry := f.Sub(ry, U1);
    var rx := f.Sub(ry, H3);
    U1 := f.Sub(U1, rx);
    U1 := f.Mul(U1, r);
    H3 := f.Mul(H3, S1);
    ry := f.Sub(U1, H3);
    AddTail(f, H, r, u1, S1, Hi, ri, U1i, S1i);
    R := Point(rx, ry, rz);
  }

  /** U1, S1, H and r as computed by `addJacobi`, with the z == 1 shortcuts. */
  lemma AddTerms(c: Curve, P: Point, Q: Point)
    requires c.Valid() && c.Has(P) && c.Has(Q)
    ensures var f, p := c.f, c.f.p;
      var u1 := if Q.z == 1 then P.x else f.Mul(P.x, f.Sqr(Q.z));
      var s1 := if Q.z == 1 then P.y else f.Mul(f.Mul(f.Sqr(Q.z), Q.z), P.y);
      var u2 := if P.z == 1 then Q.x else f.Mul(Q.x, f.Sqr(P.z));
      var s2 := if P.z == 1 then Q.y else f.Mul(f.Mul(f.Sqr(P.z), P.z), Q.y);
      && u1 == (P.x * (Q.z * Q.z)) % p
      && s1 == (P.y * ((Q.z * Q.z) * Q.z)) % p
      && f.Sub(u2, u1) == (Q.x * (P.z * P.z) - P.x * (Q.z * Q.z)) % p
      && f.Sub(s2, s1) == (Q.y * ((P.z * P.z) * P.z) - P.y * ((Q.z * Q.z) * Q.z)) % p
  {
    var f := c.f;
    UTerm(f, P.x, Q.z);
    UTerm(f, Q.x, P.z);
    STerm(f, P.y, Q.z);
    STerm(f, Q.y, P.z);
    SubStep(f, if P.z == 1 then Q.x else f.Mul(Q.x, f.Sqr(P.z)), if Q.z == 1 then P.x else f.Mul(P.x, f.Sqr(Q.z)),
      Q.x * (P.z * P.z), P.x * (Q.z * Q.z));
    SubStep(f, if P.z == 1 then Q.y else f.Mul(f.Mul(f.Sqr(P.z), P.z), Q.y),
      if Q.z == 1 then P.y else f.Mul(f.Mul(f.Sqr(Q.z), Q.z), P.y),
      Q.y * ((P.z * P.z) * P.z), P.y * ((Q.z * Q.z) * Q.z));
  }

  /** U = x z^2, with the z == 1 shortcut of `addJacobi`. */
  lemma UTerm(f: Field, x: int, z: int)
    requires f.p > 0 && f.In(x) && f.In(z)
    ensures (if z == 1 then x else f.Mul(x, f.Sqr(z))) == (x * (z * z)) % f.p
  {
    Canonical(f, x);
    if z == 1 {
      assert x * (z * z) == x;
    } else {
      MulStep(f, x, f.Sqr(z), x, z * z);
    }
  }

  /** S = y z^3, with the z == 1 shortcut of `addJacobi`. */
  lemma STerm(f: Field, y: int, z: int)
    requires f.p > 0 && f.In(y) && f.In(z)
    ensures (if z == 1 then y else f.Mul(f.Mul(f.Sqr(z), z), y)) == (y * ((z * z) * z)) % f.p
  {
    Canonical(f, y);
    if z == 1 {
      assert y * ((z * z) * z) == y;
    } else {
      CubeFactor(f, y, z);
    }
  }

  /** z^2 z y as an integer reduced modulo p. */
  lemma CubeFactor(f: Field, y: int, z: int)
    requires f.p > 0 && f.In(y) && f.In(z)
    ensures f.Mul(f.Mul(f.Sqr(z), z), y) == (y * ((z * z) * z)) % f.p
  {
    Canonical(f, y);
    Canonical(f, z);
    MulStep(f, f.Sqr(z), z, z * z, z);
    MulStepSwap(f, f.Mul(f.Sqr(z), z), y, (z * z) * z, y);
  }

  /** Z3 = Z1 Z2 H as computed by `addJacobi`, with the z == 1 shortcuts. */
  lemma AddZ(c: Curve, P: Point, Q: Point, h: int, H: int)
    requires c.Valid() && c.Has(P) && c.Has(Q) && h == H % c.f.p
    ensures var f := c.f;
      (if P.z == 1 then (if Q.z == 1 then h else f.Mul(h, Q.z))
       else if Q.z == 1 then f.Mul(P.z, h) else f.Mul(f.Mul(P.z, Q.z), h))
      == ((P.z * Q.z) * H) % c.f.p
  {
    var f := c.f;
    Canonical(f, P.z);
    Canonical(f, Q.z);
    if P.z == 1 && Q.z == 1 {
      assert (P.z * Q.z) * H == H;
    } else if P.z == 1 {
      MulStep(f, h, Q.z, H, Q.z);
      assert (P.z * Q.z) * H == H * Q.z;
    } else if Q.z == 1 {
      MulStep(f, P.z, h, P.z, H);
      assert (P.z * Q.z) * H == P.z * H;
    } else {
      MulStep(f, P.z, Q.z, P.z, Q.z);
      MulStep(f, f.Mul(P.z, Q.z), h, P.z * Q.z, H);
    }
  }

  /** The last steps of `addJacobi`, from H, r, U1 and S1. */
  lemma AddTail(f: Field, h: int, r: int, u1: int, s1: int, H: int, Rr: int, U1: int, S1: int)
    requires f.Valid() && h == H % f.p && r == Rr % f.p && u1 == U1 % f.p && s1 == S1 % f.p
    ensures var hh := f.Sqr(h);
      var u1hh := f.Mul(u1, hh);
      var hhh := f.Mul(hh, h);
      var rx := f.Sub(f.Sub(f.Sub(f.Sqr(r), u1hh), u1hh), hhh);
      var X3 := Rr * Rr - H * H * H - 2 * (U1 * (H * H));
      && rx == X3 % f.p
      && f.Sub(f.Mul(f.Sub(u1hh, rx), r), f.Mul(hhh, s1))
         == (Rr * (U1 * (H * H) - X3) - S1 * (H * H * H)) % f.p
  {
    var hh := f.Sqr(h);
    SqrStep(f, h, H);
    var u1hh := f.Mul(u1, hh);
    MulStep(f, u1, hh, U1, H * H);
    var hhh := f.Mul(hh, h);
    MulStep(f, hh, h, H * H, H);
    SqrStep(f, r, Rr);
    SubStep(f, f.Sqr(r), u1hh, Rr * Rr, U1 * (H * H));
    SubStep(f, f.Sub(f.Sqr(r), u1hh), u1hh, Rr * Rr - U1 * (H * H), U1 * (H * H));
    SubStep(f, f.Sub(f.Sub(f.Sqr(r), u1hh), u1hh), hhh, Rr * Rr - U1 * (H * H) - U1 * (H * H), H * H * H);
    var X3 := Rr * Rr - H * H * H - 2 * (U1 * (H * H));
    var rx := f.Sub(f.Sub(f.Sub(f.Sqr(r), u1hh), u1hh), hhh);
    assert rx == X3 % f.p;
    SubStep(f, u1hh, rx, U1 * (H * H), X3);
    MulStep(f, f.Sub(u1hh, rx), r, U1 * (H * H) - X3, Rr);
    MulStep(f, hhh, s1, H * H * H, S1);
    SubStep(f, f.Mul(f.Sub(u1hh, rx), r), f.Mul(hhh, s1), (U1 * (H * H) - X3) * Rr, (H * H * H) * S1);
    assert (U1 * (H * H) - X3) * Rr - (H * H * H) * S1 == Rr * (U1 * (H * H) - X3) - S1 * (H * H * H);
  }

  /**
   * Adding two points with the same affine x doubles when they are equal and
   * gives the cleared identity otherwise; points with different affine x
   * never add up to the identity.
   */
  lemma AddRefCases(c: Curve, P: Point, Q: Point)
    requires c.Valid() && c.Has(P) && c.Has(Q) && !IsZero(P) && !IsZero(Q)
    ensures Meaning(c, P).Finite? && Meaning(c, Q).Finite?
    ensures Meaning(c, P).x == Meaning(c, Q).x ==>
      AddRef(c, P, Q) == if Meaning(c, P) == Meaning(c, Q) then DblRef(c, P) else Clear(c)
    ensures Meaning(c, P).x != Meaning(c, Q).x ==> !IsZero(AddRef(c, P, Q))
  {
    var f, p := c.f, c.f.p;
    CompareX(c, P, Q);
    CompareY(c, P, Q);
    ScaleSq(f, P.x, Q.z);
    ScaleSq(f, Q.x, P.z);
    ScaleCube(f, P.y, Q.z);
    ScaleCube(f, Q.y, P.z);
    var U1 := P.x * (Q.z * Q.z);
    var U2 := Q.x * (P.z * P.z);
    var S1 := P.y * ((Q.z * Q.z) * Q.z);
    var S2 := Q.y * ((P.z * P.z) * P.z);
    DiffZero(p, U2, U1);
    DiffZero(p, S2, S1);
    Canonical(f, P.z);
    Canonical(f, Q.z);
    NoZeroDivisors(f, P.z, Q.z);
    NoZeroDivisors(f, P.z * Q.z, U2 - U1);
  }

  /** `add(P, P)` is `dbl(P)`. */
  lemma AddRefSelf(c: Curve, P: Point)
    requires c.Valid() && c.Has(P) && !IsZero(P)
    ensures AddRef(c, P, P) == DblRef(c, P)
  {
    AddRefCases(c, P, P);
  }

  // ---------------------------------------------------------------------------
  // Validity
  // ---------------------------------------------------------------------------

  /** `isValidJacobi`: Y^2 == X (X^2 + a Z^4) + b Z^6. */
  predicate IsValid(c: Curve, P: Point)
    requires c.f.p > 0
  {
    var f := c.f;
    var x2, y2, z2 := f.Sqr(P.x), f.Sqr(P.y), f.Sqr(P.z);
    var z4 := f.Sqr(z2);
    var t := f.Mul(f.Add(f.Mul(z4, c.a), x2), P.x);
    var z6 := f.Mul(z4, z2);
    var bz6 := match c.specialB
      case Plus1 => z6
      case Plus4 => Mul4(f, z6)
      case GenericB => f.Mul(z6, c.b);
    y2 == f.Add(t, bz6)
  }

  /** The right-hand side that `isValidJacobi` computes, as an integer reduced modulo p. */
  lemma ValidRhs(c: Curve, P: Point)
    requires c.Valid() && c.Has(P)
    ensures var Z2 := P.z * P.z;
      var Z4 := Z2 * Z2;
      var E := (Z4 * c.a + P.x * P.x) * P.x + c.b * (Z4 * Z2);
      IsValid(c, P) <==> (P.y * P.y) % c.f.p == E % c.f.p
  {
    var f := c.f;
    var Z2 := P.z * P.z;
    var Z4 := Z2 * Z2;
    Canonical(f, P.x);
    Canonical(f, P.z);
    Canonical(f, c.a);
    Canonical(f, c.b);
    var z4 := f.Sqr(f.Sqr(P.z));
    SqrStep(f, f.Sqr(P.z), Z2);
    MulStep(f, z4, c.a, Z4, c.a);
    AddStep(f, f.Mul(z4, c.a), f.Sqr(P.x), Z4 * c.a, P.x * P.x);
    MulStep(f, f.Add(f.Mul(z4, c.a), f.Sqr(P.x)), P.x, Z4 * c.a + P.x * P.x, P.x);
    var z6 := f.Mul(z4, f.Sqr(P.z));
    MulStep(f, z4, f.Sqr(P.z), Z4, Z2);
    BTimes(c, z6, Z4 * Z2);
    var bz6 := match c.specialB
      case Plus1 => z6
      case Plus4 => Mul4(f, z6)
      case GenericB => f.Mul(z6, c.b);
    AddStep(f, f.Mul(f.Add(f.Mul(z4, c.a), f.Sqr(P.x)), P.x), bz6, (Z4 * c.a + P.x * P.x) * P.x, c.b * (Z4 * Z2));
  }

  /** The three ways `isValidJacobi` multiplies by b agree with multiplying by b. */
  lemma BTimes(c: Curve, v: int, V: int)
    requires c.Valid() && v == V % c.f.p
    ensures var f := c.f;
      (match c.specialB
       case Plus1 => v
       case Plus4 => Mul4(f, v)
       case GenericB => f.Mul(v, c.b)) == (c.b * V) % c.f.p
  {
    match c.specialB
    case Plus1 => TimesOne(c.f.p, c.b, v, V);
    case Plus4 => TimesFour(c.f, c.b, v, V);
    case GenericB =>
      Canonical(c.f, c.b);
      MulStepSwap(c.f, v, c.b, V, c.b);
  }

  lemma TimesOne(p: int, b: int, v: int, V: int)
    requires p > 0 && b == 1 && v == V % p
    ensures v == (b * V) % p
  {
    assert b * V == V;
  }

  lemma TimesFour(f: Field, b: int, v: int, V: int)
    requires f.p > 0 && b == f.FromInt(4) && v == V % f.p
    ensures Mul4(f, v) == (b * V) % f.p
  {
    ModOfMod(4, f.p);
    ModOfMod(V, f.p);
    MulCong(f.p, 4, v, b, V);
  }

  /** Scaling the Jacobian curve equation by u^6, where u = 1 / z. */
  lemma ValidScale(c: Curve, P: Point)
    requires c.Valid() && c.Has(P) && P.z != 0
    ensures var u := c.f.Inv(P.z);
      var U3 := (u * u) * u;
      var U6 := U3 * U3;
      var Z2 := P.z * P.z;
      var Z4 := Z2 * Z2;
      var E := (Z4 * c.a + P.x * P.x) * P.x + c.b * (Z4 * Z2);
      var A := Meaning(c, P);
      && A.Finite?
      && c.f.Sqr(A.y) == ((P.y * P.y) * U6) % c.f.p
      && (A.x * A.x * A.x + c.a * A.x + c.b) % c.f.p == (E * U6) % c.f.p
      && U6 % c.f.p != 0
  {
    var f, p := c.f, c.f.p;
    var u := f.Inv(P.z);
    var U3 := (u * u) * u;
    Coords(c, P);
    var A := Meaning(c, P);
    SqrStep(f, A.y, P.y * U3);
    RingSq(P.y, U3);
    NonZeroProduct(f, u, u);
    NonZeroProduct(f, u * u, u);
    NonZeroProduct(f, U3, U3);
    RhsScale(c, P.x, P.z, u);
    ModOfMod(P.x * (u * u), p);
    WeierCong(c, A.x, P.x * (u * u));
  }

  /** (x^3 + a x z^4 + b z^6) u^6 == (x u^2)^3 + a (x u^2) + b when z u == 1. */
  lemma RhsScale(c: Curve, x: int, z: int, u: int)
    requires c.Valid() && (z * u) % c.f.p == 1
    ensures var U3 := (u * u) * u;
      var Z2 := z * z;
      var Z4 := Z2 * Z2;
      var xu := x * (u * u);
      (((Z4 * c.a + x * x) * x + c.b * (Z4 * Z2)) * (U3 * U3)) % c.f.p
      == (xu * xu * xu + c.a * xu + c.b) % c.f.p
  {
    var p := c.f.p;
    var w := z * u;
    var xu := x * (u * u);
    RingJacobiRhs(x, z, u, c.a, c.b);
    PowersOfOne(p, w);
    DropUnits(p, c.a * xu, xu * xu * xu, c.b, (w * w) * (w * w), ((w * w) * (w * w)) * (w * w));
  }

  /** A W4 + B + C W6 == B + A + C when W4 == W6 == 1. */
  lemma DropUnits(p: int, A: int, B: int, C: int, W4: int, W6: int)
    requires p > 0 && W4 % p == 1 && W6 % p == 1
    ensures (A * W4 + B + C * W6) % p == (B + A + C) % p
  {
    assert 1 % p == 1 by {
      assert 1 == W4 % p;
      ModOfMod(W4, p);
    }
    MulCong(p, A, W4, A, 1);
    MulCong(p, C, W6, C, 1);
    AddCong(p, A * W4, B, A, B);
    AddCong(p, A * W4 + B, C * W6, A + B, C);
    assert A + B + C == B + A + C;
  }

  lemma RingSq(y: int, k: int)
    ensures (y * k) * (y * k) == (y * y) * (k * k)
  {
  }

  /** E u^6 == a (x u^2) w^4 + (x u^2)^3 + b w^6 where w = z u. */
  lemma RingJacobiRhs(x: int, z: int, u: int, a: int, b: int)
    ensures var U3 := (u * u) * u;
      var Z2 := z * z;
      var Z4 := Z2 * Z2;
      var w := z * u;
      var xu := x * (u * u);
      var W2 := w * w;
      ((Z4 * a + x * x) * x + b * (Z4 * Z2)) * (U3 * U3)
      == a * xu * (W2 * W2) + xu * xu * xu + b * ((W2 * W2) * W2)
  {
    var U3 := (u * u) * u;
    var Z2 := z * z;
    var Z4 := Z2 * Z2;
    var K := U3 * U3;
    Distrib(Z4 * a * x, x * x * x, b * (Z4 * Z2), K);
    assert (Z4 * a + x * x) * x == Z4 * a * x + x * x * x;
    RingTermA(x, z, u, a);
    RingTermX(x, u);
    RingTermB(z, u, b);
  }

  lemma Distrib(A: int, B: int, C: int, K: int)
    ensures (A + B + C) * K == A * K + B * K + C * K
  {
  }

  lemma RingTermA(x: int, z: int, u: int, a: int)
    ensures ((((z * z) * (z * z)) * a) * x) * (((u * u) * u) * ((u * u) * u))
            == a * (x * (u * u)) * (((z * u) * (z * u)) * ((z * u) * (z * u)))
  {
  }

  lemma RingTermX(x: int, u: int)
    ensures (x * x * x) * (((u * u) * u) * ((u * u) * u)) == (x * (u * u)) * (x * (u * u)) * (x * (u * u))
  {
  }

  lemma RingTermB(z: int, u: int, b: int)
    ensures (b * (((z * z) * (z * z)) * (z * z))) * (((u * u) * u) * ((u * u) * u))
            == b * ((((z * u) * (z * u)) * ((z * u) * (z * u))) * ((z * u) * (z * u)))
  {
    var Z2, U2 := z * z, u * u;
    assert (z * u) * (z * u) == Z2 * U2;
    assert ((u * u) * u) * ((u * u) * u) == (U2 * U2) * U2;
    RingCube(Z2, U2);
    var S := (Z2 * Z2) * Z2;
    var T := (U2 * U2) * U2;
    assert (b * S) * T == b * (S * T);
  }

  lemma RingCube(A: int, B: int)
    ensures ((A * A) * A) * ((B * B) * B) == ((A * B) * (A * B)) * (A * B)
  {
    assert (A * A) * (B * B) == (A * B) * (A * B);
  }

  /** `isValidJacobi` holds of a finite point exactly when its affine meaning is on the curve. */
  lemma IsValidMeaning(c: Curve, P: Point)
    requires c.Valid() && c.Has(P) && P.z != 0
    ensures Meaning(c, P).Finite?
    ensures IsValid(c, P) <==> c.OnCurve(Meaning(c, P).x, Meaning(c, P).y)
  {
    var u := c.f.Inv(P.z);
    var U3 := (u * u) * u;
    var Z2 := P.z * P.z;
    var Z4 := Z2 * Z2;
    var E := (Z4 * c.a + P.x * P.x) * P.x + c.b * (Z4 * Z2);
    ValidRhs(c, P);
    ValidScale(c, P);
    Cancel(c.f, P.y * P.y, E, U3 * U3);
  }

  /** `neg` negates the affine meaning. */
  lemma NegMeaning(c: Curve, P: Point)
    requires c.f.Valid() && c.Has(P)
    ensures c.Has(Neg(c, P))
    ensures Meaning(c, Neg(c, P)) == NegA(c.f, Meaning(c, P))
  {
    if !IsZero(P) {
      var f := c.f;
      var u := f.Inv(P.z);
      NegCanonical(f, P.y);
      Coords(c, P);
      Coords(c, Neg(c, P));
      NegMulLeft(f, P.y, (u * u) * u);
    }
  }

  /** A finite point's affine y is zero exactly when its y coordinate is. */
  lemma YZero(c: Curve, P: Point)
    requires c.f.Valid() && c.Has(P) && !IsZero(P)
    ensures Meaning(c, P).Finite?
    ensures Meaning(c, P).y == 0 <==> P.y == 0
  {
    var f, u := c.f, c.f.Inv(P.z);
    Coords(c, P);
    NonZeroProduct(f, u, u);
    NonZeroProduct(f, u * u, u);
    NoZeroDivisors(f, P.y, (u * u) * u);
    Canonical(f, P.y);
    DivModUnique(0, f.p, 0, 0);
  }

  /** P + (-P) is the identity. */
  lemma AddNeg(c: Curve, P: Point)
    requires c.Valid() && c.Has(P)
    ensures IsZero(AddRef(c, P, Neg(c, P)))
  {
    if !IsZero(P) {
      var N := Neg(c, P);
      NegMeaning(c, P);
      AddRefCases(c, P, N);
      DblRefZero(c, P);
      if Meaning(c, P) == Meaning(c, N) {
        SelfNegZero(c.f, Meaning(c, P).y);
        YZero(c, P);
      }
    }
  }
}
