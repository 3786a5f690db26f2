/**
 * Homogeneous projective coordinates: (X, Y, Z) with Z != 0 stands for the
 * affine point (X / Z, Y / Z); Z == 0 is the point at infinity.
 */
module Proj {
  import opened Fp
  import opened Curve

  // ---------------------------------------------------------------------------
  // Meaning
  // ---------------------------------------------------------------------------

  /** The affine point (x / z, y / z) that a projective triple stands for. */
  ghost function Meaning(c: Curve, P: Point): AffinePoint
    requires c.f.Valid() && c.Has(P)
  {
    if P.z == 0 then Infinity
    else
      var u := c.f.Inv(P.z);
      Finite(c.f.Mul(P.x, u), c.f.Mul(P.y, u))
  }

  /** The meaning of a point with z != 0, as integers reduced modulo p. */
  lemma Coords(c: Curve, P: Point)
    requires c.f.Valid() && c.Has(P) && P.z != 0
    ensures (P.z * c.f.Inv(P.z)) % c.f.p == 1
    ensures c.f.Inv(P.z) % c.f.p != 0
    ensures Meaning(c, P) == Finite((P.x * c.f.Inv(P.z)) % c.f.p, (P.y * c.f.Inv(P.z)) % c.f.p)
  {
    UnitNonZero(c.f, P.z, c.f.Inv(P.z));
  }

  /** A point with z == 1 stands for (x, y). */
  lemma AffineIsNormal(c: Curve, P: Point)
    requires c.f.Valid() && c.Has(P) && P.z == 1
    ensures Meaning(c, P) == Finite(P.x, P.y)
  {
    InvOne(c.f);
    Canonical(c.f, P.x);
    Canonical(c.f, P.y);
  }

  /**
   * The normal form of a point: z == 0 or z == 1 is kept, any other point is
   * replaced by its affine coordinates with z == 1.
   */
  ghost function NormalForm(c: Curve, P: Point): (Q: Point)
    requires c.f.Valid() && c.Has(P)
    ensures c.Has(Q) && IsNormalized(Q)
    ensures Meaning(c, Q) == Meaning(c, P)
    ensures IsNormalized(P) ==> Q == P
  {
    if IsNormalized(P) then P
    else
      var A := Meaning(c, P);
      var Q := Point(A.x, A.y, 1);
      AffineIsNormal(c, Q);
      Q
  }

  // ---------------------------------------------------------------------------
  // Normalization
  // ---------------------------------------------------------------------------

  /** `_normalizeProj(Q, P, inv)`: (x inv, y inv, 1). */
  function NormalizeWith(c: Curve, P: Point, inv: int): (Q: Point)
    requires c.f.Valid() && c.Has(P) && c.f.In(inv)
    ensures c.Has(Q) && Q.z == 1
    ensures P.z != 0 && (P.z * inv) % c.f.p == 1 && !IsNormalized(P) ==> Q == NormalForm(c, P)
  {
    InvOf(c.f, P.z, inv);
    Point(c.f.Mul(P.x, inv), c.f.Mul(P.y, inv), 1)
  }

  /** `normalizeProj`: reduce a point to z == 1 unless z is already 0 or 1. */
  method Normalize(c: Curve, P: Point) returns (Q: Point)
    requires c.Valid() && c.Has(P)
    ensures Q == NormalForm(c, P)
  {
    if P.z == 0 || P.z == 1 {
      Q := P;
      return;
    }
    var inv := c.f.Inv(P.z);
    Q := NormalizeWith(c, P, inv);
  }

  // ---------------------------------------------------------------------------
  // Equality
  // ---------------------------------------------------------------------------

  /** `isEqualProj`: compare x1 z2 with x2 z1 and y1 z2 with y2 z1. */
  predicate IsEqual(c: Curve, P1: Point, P2: Point)
    requires c.f.p > 0
  {
    if IsZero(P1) then IsZero(P2)
    else if IsZero(P2) then false
    else
      var f := c.f;
      f.Mul(P1.x, P2.z) == f.Mul(P2.x, P1.z) && f.Mul(P1.y, P2.z) == f.Mul(P2.y, P1.z)
  }

  /** Comparing a1 z2 with a2 z1 compares a1 / z1 with a2 / z2. */
  lemma CompareCoord(c: Curve, a1: int, a2: int, z1: int, z2: int)
    requires c.f.Valid() && c.f.In(a1) && c.f.In(a2) && c.f.In(z1) && c.f.In(z2) && z1 != 0 && z2 != 0
    ensures c.f.Mul(a1, z2) == c.f.Mul(a2, z1) <==> c.f.Mul(a1, c.f.Inv(z1)) == c.f.Mul(a2, c.f.Inv(z2))
  {
    ScaledEq(c.f, a1, a2, z1, z2, c.f.Inv(z1), c.f.Inv(z2));
  }

  /** `isEqualProj` holds exactly when both points stand for the same affine point. */
  lemma IsEqualMeaning(c: Curve, P1: Point, P2: Point)
    requires c.f.Valid() && c.Has(P1) && c.Has(P2)
    ensures IsEqual(c, P1, P2) <==> Meaning(c, P1) == Meaning(c, P2)
  {
    if P1.z != 0 && P2.z != 0 {
      CompareCoord(c, P1.x, P2.x, P1.z, P2.z);
      CompareCoord(c, P1.y, P2.y, P1.z, P2.z);
    }
  }

  /** `isEqualOrMinusProj`: 1 if P1 == P2, -1 if P1 == -P2, 0 otherwise. */
  function IsEqualOrMinus(c: Curve, P1: Point, P2: Point): int
    requires c.f.p > 0
  {
    if IsZero(P1) then (if IsZero(P2) then 1 else 0)
    else if IsZero(P2) then 0
    else
      var f := c.f;
      if f.Mul(P1.x, P2.z) != f.Mul(P2.x, P1.z) then 0
      else
        var t1, t2 := f.Mul(P1.y, P2.z), f.Mul(P2.y, P1.z);
        if t1 == t2 then 1
        else if f.Neg(t1) == t2 then -1
        else 0
  }

  /** Negating the compared y product negates the affine y. */
  lemma CompareNegY(c: Curve, P1: Point, P2: Point)
    requires c.f.Valid() && c.Has(P1) && c.Has(P2) && P1.z != 0 && P2.z != 0
    ensures Meaning(c, P1).Finite? && Meaning(c, P2).Finite?
    ensures c.f.Neg(c.f.Mul(P1.y, P2.z)) == c.f.Mul(P2.y, P1.z)
            <==> Meaning(c, P1).y == c.f.Neg(Meaning(c, P2).y)
  {
    var f := c.f;
    var ny := f.Neg(P2.y);
    NegCanonical(f, P2.y);
    CompareCoord(c, P1.y, ny, P1.z, P2.z);
    NegMulLeft(f, P2.y, P1.z);
    NegMulLeft(f, P2.y, f.Inv(P2.z));
    NegCanonical(f, f.Mul(P1.y, P2.z));
    NegCanonical(f, f.Mul(P2.y, P1.z));
  }

  /**
   * `isEqualOrMinusProj` is 1 exactly for equal points, -1 exactly for
   * opposite points that are not equal, and 0 otherwise.
   */
  lemma IsEqualOrMinusMeaning(c: Curve, P1: Point, P2: Point)
    requires c.f.Valid() && c.Has(P1) && c.Has(P2)
    ensures IsEqualOrMinus(c, P1, P2) == 1 <==> Meaning(c, P1) == Meaning(c, P2)
    ensures IsEqualOrMinus(c, P1, P2) == -1
            <==> Meaning(c, P1) != Meaning(c, P2) && Meaning(c, P1) == NegA(c.f, Meaning(c, P2))
    ensures -1 <= IsEqualOrMinus(c, P1, P2) <= 1
    ensures IsEqualOrMinus(c, P1, P2) == 0
            <==> Meaning(c, P1) != Meaning(c, P2) && Meaning(c, P1) != NegA(c.f, Meaning(c, P2))
  {
    if P1.z != 0 && P2.z != 0 {
      CompareCoord(c, P1.x, P2.x, P1.z, P2.z);
      CompareCoord(c, P1.y, P2.y, P1.z, P2.z);
      CompareNegY(c, P1, P2);
    }
  }

  /** `neg` negates the affine meaning. */
  lemma NegMeaning(c: Curve, P: Point)
    requires c.f.Valid() && c.Has(P)
    ensures c.Has(Neg(c, P))
    ensures Meaning(c, Neg(c, P)) == NegA(c.f, Meaning(c, P))
  {
    if !IsZero(P) {
      NegCanonical(c.f, P.y);
      NegMulLeft(c.f, P.y, c.f.Inv(P.z));
      Canonical(c.f, P.y);
    }
  }

  // ---------------------------------------------------------------------------
  // Validity
  // ---------------------------------------------------------------------------

  /** `isValidProj`: (Y^2 - b Z^2) Z == X (X^2 + a Z^2). */
  predicate IsValid(c: Curve, P: Point)
    requires c.f.p > 0
  {
    var f := c.f;
    var x2, y2, z2 := f.Sqr(P.x), f.Sqr(P.y), f.Sqr(P.z);
    var t := f.Mul(f.Add(f.Mul(c.a, z2), x2), P.x);
    f.Mul(f.Sub(y2, f.Mul(z2, c.b)), P.z) == t
  }

  /** Both sides that `isValidProj` computes, as integers reduced modulo p. */
  lemma ValidSides(c: Curve, P: Point)
    requires c.Valid() && c.Has(P)
    ensures var Z2 := P.z * P.z;
      IsValid(c, P) <==> ((P.y * P.y - Z2 * c.b) * P.z) % c.f.p == ((c.a * Z2 + P.x * P.x) * P.x) % c.f.p
  {
    var f := c.f;
    var Z2 := P.z * P.z;
    Canonical(f, P.x);
    Canonical(f, P.z);
    Canonical(f, c.a);
    Canonical(f, c.b);
    var x2, y2, z2 := f.Sqr(P.x), f.Sqr(P.y), f.Sqr(P.z);
    MulStep(f, c.a, z2, c.a, Z2);
    AddStep(f, f.Mul(c.a, z2), x2, c.a * Z2, P.x * P.x);
    MulStep(f, f.Add(f.Mul(c.a, z2), x2), P.x, c.a * Z2 + P.x * P.x, P.x);
    MulStep(f, z2, c.b, Z2, c.b);
    SubStep(f, y2, f.Mul(z2, c.b), P.y * P.y, Z2 * c.b);
    MulStep(f, f.Sub(y2, f.Mul(z2, c.b)), P.z, P.y * P.y - Z2 * c.b, P.z);
  }

  /** (y^2 - b z^2) z u^3 == (y u)^2 (z u) - b (z u)^3. */
  lemma RingLeft(y: int, z: int, u: int, b: int)
    ensures ((y * y - (z * z) * b) * z) * ((u * u) * u)
            == (y * u) * (y * u) * (z * u) - b * (((z * u) * (z * u)) * (z * u))
  {
    var U2, U3 := u * u, (u * u) * u;
    SubScale(y * y, (z * z) * b, z, U3);
    RingSq(y, u);
    Interchange(y * y, U2, z, u);
    RingCube(z, u);
    Rotate(z * z, b, z, U3);
  }

  /** (a z^2 + x^2) x u^3 == a (x u) (z u)^2 + (x u)^3. */
  lemma RingRight(x: int, z: int, u: int, a: int)
    ensures ((a * (z * z) + x * x) * x) * ((u * u) * u)
            == a * (x * u) * ((z * u) * (z * u)) + (x * u) * (x * u) * (x * u)
  {
    var U2, U3 := u * u, (u * u) * u;
    AddScale(a * (z * z), x * x, x, U3);
    RingSq(z, u);
    RingTermAx(a, z * z, x, U2, u);
    RingCube(x, u);
  }

  lemma SubScale(A: int, B: int, z: int, K: int)
    ensures ((A - B) * z) * K == (A * z) * K - (B * z) * K
  {
  }

  lemma AddScale(A: int, B: int, z: int, K: int)
    ensures ((A + B) * z) * K == (A * z) * K + (B * z) * K
  {
  }

  lemma RingSq(y: int, k: int)
    ensures (y * k) * (y * k) == (y * y) * (k * k)
  {
  }

  lemma Interchange(A: int, B: int, C: int, D: int)
    ensures (A * C) * (B * D) == (A * B) * (C * D)
  {
  }

  lemma Rotate(A: int, b: int, z: int, K: int)
    ensures ((A * b) * z) * K == b * ((A * z) * K)
  {
  }

  lemma RingCube(A: int, B: int)
    ensures ((A * A) * A) * ((B * B) * B) == ((A * B) * (A * B)) * (A * B)
  {
    assert (A * A) * (B * B) == (A * B) * (A * B);
  }

  /** ((a Z2) x) (U2 u) == a (x u) (Z2 U2). */
  lemma RingTermAx(a: int, Z2: int, x: int, U2: int, u: int)
    ensures ((a * Z2) * x) * (U2 * u) == a * (x * u) * (Z2 * U2)
  {
    assert ((a * Z2) * x) * (U2 * u) == a * ((Z2 * U2) * (x * u));
  }

  /** The left side of `isValidProj` scaled by u^3 is y'^2 - b. */
  lemma ScaleLeft(c: Curve, P: Point)
    requires c.Valid() && c.Has(P) && P.z != 0
    ensures var u := c.f.Inv(P.z);
      var Y := (P.y * u) % c.f.p;
      (((P.y * P.y - (P.z * P.z) * c.b) * P.z) * ((u * u) * u)) % c.f.p == (Y * Y - c.b) % c.f.p
  {
    ScaleLeftBy(c.f.p, P.y, P.z, c.b, c.f.Inv(P.z));
  }

  /** ScaleLeft for any u with z u == 1 modulo p. */
  lemma ScaleLeftBy(p: int, y: int, z: int, b: int, u: int)
    requires p > 1 && (z * u) % p == 1
    ensures var Y := (y * u) % p;
      (((y * y - (z * z) * b) * z) * ((u * u) * u)) % p == (Y * Y - b) % p
  {
    var w := z * u;
    var yu := y * u;
    RingLeft(y, z, u, b);
    PowersOfOne(p, w);
    UnitScale(p, yu * yu, w);
    UnitScale(p, b, (w * w) * w);
    SubCong(p, yu * yu * w, b * ((w * w) * w), yu * yu, b);
    ModOfMod(yu, p);
    MulCong(p, yu, yu, yu % p, yu % p);
    SubCong(p, yu * yu, b, (yu % p) * (yu % p), b);
  }

  /** The right side of `isValidProj` scaled by u^3 is x'^3 + a x'. */
  lemma ScaleRight(c: Curve, P: Point)
    requires c.Valid() && c.Has(P) && P.z != 0
    ensures var u := c.f.Inv(P.z);
      var X := (P.x * u) % c.f.p;
      (((c.a * (P.z * P.z) + P.x * P.x) * P.x) * ((u * u) * u)) % c.f.p == (X * X * X + c.a * X) % c.f.p
  {
    ScaleRightBy(c.f.p, P.x, P.z, c.a, c.f.Inv(P.z));
  }

  /** ScaleRight for any u with z u == 1 modulo p. */
  lemma ScaleRightBy(p: int, x: int, z: int, a: int, u: int)
    requires p > 1 && (z * u) % p == 1
    ensures var X := (x * u) % p;
      (((a * (z * z) + x * x) * x) * ((u * u) * u)) % p == (X * X * X + a * X) % p
  {
    var w := z * u;
    var xu := x * u;
    RingRight(x, z, u, a);
    PowersOfOne(p, w);
    UnitScale(p, a * xu, w * w);
    AddCong(p, a * xu * (w * w), xu * xu * xu, a * xu, xu * xu * xu);
    ModOfMod(xu, p);
    CubicCong(p, a, xu, xu % p);
  }

  /** Multiplying by a number congruent to 1 changes nothing modulo p. */
  lemma UnitScale(p: int, A: int, w: int)
    requires p > 0 && w % p == 1
    ensures (A * w) % p == A % p
  {
    DivModUnique(1, p, 0, 1);
    MulCong(p, A, w, A, 1);
  }

  /** x^3 + a x respects congruence. */
  lemma CubicCong(p: int, a: int, x: int, x': int)
    requires p > 0 && x % p == x' % p
    ensures (a * x + x * x * x) % p == (x' * x' * x' + a * x') % p
  {
    MulCong(p, x, x, x', x');
    MulCong(p, x * x, x, x' * x', x');
    MulCong(p, a, x, a, x');
    AddCong(p, x * x * x, a * x, x' * x' * x', a * x');
  }

  /** `isValidProj` holds of a finite point exactly when its affine meaning is on the curve. */
  lemma IsValidMeaning(c: Curve, P: Point)
    requires c.Valid() && c.Has(P) && P.z != 0
    ensures Meaning(c, P).Finite?
    ensures IsValid(c, P) <==> c.OnCurve(Meaning(c, P).x, Meaning(c, P).y)
  {
    var f, p := c.f, c.f.p;
    var u := f.Inv(P.z);
    var Z2 := P.z * P.z;
    var L := (P.y * P.y - Z2 * c.b) * P.z;
    var Rt := (c.a * Z2 + P.x * P.x) * P.x;
    Coords(c, P);
    ValidSides(c, P);
    ScaleLeft(c, P);
    ScaleRight(c, P);
    NonZeroProduct(f, u, u);
    NonZeroProduct(f, u * u, u);
    Cancel(f, L, Rt, (u * u) * u);
    var X, Y := (P.x * u) % p, (P.y * u) % p;
    DiffZero(p, Y * Y - c.b, X * X * X + c.a * X);
    DiffZero(p, Y * Y, X * X * X + c.a * X + c.b);
    assert (Y * Y - c.b) - (X * X * X + c.a * X) == Y * Y - (X * X * X + c.a * X + c.b);
  }

  // ---------------------------------------------------------------------------
  // Doubling
  // ---------------------------------------------------------------------------

  /**
   * Doubling in projective coordinates (the textbook formula):
   * w = a Z^2 + 3 X^2, s = Y Z, B = X Y s, h = w^2 - 8 B,
   * X3 = 2 h s, Y3 = w (4 B - h) - 8 Y^2 s^2, Z3 = 8 s^3.
   * The identity doubles to the cleared identity.
   */
  function DblRef(c: Curve, P: Point): Point
    requires c.f.p > 0
  {
    if IsZero(P) then Clear(c)
    else
      var p := c.f.p;
      var W := c.a * (P.z * P.z) + 3 * (P.x * P.x);
      var s := P.y * P.z;
      var B := (s * P.x) * P.y;
      var h := W * W - 8 * B;
      Point((2 * (h * s)) % p, (W * (4 * B - h) - 8 * ((P.y * P.y) * (s * s))) % p, (8 * ((s * s) * s)) % p)
  }

  /** `dblProj`. */
  method Dbl(c: Curve, P: Point) returns (R: Point)
    requires c.Valid() && c.Has(P)
    ensures R == DblRef(c, P)
  {
    var f := c.f;
    if IsZero(P) {
      R := Clear(c);
      return;
    }
    var isPzOne := P.z == 1;
    var w, t, h;
    match c.specialA {
      case Zero =>
        w := f.Sqr(P.x);
        t := f.Add(w, w);
        w := f.Add(w, t);
        WZero(c, P);
      case Minus3 =>
        w := f.Sqr(P.x);
        if isPzOne {
          w := f.Sub(w, P.z);
        } else {
          t := f.Sqr(P.z);
          w := f.Sub(w, t);
        }
        t := f.Add(w, w);
        w := f.Add(w, t);
        WMinus3(c, P);
      case GenericA =>
        if isPzOne {
          w := c.a;
        } else {
          w := f.Sqr(P.z);
          w := f.Mul(w, c.a);
        }
        t := f.Sqr(P.x);
        w := f.Add(w, t);
        w := f.Add(w, t);
        w := f.Add(w, t);
        WGeneric(c, P);
    }
    var rz;
    if isPzOne {
      rz := P.y;
    } else {
      rz := f.Mul(P.y, P.z);
    }
    SProd(c, P);
    t := f.Mul(rz, P.x);
    t := f.Mul(t, P.y);
    t := f.Add(t, t);
    t := f.Add(t, t);
    h := f.Sqr(w);
    h := f.Sub(h, t);
    h := f.Sub(h, t);
    var rx := f.Mul(h, rz);
    t := f.Sub(t, h);
    t := f.Mul(t, w);
    var w2 := f.Sqr(P.y);
    rx := f.Add(rx, rx);
    rz := f.Add(rz, rz);
    h := f.Sqr(rz);
    w2 := f.Mul(w2, h);
    rz := f.Mul(rz, h);
    var ry := f.Sub(t, w2);
    ry := f.Sub(ry, w2);
    DblTail(c, P, w, f.Mul(P.y, P.z));
    R := Point(rx, ry, rz);
  }

  lemma WZero(c: Curve, P: Point)
    requires c.Valid() && c.Has(P) && c.specialA == Zero
    ensures var x2 := c.f.Sqr(P.x);
      c.f.Add(x2, c.f.Add(x2, x2)) == (c.a * (P.z * P.z) + 3 * (P.x * P.x)) % c.f.p
  {
    var f := c.f;
    var x2 := f.Sqr(P.x);
    AddStep(f, x2, x2, P.x * P.x, P.x * P.x);
    AddStep(f, x2, f.Add(x2, x2), P.x * P.x, P.x * P.x + P.x * P.x);
  }

  lemma WMinus3(c: Curve, P: Point)
    requires c.Valid() && c.Has(P) && c.specialA == Minus3
    ensures var f := c.f;
      var d := if P.z == 1 then f.Sub(f.Sqr(P.x), P.z) else f.Sub(f.Sqr(P.x), f.Sqr(P.z));
      f.Add(d, f.Add(d, d)) == (c.a * (P.z * P.z) + 3 * (P.x * P.x)) % c.f.p
  {
    var f, p := c.f, c.f.p;
    var Z2 := P.z * P.z;
    Canonical(f, P.z);
    var d := if P.z == 1 then f.Sub(f.Sqr(P.x), P.z) else f.Sub(f.Sqr(P.x), f.Sqr(P.z));
    SubStep(f, f.Sqr(P.x), if P.z == 1 then P.z else f.Sqr(P.z), P.x * P.x, Z2);
    AddStep(f, d, d, P.x * P.x - Z2, P.x * P.x - Z2);
    AddStep(f, d, f.Add(d, d), P.x * P.x - Z2, (P.x * P.x - Z2) + (P.x * P.x - Z2));
    Minus3Factor(c, Z2, 3 * (P.x * P.x));
  }

  /** With a == -3, a Z2 + W == W - 3 Z2 modulo p. */
  lemma Minus3Factor(c: Curve, Z2: int, W: int)
    requires c.Valid() && c.specialA == Minus3
    ensures (c.a * Z2 + W) % c.f.p == (W - 3 * Z2) % c.f.p
  {
    var p := c.f.p;
    Canonical(c.f, c.a);
    ModOfMod(-3, p);
    MulCong(p, c.a, Z2, -3, Z2);
    AddCong(p, c.a * Z2, W, -3 * Z2, W);
  }

  lemma WGeneric(c: Curve, P: Point)
    requires c.Valid() && c.Has(P)
    ensures var f := c.f;
      var w := if P.z == 1 then c.a else f.Mul(f.Sqr(P.z), c.a);
      var t := f.Sqr(P.x);
      f.Add(f.Add(f.Add(w, t), t), t) == (c.a * (P.z * P.z) + 3 * (P.x * P.x)) % c.f.p
  {
    WSteps(c.f, c.a, P.x, P.z);
  }

  lemma WSteps(f: Field, a: int, x: int, z: int)
    requires f.p > 0 && f.In(a) && f.In(z)
    ensures var w := if z == 1 then a else f.Mul(f.Sqr(z), a);
      var t := f.Sqr(x);
      f.Add(f.Add(f.Add(w, t), t), t) == (a * (z * z) + 3 * (x * x)) % f.p
  {
    var Z2, X2 := z * z, x * x;
    WTerm(f, a, z);
    var w := if z == 1 then a else f.Mul(f.Sqr(z), a);
    var t := f.Sqr(x);
    AddStep(f, w, t, a * Z2, X2);
    AddStep(f, f.Add(w, t), t, a * Z2 + X2, X2);
    AddStep(f, f.Add(f.Add(w, t), t), t, a * Z2 + X2 + X2, X2);
    assert a * Z2 + X2 + X2 + X2 == a * Z2 + 3 * X2;
  }

  /** a z^2, with the z == 1 shortcut of `dblProj`. */
  lemma WTerm(f: Field, a: int, z: int)
    requires f.p > 0 && f.In(a) && f.In(z)
    ensures (if z == 1 then a else f.Mul(f.Sqr(z), a)) == (a * (z * z)) % f.p
  {
    Canonical(f, a);
    if z == 1 {
      assert a * (z * z) == a;
    } else {
      Canonical(f, z);
      MulStepSwap(f, f.Sqr(z), a, z * z, a);
    }
  }

  /** s = y z as computed by `dblProj`, with the z == 1 shortcut. */
  lemma SProd(c: Curve, P: Point)
    requires c.Valid() && c.Has(P)
    ensures (if P.z == 1 then P.y else c.f.Mul(P.y, P.z)) == c.f.Mul(P.y, P.z)
    ensures c.f.Mul(P.y, P.z) == (P.y * P.z) % c.f.p
  {
    Canonical(c.f, P.y);
  }

  /** The last steps of `dblProj`, from w and s. */
  lemma DblTail(c: Curve, P: Point, w: int, s: int)
    requires c.Valid() && c.Has(P)
    requires w == (c.a * (P.z * P.z) + 3 * (P.x * P.x)) % c.f.p
    requires s == (P.y * P.z) % c.f.p
    ensures var f := c.f;
      var t := f.Mul(f.Mul(s, P.x), P.y);
      var b4 := f.Add(f.Add(t, t), f.Add(t, t));
      var h := f.Sub(f.Sub(f.Sqr(w), b4), b4);
      var rx := f.Mul(h, s);
      var s2 := f.Add(s, s);
      var hh := f.Sqr(s2);
      var W := c.a * (P.z * P.z) + 3 * (P.x * P.x);
      var S := P.y * P.z;
      var B := (S * P.x) * P.y;
      var H := W * W - 8 * B;
      && f.Add(rx, rx) == (2 * (H * S)) % c.f.p
      && f.Sub(f.Sub(f.Mul(f.Sub(b4, h), w), f.Mul(f.Sqr(P.y), hh)), f.Mul(f.Sqr(P.y), hh))
         == (W * (4 * B - H) - 8 * ((P.y * P.y) * (S * S))) % c.f.p
      && f.Mul(s2, hh) == (8 * ((S * S) * S)) % c.f.p
  {
    var f := c.f;
    var W := c.a * (P.z * P.z) + 3 * (P.x * P.x);
    var S := P.y * P.z;
    var B := (S * P.x) * P.y;
    var H := W * W - 8 * B;
    Canonical(f, P.x);
    Canonical(f, P.y);
    var t := f.Mul(f.Mul(s, P.x), P.y);
    MulStep(f, s, P.x, S, P.x);
    MulStep(f, f.Mul(s, P.x), P.y, S * P.x, P.y);
    var b4 := Mul4(f, t);
    ModOfMod(B, c.f.p);
    MulCong(c.f.p, 4, t, 4, B);
    assert f.Add(f.Add(t, t), f.Add(t, t)) == b4;
    var h := f.Sub(f.Sub(f.Sqr(w), b4), b4);
    SqrStep(f, w, W);
    SubStep(f, f.Sqr(w), b4, W * W, 4 * B);
    SubStep(f, f.Sub(f.Sqr(w), b4), b4, W * W - 4 * B, 4 * B);
    assert h == H % c.f.p;
    ProjTailX(f, h, s, H, S);
    ProjTailY(f, b4, h, w, s, P.y, B, H, W, S);
    ProjTailZ(f, s, S);
  }

  lemma ProjTailX(f: Field, h: int, s: int, H: int, S: int)
    requires f.Valid() && h == H % f.p && s == S % f.p
    ensures f.Add(f.Mul(h, s), f.Mul(h, s)) == (2 * (H * S)) % f.p
  {
    MulStep(f, h, s, H, S);
    AddStep(f, f.Mul(h, s), f.Mul(h, s), H * S, H * S);
  }

  lemma ProjTailY(f: Field, b4: int, h: int, w: int, s: int, y: int, B: int, H: int, W: int, S: int)
    requires f.Valid() && f.In(y) && b4 == (4 * B) % f.p && h == H % f.p && w == W % f.p && s == S % f.p
    ensures var hh := f.Sqr(f.Add(s, s));
      f.Sub(f.Sub(f.Mul(f.Sub(b4, h), w), f.Mul(f.Sqr(y), hh)), f.Mul(f.Sqr(y), hh))
      == (W * (4 * B - H) - 8 * ((y * y) * (S * S))) % f.p
  {
    var p := f.p;
    Canonical(f, y);
    AddStep(f, s, s, S, S);
    var hh := f.Sqr(f.Add(s, s));
    SqrStep(f, f.Add(s, s), S + S);
    SubStep(f, b4, h, 4 * B, H);
    MulStep(f, f.Sub(b4, h), w, 4 * B - H, W);
    MulStep(f, f.Sqr(y), hh, y * y, (S + S) * (S + S));
    var YS := (y * y) * ((S + S) * (S + S));
    SubStep(f, f.Mul(f.Sub(b4, h), w), f.Mul(f.Sqr(y), hh), (4 * B - H) * W, YS);
    SubStep(f, f.Sub(f.Mul(f.Sub(b4, h), w), f.Mul(f.Sqr(y), hh)), f.Mul(f.Sqr(y), hh), (4 * B - H) * W - YS, YS);
    RingEightYS(y, S);
    assert (4 * B - H) * W == W * (4 * B - H);
  }

  lemma RingEightYS(y: int, S: int)
    ensures 2 * ((y * y) * ((S + S) * (S + S))) == 8 * ((y * y) * (S * S))
  {
  }

  lemma ProjTailZ(f: Field, s: int, S: int)
    requires f.Valid() && s == S % f.p
    ensures f.Mul(f.Add(s, s), f.Sqr(f.Add(s, s))) == (8 * ((S * S) * S)) % f.p
  {
    AddStep(f, s, s, S, S);
    SqrStep(f, f.Add(s, s), S + S);
    MulStep(f, f.Add(s, s), f.Sqr(f.Add(s, s)), S + S, (S + S) * (S + S));
    RingEightCube(S);
  }

  lemma RingEightCube(S: int)
    ensures (S + S) * ((S + S) * (S + S)) == 8 * ((S * S) * S)
  {
    var T := S + S;
    assert T * T == 4 * (S * S);
    assert T * (4 * (S * S)) == 8 * ((S * S) * S);
  }

  /**
   * A doubled point is the identity exactly when the point is the identity or
   * has y == 0 (a point of order two).
   */
  lemma DblRefZero(c: Curve, P: Point)
    requires c.Valid() && c.Has(P)
    ensures IsZero(DblRef(c, P)) <==> IsZero(P) || P.y == 0
  {
    if !IsZero(P) {
      var f, p := c.f, c.f.p;
      var s := P.y * P.z;
      OddPrime(f);
      Canonical(f, P.y);
      Canonical(f, P.z);
      NoZeroDivisors(f, P.y, P.z);
      NoZeroDivisors(f, s, s);
      NoZeroDivisors(f, s * s, s);
      NoZeroDivisors(f, 8, (s * s) * s);
      EightNonZero(f);
      if P.y == 0 {
        DivModUnique(0, p, 0, 0);
      }
    }
  }

  lemma EightNonZero(f: Field)
    requires f.Valid()
    ensures 8 % f.p != 0
  {
    OddPrime(f);
    NoZeroDivisors(f, 2, 4);
    NoZeroDivisors(f, 2, 2);
    if f.p > 2 {
      DivModUnique(2, f.p, 0, 2);
    }
  }

  // ---------------------------------------------------------------------------
  // Addition
  // ---------------------------------------------------------------------------

  /**
   * Addition in projective coordinates (the textbook formula):
   * u = Y2 Z1 - Y1 Z2, v = X2 Z1 - X1 Z2, R = X1 Z2 v^2, A = u^2 Z1 Z2 - v^3 - 2 R,
   * X3 = v A, Y3 = u (R - A) - v^3 Y1 Z2, Z3 = v^3 Z1 Z2.
   * An identity operand gives the other operand; v == 0 means equal x, which
   * doubles when u == 0 too and gives the cleared identity otherwise.
   */
  function AddRef(c: Curve, P: Point, Q: Point): Point
    requires c.f.p > 0
  {
    if IsZero(P) then Q
    else if IsZero(Q) then P
    else
      var p := c.f.p;
      var U1 := P.x * Q.z;
      var S1 := P.y * Q.z;
      var v := Q.x * P.z - U1;
      var u := Q.y * P.z - S1;
      if v % p == 0 then (if u % p == 0 then DblRef(c, P) else Clear(c))
      else
        var vv := v * v;
        var vvv := vv * v;
        var Zc := P.z * Q.z;
        var R := U1 * vv;
        var A := (u * u) * Zc - vvv - 2 * R;
        Point((v * A) % p, (u * (R - A) - vvv * S1) % p, (vvv * Zc) % p)
  }

  /** `addProj`. */
  method Add(c: Curve, P: Point, Q: Point) returns (R: Point)
    requires c.Valid() && c.Has(P) && c.Has(Q)
    ensures R == AddRef(c, P, Q)
    ensures IsZero(P) ==> R == Q
    ensures !IsZero(P) && IsZero(Q) ==> R == P
  {
    var f := c.f;
    if IsZero(P) {
      R := Q;
      return;
    }
    if IsZero(Q) {
      R := P;
      return;
    }
    var isPzOne := P.z == 1;
    var isQzOne := Q.z == 1;
    var r, PyQz, v, A, vv;
    if isQzOne {
      r := P.x;
      PyQz := P.y;
    } else {
      r := f.Mul(P.x, Q.z);
      PyQz := f.Mul(P.y, Q.z);
    }
    if isPzOne {
      A := Q.y;
      v := Q.x;
    } else {
      A := f.Mul(Q.y, P.z);
      v := f.Mul(Q.x, P.z);
    }
    v := f.Sub(v, r);
    AddTerms(c, P, Q);
    if v == 0 {
      if A == PyQz {
        R := Dbl(c, P);
      } else {
        R := Clear(c);
      }
      return;
    }
    ghost var u0, r0, s0 := f.Sub(A, PyQz), r, PyQz;
    var ry := f.Sub(A, PyQz);
    A := f.Sqr(ry);
    vv := f.Sqr(v);
    r := f.Mul(r, vv);
    vv := f.Mul(vv, v);
    var rz;
    if isQzOne {
      rz := P.z;
    } else if isPzOne {
      rz := Q.z;
    } else {
      rz := f.Mul(P.z, Q.z);
    }
    ghost var zc := rz;
    if isPzOne && isQzOne {
      rz := vv;
    } else {
      A := f.Mul(A, rz);
      rz := f.Mul(rz, vv);
    }
    A := f.Sub(A, vv);
    vv := f.Mul(vv, PyQz);
    A := f.Sub(A, r);
    A := f.Sub(A, r);
    var rx := f.Mul(v, A);
    r := f.Sub(r, A);
    ry := f.Mul(ry, r);
    ry := f.Sub(ry, vv);
    AddZc(c, P, Q);
    AddTail(f, u0, v, r0, s0, zc,
      Q.y * P.z - P.y * Q.z, Q.x * P.z - P.x * Q.z, P.x * Q.z, P.y * Q.z, P.z * Q.z);
    R := Point(rx, ry, rz);
  }

  /** The cross products of `addProj`, with the z == 1 shortcuts. */
  lemma AddTerms(c: Curve, P: Point, Q: Point)
    requires c.Valid() && c.Has(P) && c.Has(Q)
    ensures var f, p := c.f, c.f.p;
      var r := if Q.z == 1 then P.x else f.Mul(P.x, Q.z);
      var s := if Q.z == 1 then P.y else f.Mul(P.y, Q.z);
      var a := if P.z == 1 then Q.y else f.Mul(Q.y, P.z);
      var v := if P.z == 1 then Q.x else f.Mul(Q.x, P.z);
      && r == (P.x * Q.z) % p && s == (P.y * Q.z) % p
      && f.Sub(v, r) == (Q.x * P.z - P.x * Q.z) % p
      && f.Sub(a, s) == (Q.y * P.z - P.y * Q.z) % p
      && (a == s <==> (Q.y * P.z - P.y * Q.z) % p == 0)
  {
    var f, p := c.f, c.f.p;
    Canonical(f, P.x);
    Canonical(f, P.y);
    Canonical(f, Q.x);
    Canonical(f, Q.y);
    var a := if P.z == 1 then Q.y else f.Mul(Q.y, P.z);
    var v := if P.z == 1 then Q.x else f.Mul(Q.x, P.z);
    var r := if Q.z == 1 then P.x else f.Mul(P.x, Q.z);
    var s := if Q.z == 1 then P.y else f.Mul(P.y, Q.z);
    assert a == (Q.y * P.z) % p;
    assert v == (Q.x * P.z) % p;
    SubStep(f, v, r, Q.x * P.z, P.x * Q.z);
    SubStep(f, a, s, Q.y * P.z, P.y * Q.z);
    DiffZero(p, Q.y * P.z, P.y * Q.z);
  }

  /** z1 z2 as computed by `addProj`, with the z == 1 shortcuts. */
  lemma AddZc(c: Curve, P: Point, Q: Point)
    requires c.Valid() && c.Has(P) && c.Has(Q)
    ensures (if Q.z == 1 then P.z else if P.z == 1 then Q.z else c.f.Mul(P.z, Q.z)) == (P.z * Q.z) % c.f.p
  {
    Canonical(c.f, P.z);
    Canonical(c.f, Q.z);
  }

  /** The last steps of `addProj`, from u, v, X1 Z2, Y1 Z2 and Z1 Z2. */
  lemma AddTail(f: Field, u: int, v: int, r: int, s: int, zc: int, U: int, V: int, U1: int, S1: int, Zc: int)
    requires f.Valid() && u == U % f.p && v == V % f.p && r == U1 % f.p && s == S1 % f.p && zc == Zc % f.p
    ensures var vv := f.Sqr(v);
      var vvv := f.Mul(vv, v);
      var rr := f.Mul(r, vv);
      var ZcOne := Zc == 1 && zc == 1;
      var a0 := if ZcOne then f.Sqr(u) else f.Mul(f.Sqr(u), zc);
      var a := f.Sub(f.Sub(f.Sub(a0, vvv), rr), rr);
      var VV := V * V;
      var VVV := VV * V;
      var R := U1 * VV;
      var A := (U * U) * Zc - VVV - 2 * R;
      && f.Mul(v, a) == (V * A) % f.p
      && f.Sub(f.Mul(u, f.Sub(rr, a)), f.Mul(vvv, s)) == (U * (R - A) - VVV * S1) % f.p
      && (if ZcOne then vvv else f.Mul(zc, vvv)) == (VVV * Zc) % f.p
  {
    var VV := V * V;
    var VVV := VV * V;
    var R := U1 * VV;
    var A := (U * U) * Zc - VVV - 2 * R;
    var vv := f.Sqr(v);
    SqrStep(f, v, V);
    var vvv := f.Mul(vv, v);
    MulStep(f, vv, v, VV, V);
    var rr := f.Mul(r, vv);
    MulStep(f, r, vv, U1, VV);
    SqrStep(f, u, U);
    MulStep(f, f.Sqr(u), zc, U * U, Zc);
    var ZcOne := Zc == 1 && zc == 1;
    var a0 := if ZcOne then f.Sqr(u) else f.Mul(f.Sqr(u), zc);
    assert a0 == ((U * U) * Zc) % f.p;
    SubStep(f, a0, vvv, (U * U) * Zc, VVV);
    SubStep(f, f.Sub(a0, vvv), rr, (U * U) * Zc - VVV, R);
    SubStep(f, f.Sub(f.Sub(a0, vvv), rr), rr, (U * U) * Zc - VVV - R, R);
    var a := f.Sub(f.Sub(f.Sub(a0, vvv), rr), rr);
    assert a == A % f.p;
    MulStep(f, v, a, V, A);
    SubStep(f, rr, a, R, A);
    MulStep(f, u, f.Sub(rr, a), U, R - A);
    MulStep(f, vvv, s, VVV, S1);
    SubStep(f, f.Mul(u, f.Sub(rr, a)), f.Mul(vvv, s), U * (R - A), VVV * S1);
    MulStep(f, zc, vvv, Zc, VVV);
    assert Zc * VVV == VVV * Zc;
  }

  /**
   * Adding two points with the same affine x doubles when they are equal and
   * gives the cleared identity otherwise; points with different affine x
   * never add up to the identity.
   */
  lemma AddRefCases(c: Curve, P: Point, Q: Point)
    requires c.Valid() && c.Has(P) && c.Has(Q) && !IsZero(P) && !IsZero(Q)
    ensures Meaning(c, P).Finite? && Meaning(c, Q).Finite?
    ensures Meaning(c, P).x == Meaning(c, Q).x ==>
      AddRef(c, P, Q) == if Meaning(c, P) == Meaning(c, Q) then DblRef(c, P) else Clear(c)
    ensures Meaning(c, P).x != Meaning(c, Q).x ==> !IsZero(AddRef(c, P, Q))
  {
    var f, p := c.f, c.f.p;
    CompareCoord(c, P.x, Q.x, P.z, Q.z);
    CompareCoord(c, P.y, Q.y, P.z, Q.z);
    Canonical(f, P.z);
    Canonical(f, Q.z);
    DiffZero(p, Q.x * P.z, P.x * Q.z);
    DiffZero(p, Q.y * P.z, P.y * Q.z);
    var v := Q.x * P.z - P.x * Q.z;
    NoZeroDivisors(f, v, v);
    NoZeroDivisors(f, v * v, v);
    NoZeroDivisors(f, P.z, Q.z);
    NoZeroDivisors(f, (v * v) * v, P.z * Q.z);
  }

  /** `add(P, P)` is `dbl(P)`. */
  lemma AddRefSelf(c: Curve, P: Point)
    requires c.Valid() && c.Has(P) && !IsZero(P)
    ensures AddRef(c, P, P) == DblRef(c, P)
  {
    AddRefCases(c, P, P);
  }

  /** A finite point's affine y is zero exactly when its y coordinate is. */
  lemma YZero(c: Curve, P: Point)
    requires c.f.Valid() && c.Has(P) && !IsZero(P)
    ensures Meaning(c, P).Finite?
    ensures Meaning(c, P).y == 0 <==> P.y == 0
  {
    var f, u := c.f, c.f.Inv(P.z);
    Coords(c, P);
    NoZeroDivisors(f, P.y, u);
    Canonical(f, P.y);
    DivModUnique(0, f.p, 0, 0);
  }

  /** P + (-P) is the identity. */
  lemma AddNeg(c: Curve, P: Point)
    requires c.Valid() && c.Has(P)
    ensures IsZero(AddRef(c, P, Neg(c, P)))
  {
    if !IsZero(P) {
      var N := Neg(c, P);
      NegMeaning(c, P);
      AddRefCases(c, P, N);
      DblRefZero(c, P);
      if Meaning(c, P) == Meaning(c, N) {
        SelfNegZero(c.f, Meaning(c, P).y);
        YZero(c, P);
      }
    }
  }
}
