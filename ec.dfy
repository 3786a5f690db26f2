/**
 * The mode-dispatching operations of `EcT`: `dbl`, `add`, `sub`, `neg`,
 * `normalize`, `operator==`, `isEqualOrMinus`, `isValid`, `compareFunc`,
 * `set`, `getWeierstrass` and `getYfromX`.
 */
module Ec {
  import opened Fp
  import opened Wrappers
  import opened Curve
  import J = Jacobi
  import H = Proj
  import A = Affine

  // ---------------------------------------------------------------------------
  // Meaning and normal form, by mode
  // ---------------------------------------------------------------------------

  /** The affine point a triple stands for under the curve's mode. */
  ghost function Meaning(c: Curve, P: Point): AffinePoint
    requires c.f.Valid() && c.Has(P)
  {
    match c.mode
    case Jacobi => J.Meaning(c, P)
    case Proj => H.Meaning(c, P)
    case Affine => A.Meaning(P)
  }

  /** The identity means infinity in every mode. */
  lemma MeaningZero(c: Curve, P: Point)
    requires c.f.Valid() && c.Has(P)
    ensures Meaning(c, P).Infinity? <==> IsZero(P)
  {
  }

  /** A point with z == 1 stands for (x, y) in every mode. */
  lemma MeaningNormal(c: Curve, P: Point)
    requires c.f.Valid() && c.Has(P) && P.z == 1
    ensures Meaning(c, P) == Finite(P.x, P.y)
  {
    match c.mode
    case Jacobi => J.AffineIsNormal(c, P);
    case Proj => H.AffineIsNormal(c, P);
    case Affine =>
  }

  /** What `normalize()` leaves: the mode's normal form; Affine mode keeps the point. */
  ghost function NormalForm(c: Curve, P: Point): Point
    requires c.f.Valid() && c.Has(P)
  {
    match c.mode
    case Jacobi => J.NormalForm(c, P)
    case Proj => H.NormalForm(c, P)
    case Affine => P
  }

  /** `normalize()`. */
  method Normalize(c: Curve, P: Point) returns (Q: Point)
    requires c.Valid() && c.Has(P)
    ensures Q == NormalForm(c, P)
  {
    match c.mode {
      case Jacobi => Q := J.Normalize(c, P);
      case Proj => Q := H.Normalize(c, P);
      case Affine => Q := P;
    }
  }

  /**
   * Normalization keeps the meaning, leaves z in {0, 1} outside Affine mode,
   * leaves a point with z in {0, 1} untouched and is therefore idempotent.
   */
  lemma NormalFormProps(c: Curve, P: Point)
    requires c.f.Valid() && c.Has(P)
    ensures c.Has(NormalForm(c, P))
    ensures Meaning(c, NormalForm(c, P)) == Meaning(c, P)
    ensures c.mode != Affine ==> IsNormalized(NormalForm(c, P))
    ensures IsNormalized(P) ==> NormalForm(c, P) == P
    ensures NormalForm(c, NormalForm(c, P)) == NormalForm(c, P)
  {
    match c.mode
    case Jacobi =>
      var Q := J.NormalForm(c, P);
      assert J.NormalForm(c, Q) == Q;
    case Proj =>
      var Q := H.NormalForm(c, P);
      assert H.NormalForm(c, Q) == Q;
    case Affine =>
  }

  // ---------------------------------------------------------------------------
  // Equality
  // ---------------------------------------------------------------------------

  /** `operator==`. */
  predicate IsEqual(c: Curve, P: Point, Q: Point)
    requires c.f.p > 0
  {
    match c.mode
    case Jacobi => J.IsEqual(c, P, Q)
    case Proj => H.IsEqual(c, P, Q)
    case Affine => A.IsEqual(P, Q)
  }

  /** Outside Affine mode, `==` compares meanings; in Affine mode it compares coordinates. */
  lemma IsEqualMeaning(c: Curve, P: Point, Q: Point)
    requires c.f.Valid() && c.Has(P) && c.Has(Q)
    ensures c.mode != Affine ==> (IsEqual(c, P, Q) <==> Meaning(c, P) == Meaning(c, Q))
    ensures c.mode == Affine ==> (IsEqual(c, P, Q) <==> P == Q)
  {
    match c.mode
    case Jacobi => J.IsEqualMeaning(c, P, Q);
    case Proj => H.IsEqualMeaning(c, P, Q);
    case Affine =>
  }

  /**
   * `==` is reflexive, symmetric and transitive; the identity equals only the
   * identity, and outside Affine mode any two identities are equal.
   */
  lemma IsEqualEquivalence(c: Curve, P: Point, Q: Point, R: Point)
    requires c.f.Valid() && c.Has(P) && c.Has(Q) && c.Has(R)
    ensures IsEqual(c, P, P)
    ensures IsEqual(c, P, Q) <==> IsEqual(c, Q, P)
    ensures IsEqual(c, P, Q) && IsEqual(c, Q, R) ==> IsEqual(c, P, R)
    ensures IsEqual(c, P, Q) ==> (IsZero(P) <==> IsZero(Q))
    ensures c.mode != Affine && IsZero(P) && IsZero(Q) ==> IsEqual(c, P, Q)
  {
    IsEqualMeaning(c, P, P);
    IsEqualMeaning(c, P, Q);
    IsEqualMeaning(c, Q, P);
    IsEqualMeaning(c, Q, R);
    IsEqualMeaning(c, P, R);
    MeaningZero(c, P);
    MeaningZero(c, Q);
  }

  /** A point equals its normal form outside Affine mode. */
  lemma NormalFormEqual(c: Curve, P: Point)
    requires c.f.Valid() && c.Has(P) && c.mode != Affine
    ensures IsEqual(c, NormalForm(c, P), P)
  {
    NormalFormProps(c, P);
    IsEqualMeaning(c, NormalForm(c, P), P);
  }

  /** `isEqualOrMinus`. */
  function IsEqualOrMinus(c: Curve, P: Point, Q: Point): int
    requires c.f.p > 0
  {
    match c.mode
    case Jacobi => J.IsEqualOrMinus(c, P, Q)
    case Proj => H.IsEqualOrMinus(c, P, Q)
    case Affine => A.IsEqualOrMinus(c, P, Q)
  }

  /**
   * `isEqualOrMinus` is 1 exactly when `==` holds, -1 exactly when P equals
   * neg(Q) but not Q (in Affine mode for a finite Q), and 0 otherwise, in
   * particular for an identity against a finite point.
   */
  lemma IsEqualOrMinusSpec(c: Curve, P: Point, Q: Point)
    requires c.f.Valid() && c.Has(P) && c.Has(Q)
    ensures IsEqualOrMinus(c, P, Q) == 1 <==> IsEqual(c, P, Q)
    ensures c.mode != Affine || !IsZero(Q) ==>
      (IsEqualOrMinus(c, P, Q) == -1 <==> !IsEqual(c, P, Q) && IsEqual(c, P, Neg(c, Q)))
    ensures IsZero(P) != IsZero(Q) ==> IsEqualOrMinus(c, P, Q) == 0
    ensures -1 <= IsEqualOrMinus(c, P, Q) <= 1
    ensures c.mode != Affine || !IsZero(Q) ==>
      (IsEqualOrMinus(c, P, Q) == 0 <==> !IsEqual(c, P, Q) && !IsEqual(c, P, Neg(c, Q)))
  {
    match c.mode
    case Jacobi =>
      J.IsEqualOrMinusMeaning(c, P, Q);
      J.IsEqualMeaning(c, P, Q);
      J.NegMeaning(c, Q);
      J.IsEqualMeaning(c, P, Neg(c, Q));
    case Proj =>
      H.IsEqualOrMinusMeaning(c, P, Q);
      H.IsEqualMeaning(c, P, Q);
      H.NegMeaning(c, Q);
      H.IsEqualMeaning(c, P, Neg(c, Q));
    case Affine =>
      A.IsEqualOrMinusMeaning(c, P, Q);
  }

  // ---------------------------------------------------------------------------
  // Group operations
  // ---------------------------------------------------------------------------

  /** The doubling formula of the curve's mode. */
  function DblRef(c: Curve, P: Point): Point
    requires c.f.p > 0 && c.f.In(P.y)
  {
    match c.mode
    case Jacobi => J.DblRef(c, P)
    case Proj => H.DblRef(c, P)
    case Affine => A.DblRef(c, P)
  }

  /** The addition formula of the curve's mode. */
  function AddRef(c: Curve, P: Point, Q: Point): Point
    requires c.f.p > 0 && c.f.In(P.y)
  {
    match c.mode
    case Jacobi => J.AddRef(c, P, Q)
    case Proj => H.AddRef(c, P, Q)
    case Affine => A.AddRef(c, P, Q)
  }

  /** `dbl`: the identity doubles to the cleared identity. */
  method Dbl(c: Curve, P: Point) returns (R: Point)
    requires c.Valid() && c.Has(P)
    ensures R == DblRef(c, P)
    ensures IsZero(P) ==> R == Clear(c)
  {
    match c.mode {
      case Jacobi => R := J.Dbl(c, P);
      case Proj => R := H.Dbl(c, P);
      case Affine => R := A.Dbl(c, P);
    }
  }

  /** `add`: an identity operand gives the other operand unchanged. */
  method Add(c: Curve, P: Point, Q: Point) returns (R: Point)
    requires c.Valid() && c.Has(P) && c.Has(Q)
    ensures R == AddRef(c, P, Q)
    ensures IsZero(P) ==> R == Q
    ensures !IsZero(P) && IsZero(Q) ==> R == P
  {
    match c.mode {
      case Jacobi => R := J.Add(c, P, Q);
      case Proj => R := H.Add(c, P, Q);
      case Affine => R := A.Add(c, P, Q);
    }
  }

  /** `sub(P, Q)`: add(P, neg(Q)). */
  method Sub(c: Curve, P: Point, Q: Point) returns (R: Point)
    requires c.Valid() && c.Has(P) && c.Has(Q)
    ensures R == AddRef(c, P, Neg(c, Q))
  {
    var nQ := Neg(c, Q);
    R := Add(c, P, nQ);
  }

  /** Every result of the formulas is a triple of field elements. */
  lemma RefHas(c: Curve, P: Point, Q: Point)
    requires c.Valid() && c.Has(P) && c.Has(Q)
    ensures c.Has(DblRef(c, P)) && c.Has(AddRef(c, P, Q))
  {
  }

  /**
   * Coincident x: `add` doubles when the points are equal and gives the
   * cleared identity otherwise; so add(P, P) is dbl(P). Affine `dbl` of a
   * point with y == 0 is the cleared identity.
   */
  lemma AddCoincident(c: Curve, P: Point, Q: Point)
    requires c.Valid() && c.Has(P) && c.Has(Q) && !IsZero(P) && !IsZero(Q)
    ensures Meaning(c, P).Finite? && Meaning(c, Q).Finite?
    ensures Meaning(c, P).x == Meaning(c, Q).x ==>
      AddRef(c, P, Q) == if Meaning(c, P) == Meaning(c, Q) then DblRef(c, P) else Clear(c)
    ensures AddRef(c, P, P) == DblRef(c, P)
    ensures c.mode == Affine && P.y == 0 ==> DblRef(c, P) == Clear(c)
  {
    match c.mode
    case Jacobi =>
      J.AddRefCases(c, P, Q);
      J.AddRefSelf(c, P);
    case Proj =>
      H.AddRefCases(c, P, Q);
      H.AddRefSelf(c, P);
    case Affine =>
      A.AddRefCases(c, P, Q);
      A.AddRefSelf(c, P);
  }

  /** P - P, that is P + neg(P), is the identity. */
  lemma SubSelf(c: Curve, P: Point)
    requires c.Valid() && c.Has(P)
    ensures IsZero(AddRef(c, P, Neg(c, P)))
  {
    match c.mode
    case Jacobi => J.AddNeg(c, P);
    case Proj => H.AddNeg(c, P);
    case Affine => A.AddNeg(c, P);
  }

  /** `neg` negates the meaning and, off the identity, is an involution on coordinates. */
  lemma NegSpec(c: Curve, P: Point)
    requires c.f.Valid() && c.Has(P)
    ensures c.Has(Neg(c, P))
    ensures Meaning(c, Neg(c, P)) == NegA(c.f, Meaning(c, P))
    ensures !IsZero(P) ==> Neg(c, Neg(c, P)) == P
    ensures IsZero(P) ==> Neg(c, P) == Clear(c)
  {
    NegCanonical(c.f, P.y);
    match c.mode
    case Jacobi => J.NegMeaning(c, P);
    case Proj => H.NegMeaning(c, P);
    case Affine => A.NegMeaning(c, P);
  }

  // ---------------------------------------------------------------------------
  // Validity
  // ---------------------------------------------------------------------------

  /** Infinity, or a finite point on the curve. */
  predicate OnCurveA(c: Curve, Pa: AffinePoint)
    requires c.f.p > 0
  {
    match Pa
    case Infinity => true
    case Finite(x, y) => c.OnCurve(x, y)
  }

  /**
   * `isValid`: the identity is valid; a point with z == 1 is checked in
   * affine form and any other point by the mode's check (Affine mode refuses
   * it); then the order check applies when it is switched on.
   */
  predicate IsValid(c: Curve, P: Point)
    requires c.f.p > 0
  {
    if P.z == 0 then true
    else if P.z == 1 then A.IsValid(c, P) && (c.verifyOrder ==> c.IsValidOrder(P))
    else match c.mode
      case Jacobi => J.IsValid(c, P) && (c.verifyOrder ==> c.IsValidOrder(P))
      case Proj => H.IsValid(c, P) && (c.verifyOrder ==> c.IsValidOrder(P))
      case Affine => false
  }

  /**
   * `isValid` holds exactly for the identity and for points whose meaning is
   * on the curve and that pass the order check when it is on; in Affine mode a
   * finite point must also have z == 1.
   */
  lemma IsValidMeaning(c: Curve, P: Point)
    requires c.Valid() && c.Has(P)
    ensures IsValid(c, P) <==>
      IsZero(P) ||
      (OnCurveA(c, Meaning(c, P)) && (c.verifyOrder ==> c.IsValidOrder(P)) && (c.mode == Affine ==> P.z == 1))
  {
    if P.z == 1 {
      MeaningNormal(c, P);
      A.IsValidMeaning(c, P);
    } else if P.z != 0 {
      match c.mode
      case Jacobi => J.IsValidMeaning(c, P);
      case Proj => H.IsValidMeaning(c, P);
      case Affine =>
    }
  }

  /**
   * `neg` keeps validity, given that the order check (whose code is not part
   * of this model) agrees on P and neg(P).
   */
  lemma NegValid(c: Curve, P: Point)
    requires c.Valid() && c.Has(P)
    requires c.verifyOrder ==> (c.IsValidOrder(Neg(c, P)) <==> c.IsValidOrder(P))
    ensures IsValid(c, Neg(c, P)) <==> IsValid(c, P)
  {
    NegSpec(c, P);
    IsValidMeaning(c, P);
    IsValidMeaning(c, Neg(c, P));
    if !IsZero(P) {
      var m := Meaning(c, P);
      SqrNeg(c.f, m.y);
    }
  }

  // ---------------------------------------------------------------------------
  // Ordering
  // ---------------------------------------------------------------------------

  /** `Fp::compare` on canonical representatives: -1, 0 or 1. */
  function Cmp(a: int, b: int): (r: int)
    ensures r == 0 <==> a == b
    ensures r < 0 <==> a < b
    ensures -1 <= r <= 1
  {
    if a < b then -1 else if a > b then 1 else 0
  }

  /**
   * `compareFunc` with `Fp::compare`: the identity is below every other point;
   * otherwise the normalized points are compared by x, then by y.
   */
  ghost function CompareRef(c: Curve, P: Point, Q: Point): int
    requires c.f.Valid() && c.Has(P) && c.Has(Q)
  {
    if IsZero(P) then (if IsZero(Q) then 0 else -1)
    else if IsZero(Q) then 1
    else
      var N1, N2 := NormalForm(c, P), NormalForm(c, Q);
      var k := Cmp(N1.x, N2.x);
      if k > 0 then 1 else if k < 0 then -1 else Cmp(N1.y, N2.y)
  }

  /** `compare`: normalize copies of both points, then compare. */
  method Compare(c: Curve, P: Point, Q: Point) returns (r: int)
    requires c.Valid() && c.Has(P) && c.Has(Q)
    ensures r == CompareRef(c, P, Q)
  {
    if IsZero(P) {
      if IsZero(Q) {
        return 0;
      }
      return -1;
    }
    if IsZero(Q) {
      return 1;
    }
    var N1 := Normalize(c, P);
    var N2 := Normalize(c, Q);
    var k := Cmp(N1.x, N2.x);
    if k > 0 {
      return 1;
    }
    if k < 0 {
      return -1;
    }
    r := Cmp(N1.y, N2.y);
  }

  /** The normal form of a finite point reads off its meaning. */
  lemma NormalFormCoords(c: Curve, P: Point)
    requires c.f.Valid() && c.Has(P) && !IsZero(P) && (c.mode == Affine ==> P.z == 1)
    ensures NormalForm(c, P).z == 1
    ensures Meaning(c, P) == Finite(NormalForm(c, P).x, NormalForm(c, P).y)
  {
    NormalFormProps(c, P);
    MeaningNormal(c, NormalForm(c, P));
  }

  /**
   * The order is antisymmetric and transitive, has the identity at the
   * bottom, and ranks two points level exactly when they are equal (in
   * Affine mode for points with z in {0, 1} and for two finite points).
   */
  lemma CompareSpec(c: Curve, P: Point, Q: Point, R: Point)
    requires c.f.Valid() && c.Has(P) && c.Has(Q) && c.Has(R)
    ensures -1 <= CompareRef(c, P, Q) <= 1
    ensures CompareRef(c, P, Q) == -CompareRef(c, Q, P)
    ensures CompareRef(c, P, Q) <= 0 && CompareRef(c, Q, R) <= 0 ==> CompareRef(c, P, R) <= 0
    ensures IsZero(P) ==> CompareRef(c, P, Q) <= 0
    ensures c.mode != Affine ==> (CompareRef(c, P, Q) == 0 <==> IsEqual(c, P, Q))
    ensures c.mode == Affine && P.z == 1 && Q.z == 1 ==> (CompareRef(c, P, Q) == 0 <==> IsEqual(c, P, Q))
  {
    if !IsZero(P) && !IsZero(Q) && (c.mode == Affine ==> P.z == 1 && Q.z == 1) {
      NormalFormCoords(c, P);
      NormalFormCoords(c, Q);
      IsEqualMeaning(c, P, Q);
    } else if c.mode != Affine {
      IsEqualEquivalence(c, P, Q, R);
      MeaningZero(c, P);
      MeaningZero(c, Q);
      IsEqualMeaning(c, P, Q);
    }
  }

  // ---------------------------------------------------------------------------
  // Setting and recovering points
  // ---------------------------------------------------------------------------

  /**
   * `set(&ok, x, y, verify)`: (x, y, 1), accepted without a check or when it is
   * on the curve and passes the order check if that is on; a rejected point
   * is cleared.
   */
  function Set(c: Curve, x: int, y: int, verify: bool): (res: (Point, bool))
    requires c.f.p > 0
  {
    var P := Point(x, y, 1);
    if !verify || (A.IsValid(c, P) && (!c.verifyOrder || c.IsValidOrder(P))) then (P, true)
    else (Clear(c), false)
  }

  /** `set` succeeds exactly when unchecked or when the point passes the curve and order checks. */
  lemma SetSpec(c: Curve, x: int, y: int, verify: bool)
    requires c.Valid() && c.f.In(x) && c.f.In(y)
    ensures var (P, ok) := Set(c, x, y, verify);
      && (ok <==> !verify || (c.OnCurve(x, y) && (c.verifyOrder ==> c.IsValidOrder(Point(x, y, 1)))))
      && (ok ==> P == Point(x, y, 1))
      && (!ok ==> P == Clear(c))
      && (ok && verify ==> IsValid(c, P))
  {
    A.IsValidMeaning(c, Point(x, y, 1));
  }

  /** `getWeierstrass`: (x^2 + a) x + b, that is x^3 + a x + b. */
  function GetWeierstrass(c: Curve, x: int): (yy: int)
    requires c.Valid() && c.f.In(x)
    ensures yy == (x * x * x + c.a * x + c.b) % c.f.p
  {
    var f := c.f;
    A.RhsSteps(c, x);
    f.Add(f.Mul(f.Add(f.Sqr(x), c.a), x), c.b)
  }

  /**
   * `getYfromX(y, x, isYodd)`: a square root of x^3 + a x + b, negated when
   * its parity is not the requested one; fails when there is no square root.
   */
  function GetYfromX(c: Curve, x: int, isYodd: bool): Option<int>
    requires c.Valid() && c.f.In(x)
  {
    var f := c.f;
    match f.SquareRoot(GetWeierstrass(c, x))
    case None => None
    case Some(y) => Some(if f.IsOdd(y) != isYodd then f.Neg(y) else y)
  }

  /**
   * A recovered y is on the curve and has the requested parity, unless it is
   * 0 (whose negation is 0 again); recovery fails exactly when no y puts
   * (x, y) on the curve.
   */
  lemma GetYfromXSpec(c: Curve, x: int, isYodd: bool)
    requires c.Valid() && c.f.In(x)
    ensures var r := GetYfromX(c, x, isYodd);
      && (r.Some? ==> c.f.In(r.value) && c.OnCurve(x, r.value))
      && (r.Some? && r.value != 0 ==> c.f.IsOdd(r.value) == isYodd)
      && (r.None? <==> forall y :: c.f.In(y) ==> !c.OnCurve(x, y))
  {
    var f := c.f;
    var v := GetWeierstrass(c, x);
    match f.SquareRoot(v)
    case None =>
    case Some(s) =>
      NegCanonical(f, s);
      SqrNeg(f, s);
      if s != 0 {
        NegParity(f, s);
      } else {
        NegZero(f);
      }
  }
}
