/**
 * The curve parameters of `EcT` (the static members `a_`, `b_`, `b3_`,
 * `specialA_`, `specialB_`, `mode_`, `verifyOrder_`, `order_`) and the point
 * representation shared by the three coordinate modes.
 *
 * The curve is y^2 = x^3 + a x + b over F_p.
 */
module Curve {
  import opened Fp

  /** The coordinate system of the points. */
  datatype Mode = Jacobi | Proj | Affine

  /** Special values of `a` that the doubling formulas exploit. */
  datatype ModeCoeffA = Zero | Minus3 | GenericA

  /** Special values of `b` that the validity check and the complete formulas exploit. */
  datatype ModeCoeffB = Plus1 | Plus4 | GenericB

  /**
   * A point of `EcT`: three field elements whose reading depends on the mode.
   * A point with z == 0 is the point at infinity.
   */
  datatype Point = Point(x: int, y: int, z: int)

  /** The point a triple stands for, in affine coordinates. */
  datatype AffinePoint = Infinity | Finite(x: int, y: int)

  /**
   * The curve configuration. `orderIsValid(P, order)` stands for
   * `mulGeneric(Q, P, order); Q.isZero()`, whose code is not part of this model.
   */
  datatype Curve = Curve(f: Field, mode: Mode, a: int, b: int, b3: int,
                         specialA: ModeCoeffA, specialB: ModeCoeffB,
                         verifyOrder: bool, order: int,
                         orderIsValid: (Point, int) -> bool)
  {
    /** The invariant `init` establishes: the classifications agree with a and b. */
    ghost predicate Valid() {
      && f.Valid() && f.In(a) && f.In(b)
      && b3 == f.Mul(b, 3)
      && (specialA == Zero <==> a == 0)
      && (specialA == Minus3 <==> a != 0 && a == f.FromInt(-3))
      && (specialB == Plus1 <==> b == 1)
      && (specialB == Plus4 <==> b != 1 && b == f.FromInt(4))
    }

    /** All three coordinates are reduced field elements. */
    predicate Has(P: Point) {
      f.In(P.x) && f.In(P.y) && f.In(P.z)
    }

    /** The affine curve equation y^2 = x^3 + a x + b. */
    predicate OnCurve(x: int, y: int)
      requires f.p > 0
    {
      f.Sqr(y) == (x * x * x + a * x + b) % f.p
    }

    /** `isValidOrder`: the point times the group order is the identity. */
    predicate IsValidOrder(P: Point) {
      orderIsValid(P, order)
    }
  }

  /**
   * `init(a, b, mode)`: store the coefficients, b3 = 3b, classify a and b,
   * switch the order check off and clear the stored order.
   */
  function Init(f: Field, a: int, b: int, mode: Mode, orderIsValid: (Point, int) -> bool): (c: Curve)
    requires f.Valid() && f.In(a) && f.In(b)
    ensures c.Valid()
    ensures c.f == f && c.a == a && c.b == b && c.mode == mode
    ensures !c.verifyOrder && c.order == 0 && c.orderIsValid == orderIsValid
  {
    var sa := if a == 0 then Zero else if a == f.FromInt(-3) then Minus3 else GenericA;
    var sb := if b == 1 then Plus1 else if b == f.FromInt(4) then Plus4 else GenericB;
    Curve(f, mode, a, b, f.Mul(b, 3), sa, sb, false, 0, orderIsValid)
  }

  /**
   * `setOrder(order)`: a nonzero order switches the order check on and is
   * stored; zero switches it off and keeps the stored order.
   */
  function SetOrder(c: Curve, order: int): (c': Curve)
    ensures c'.verifyOrder <==> order != 0
    ensures c'.order == (if order != 0 then order else c.order)
    ensures c' == c.(verifyOrder := c'.verifyOrder, order := c'.order)
    ensures c.Valid() ==> c'.Valid()
  {
    if order != 0 then c.(verifyOrder := true, order := order)
    else c.(verifyOrder := false)
  }

  /** `clear`: the canonical identity, (0, 0, 0) in Jacobi mode and (0, 1, 0) otherwise. */
  function Clear(c: Curve): (P: Point)
    ensures P.z == 0 && P.x == 0
    ensures P.y == (if c.mode == Jacobi then 0 else 1)
  {
    if c.mode == Jacobi then Point(0, 0, 0) else Point(0, 1, 0)
  }

  /** `isZero`: the point at infinity has z == 0. */
  predicate IsZero(P: Point) {
    P.z == 0
  }

  /** `isNormalized`: z is 0 or 1. */
  predicate IsNormalized(P: Point) {
    IsZero(P) || P.z == 1
  }

  /** `neg`: the identity becomes the cleared identity; otherwise y is negated. */
  function Neg(c: Curve, P: Point): (R: Point)
    requires c.f.p > 0
    ensures c.f.Valid() && c.Has(P) ==> c.Has(R)
    ensures IsZero(R) <==> IsZero(P)
  {
    if IsZero(P) then Clear(c) else Point(P.x, c.f.Neg(P.y), P.z)
  }

  /** Negation of an affine point: (x, y) becomes (x, -y). */
  function NegA(f: Field, A: AffinePoint): AffinePoint
    requires f.p > 0
  {
    match A
    case Infinity => Infinity
    case Finite(x, y) => Finite(x, f.Neg(y))
  }

  /** `mul4`: x doubled twice. */
  function Mul4(f: Field, x: int): (r: int)
    requires f.p > 0
    ensures r == (4 * x) % f.p
  {
    var t := f.Add(x, x);
    ModOfMod(x + x, f.p);
    AddCong(f.p, t, t, x + x, x + x);
    assert x + x + (x + x) == 4 * x;
    f.Add(t, t)
  }

  /** The right-hand side x^3 + a x + b respects congruence. */
  lemma WeierCong(c: Curve, x: int, x': int)
    requires c.f.p > 0 && x % c.f.p == x' % c.f.p
    ensures (x * x * x + c.a * x + c.b) % c.f.p == (x' * x' * x' + c.a * x' + c.b) % c.f.p
  {
    var p := c.f.p;
    MulCong(p, x, x, x', x');
    MulCong(p, x * x, x, x' * x', x');
    MulCong(p, c.a, x, c.a, x');
    AddCong(p, x * x * x, c.a * x, x' * x' * x', c.a * x');
    AddCong(p, x * x * x + c.a * x, c.b, x' * x' * x' + c.a * x', c.b);
  }
}
