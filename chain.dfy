/**
 * Scalar multiplication builds its result by a chain of `dbl`, `add`, `neg`
 * and `normalize` calls over some base points. A `Term` records such a chain;
 * `Eval` computes the point the chain produces with the mode's formulas, and
 * `Coef` the integer multiple of each base that the chain stands for in the
 * group. A method whose result is `Eval(t)` with `Coef(t, i) == y_i` has
 * computed sum y_i xs[i] by that chain.
 */
module Chain {
  import opened Curve
  import Ec

  datatype Term =
    | Base(i: nat)
    | Identity
    | Twice(a: Term)
    | Sum(a: Term, b: Term)
    | Minus(a: Term)
    | Norm(a: Term)

  /** The multiple of base `i` that the chain adds up to. */
  function Coef(t: Term, i: nat): int
  {
    match t
    case Base(j) => if i == j then 1 else 0
    case Identity => 0
    case Twice(a) => 2 * Coef(a, i)
    case Sum(a, b) => Coef(a, i) + Coef(b, i)
    case Minus(a) => -Coef(a, i)
    case Norm(a) => Coef(a, i)
  }

  /** Every base the chain refers to is one of the first `n`. */
  predicate Bounded(t: Term, n: nat)
  {
    match t
    case Base(j) => j < n
    case Identity => true
    case Twice(a) => Bounded(a, n)
    case Sum(a, b) => Bounded(a, n) && Bounded(b, n)
    case Minus(a) => Bounded(a, n)
    case Norm(a) => Bounded(a, n)
  }

  /** The bases are points of the curve. */
  ghost predicate Bases(c: Curve, xs: seq<Point>)
  {
    c.Valid() && forall k :: 0 <= k < |xs| ==> c.Has(xs[k])
  }

  /** The formulas a chain step uses. */
  datatype Op = DblOp | AddOp | NormOp

  /**
   * One step of a chain: `dbl(A)`, `add(A, B)` or `normalize(A)` of the
   * curve's mode. `gate` only delays the unfolding of the formulas, so that
   * reasoning about chains does not drag them in; any gate gives the same point.
   */
  ghost function Apply(c: Curve, op: Op, A: Point, B: Point, gate: nat): (R: Point)
    requires c.Valid() && c.Has(A) && c.Has(B)
    ensures c.Has(R)
    decreases gate
  {
    if gate > 0 then Apply(c, op, A, B, gate - 1)
    else match op
      case DblOp => Ec.RefHas(c, A, B); Ec.DblRef(c, A)
      case AddOp => Ec.RefHas(c, A, B); Ec.AddRef(c, A, B)
      case NormOp => Ec.NormalFormProps(c, A); Ec.NormalForm(c, A)
  }

  /** The step Eval uses is the formula itself. */
  lemma ApplyOpen(c: Curve, op: Op, A: Point, B: Point)
    requires c.Valid() && c.Has(A) && c.Has(B)
    ensures Apply(c, op, A, B, 1) == match op
      case DblOp => Ec.DblRef(c, A)
      case AddOp => Ec.AddRef(c, A, B)
      case NormOp => Ec.NormalForm(c, A)
  {
    assert Apply(c, op, A, B, 1) == Apply(c, op, A, B, 0);
  }

  /** The point the chain computes: `dbl`, `add`, `neg` and `normalize` of the mode. */
  ghost function Eval(c: Curve, xs: seq<Point>, t: Term): (P: Point)
    requires Bases(c, xs) && Bounded(t, |xs|)
    ensures c.Has(P)
  {
    match t
    case Base(j) => xs[j]
    case Identity => Clear(c)
    case Twice(a) => var A := Eval(c, xs, a); Apply(c, DblOp, A, A, 1)
    case Sum(a, b) => Apply(c, AddOp, Eval(c, xs, a), Eval(c, xs, b), 1)
    case Minus(a) => Neg(c, Eval(c, xs, a))
    case Norm(a) => var A := Eval(c, xs, a); Apply(c, NormOp, A, A, 1)
  }

  /** `dbl(P)`, recording the step in P's chain. */
  method Dbl(c: Curve, P: Point, ghost xs: seq<Point>, ghost tP: Term) returns (R: Point, ghost tR: Term)
    requires Bases(c, xs) && Bounded(tP, |xs|) && P == Eval(c, xs, tP)
    ensures tR == Twice(tP) && Bounded(tR, |xs|) && R == Eval(c, xs, tR)
  {
    R := Ec.Dbl(c, P);
    tR := Twice(tP);
    ApplyOpen(c, DblOp, P, P);
  }

  /** `add(P, Q)`, recording the step. */
  method Add(c: Curve, P: Point, Q: Point, ghost xs: seq<Point>, ghost tP: Term, ghost tQ: Term)
    returns (R: Point, ghost tR: Term)
    requires Bases(c, xs) && Bounded(tP, |xs|) && P == Eval(c, xs, tP)
    requires Bounded(tQ, |xs|) && Q == Eval(c, xs, tQ)
    ensures tR == Sum(tP, tQ) && Bounded(tR, |xs|) && R == Eval(c, xs, tR)
  {
    R := Ec.Add(c, P, Q);
    tR := Sum(tP, tQ);
    ApplyOpen(c, AddOp, P, Q);
  }

  /** `sub(P, Q)` = add(P, neg(Q)), recording the step. */
  method Sub(c: Curve, P: Point, Q: Point, ghost xs: seq<Point>, ghost tP: Term, ghost tQ: Term)
    returns (R: Point, ghost tR: Term)
    requires Bases(c, xs) && Bounded(tP, |xs|) && P == Eval(c, xs, tP)
    requires Bounded(tQ, |xs|) && Q == Eval(c, xs, tQ)
    ensures tR == Sum(tP, Minus(tQ)) && Bounded(tR, |xs|) && R == Eval(c, xs, tR)
  {
    R := Ec.Sub(c, P, Q);
    tR := Sum(tP, Minus(tQ));
    ApplyOpen(c, AddOp, P, Neg(c, Q));
  }

  /** The chain stands for m times base j and nothing of the other bases. */
  ghost predicate Single(t: Term, j: nat, m: int)
  {
    forall b: nat :: Coef(t, b) == (if b == j then m else 0)
  }

  /** Adding a single multiple m of base j adds m to j's coefficient only. */
  lemma AddSingle(tQ: Term, t: Term, j: nat, m: int)
    requires Single(t, j, m)
    ensures forall b: nat :: Coef(Sum(tQ, t), b) == Coef(tQ, b) + (if b == j then m else 0)
    ensures forall b: nat :: Coef(Sum(tQ, Minus(t)), b) == Coef(tQ, b) - (if b == j then m else 0)
  {
    forall b: nat
      ensures Coef(Sum(tQ, t), b) == Coef(tQ, b) + (if b == j then m else 0)
      ensures Coef(Sum(tQ, Minus(t)), b) == Coef(tQ, b) - (if b == j then m else 0)
    {
      assert Coef(t, b) == (if b == j then m else 0);
    }
  }

  /** Single multiples add up. */
  lemma SumSingle(a: Term, d: Term, j: nat, m: int, m': int)
    requires Single(a, j, m) && Single(d, j, m')
    ensures Single(Sum(a, d), j, m + m')
  {
    forall b: nat
      ensures Coef(Sum(a, d), b) == (if b == j then m + m' else 0)
    {
      assert Coef(a, b) == (if b == j then m else 0);
      assert Coef(d, b) == (if b == j then m' else 0);
    }
  }

  /** Doubling a single multiple doubles it. */
  lemma TwiceSingle(a: Term, j: nat, m: int)
    requires Single(a, j, m)
    ensures Single(Twice(a), j, 2 * m)
  {
    forall b: nat
      ensures Coef(Twice(a), b) == (if b == j then 2 * m else 0)
    {
      assert Coef(a, b) == (if b == j then m else 0);
    }
  }

  /** A chain over the first n bases has no part of any later base. */
  lemma {:induction false} CoefOutside(t: Term, n: nat, b: nat)
    requires Bounded(t, n) && b >= n
    ensures Coef(t, b) == 0
  {
    match t
    case Base(j) =>
    case Identity =>
    case Twice(a) => CoefOutside(a, n, b);
    case Sum(a, d) => CoefOutside(a, n, b); CoefOutside(d, n, b);
    case Minus(a) => CoefOutside(a, n, b);
    case Norm(a) => CoefOutside(a, n, b);
  }

  /** A chain over bases [x] is a single multiple of x. */
  lemma OneBase(t: Term)
    requires Bounded(t, 1)
    ensures Single(t, 0, Coef(t, 0))
  {
    forall b: nat | b != 0
      ensures Coef(t, b) == 0
    {
      CoefOutside(t, 1, b);
    }
  }

  /** Adding more bases keeps a chain bounded. */
  lemma {:induction false} BoundedMono(t: Term, n: nat, m: nat)
    requires Bounded(t, n) && n <= m
    ensures Bounded(t, m)
  {
    match t
    case Base(j) =>
    case Identity =>
    case Twice(a) => BoundedMono(a, n, m);
    case Sum(a, d) => BoundedMono(a, n, m); BoundedMono(d, n, m);
    case Minus(a) => BoundedMono(a, n, m);
    case Norm(a) => BoundedMono(a, n, m);
  }

  /** The value of a chain depends only on the bases it refers to. */
  lemma {:induction false} EvalPrefix(c: Curve, xs: seq<Point>, ys: seq<Point>, t: Term)
    requires Bases(c, xs) && Bases(c, ys) && Bounded(t, |xs|) && |xs| <= |ys|
    requires xs == ys[..|xs|]
    ensures Bounded(t, |ys|) && Eval(c, ys, t) == Eval(c, xs, t)
  {
    BoundedMono(t, |xs|, |ys|);
    match t
    case Base(j) =>
    case Identity =>
    case Twice(a) => EvalPrefix(c, xs, ys, a);
    case Sum(a, d) => EvalPrefix(c, xs, ys, a); EvalPrefix(c, xs, ys, d);
    case Minus(a) => EvalPrefix(c, xs, ys, a);
    case Norm(a) => EvalPrefix(c, xs, ys, a);
  }
}
