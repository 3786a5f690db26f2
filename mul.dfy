/**
 * Scalar multiplication of one point: `mulSmallInt`, `addTbl`, `mulArray`
 * and `mulArrayCT`. The scalar is an array of 64-bit limbs, least
 * significant first. Each method returns, besides the point, the chain of
 * group operations that produced it; the chain's coefficient is the scalar.
 */
module Mul {
  import opened Power
  import opened Curve
  import opened Chain
  import Ec

  /** 2^64: one 64-bit limb (`Unit`). */
  const Radix: int := 0x1_0000_0000_0000_0000

  /** A 64-bit limb. */
  type Unit = x: int | 0 <= x < Radix

  lemma Pow2Radix()
    ensures Pow2(64) == Radix
  {
    assert Pow2(4) == 16;
    Pow2Add(4, 4);
    assert Pow2(8) == 256;
    Pow2Add(8, 8);
    assert Pow2(16) == 0x1_0000;
    Pow2Add(16, 16);
    assert Pow2(32) == 0x1_0000_0000;
    Pow2Add(32, 32);
  }

  /** The integer a little-endian limb sequence stands for. */
  function LimbsValue(y: seq<Unit>): (v: int)
    ensures v >= 0
  {
    if |y| == 0 then 0 else y[0] + Radix * LimbsValue(y[1..])
  }

  /** `v` or `-v`, as `mulArray` negates the scalar. */
  function Signed(v: int, isNegative: bool): int
  {
    if isNegative then -v else v
  }

  // ---------------------------------------------------------------------------
  // mulSmallInt
  // ---------------------------------------------------------------------------

  /** The fixed chain `mulSmallInt` uses for y in 0..16, over the base x. */
  function SmallChain(y: nat): (t: Term)
    requires y <= 16
    ensures Bounded(t, 1) && Coef(t, 0) == y
  {
    var x := Base(0);
    match y
    case 0 => Identity
    case 1 => x
    case 2 => Twice(x)
    case 3 => Sum(Twice(x), x)
    case 4 => Twice(Twice(x))
    case 5 => Sum(Twice(Twice(x)), x)
    case 6 => Twice(Sum(Twice(x), x))
    case 7 => Sum(Twice(Twice(Twice(x))), Minus(x))
    case 8 => Twice(Twice(Twice(x)))
    case 9 => Sum(Twice(Twice(Twice(x))), x)
    case 10 => Twice(Sum(Twice(Twice(x)), x))
    case 11 => Sum(Sum(Twice(Twice(Twice(x))), Twice(x)), x)
    case 12 => Sum(Twice(Twice(x)), Twice(Twice(Twice(x))))
    case 13 => Sum(Sum(Twice(Twice(x)), Twice(Twice(Twice(x)))), x)
    case 14 => Twice(Sum(Twice(Twice(Twice(x))), Minus(x)))
    case 15 => Sum(Twice(Twice(Twice(Twice(x)))), Minus(x))
    case 16 => Twice(Twice(Twice(Twice(x))))
  }

  /**
   * `mulSmallInt(z, x, y, isNegative)`: for y <= 16, z becomes y x (negated
   * when `isNegative`) by the fixed chain; y == 0 gives the cleared identity.
   * Any larger y is refused and z is left as it was (`z0`).
   */
  method MulSmallInt(c: Curve, z0: Point, x: Point, y: Unit, isNegative: bool)
    returns (z: Point, ok: bool)
    requires c.Valid() && c.Has(x)
    ensures ok <==> y <= 16
    ensures !ok ==> z == z0
    ensures ok ==> z == Eval(c, [x], if isNegative && y != 0 then Minus(SmallChain(y)) else SmallChain(y))
    ensures y == 0 ==> z == Clear(c)
  {
    if y > 16 {
      return z0, false;
    }
    if y == 0 {
      return Clear(c), true;
    }
    ghost var tz;
    if y <= 8 {
      z, tz := SmallLow(c, x, y);
    } else {
      z, tz := SmallHigh(c, x, y);
    }
    ok := true;
    if isNegative {
      z := Neg(c, z);
    }
  }

  /** The chains of `mulSmallInt` for y in 1..8. */
  method SmallLow(c: Curve, x: Point, y: Unit) returns (z: Point, ghost tz: Term)
    requires c.Valid() && c.Has(x) && 1 <= y <= 8
    ensures tz == SmallChain(y) && z == Eval(c, [x], tz)
  {
    ghost var xs, b := [x], Base(0);
    ghost var tt;
    if y == 1 {
      z, tz := x, b;
    } else if y == 2 {
      z, tz := Chain.Dbl(c, x, xs, b);
    } else if y == 3 {
      var t;
      t, tt := Chain.Dbl(c, x, xs, b);
      z, tz := Chain.Add(c, t, x, xs, tt, b);
    } else if y == 4 {
      z, tz := Chain.Dbl(c, x, xs, b);
      z, tz := Chain.Dbl(c, z, xs, tz);
    } else if y == 5 {
      var t;
      t, tt := Chain.Dbl(c, x, xs, b);
      t, tt := Chain.Dbl(c, t, xs, tt);
      z, tz := Chain.Add(c, t, x, xs, tt, b);
    } else if y == 6 {
      var t;
      t, tt := Chain.Dbl(c, x, xs, b);
      z, tz := Chain.Add(c, t, x, xs, tt, b);
      z, tz := Chain.Dbl(c, z, xs, tz);
    } else if y == 7 {
      var t;
      t, tt := Chain.Dbl(c, x, xs, b);
      t, tt := Chain.Dbl(c, t, xs, tt);
      t, tt := Chain.Dbl(c, t, xs, tt);
      z, tz := Chain.Sub(c, t, x, xs, tt, b);
    } else {
      z, tz := Chain.Dbl(c, x, xs, b);
      z, tz := Chain.Dbl(c, z, xs, tz);
      z, tz := Chain.Dbl(c, z, xs, tz);
    }
  }

  /** The chains of `mulSmallInt` for y in 9..16. */
  method SmallHigh(c: Curve, x: Point, y: Unit) returns (z: Point, ghost tz: Term)
    requires c.Valid() && c.Has(x) && 9 <= y <= 16
    ensures tz == SmallChain(y) && z == Eval(c, [x], tz)
  {
    ghost var xs, b := [x], Base(0);
    ghost var tt, t1, t2;
    if y == 9 {
      var t;
      t, tt := Chain.Dbl(c, x, xs, b);
      t, tt := Chain.Dbl(c, t, xs, tt);
      t, tt := Chain.Dbl(c, t, xs, tt);
      z, tz := Chain.Add(c, t, x, xs, tt, b);
    } else if y == 10 {
      var t;
      t, tt := Chain.Dbl(c, x, xs, b);
      t, tt := Chain.Dbl(c, t, xs, tt);
      z, tz := Chain.Add(c, t, x, xs, tt, b);
      z, tz := Chain.Dbl(c, z, xs, tz);
    } else if y == 11 {
      var p1, p2;
      p1, t1 := Chain.Dbl(c, x, xs, b);
      p2, t2 := Chain.Dbl(c, p1, xs, t1);
      p2, t2 := Chain.Dbl(c, p2, xs, t2);
      p2, t2 := Chain.Add(c, p2, p1, xs, t2, t1);
      z, tz := Chain.Add(c, p2, x, xs, t2, b);
    } else if y == 12 {
      var p1, p2;
      p1, t1 := Chain.Dbl(c, x, xs, b);
      p1, t1 := Chain.Dbl(c, p1, xs, t1);
      p2, t2 := Chain.Dbl(c, p1, xs, t1);
      z, tz := Chain.Add(c, p1, p2, xs, t1, t2);
    } else if y == 13 {
      var p1, p2;
      p1, t1 := Chain.Dbl(c, x, xs, b);
      p1, t1 := Chain.Dbl(c, p1, xs, t1);
      p2, t2 := Chain.Dbl(c, p1, xs, t1);
      p1, t1 := Chain.Add(c, p1, p2, xs, t1, t2);
      z, tz := Chain.Add(c, p1, x, xs, t1, b);
    } else if y == 14 {
      var t;
      t, tt := Chain.Dbl(c, x, xs, b);
      t, tt := Chain.Dbl(c, t, xs, tt);
      t, tt := Chain.Dbl(c, t, xs, tt);
      t, tt := Chain.Sub(c, t, x, xs, tt, b);
      z, tz := Chain.Dbl(c, t, xs, tt);
    } else if y == 15 {
      var t;
      t, tt := Chain.Dbl(c, x, xs, b);
      t, tt := Chain.Dbl(c, t, xs, tt);
      t, tt := Chain.Dbl(c, t, xs, tt);
      t, tt := Chain.Dbl(c, t, xs, tt);
      z, tz := Chain.Sub(c, t, x, xs, tt, b);
    } else {
      z, tz := Chain.Dbl(c, x, xs, b);
      z, tz := Chain.Dbl(c, z, xs, tz);
      z, tz := Chain.Dbl(c, z, xs, tz);
      z, tz := Chain.Dbl(c, z, xs, tz);
    }
  }

  // ---------------------------------------------------------------------------
  // Tables of multiples and addTbl
  // ---------------------------------------------------------------------------

  /**
   * tbl[at + k] is the point of chain row[k], which stands for
   * (first + step k) times base bi.
   */
  ghost predicate Table(c: Curve, xs: seq<Point>, tbl: seq<Point>, at: nat, row: seq<Term>,
                        bi: nat, first: int, step: int)
  {
    && Bases(c, xs) && at + |row| <= |tbl|
    && forall k :: 0 <= k < |row| ==>
         Bounded(row[k], |xs|) && tbl[at + k] == Eval(c, xs, row[k]) && Single(row[k], bi, first + step * k)
  }

  /** The signed digit at position i, 0 beyond the end. */
  function DigitAt(naf: seq<int>, i: nat): int
  {
    if i < |naf| then naf[i] else 0
  }

  /** Every digit is 0 or odd with absolute value below 2 half. */
  predicate DigitsFit(naf: seq<int>, half: nat)
  {
    forall k :: 0 <= k < |naf| ==> naf[k] == 0 || (naf[k] % 2 == 1 && -2 * half < naf[k] < 2 * half)
  }

  /**
   * `addTbl(Q, tbl, naf, i)`: adds the table entry for digit naf[i], which for
   * |d| odd is tbl[(|d| - 1) / 2] = |d| x, or subtracts it when d < 0; nothing
   * happens for d == 0 or a position past the end.
   */
  method AddTbl(c: Curve, Q: Point, tbl: array<Point>, at: nat, naf: seq<int>, i: nat,
                ghost xs: seq<Point>, ghost tQ: Term, ghost row: seq<Term>, ghost bi: nat)
    returns (R: Point, ghost tR: Term)
    requires Table(c, xs, tbl[..], at, row, bi, 1, 2)
    requires Bounded(tQ, |xs|) && Q == Eval(c, xs, tQ)
    requires i < |naf| ==> naf[i] == 0 || (naf[i] % 2 == 1 && -2 * |row| < naf[i] < 2 * |row|)
    ensures Bounded(tR, |xs|) && R == Eval(c, xs, tR)
    ensures forall b: nat :: Coef(tR, b) == Coef(tQ, b) + (if b == bi then DigitAt(naf, i) else 0)
    ensures DigitAt(naf, i) == 0 ==> R == Q
  {
    if i >= |naf| {
      return Q, tQ;
    }
    var n := naf[i];
    if n > 0 {
      var k := (n - 1) / 2;
      OddIndex(n, |row|);
      assert Single(row[k], bi, 1 + 2 * k);
      AddSingle(tQ, row[k], bi, n);
      R, tR := Chain.Add(c, Q, tbl[at + k], xs, tQ, row[k]);
    } else if n < 0 {
      var k := (-n - 1) / 2;
      OddIndex(-n, |row|);
      assert Single(row[k], bi, 1 + 2 * k);
      AddSingle(tQ, row[k], bi, -n);
      R, tR := Chain.Sub(c, Q, tbl[at + k], xs, tQ, row[k]);
    } else {
      R, tR := Q, tQ;
    }
  }

  /** A positive odd digit d below 2 m is entry (d - 1) / 2 < m of the table. */
  lemma OddIndex(d: int, m: int)
    requires 0 < d < 2 * m && d % 2 == 1
    ensures d == 1 + 2 * ((d - 1) / 2) && 0 <= (d - 1) / 2 < m
  {
  }

  /**
   * The odd-multiple table of `mulArray` and `mulVecN`: with P2 = dbl(x),
   * tbl[at] = x and tbl[at + k] = add(tbl[at + k - 1], P2), so entry k is
   * (2k + 1) x.
   */
  method FillOdd(c: Curve, tbl: array<Point>, at: nat, size: nat, x: Point,
                 ghost xs: seq<Point>, ghost bi: nat)
    returns (ghost row: seq<Term>)
    requires Bases(c, xs) && bi < |xs| && x == xs[bi]
    requires 1 <= size && at + size <= tbl.Length
    modifies tbl
    ensures |row| == size && Table(c, xs, tbl[..], at, row, bi, 1, 2)
    ensures forall k :: 0 <= k < tbl.Length && !(at <= k < at + size) ==> tbl[k] == old(tbl[k])
  {
    var P2;
    ghost var t2;
    P2, t2 := Chain.Dbl(c, x, xs, Base(bi));
    TwiceSingle(Base(bi), bi, 1);
    tbl[at] := x;
    row := [Base(bi)];
    var i := 1;
    while i < size
      invariant 1 <= i <= size && |row| == i
      invariant Table(c, xs, tbl[..], at, row, bi, 1, 2)
      invariant forall k :: 0 <= k < tbl.Length && !(at <= k < at + size) ==> tbl[k] == old(tbl[k])
    {
      assert Single(row[i - 1], bi, 1 + 2 * (i - 1));
      var P;
      ghost var t;
      P, t := Chain.Add(c, tbl[at + i - 1], P2, xs, row[i - 1], t2);
      SumSingle(row[i - 1], t2, bi, 1 + 2 * (i - 1), 2);
      tbl[at + i] := P;
      row := row + [t];
      i := i + 1;
    }
  }

  // ---------------------------------------------------------------------------
  // Signed-digit (NAF) scalars
  // ---------------------------------------------------------------------------

  /** Horner value of the digits at positions k..top-1: sum of d_i 2^(i-k). */
  function NafSuffix(naf: seq<int>, k: nat, top: nat): int
    decreases top - k
  {
    if k >= top then 0 else DigitAt(naf, k) + 2 * NafSuffix(naf, k + 1, top)
  }

  /** The integer a signed-digit sequence stands for, least significant first. */
  function NafValue(naf: seq<int>): int
  {
    NafSuffix(naf, 0, |naf|)
  }

  /** Positions past the last digit add nothing. */
  lemma {:induction false} NafSuffixExtend(naf: seq<int>, k: nat, top: nat)
    requires top >= |naf|
    ensures NafSuffix(naf, k, top) == NafSuffix(naf, k, |naf|)
    decreases top - k
  {
    if k < top {
      NafSuffixExtend(naf, k + 1, top);
      if k >= |naf| {
        NafSuffixBeyond(naf, k + 1, top);
      }
    }
  }

  lemma {:induction false} NafSuffixBeyond(naf: seq<int>, k: nat, top: nat)
    requires k >= |naf|
    ensures NafSuffix(naf, k, top) == 0
    decreases top - k
  {
    if k < top {
      NafSuffixBeyond(naf, k + 1, top);
    }
  }

  /** `getNAFwidth(naf, v, w)`'s contract: a width-w NAF of v. */
  predicate IsNafOf(naf: seq<int>, v: int, w: nat)
    requires w >= 2
  {
    NafValue(naf) == v && DigitsFit(naf, Pow2(w - 2))
  }

  // ---------------------------------------------------------------------------
  // Limbs, real size and window
  // ---------------------------------------------------------------------------

  /**
   * `bint::getRealSize(y, yn)`: the length without the high zero limbs, at
   * least 1. Its code is not part of this model.
   */
  function RealSize(y: seq<Unit>): (r: nat)
    requires |y| > 0
    ensures 1 <= r <= |y|
    ensures r == 1 || y[r - 1] != 0
    ensures forall k :: r <= k < |y| ==> y[k] == 0
  {
    if |y| == 1 || y[|y| - 1] != 0 then |y| else RealSize(y[..|y| - 1])
  }

  /** Dropping a high zero limb keeps the value. */
  lemma {:induction false} DropHighZero(y: seq<Unit>)
    requires |y| > 0 && y[|y| - 1] == 0
    ensures LimbsValue(y[..|y| - 1]) == LimbsValue(y)
  {
    if |y| > 1 {
      assert y[1..][..|y[1..]| - 1] == y[..|y| - 1][1..];
      DropHighZero(y[1..]);
    }
  }

  /** The real size keeps the value. */
  lemma {:induction false} RealSizeValue(y: seq<Unit>)
    requires |y| > 0
    ensures LimbsValue(y[..RealSize(y)]) == LimbsValue(y)
  {
    if !(|y| == 1 || y[|y| - 1] != 0) {
      DropHighZero(y);
      var y' := y[..|y| - 1];
      RealSizeValue(y');
      assert y'[..RealSize(y')] == y[..RealSize(y)];
    } else {
      assert y[..RealSize(y)] == y;
    }
  }

  /** `w` of `mulArray`: 3 for one limb up to 2^32, 5 above two limbs, else 4. */
  function Window(y: seq<Unit>): nat
    requires |y| > 0
  {
    if |y| == 1 && y[0] <= 0x1_0000_0000 then 3 else if |y| * 8 > 16 then 5 else 4
  }

  lemma {:induction false} LimbsBelow(y: seq<Unit>)
    ensures LimbsValue(y) < Pow2(64 * |y|)
  {
    if |y| > 0 {
      LimbsBelow(y[1..]);
      Pow2Radix();
      Pow2Add(64, 64 * (|y| - 1));
      assert LimbsValue(y) <= (Radix - 1) + Radix * (Pow2(64 * (|y| - 1)) - 1);
    }
  }

  lemma {:induction false} LimbsAtLeast(y: seq<Unit>)
    requires |y| > 0 && y[|y| - 1] != 0
    ensures LimbsValue(y) >= Pow2(64 * (|y| - 1))
  {
    if |y| > 1 {
      LimbsAtLeast(y[1..]);
      Pow2Radix();
      Pow2Add(64, 64 * (|y| - 2));
      assert LimbsValue(y) >= Radix * LimbsValue(y[1..]);
    }
  }

  /**
   * The window follows the bit length L of the scalar, as the comment of
   * `mulArray` puts it: w is 3 for L <= 32 (y <= 2^32), 5 for L > 128 and 4
   * in between.
   */
  lemma WindowBits(y: seq<Unit>)
    requires |y| > 0 && (|y| == 1 || y[|y| - 1] != 0)
    ensures Window(y) == 3 <==> LimbsValue(y) <= 0x1_0000_0000
    ensures Window(y) == 5 <==> LimbsValue(y) >= Radix * Radix
    ensures Window(y) == 4 <==> 0x1_0000_0000 < LimbsValue(y) < Radix * Radix
  {
    Pow2Radix();
    Pow2Add(64, 64);
    LimbsBelow(y);
    if |y| == 1 {
      assert LimbsValue(y) == y[0];
    } else {
      LimbsAtLeast(y);
      Pow2Mono(64, 64 * (|y| - 1));
      if |y| >= 3 {
        Pow2Mono(128, 64 * (|y| - 1));
      }
    }
  }

  // ---------------------------------------------------------------------------
  // mulArray
  // ---------------------------------------------------------------------------

  /**
   * `mulArray(z, x, y, yn, isNegative, constTime)`: z = (+/-) y x.
   * `naf` is what `getNAFwidth` yields for the signed scalar and the chosen
   * window; the table holds the odd multiples x, 3x, ..., and each digit,
   * from the top, doubles z once and adds its table entry.
   */
  method MulArray(c: Curve, x: Point, y: seq<Unit>, isNegative: bool, constTime: bool, naf: seq<int>)
    returns (z: Point, ghost t: Term)
    requires c.Valid() && c.Has(x)
    requires |y| > 0 ==> IsNafOf(naf, Signed(LimbsValue(y), isNegative), Window(y[..RealSize(y)]))
    ensures Bounded(t, 1) && z == Eval(c, [x], t)
    ensures Coef(t, 0) == Signed(LimbsValue(y), isNegative)
    ensures |y| == 0 ==> z == Clear(c)
  {
    ghost var xs := [x];
    if constTime {
      z, t := MulArrayCT(c, x, y, isNegative);
      return;
    }
    if |y| == 0 {
      return Clear(c), Identity;
    }
    var yn := RealSize(y);
    RealSizeValue(y);
    if yn <= 1 {
      var ok;
      z, ok := MulSmallInt(c, Clear(c), x, y[0], isNegative);
      if ok {
        assert y[..yn] == [y[0]];
        assert LimbsValue(y[..yn]) == y[0];
        t := if isNegative && y[0] != 0 then Minus(SmallChain(y[0])) else SmallChain(y[0]);
        return;
      }
    }
    var w := Window(y[..yn]);
    var tblSize := Pow2(w - 2);
    var tbl := new Point[8];
    assert Pow2(3) == 8;
    Pow2Mono(w - 2, 3);
    ghost var row := FillOdd(c, tbl, 0, tblSize, x, xs, 0);
    z, t := DigitLoop(c, tbl, row, naf, xs);
    NafSuffixExtend(naf, 0, |naf|);
  }

  /** The digit loop of `mulArray`: one doubling and one `addTbl` per digit, from the top. */
  method DigitLoop(c: Curve, tbl: array<Point>, ghost row: seq<Term>, naf: seq<int>, ghost xs: seq<Point>)
    returns (z: Point, ghost t: Term)
    requires |xs| == 1 && Table(c, xs, tbl[..], 0, row, 0, 1, 2)
    requires DigitsFit(naf, |row|)
    ensures Bounded(t, 1) && z == Eval(c, xs, t)
    ensures Coef(t, 0) == NafSuffix(naf, 0, |naf|)
  {
    z := Clear(c);
    t := Identity;
    var i := 0;
    while i < |naf|
      invariant 0 <= i <= |naf|
      invariant Bounded(t, 1) && z == Eval(c, xs, t)
      invariant Coef(t, 0) == NafSuffix(naf, |naf| - i, |naf|)
    {
      z, t := Chain.Dbl(c, z, xs, t);
      z, t := AddTbl(c, z, tbl, 0, naf, |naf| - 1 - i, xs, t, row, 0);
      i := i + 1;
    }
  }

  // ---------------------------------------------------------------------------
  // mulArrayCT
  // ---------------------------------------------------------------------------

  /**
   * `mulArrayCT(z, x, y, yn, isNegative)`: a 16-entry table k x (tbl[0] the
   * identity), then for every 4-bit nibble from the top: four doublings and
   * one addition of tbl[nibble], whatever the nibble's value.
   */
  method MulArrayCT(c: Curve, x: Point, y: seq<Unit>, isNegative: bool)
    returns (z: Point, ghost t: Term)
    requires c.Valid() && c.Has(x)
    ensures Bounded(t, 1) && z == Eval(c, [x], t)
    ensures Coef(t, 0) == Signed(LimbsValue(y), isNegative)
    ensures |y| == 0 ==> z == Clear(c)
  {
    ghost var xs := [x];
    var tbl := new Point[16];
    ghost var row := FillMultiples(c, tbl, x, xs);
    ghost var entries := tbl[..];
    z := Clear(c);
    t := Identity;
    var i := 0;
    while i < |y|
      invariant 0 <= i <= |y|
      invariant tbl[..] == entries && Table(c, xs, entries, 0, row, 0, 0, 1) && |row| == 16
      invariant Bounded(t, 1) && z == Eval(c, xs, t)
      invariant Coef(t, 0) == LimbsValue(y[|y| - i..])
      invariant i == 0 ==> z == Clear(c)
    {
      var v := y[|y| - 1 - i];
      z, t := CtLimb(c, tbl, row, z, t, v, xs);
      LimbsTop(y, i);
      i := i + 1;
    }
    assert y[|y| - i..] == y;
    if isNegative {
      z := Neg(c, z);
      t := Minus(t);
    }
  }

  /** The table of `mulArrayCT`: tbl[0] the identity, tbl[1] = x, tbl[k] = add(tbl[k - 1], x). */
  method FillMultiples(c: Curve, tbl: array<Point>, x: Point, ghost xs: seq<Point>)
    returns (ghost row: seq<Term>)
    requires Bases(c, xs) && xs == [x] && tbl.Length == 16
    modifies tbl
    ensures |row| == 16 && Table(c, xs, tbl[..], 0, row, 0, 0, 1)
  {
    tbl[0] := Clear(c);
    tbl[1] := x;
    row := [Identity, Base(0)];
    var i := 2;
    while i < 16
      invariant 2 <= i <= 16 && |row| == i
      invariant Table(c, xs, tbl[..], 0, row, 0, 0, 1)
    {
      assert Single(row[i - 1], 0, i - 1);
      var P;
      ghost var tP;
      P, tP := Chain.Add(c, tbl[i - 1], x, xs, row[i - 1], Base(0));
      SumSingle(row[i - 1], Base(0), 0, i - 1, 1);
      tbl[i] := P;
      row := row + [tP];
      i := i + 1;
    }
  }

  /** (v >> (e + 4)) * 16 + ((v >> e) & 15) == v >> e. */
  lemma NibbleStep(v: nat, e: nat)
    ensures 16 * (v / Pow2(e + 4)) + (v / Pow2(e)) % 16 == v / Pow2(e)
  {
    Pow2Add(e, 4);
    assert Pow2(4) == 16;
    DivDiv(v, Pow2(e), 16);
  }

  /** Dividing by P and then by k is dividing by P k. */
  lemma DivDiv(v: int, P: int, k: int)
    requires v >= 0 && P > 0 && k > 0
    ensures v / (P * k) == (v / P) / k
  {
    var q, r := v / P, v % P;
    var q2, r2 := q / k, q % k;
    assert v == q * P + r;
    assert q == q2 * k + r2;
    RingDivDiv(q2, k, r2, P);
    MulBelow(r2, k, P);
    Fp.DivModUnique(v, P * k, q2, r2 * P + r);
  }

  lemma RingDivDiv(q2: int, k: int, r2: int, P: int)
    ensures (q2 * k + r2) * P == q2 * (P * k) + r2 * P
  {
  }

  /** 0 <= r P and r P + P <= k P for 0 <= r < k. */
  lemma MulBelow(r: int, k: int, P: int)
    requires 0 <= r < k && P > 0
    ensures 0 <= r * P && r * P + P <= P * k
  {
    Fp.MulAtLeast(k - r, P);
    assert (k - r) * P == P * k - r * P;
  }

  /** Taking one more limb from the top: Horner's step. */
  lemma LimbsTop(y: seq<Unit>, i: nat)
    requires i < |y|
    ensures LimbsValue(y[|y| - (i + 1)..]) == LimbsValue(y[|y| - i..]) * Radix + y[|y| - 1 - i]
  {
    assert y[|y| - (i + 1)..][1..] == y[|y| - i..];
  }

  /** One nibble of `mulArrayCT`: the coefficient times 16 plus the nibble. */
  lemma CtStep(C0: int, before: int, v: Unit, j: nat, nib: int)
    requires j < 16
    requires before == C0 * Pow2(4 * j) + v / Pow2(64 - 4 * j)
    requires nib == (v / Pow2((16 - 1 - j) * 4)) % 16
    ensures before * 16 + nib == C0 * Pow2(4 * (j + 1)) + v / Pow2(64 - 4 * (j + 1))
  {
    var A, B := Pow2(4 * j), Pow2(4 * (j + 1));
    Pow2Add(4 * j, 4);
    assert Pow2(4) == 16;
    assert B == A * 16;
    assert (16 - 1 - j) * 4 == 60 - 4 * j;
    NibbleStep(v, 60 - 4 * j);
    ScaleBy16(C0, A, B);
  }

  lemma ScaleBy16(C0: int, A: int, B: int)
    requires B == A * 16
    ensures (C0 * A) * 16 == C0 * B
  {
  }

  /** One limb of `mulArrayCT`: the accumulator's coefficient becomes C 2^64 + v. */
  method CtLimb(c: Curve, tbl: array<Point>, ghost row: seq<Term>, z0: Point, ghost t0: Term,
                v: Unit, ghost xs: seq<Point>)
    returns (z: Point, ghost t: Term)
    requires |xs| == 1 && Table(c, xs, tbl[..], 0, row, 0, 0, 1) && |row| == 16
    requires Bounded(t0, 1) && z0 == Eval(c, xs, t0)
    ensures Bounded(t, 1) && z == Eval(c, xs, t)
    ensures Coef(t, 0) == Coef(t0, 0) * Radix + v
  {
    z, t := z0, t0;
    var j := 0;
    while j < 16
      invariant 0 <= j <= 16
      invariant Bounded(t, 1) && z == Eval(c, xs, t)
      invariant Coef(t, 0) == CtPrefix(Coef(t0, 0), v, j)
    {
      var nib := Nibble(v, j);
      z, t := CtNibble(c, tbl, row, z, t, nib, xs);
      j := j + 1;
    }
    CtPrefixValue(Coef(t0, 0), v, j);
    CtEnd(Coef(t0, 0), v, j);
  }

  /** Nibble j of a limb from the top: `(v >> ((m - 1 - j) w)) & mask` with m = 16, w = 4. */
  function Nibble(v: Unit, j: nat): (r: int)
    requires j < 16
    ensures 0 <= r < 16
  {
    (v / Pow2((16 - 1 - j) * 4)) % 16
  }

  /** The coefficient after j nibbles of a limb, by Horner's rule from C0. */
  ghost function CtPrefix(C0: int, v: Unit, j: nat): int
    requires j <= 16
  {
    if j == 0 then C0 else 16 * CtPrefix(C0, v, j - 1) + Nibble(v, j - 1)
  }

  /** After j nibbles the coefficient is C0 shifted by 4 j bits plus the top 4 j bits of v. */
  lemma {:induction false} CtPrefixValue(C0: int, v: Unit, j: nat)
    requires j <= 16
    ensures CtPrefix(C0, v, j) == C0 * Pow2(4 * j) + v / Pow2(64 - 4 * j)
  {
    if j == 0 {
      Pow2Radix();
      assert v / Pow2(64) == 0;
    } else {
      CtPrefixValue(C0, v, j - 1);
      CtStep(C0, CtPrefix(C0, v, j - 1), v, j - 1, Nibble(v, j - 1));
    }
  }

  /** One nibble of `mulArrayCT`'s inner loop: four doublings, then add tbl[nib]. */
  method CtNibble(c: Curve, tbl: array<Point>, ghost row: seq<Term>, z0: Point, ghost t0: Term,
                  nib: int, ghost xs: seq<Point>)
    returns (z: Point, ghost t: Term)
    requires |xs| == 1 && Table(c, xs, tbl[..], 0, row, 0, 0, 1) && |row| == 16
    requires Bounded(t0, 1) && z0 == Eval(c, xs, t0) && 0 <= nib < 16
    ensures Bounded(t, 1) && z == Eval(c, xs, t)
    ensures Coef(t, 0) == 16 * Coef(t0, 0) + nib
  {
    var z1;
    ghost var t1;
    z1, t1 := Dbl4(c, z0, t0, xs);
    assert Coef(t1, 0) == 16 * Coef(t0, 0);
    assert Single(row[nib], 0, nib);
    assert Coef(row[nib], 0) == nib;
    z, t := Chain.Add(c, z1, tbl[nib], xs, t1, row[nib]);
  }

  /** After the 16 nibbles the limb's bits are all in: C 2^64 + v. */
  lemma CtEnd(C0: int, v: Unit, j: nat)
    requires j == 16
    ensures C0 * Pow2(4 * j) + v / Pow2(64 - 4 * j) == C0 * Radix + v
  {
    Pow2Radix();
    assert Pow2(64 - 4 * 16) == 1;
  }

  /** w = 4 doublings of `mulArrayCT`'s inner loop. */
  method Dbl4(c: Curve, z0: Point, ghost t0: Term, ghost xs: seq<Point>) returns (z: Point, ghost t: Term)
    requires Bases(c, xs) && Bounded(t0, |xs|) && z0 == Eval(c, xs, t0)
    ensures Bounded(t, |xs|) && z == Eval(c, xs, t)
    ensures forall b: nat :: Coef(t, b) == 16 * Coef(t0, b)
  {
    z, t := z0, t0;
    var k := 0;
    while k < 4
      invariant 0 <= k <= 4
      invariant Bounded(t, |xs|) && z == Eval(c, xs, t)
      invariant forall b: nat :: Coef(t, b) == Pow2(k) * Coef(t0, b)
    {
      ghost var t1 := t;
      z, t := Chain.Dbl(c, z, xs, t);
      TwiceScaled(t1, t0, k);
      k := k + 1;
    }
    assert Pow2(4) == 16;
  }

  /** Doubling a chain that is 2^k times t0 gives 2^(k + 1) times t0. */
  lemma TwiceScaled(t: Term, t0: Term, k: nat)
    requires forall b: nat :: Coef(t, b) == Pow2(k) * Coef(t0, b)
    ensures forall b: nat :: Coef(Twice(t), b) == Pow2(k + 1) * Coef(t0, b)
  {
    forall b: nat
      ensures Coef(Twice(t), b) == Pow2(k + 1) * Coef(t0, b)
    {
      var C := Coef(t0, b);
      assert Coef(t, b) == Pow2(k) * C;
      assert Coef(Twice(t), b) == 2 * Coef(t, b);
      DoubleScale(Pow2(k + 1), Pow2(k), C);
    }
  }

  lemma DoubleScale(P1: int, P: int, C: int)
    requires P1 == 2 * P
    ensures P1 * C == 2 * (P * C)
  {
  }
}
