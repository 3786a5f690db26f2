/**
 * Multi-scalar multiplication: `mulVecN` and `mulVec`, z = sum y_i x_i.
 * The scalars are field elements of the group order (`Fr`), given here by
 * their integer values; their width-5 signed digits come in as data.
 */
module MulVec {
  import opened Curve
  import opened Chain
  import opened Power
  import opened Mul
  import Ec
  import Batch

  /**
   * `fp::maxMulVecN`, the batch size of `mulVecN`. It is defined in a header
   * that is not part of this model; the contracts below hold for any
   * positive value.
   */
  const MaxMulVecN: nat := 32

  /** `tblSize` of `mulVecN`: 1 << (w - 2) odd multiples for w = 5. */
  const TblSize: nat := 8

  /** A table entry keeps its chain when the entries around it change. */
  lemma TableFrame(c: Curve, xs: seq<Point>, s1: seq<Point>, s2: seq<Point>, at: nat,
                   row: seq<Term>, bi: nat)
    requires Table(c, xs, s1, at, row, bi, 1, 2) && |s1| == |s2|
    requires forall k :: at <= k < at + |row| ==> s2[k] == s1[k]
    ensures Table(c, xs, s2, at, row, bi, 1, 2)
  {
    forall k | 0 <= k < |row|
      ensures s2[at + k] == Eval(c, xs, row[k])
    {
      assert s2[at + k] == s1[at + k];
    }
  }

  /** The chains of a normalized row. */
  function NormRow(row: seq<Term>): (r: seq<Term>)
    ensures |r| == |row|
    ensures forall k :: 0 <= k < |row| ==> r[k] == Norm(row[k])
  {
    if |row| == 0 then [] else [Norm(row[0])] + NormRow(row[1..])
  }

  /** Normalizing the entries of a table keeps their multiples. */
  lemma TableNorm(c: Curve, xs: seq<Point>, s1: seq<Point>, s2: seq<Point>, at: nat,
                  row: seq<Term>, bi: nat)
    requires Table(c, xs, s1, at, row, bi, 1, 2) && |s1| == |s2|
    requires forall k :: at <= k < at + |row| ==> c.Has(s1[k]) && s2[k] == Ec.NormalForm(c, s1[k])
    ensures Table(c, xs, s2, at, NormRow(row), bi, 1, 2)
  {
    var r := NormRow(row);
    forall k | 0 <= k < |row|
      ensures Bounded(r[k], |xs|) && s2[at + k] == Eval(c, xs, r[k]) && Single(r[k], bi, 1 + 2 * k)
    {
      var A := Eval(c, xs, row[k]);
      assert s2[at + k] == Ec.NormalForm(c, s1[at + k]);
      ApplyOpen(c, NormOp, A, A);
      assert Single(row[k], bi, 1 + 2 * k);
    }
  }

  /** The table rows for bases off..off+|rows|-1, row j at 8 j. */
  ghost predicate Rows(c: Curve, xs: seq<Point>, tbl: seq<Point>, rows: seq<seq<Term>>, off: nat)
  {
    forall j :: 0 <= j < |rows| ==> |rows[j]| == TblSize && Table(c, xs, tbl, TblSize * j, rows[j], off + j, 1, 2)
  }

  /** Every filled entry of the rows is a point of the curve. */
  lemma RowsHas(c: Curve, xs: seq<Point>, tbl: seq<Point>, rows: seq<seq<Term>>, off: nat, k: nat)
    requires Rows(c, xs, tbl, rows, off) && k < TblSize * |rows|
    ensures k < |tbl| && c.Has(tbl[k])
  {
    var j, e := k / TblSize, k % TblSize;
    assert k == TblSize * j + e;
    assert Table(c, xs, tbl, TblSize * j, rows[j], off + j, 1, 2);
    assert tbl[TblSize * j + e] == Eval(c, xs, rows[j][e]);
  }

  /**
   * `mulVecN(z, xVec, yVec, n)`: for the first min(n, N) pairs from `off`,
   * z = sum y_i x_i. Each point gets its table of odd multiples; the tables
   * are normalized together; then, from the top digit position, z is doubled
   * once and every point's digit added.
   */
  method MulVecN(c: Curve, xVec: array<Point>, yVec: seq<nat>, nafs: seq<seq<int>>, off: nat, n: nat,
                 ghost total: nat)
    returns (z: Point, done: nat, ghost t: Term)
    requires total <= xVec.Length && total <= |yVec| && total <= |nafs| && off + n <= total
    requires Bases(c, xVec[..total])
    requires forall i :: off <= i < off + n ==> IsNafOf(nafs[i], yVec[i], 5)
    ensures done == if n > MaxMulVecN then MaxMulVecN else n
    ensures Bounded(t, total) && z == Eval(c, xVec[..total], t)
    ensures forall b: nat :: Coef(t, b) == if off <= b < off + done then yVec[b] else 0
  {
    ghost var xs := xVec[..total];
    var m := if n > MaxMulVecN then MaxMulVecN else n;
    var tbl := new Point[MaxMulVecN * TblSize];
    var maxBit;
    ghost var rows;
    maxBit, rows := FillRows(c, xVec, nafs, off, m, tbl, total);
    rows := NormalizeRows(c, tbl, m, xs, rows, off);
    assert Pow2(3) == TblSize;
    z, t := DigitRows(c, tbl, nafs, off, m, maxBit, xs, rows);
    forall b: nat | off <= b < off + m
      ensures Coef(t, b) == yVec[b]
    {
      NafSuffixExtend(nafs[b], 0, maxBit);
    }
    done := m;
  }

  /** The first loop of `mulVecN`: every point's table, and the longest digit sequence. */
  method FillRows(c: Curve, xVec: array<Point>, nafs: seq<seq<int>>, off: nat, m: nat,
                  tbl: array<Point>, ghost total: nat)
    returns (maxBit: nat, ghost rows: seq<seq<Term>>)
    requires total <= xVec.Length && off + m <= total && total <= |nafs| && Bases(c, xVec[..total])
    requires TblSize * m <= tbl.Length && tbl != xVec
    modifies tbl
    ensures |rows| == m && Rows(c, xVec[..total], tbl[..], rows, off)
    ensures forall j :: off <= j < off + m ==> |nafs[j]| <= maxBit
  {
    ghost var xs := xVec[..total];
    rows := [];
    maxBit := 0;
    var i := 0;
    while i < m
      invariant 0 <= i <= m && |rows| == i
      invariant Rows(c, xs, tbl[..], rows, off)
      invariant forall j :: off <= j < off + i ==> |nafs[j]| <= maxBit
      invariant xVec[..total] == xs
    {
      if |nafs[off + i]| > maxBit {
        maxBit := |nafs[off + i]|;
      }
      ghost var before := tbl[..];
      ghost var row := FillOdd(c, tbl, TblSize * i, TblSize, xVec[off + i], xs, off + i);
      forall j | 0 <= j < i
        ensures Table(c, xs, tbl[..], TblSize * j, rows[j], off + j, 1, 2)
      {
        TableFrame(c, xs, before, tbl[..], TblSize * j, rows[j], off + j);
      }
      rows := rows + [row];
      i := i + 1;
    }
  }

  /** `normalizeVec(tbl, tbl, n * tblSize)`: the tables in place, keeping their multiples. */
  method NormalizeRows(c: Curve, tbl: array<Point>, m: nat, ghost xs: seq<Point>,
                       ghost rows: seq<seq<Term>>, ghost off: nat)
    returns (ghost nrows: seq<seq<Term>>)
    requires Bases(c, xs) && |rows| == m && Rows(c, xs, tbl[..], rows, off) && TblSize * m <= tbl.Length
    modifies tbl
    ensures |nrows| == m && Rows(c, xs, tbl[..], nrows, off)
  {
    ghost var filled := tbl[..];
    forall k | 0 <= k < m * TblSize
      ensures c.Has(tbl[k])
    {
      RowsHas(c, xs, filled, rows, off, k);
    }
    Batch.NormalizeVec(c, tbl, tbl, m * TblSize);
    nrows := seq(m, j requires 0 <= j < m => NormRow(rows[j]));
    forall j | 0 <= j < m
      ensures Table(c, xs, tbl[..], TblSize * j, nrows[j], off + j, 1, 2)
    {
      forall k | TblSize * j <= k < TblSize * j + TblSize
        ensures c.Has(filled[k]) && tbl[..][k] == Ec.NormalForm(c, filled[k])
      {
        RowsHas(c, xs, filled, rows, off, k);
      }
      TableNorm(c, xs, filled, tbl[..], TblSize * j, rows[j], off + j);
    }
  }

  /** The digit loop of `mulVecN`: from the top position, one doubling, then every point's digit. */
  method DigitRows(c: Curve, tbl: array<Point>, nafs: seq<seq<int>>, off: nat, m: nat, maxBit: nat,
                   ghost xs: seq<Point>, ghost rows: seq<seq<Term>>)
    returns (z: Point, ghost t: Term)
    requires Bases(c, xs) && |rows| == m && Rows(c, xs, tbl[..], rows, off) && off + m <= |nafs|
    requires forall j :: off <= j < off + m ==> DigitsFit(nafs[j], TblSize)
    ensures Bounded(t, |xs|) && z == Eval(c, xs, t)
    ensures forall b: nat :: Coef(t, b) == if off <= b < off + m then NafSuffix(nafs[b], 0, maxBit) else 0
  {
    z := Clear(c);
    t := Identity;
    var i := 0;
    while i < maxBit
      invariant 0 <= i <= maxBit
      invariant Bounded(t, |xs|) && z == Eval(c, xs, t)
      invariant forall b: nat :: Coef(t, b) == if off <= b < off + m then NafSuffix(nafs[b], maxBit - i, maxBit) else 0
    {
      var pos := maxBit - 1 - i;
      z, t := Chain.Dbl(c, z, xs, t);
      ghost var t2 := t;
      z, t := AddRows(c, z, tbl, nafs, off, m, pos, xs, t, rows);
      forall b: nat
        ensures Coef(t, b) == if off <= b < off + m then NafSuffix(nafs[b], pos, maxBit) else 0
      {
        assert Coef(t2, b) == 2 * Coef(t2.a, b);
      }
      i := i + 1;
    }
  }

  /** The inner loop of `mulVecN`: `addTbl` of every point's digit at `pos`. */
  method AddRows(c: Curve, z0: Point, tbl: array<Point>, nafs: seq<seq<int>>, off: nat, m: nat, pos: nat,
                 ghost xs: seq<Point>, ghost t0: Term, ghost rows: seq<seq<Term>>)
    returns (z: Point, ghost t: Term)
    requires Rows(c, xs, tbl[..], rows, off) && |rows| == m && off + m <= |nafs|
    requires forall j :: off <= j < off + m ==> DigitsFit(nafs[j], TblSize)
    requires Bases(c, xs) && Bounded(t0, |xs|) && z0 == Eval(c, xs, t0)
    ensures Bounded(t, |xs|) && z == Eval(c, xs, t)
    ensures forall b: nat :: Coef(t, b) == Coef(t0, b) + (if off <= b < off + m then DigitAt(nafs[b], pos) else 0)
  {
    z, t := z0, t0;
    var j := 0;
    while j < m
      invariant 0 <= j <= m
      invariant Bounded(t, |xs|) && z == Eval(c, xs, t)
      invariant forall b: nat :: Coef(t, b) == Coef(t0, b) + (if off <= b < off + j then DigitAt(nafs[b], pos) else 0)
    {
      assert Table(c, xs, tbl[..], TblSize * j, rows[j], off + j, 1, 2);
      z, t := AddTbl(c, z, tbl, TblSize * j, nafs[off + j], pos, xs, t, rows[j], off + j);
      j := j + 1;
    }
  }

  /**
   * `mulVec(z, xVec, yVec, n)`: z = sum_{i<n} y_i x_i, in batches of
   * `mulVecN`; n == 0 gives the cleared identity. The hooks `mulVecOpti`
   * and `mulVecGLV` are absent.
   */
  method MulVec(c: Curve, xVec: array<Point>, yVec: seq<nat>, nafs: seq<seq<int>>, n: nat)
    returns (z: Point, ghost t: Term)
    requires n <= xVec.Length && n <= |yVec| && n <= |nafs|
    requires Bases(c, xVec[..n])
    requires forall i :: 0 <= i < n ==> IsNafOf(nafs[i], yVec[i], 5)
    ensures Bounded(t, n) && z == Eval(c, xVec[..n], t)
    ensures forall b: nat :: Coef(t, b) == if b < n then yVec[b] else 0
    ensures n == 0 ==> z == Clear(c)
  {
    ghost var xs := xVec[..n];
    if n == 0 {
      return Clear(c), Identity;
    }
    var r := Clear(c);
    t := Identity;
    var off: nat := 0;
    var rest: nat := n;
    while rest > 0
      invariant off + rest == n
      invariant Bounded(t, n) && r == Eval(c, xs, t)
      invariant forall b: nat :: Coef(t, b) == if b < off then yVec[b] else 0
    {
      var s, done;
      ghost var ts;
      s, done, ts := MulVecN(c, xVec, yVec, nafs, off, rest, n);
      ghost var tr := t;
      r, t := Chain.Add(c, r, s, xs, t, ts);
      forall b: nat
        ensures Coef(t, b) == if b < off + done then yVec[b] else 0
      {
        assert Coef(t, b) == Coef(tr, b) + Coef(ts, b);
      }
      off := off + done;
      rest := rest - done;
    }
    z := r;
  }
}
