/**
 * Conversions between projective and Jacobian coordinates:
 * [X:Y:Z] as Proj is (X/Z, Y/Z), which is [XZ : YZ^2 : Z] as Jacobi;
 * [X:Y:Z] as Jacobi is (X/Z^2, Y/Z^3), which is [XZ : Y : Z^3] as Proj.
 */
module Convert {
  import opened Fp
  import opened Curve
  import J = Jacobi
  import H = Proj

  /** `ProjToJacobi`: (x z, y z^2, z). */
  function ProjToJacobi(c: Curve, P: Point): (Q: Point)
    requires c.f.p > 0
    ensures Q.z == P.z
  {
    var f := c.f;
    Point(f.Mul(P.x, P.z), f.Mul(f.Mul(P.y, P.z), P.z), P.z)
  }

  /** `JacobiToProj`: (x z, y, z^3). */
  function JacobiToProj(c: Curve, P: Point): (Q: Point)
    requires c.f.p > 0
    ensures Q.y == P.y
  {
    var f := c.f;
    Point(f.Mul(P.x, P.z), P.y, f.Mul(P.z, f.Sqr(P.z)))
  }

  /** A factor congruent to 1 can be dropped. */
  lemma DropOne(p: int, A: int, w: int)
    requires p > 1 && w % p == 1
    ensures (A * w) % p == A % p
  {
    DivModUnique(1, p, 0, 1);
    MulCong(p, A, w, A, 1);
  }

  lemma RingPJx(X: int, Z: int, u: int)
    ensures (X * Z) * (u * u) == (X * u) * (Z * u)
  {
  }

  lemma RingPJy(Y: int, Z: int, u: int)
    ensures ((Y * Z) * Z) * ((u * u) * u) == (Y * u) * ((Z * u) * (Z * u))
  {
    assert ((Y * Z) * Z) * ((u * u) * u) == (Y * u) * ((Z * Z) * (u * u));
  }

  /** `ProjToJacobi` keeps the affine meaning. */
  lemma ProjToJacobiMeaning(c: Curve, P: Point)
    requires c.f.Valid() && c.Has(P)
    ensures c.Has(ProjToJacobi(c, P))
    ensures J.Meaning(c, ProjToJacobi(c, P)) == H.Meaning(c, P)
  {
    var Q := ProjToJacobi(c, P);
    if P.z != 0 {
      var f, p := c.f, c.f.p;
      var u := f.Inv(P.z);
      var w := P.z * u;
      J.Coords(c, Q);
      H.Coords(c, P);
      ModOfMod(P.x * P.z, p);
      MulCong(p, Q.x, u * u, P.x * P.z, u * u);
      RingPJx(P.x, P.z, u);
      DropOne(p, P.x * u, w);
      ModOfMod(P.y * P.z, p);
      MulCong(p, f.Mul(P.y, P.z), P.z, P.y * P.z, P.z);
      ModOfMod((P.y * P.z) * P.z, p);
      MulCong(p, Q.y, (u * u) * u, (P.y * P.z) * P.z, (u * u) * u);
      RingPJy(P.y, P.z, u);
      PowersOfOne(p, w);
      DropOne(p, P.y * u, w * w);
    }
  }

  /** The inverse of z^3 is the cube of the inverse of z. */
  lemma InvCube(f: Field, z: int)
    requires f.Valid() && f.In(z) && z != 0
    ensures var u := f.Inv(z);
      f.Mul(z, f.Sqr(z)) != 0 && f.Inv(f.Mul(z, f.Sqr(z))) == f.Mul(f.Sqr(u), u)
  {
    var p, u := f.p, f.Inv(z);
    var z3, u3 := f.Mul(z, f.Sqr(z)), f.Mul(f.Sqr(u), u);
    UnitPowers(f, z, u);
    CubeStep(f, z);
    CubeStep(f, u);
    MulCong(p, z3, u3, (z * z) * z, (u * u) * u);
    UnitNonZero(f, (z * z) * z, (u * u) * u);
    InvOf(f, z3, u3);
  }

  /** z (z^2) and (z^2) z are both z^3 modulo p. */
  lemma CubeStep(f: Field, z: int)
    requires f.p > 0
    ensures f.Mul(z, f.Sqr(z)) % f.p == ((z * z) * z) % f.p
    ensures f.Mul(f.Sqr(z), z) % f.p == ((z * z) * z) % f.p
  {
    var p := f.p;
    ModOfMod(z * z, p);
    MulCong(p, z, f.Sqr(z), z, z * z);
    MulCong(p, f.Sqr(z), z, z * z, z);
    ModOfMod(z * (z * z), p);
    ModOfMod((z * z) * z, p);
    assert z * (z * z) == (z * z) * z;
  }

  lemma RingJPx(X: int, Z: int, u: int)
    ensures (X * Z) * ((u * u) * u) == (X * (u * u)) * (Z * u)
  {
  }

  /** `JacobiToProj` keeps the affine meaning. */
  lemma JacobiToProjMeaning(c: Curve, P: Point)
    requires c.f.Valid() && c.Has(P)
    ensures c.Has(JacobiToProj(c, P))
    ensures H.Meaning(c, JacobiToProj(c, P)) == J.Meaning(c, P)
  {
    var Q := JacobiToProj(c, P);
    var f, p := c.f, c.f.p;
    if P.z != 0 {
      var u := f.Inv(P.z);
      var w := P.z * u;
      InvCube(f, P.z);
      H.Coords(c, Q);
      J.Coords(c, P);
      var u3 := f.Mul(f.Sqr(u), u);
      CubeStep(f, u);
      ModOfMod((u * u) * u, p);
      ModOfMod(P.x * P.z, p);
      MulCong(p, Q.x, u3, P.x * P.z, (u * u) * u);
      RingJPx(P.x, P.z, u);
      DropOne(p, P.x * (u * u), w);
      MulCong(p, P.y, u3, P.y, (u * u) * u);
    } else {
      DivModUnique(0, p, 0, 0);
    }
  }

  /** Converting to Jacobi and back to Proj keeps the affine meaning. */
  lemma RoundTrip(c: Curve, P: Point)
    requires c.f.Valid() && c.Has(P)
    ensures c.Has(JacobiToProj(c, ProjToJacobi(c, P)))
    ensures H.Meaning(c, JacobiToProj(c, ProjToJacobi(c, P))) == H.Meaning(c, P)
  {
    ProjToJacobiMeaning(c, P);
    JacobiToProjMeaning(c, ProjToJacobi(c, P));
  }
}
