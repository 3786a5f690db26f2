/**
 * Batch normalization: `normalizeVecT` and `EcT::normalizeVec`. The output
 * array may be the input array itself.
 */
module Batch {
  import opened Fp
  import opened Curve
  import J = Jacobi
  import H = Proj
  import Ec

  /** The chunk size `N` of `normalizeVecT`. */
  const ChunkSize: nat := 256

  /**
   * `invVecT(inv, Pz, m, N)`: the inverses of the z coordinates of
   * P[off..off + m] into a fresh N-entry buffer. Its code is not part of this
   * model; this stand-in inverts each z separately and meets the same
   * contract: inv[i] z == 1 for every nonzero z.
   */
  method InvVec(f: Field, P: array<Point>, off: nat, m: nat) returns (inv: array<int>)
    requires f.Valid() && off + m <= P.Length && m <= ChunkSize
    requires forall i :: off <= i < off + m ==> f.In(P[i].z)
    ensures fresh(inv) && inv.Length == ChunkSize
    ensures forall i :: 0 <= i < m ==> f.In(inv[i])
    ensures forall i :: 0 <= i < m && P[off + i].z != 0 ==> (P[off + i].z * inv[i]) % f.p == 1
  {
    inv := new int[ChunkSize];
    var i := 0;
    while i < m
      invariant 0 <= i <= m
      invariant forall k :: 0 <= k < i ==> f.In(inv[k])
      invariant forall k :: 0 <= k < i && P[off + k].z != 0 ==> (P[off + k].z * inv[k]) % f.p == 1
    {
      var z := P[off + i].z;
      inv[i] := if z == 0 then 0 else f.Inv(z);
      i := i + 1;
    }
  }

  /** `_normalize(Q, P, inv)`: the mode's normalization with a given inverse of z. */
  function NormalizeWith(c: Curve, P: Point, inv: int): (Q: Point)
    requires c.f.Valid() && c.Has(P) && c.f.In(inv) && c.mode != Affine
    ensures c.Has(Q) && Q.z == 1
    ensures P.z != 0 && (P.z * inv) % c.f.p == 1 && !IsNormalized(P) ==> Q == Ec.NormalForm(c, P)
  {
    if c.mode == Jacobi then J.NormalizeWith(c, P, inv) else H.NormalizeWith(c, P, inv)
  }

  /**
   * `normalizeVecT(Q, P, n)`: Q[i] becomes the normalization of P[i] for
   * every i < n, chunk by chunk; points with z in {0, 1} are copied, or left
   * alone when Q is P.
   */
  method NormalizeVecT(c: Curve, Q: array<Point>, P: array<Point>, n: nat)
    requires c.Valid() && c.mode != Affine
    requires n <= P.Length && n <= Q.Length
    requires forall i :: 0 <= i < n ==> c.Has(P[i])
    modifies Q
    ensures forall i :: 0 <= i < n ==> Q[i] == Ec.NormalForm(c, old(P[i]))
    ensures forall i :: n <= i < Q.Length ==> Q[i] == old(Q[i])
    ensures Q != P ==> P[..] == old(P[..])
  {
    ghost var P0 := P[..n];
    var PisEqualToQ := P == Q;
    var off: nat := 0;
    var rest: nat := n;
    while true
      invariant off + rest == n
      invariant forall i :: 0 <= i < off ==> Q[i] == Ec.NormalForm(c, P0[i])
      invariant forall i :: off <= i < n ==> P[i] == P0[i]
      invariant forall i :: n <= i < Q.Length ==> Q[i] == old(Q[i])
      invariant Q != P ==> P[..] == old(P[..])
      decreases rest
    {
      var doneN := if rest < ChunkSize then rest else ChunkSize;
      var inv := InvVec(c.f, P, off, doneN);
      NormalizeChunk(c, Q, P, off, doneN, inv, PisEqualToQ, P0);
      rest := rest - doneN;
      if rest == 0 {
        return;
      }
      off := off + doneN;
    }
  }

  /** One chunk of `normalizeVecT`: Q[off + i] for i < m, from inv[i]. */
  method NormalizeChunk(c: Curve, Q: array<Point>, P: array<Point>, off: nat, m: nat,
                        inv: array<int>, PisEqualToQ: bool, ghost P0: seq<Point>)
    requires c.Valid() && c.mode != Affine
    requires PisEqualToQ <==> P == Q
    requires off + m <= |P0| <= P.Length && |P0| <= Q.Length && m <= inv.Length
    requires forall i :: 0 <= i < |P0| ==> c.Has(P0[i])
    requires forall i :: off <= i < |P0| ==> P[i] == P0[i]
    requires forall i :: 0 <= i < m ==> c.f.In(inv[i])
    requires forall i :: 0 <= i < m && P[off + i].z != 0 ==> (P[off + i].z * inv[i]) % c.f.p == 1
    modifies Q
    ensures forall i :: off <= i < off + m ==> Q[i] == Ec.NormalForm(c, P0[i])
    ensures forall i :: 0 <= i < Q.Length && !(off <= i < off + m) ==> Q[i] == old(Q[i])
    ensures forall i :: off + m <= i < |P0| ==> P[i] == P0[i]
    ensures Q != P ==> P[..] == old(P[..])
  {
    var i := 0;
    while i < m
      invariant 0 <= i <= m
      invariant forall k :: off <= k < off + i ==> Q[k] == Ec.NormalForm(c, P0[k])
      invariant forall k :: 0 <= k < Q.Length && !(off <= k < off + i) ==> Q[k] == old(Q[k])
      invariant forall k :: off + i <= k < |P0| ==> P[k] == P0[k]
      invariant Q != P ==> P[..] == old(P[..])
    {
      var Pi := P[off + i];
      Ec.NormalFormProps(c, Pi);
      if Pi.z == 0 || Pi.z == 1 {
        if !PisEqualToQ {
          Q[off + i] := Pi;
        }
      } else {
        Q[off + i] := NormalizeWith(c, Pi, inv[i]);
      }
      i := i + 1;
    }
  }

  /**
   * `EcT::normalizeVec(Q, P, n)`: Affine mode copies (or does nothing when Q
   * is P); the other modes normalize in batch.
   */
  method NormalizeVec(c: Curve, Q: array<Point>, P: array<Point>, n: nat)
    requires c.Valid()
    requires n <= P.Length && n <= Q.Length
    requires forall i :: 0 <= i < n ==> c.Has(P[i])
    modifies Q
    ensures forall i :: 0 <= i < n ==> Q[i] == Ec.NormalForm(c, old(P[i]))
    ensures forall i :: n <= i < Q.Length ==> Q[i] == old(Q[i])
    ensures Q != P ==> P[..] == old(P[..])
  {
    if c.mode == Affine {
      if Q == P {
        return;
      }
      var i := 0;
      while i < n
        invariant 0 <= i <= n
        invariant forall k :: 0 <= k < i ==> Q[k] == old(P[k])
        invariant forall k :: i <= k < Q.Length ==> Q[k] == old(Q[k])
        invariant P[..] == old(P[..])
      {
        Q[i] := P[i];
        i := i + 1;
      }
      return;
    }
    NormalizeVecT(c, Q, P, n);
  }
}
