/** Powers of two, shared by the limb arithmetic and the byte layouts. */
module Power {
  /** 2^e. */
  function Pow2(e: nat): (r: int)
    ensures r > 0
  {
    if e == 0 then 1 else 2 * Pow2(e - 1)
  }

  lemma {:induction false} Pow2Add(d: nat, e: nat)
    ensures Pow2(d + e) == Pow2(d) * Pow2(e)
  {
    if d > 0 {
      Pow2Add(d - 1, e);
      var A, B := Pow2(d - 1), Pow2(e);
      assert Pow2(d + e) == 2 * Pow2(d - 1 + e);
      assert 2 * (A * B) == (2 * A) * B;
    }
  }

  lemma Pow2Mono(d: nat, e: nat)
    requires d <= e
    ensures Pow2(d) <= Pow2(e)
  {
    Pow2Add(d, e - d);
  }
}
