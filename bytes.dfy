/**
 * Bytes and the layout of a field element in a buffer. `Fp::save` with
 * IoSerialize, `Fp::setArray` and `fp::local::byteSwap` belong to the field
 * code, which is not part of this model; here they write x as n
 * little-endian bytes, read n little-endian bytes back, and reverse the
 * first n bytes of a buffer. Bit operations on a byte are the bitwise OR
 * below and, for masks of contiguous low bits and single bits, division and
 * remainder by powers of two.
 */
module Bytes {
  import opened Power

  type Byte = x: int | 0 <= x < 256

  /** x written as n little-endian bytes (the bits of x above 8 n are dropped). */
  function LE(x: nat, n: nat): (r: seq<Byte>)
    ensures |r| == n
  {
    if n == 0 then [] else [x % 256] + LE(x / 256, n - 1)
  }

  /** The value of little-endian bytes. */
  function FromLE(s: seq<Byte>): nat
  {
    if |s| == 0 then 0 else s[0] + 256 * FromLE(s[1..])
  }

  /** The bytes in reverse order. */
  function Reverse(s: seq<Byte>): (r: seq<Byte>)
    ensures |r| == |s|
  {
    seq(|s|, i requires 0 <= i < |s| => s[|s| - 1 - i])
  }

  /** n bytes of 0. */
  function Zeros(n: nat): (r: seq<Byte>)
    ensures |r| == n && forall i :: 0 <= i < n ==> r[i] == 0
  {
    seq(n, i => 0)
  }

  /** Every byte of s[lo..hi] is 0. */
  predicate ZeroRange(s: seq<Byte>, lo: nat, hi: nat)
    requires hi <= |s|
  {
    forall i :: lo <= i < hi ==> s[i] == 0
  }

  /** x shifted right by 8 k bits. */
  function Shift(x: nat, k: nat): nat
  {
    if k == 0 then x else Shift(x / 256, k - 1)
  }

  /** Bitwise OR of the low k bits of a and b. */
  function OrBits(a: nat, b: nat, k: nat): (r: nat)
    ensures r < Pow2(k)
  {
    if k == 0 then 0
    else (if a % 2 == 1 || b % 2 == 1 then 1 else 0) + 2 * OrBits(a / 2, b / 2, k - 1)
  }

  /** `a | b` on bytes. */
  function ByteOr(a: Byte, b: Byte): Byte
  {
    Pow2Byte();
    OrBits(a, b, 8)
  }

  /** `(b & flag) != 0` for a single-bit flag. */
  predicate HasFlag(b: Byte, flag: nat)
    requires flag > 0
  {
    (b / flag) % 2 == 1
  }

  // ---------------------------------------------------------------------------
  // Facts
  // ---------------------------------------------------------------------------

  lemma Pow2Byte()
    ensures Pow2(8) == 256
  {
  }

  lemma DivLess(x: nat, k: int, m: int)
    requires k > 0 && x < k * m
    ensures x / k < m
  {
    var q := x / k;
    assert k * q <= x;
    assert k * (m - q) == k * m - k * q;
    MulSign(k, m - q);
  }

  lemma MulSign(k: int, d: int)
    requires k > 0
    ensures d <= 0 ==> k * d <= 0
  {
  }

  /** Reading back what was written gives x, when x fits in n bytes. */
  lemma {:induction false} FromLEofLE(x: nat, n: nat)
    requires x < Pow2(8 * n)
    ensures FromLE(LE(x, n)) == x
  {
    if n > 0 {
      Pow2Add(8, 8 * (n - 1));
      Pow2Byte();
      DivLess(x, 256, Pow2(8 * (n - 1)));
      FromLEofLE(x / 256, n - 1);
      assert LE(x, n)[1..] == LE(x / 256, n - 1);
    }
  }

  /** Little-endian bytes are the layout of their value. */
  lemma {:induction false} LEofFromLE(s: seq<Byte>)
    ensures LE(FromLE(s), |s|) == s
  {
    if |s| > 0 {
      var v := FromLE(s[1..]);
      assert (s[0] + 256 * v) % 256 == s[0] && (s[0] + 256 * v) / 256 == v;
      LEofFromLE(s[1..]);
    }
  }

  /** The last of the n bytes is the value shifted by n - 1 bytes, reduced to a byte. */
  lemma {:induction false} LETop(x: nat, n: nat)
    requires n >= 1
    ensures LE(x, n)[n - 1] == Shift(x, n - 1) % 256
  {
    if n > 1 {
      LETop(x / 256, n - 1);
    }
  }

  /** A value below 2^(8 k + m) shifted by k bytes is below 2^m. */
  lemma {:induction false} ShiftBound(x: nat, k: nat, m: nat)
    requires x < Pow2(8 * k + m)
    ensures Shift(x, k) < Pow2(m)
  {
    if k > 0 {
      Pow2Add(8, 8 * (k - 1) + m);
      Pow2Byte();
      DivLess(x, 256, Pow2(8 * (k - 1) + m));
      ShiftBound(x / 256, k - 1, m);
    }
  }

  /** The last byte of x's n bytes is below 2^m when x is below 2^(8 n - 8 + m). */
  lemma TopBound(x: nat, n: nat, m: nat)
    requires n >= 1 && m <= 8 && x < Pow2(8 * (n - 1) + m)
    ensures LE(x, n)[n - 1] < Pow2(m)
  {
    LETop(x, n);
    ShiftBound(x, n - 1, m);
    Pow2Mono(m, 8);
    Pow2Byte();
  }

  lemma ReverseReverse(s: seq<Byte>)
    ensures Reverse(Reverse(s)) == s
  {
  }

  /** OR with 0 keeps the low k bits. */
  lemma {:induction false} OrZero(t: nat, k: nat)
    requires t < Pow2(k)
    ensures OrBits(0, t, k) == t
  {
    if k > 0 {
      DivLess(t, 2, Pow2(k - 1));
      OrZero(t / 2, k - 1);
    }
  }

  /** OR of a value below 2^j with a multiple of 2^j is their sum. */
  lemma {:induction false} OrDisjoint(a: nat, t: nat, j: nat, k: nat)
    requires a < Pow2(j) && a < Pow2(k) && Pow2(j) * t < Pow2(k)
    ensures OrBits(a, Pow2(j) * t, k) == a + Pow2(j) * t
    decreases k
  {
    if k == 0 {
      assert Pow2(j) * t >= 0;
    } else if j == 0 {
      OrZero(t, k);
    } else {
      var m := Pow2(j - 1) * t;
      assert Pow2(j) * t == 2 * m;
      DivLess(a, 2, Pow2(j - 1));
      DivLess(a, 2, Pow2(k - 1));
      DivLess(2 * m, 2, Pow2(k - 1));
      OrDisjoint(a / 2, t, j - 1, k - 1);
    }
  }

  /** Setting flag bits above the value's bits adds them. */
  lemma OrHigh(a: Byte, m: Byte, j: nat, t: nat)
    requires j <= 8 && a < Pow2(j) && m == Pow2(j) * t
    ensures ByteOr(a, m) == a + m
  {
    Pow2Byte();
    Pow2Mono(j, 8);
    OrDisjoint(a, t, j, 8);
  }

  // ---------------------------------------------------------------------------
  // The buffer operations of the field code
  // ---------------------------------------------------------------------------

  /** `Fp::save` into n bytes at `at` (IoSerialize): x little-endian. */
  method WriteLE(buf: array<Byte>, at: nat, x: nat, n: nat)
    requires at + n <= buf.Length
    modifies buf
    ensures buf[at..at + n] == LE(x, n)
    ensures forall i :: 0 <= i < buf.Length && !(at <= i < at + n) ==> buf[i] == old(buf[i])
  {
    var v := x;
    var i := 0;
    while i < n
      invariant 0 <= i <= n
      invariant LE(x, n) == buf[at..at + i] + LE(v, n - i)
      invariant forall k :: 0 <= k < buf.Length && !(at <= k < at + i) ==> buf[k] == old(buf[k])
    {
      buf[at + i] := v % 256;
      assert buf[at..at + i + 1] == buf[at..at + i] + [v % 256];
      v := v / 256;
      i := i + 1;
    }
  }

  /** `Fp::save` into n bytes at 0 in ETH mode: x big-endian. */
  method WriteBE(buf: array<Byte>, x: nat, n: nat)
    requires n <= buf.Length
    modifies buf
    ensures buf[..n] == Reverse(LE(x, n))
    ensures buf[n..] == old(buf[n..])
  {
    var v := x;
    var i := 0;
    while i < n
      invariant 0 <= i <= n
      invariant LE(x, n)[i..] == LE(v, n - i)
      invariant forall k :: n - i <= k < n ==> buf[k] == LE(x, n)[n - 1 - k]
      invariant buf[n..] == old(buf[n..])
    {
      buf[n - 1 - i] := v % 256;
      assert LE(x, n)[i + 1..] == LE(v, n - i)[1..];
      v := v / 256;
      i := i + 1;
    }
  }

  /** `byteSwap(buf, n)`: the first n bytes in reverse order. */
  method ByteSwap(buf: array<Byte>, n: nat)
    requires n <= buf.Length
    modifies buf
    ensures buf[..n] == Reverse(old(buf[..n]))
    ensures buf[n..] == old(buf[n..])
  {
    var i := 0;
    while i < n / 2
      invariant 0 <= i <= n / 2
      invariant forall k :: 0 <= k < i ==> buf[k] == old(buf[n - 1 - k]) && buf[n - 1 - k] == old(buf[k])
      invariant forall k :: i <= k < n - i ==> buf[k] == old(buf[k])
      invariant buf[n..] == old(buf[n..])
    {
      var t := buf[i];
      buf[i] := buf[n - 1 - i];
      buf[n - 1 - i] := t;
      i := i + 1;
    }
  }

  /** `memset(buf + lo, 0, hi - lo)`. */
  method FillZero(buf: array<Byte>, lo: nat, hi: nat)
    requires lo <= hi <= buf.Length
    modifies buf
    ensures ZeroRange(buf[..], lo, hi)
    ensures forall i :: 0 <= i < buf.Length && !(lo <= i < hi) ==> buf[i] == old(buf[i])
  {
    var i := lo;
    while i < hi
      invariant lo <= i <= hi
      invariant forall k :: lo <= k < i ==> buf[k] == 0
      invariant forall k :: 0 <= k < buf.Length && !(lo <= k < i) ==> buf[k] == old(buf[k])
    {
      buf[i] := 0;
      i := i + 1;
    }
  }

  /** A run of zero bytes has value 0. */
  lemma {:induction false} FromLEZeros(s: seq<Byte>)
    requires ZeroRange(s, 0, |s|)
    ensures FromLE(s) == 0
  {
    if |s| > 0 {
      FromLEZeros(s[1..]);
    }
  }

  /** `bint::isZeroN(buf, n)`: the first n bytes are all 0. */
  method IsZeroN(buf: array<Byte>, n: nat) returns (r: bool)
    requires n <= buf.Length
    ensures r <==> ZeroRange(buf[..], 0, n)
  {
    var i := 0;
    while i < n
      invariant 0 <= i <= n
      invariant ZeroRange(buf[..], 0, i)
    {
      if buf[i] != 0 {
        return false;
      }
      i := i + 1;
    }
    return true;
  }
}
