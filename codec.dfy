/**
 * The binary point codec of `EcT::save` and `EcT::load` (IoSerialize):
 * the compressed form of x plus one bit of y, in one of three layouts.
 *
 *  - n + 1 bytes when the field's bit size is a multiple of 8 or b == 0:
 *    a lead byte 2 or 3 (y even or odd), then x little-endian;
 *  - n bytes otherwise: x little-endian with y's parity in bit 7 of the last
 *    byte, a bit never used by a field element;
 *  - the ETH layout: x big-endian with flags in the top three bits of the
 *    first byte (0x80 compressed, 0x40 infinity, 0x20 y is "negative").
 *
 * The identity is all zero bytes (0xC0 then zeros in the ETH layout).
 */
module Codec {
  import opened Wrappers
  import opened Fp
  import opened Curve
  import opened Bytes
  import opened Power
  import Ec

  /** The flags of the ETH layout. */
  const CFlag: Byte := 0x80
  const BFlag: Byte := 0x40
  const AFlag: Byte := 0x20
  /** `c_flag | b_flag`, the lead byte of the identity. */
  const CBFlags: Byte := 0xC0
  /** `c_flag | a_flag`. */
  const CAFlags: Byte := 0xA0

  /** The number of bits of x. */
  function BitLen(x: nat): nat
  {
    if x == 0 then 0 else 1 + BitLen(x / 2)
  }

  /** `Fp::getByteSize()`: the bytes of a field element, (bitSize + 7) / 8. */
  function ByteSize(f: Field): (n: nat)
    ensures f.p > 0 ==> n >= 1
  {
    (BitLen(if f.p < 0 then 0 else f.p) + 7) / 8
  }

  /**
   * `isMSBserialize()`: the compact n-byte layout is used when b != 0 (so
   * that (0, 0) is not on the curve) and the top bit of the last byte is
   * never used by a field element.
   */
  predicate IsMSBSerialize(c: Curve)
  {
    c.b != 0 && BitLen(if c.f.p < 0 then 0 else c.f.p) % 8 != 0
  }

  /** `getSerializedByteSize()`: n, plus one byte for the lead byte when the compact layout is off. */
  function SerializedByteSize(c: Curve): nat
  {
    ByteSize(c.f) + if IsMSBSerialize(c) then 0 else 1
  }

  /**
   * The ETH flags fit: the three top bits of the first big-endian byte are
   * never used by a field element (the bit size leaves 3 to 7 bits free in it).
   */
  predicate EthFlagsFree(f: Field)
  {
    1 <= BitLen(if f.p < 0 then 0 else f.p) % 8 <= 5
  }

  /**
   * `get_a_flag(y)`, that is `Fp::isNegative`: y is in the upper half,
   * y >= (p + 1) / 2. The field code is not part of this model.
   */
  predicate IsNegative(f: Field, y: int)
  {
    y >= (f.p + 1) / 2
  }

  // ---------------------------------------------------------------------------
  // The format
  // ---------------------------------------------------------------------------

  /**
   * What `save` writes for P (IoSerialize): the bytes of the normalized point
   * in the layout the settings select. The ETH layout is given for fields
   * that use the compact layout, the only ones where its n + adj bytes are
   * all written.
   */
  ghost function Serialize(c: Curve, eth: bool, P: Point): (r: seq<Byte>)
    requires c.Valid() && c.Has(P) && (eth ==> IsMSBSerialize(c))
    ensures |r| == SerializedByteSize(c)
    ensures |r| == if IsMSBSerialize(c) then ByteSize(c.f) else ByteSize(c.f) + 1
  {
    Ec.NormalFormProps(c, P);
    var Q := Ec.NormalForm(c, P);
    var n := ByteSize(c.f);
    if eth then
      if IsZero(Q) then [CBFlags] + Zeros(n - 1)
      else
        var xb := Reverse(LE(Q.x, n));
        var cba := if IsNegative(c.f, Q.y) then CAFlags else CFlag;
        [ByteOr(xb[0], cba)] + xb[1..]
    else if IsZero(Q) then Zeros(SerializedByteSize(c))
    else if !IsMSBSerialize(c) then [if c.f.IsOdd(Q.y) then 3 else 2] + LE(Q.x, n)
    else
      var xb := LE(Q.x, n);
      xb[..n - 1] + [if c.f.IsOdd(Q.y) then ByteOr(xb[n - 1], 0x80) else xb[n - 1]]
  }

  /** The order check of `load`'s `verifyOrder` label. */
  function CheckOrder(c: Curve, P: Point): Option<Point>
  {
    if c.verifyOrder && !c.IsValidOrder(P) then None else Some(P)
  }

  /** `setArray` of x, then `getYfromX` with the given parity, then the order check. */
  function DecodeX(c: Curve, xb: seq<Byte>, isYodd: bool): Option<Point>
    requires c.Valid()
  {
    var x := FromLE(xb);
    if x >= c.f.p then None
    else match Ec.GetYfromX(c, x, isYodd)
      case None => None
      case Some(y) => CheckOrder(c, Point(x, y, 1))
  }

  /**
   * The decoding of `load` (IoSerialize) with the ETH infinity check
   * inspecting bytes 1..infEnd - 1: read n + adj bytes, fail when fewer are
   * there, then decode by layout.
   */
  function DecodeWith(c: Curve, eth: bool, data: seq<Byte>, infEnd: nat): Option<Point>
    requires c.Valid()
  {
    var n1 := SerializedByteSize(c);
    if |data| < n1 then None
    else if eth then DecodeEth(c, data[..n1], infEnd)
    else DecodeCompressed(c, data[..n1])
  }

  /** The ETH branch of `load` on the n + adj bytes read. */
  function DecodeEth(c: Curve, buf: seq<Byte>, infEnd: nat): Option<Point>
    requires c.Valid() && |buf| == SerializedByteSize(c)
  {
    var n := ByteSize(c.f);
    var b0 := buf[0];
    if !HasFlag(b0, CFlag) then None
    else if HasFlag(b0, BFlag) then
      if b0 == CBFlags && ZeroRange(buf, 1, if infEnd <= |buf| then infEnd else |buf|)
      then Some(Clear(c)) else None
    else
      var x := FromLE(Reverse([b0 % 0x20] + buf[1..n]));
      if x >= c.f.p then None
      else match c.f.SquareRoot(Ec.GetWeierstrass(c, x))
        case None => None
        case Some(y0) => CheckOrder(c, Point(x, EthY(c.f, y0, HasFlag(b0, AFlag)), 1))
  }

  /** The root whose sign flag is a: y0, or its negation when the flags differ. */
  function EthY(f: Field, y0: int, a: bool): int
    requires f.p > 0
  {
    if IsNegative(f, y0) != a then f.Neg(y0) else y0
  }

  /** The non-ETH branch of `load` on the n + adj bytes read. */
  function DecodeCompressed(c: Curve, buf: seq<Byte>): Option<Point>
    requires c.Valid() && |buf| == SerializedByteSize(c)
  {
    var n := ByteSize(c.f);
    if ZeroRange(buf, 0, |buf|) then Some(Clear(c))
    else if !IsMSBSerialize(c) then
      if buf[0] != 2 && buf[0] != 3 then None else DecodeX(c, buf[1..], buf[0] == 3)
    else DecodeX(c, buf[..n - 1] + [buf[n - 1] % 0x80], buf[n - 1] / 0x80 != 0)
  }

  /** `load` as written: the ETH infinity check stops before byte n - 1. */
  function DeserializeAsWritten(c: Curve, eth: bool, data: seq<Byte>): Option<Point>
    requires c.Valid()
  {
    DecodeWith(c, eth, data, ByteSize(c.f) - 1)
  }

  /** `load` with the ETH infinity check over all of bytes 1..n - 1, as `save` writes them. */
  function Deserialize(c: Curve, eth: bool, data: seq<Byte>): (r: Option<Point>)
    requires c.Valid()
    ensures r.Some? ==> c.Has(r.value) && IsNormalized(r.value)
    ensures r.Some? && !IsZero(r.value) ==> c.OnCurve(r.value.x, r.value.y)
    ensures r.Some? && !IsZero(r.value) && c.verifyOrder ==> c.IsValidOrder(r.value)
    // fewer than n + adj bytes fail
    ensures |data| < SerializedByteSize(c) ==> r.None?
    // n + adj zero bytes are the identity
    ensures !eth && |data| >= SerializedByteSize(c) && ZeroRange(data, 0, SerializedByteSize(c)) ==>
      r == Some(Clear(c))
    // a lead byte other than 2 or 3 fails
    ensures !eth && !IsMSBSerialize(c) && |data| >= SerializedByteSize(c) ==>
      (!ZeroRange(data, 0, SerializedByteSize(c)) && data[0] != 2 && data[0] != 3 ==> r.None?)
    // ETH: no 0x80 flag fails, and the infinity flag needs the lead byte 0xC0
    ensures eth && |data| >= SerializedByteSize(c) && !HasFlag(data[0], CFlag) ==> r.None?
    ensures eth && |data| >= SerializedByteSize(c) && HasFlag(data[0], BFlag) && data[0] != CBFlags ==> r.None?
  {
    var r := DecodeWith(c, eth, data, ByteSize(c.f));
    DecodeProps(c, eth, data, ByteSize(c.f));
    r
  }

  /** A decoded point is the identity or an affine point on the curve that passes the order check. */
  lemma DecodeProps(c: Curve, eth: bool, data: seq<Byte>, infEnd: nat)
    requires c.Valid()
    ensures var r := DecodeWith(c, eth, data, infEnd);
      && (r.Some? ==> c.Has(r.value) && IsNormalized(r.value))
      && (r.Some? && !IsZero(r.value) ==> c.OnCurve(r.value.x, r.value.y))
      && (r.Some? && !IsZero(r.value) && c.verifyOrder ==> c.IsValidOrder(r.value))
  {
    var n := ByteSize(c.f);
    var n1 := SerializedByteSize(c);
    if |data| >= n1 {
      var buf := data[..n1];
      if eth {
        var b0 := buf[0];
        if HasFlag(b0, CFlag) && !HasFlag(b0, BFlag) {
          var x := FromLE(Reverse([b0 % 0x20] + buf[1..n]));
          if x < c.f.p {
            match c.f.SquareRoot(Ec.GetWeierstrass(c, x))
            case None =>
            case Some(y0) =>
              NegCanonical(c.f, y0);
              SqrNeg(c.f, y0);
          }
        }
      } else if !ZeroRange(buf, 0, n1) {
        if !IsMSBSerialize(c) {
          if buf[0] == 2 || buf[0] == 3 {
            DecodeXProps(c, buf[1..], buf[0] == 3);
          }
        } else {
          DecodeXProps(c, buf[..n - 1] + [buf[n - 1] % 0x80], buf[n - 1] / 0x80 != 0);
        }
      }
    }
  }

  lemma DecodeXProps(c: Curve, xb: seq<Byte>, isYodd: bool)
    requires c.Valid()
    ensures var r := DecodeX(c, xb, isYodd);
      && (r.Some? ==> c.Has(r.value) && r.value.z == 1 && c.OnCurve(r.value.x, r.value.y))
      && (r.Some? && c.verifyOrder ==> c.IsValidOrder(r.value))
  {
    var x := FromLE(xb);
    if x < c.f.p {
      Ec.GetYfromXSpec(c, x, isYodd);
    }
  }

  // ---------------------------------------------------------------------------
  // Layout facts
  // ---------------------------------------------------------------------------

  lemma {:induction false} BitLenBound(x: nat)
    ensures x < Pow2(BitLen(x))
  {
    if x > 0 {
      BitLenBound(x / 2);
    }
  }

  /**
   * In the compact layout, bit 7 of the last little-endian byte of a field
   * element is 0: the bit size is not a multiple of 8.
   */
  lemma MsbFree(c: Curve, x: int)
    requires c.Valid() && IsMSBSerialize(c) && c.f.In(x)
    ensures LE(x, ByteSize(c.f))[ByteSize(c.f) - 1] < 0x80
  {
    var n := ByteSize(c.f);
    var L := BitLen(c.f.p);
    assert L <= 8 * (n - 1) + 7 by {
      assert L == 8 * (L / 8) + L % 8;
      assert n == L / 8 + 1;
    }
    BitLenBound(c.f.p);
    Pow2Mono(L, 8 * (n - 1) + 7);
    TopBound(x, n, 7);
    assert Pow2(7) == 0x80;
  }

  /** With the ETH flags free, the first big-endian byte of a field element is below 0x20. */
  lemma EthTopFree(f: Field, x: int)
    requires f.Valid() && EthFlagsFree(f) && f.In(x)
    ensures LE(x, ByteSize(f))[ByteSize(f) - 1] < 0x20
  {
    var n := ByteSize(f);
    var L := BitLen(f.p);
    assert L <= 8 * (n - 1) + 5 by {
      assert L == 8 * (L / 8) + L % 8;
      assert n == L / 8 + 1;
    }
    BitLenBound(f.p);
    Pow2Mono(L, 8 * (n - 1) + 5);
    TopBound(x, n, 5);
    assert Pow2(5) == 0x20;
  }

  /** `get_a_flag` flips under negation of a nonzero element. */
  lemma NegFlips(f: Field, y: int)
    requires f.Valid() && f.In(y) && y != 0
    ensures IsNegative(f, f.Neg(y)) == !IsNegative(f, y)
  {
    OddPrime(f);
    NegParity(f, y);
  }

  /**
   * The recovered y: a root of x^3 + a x + b with y's parity (getYfromX) is y
   * itself when (x, y) is on the curve.
   */
  lemma DecodeXRecovers(c: Curve, Q: Point, xb: seq<Byte>)
    requires c.Valid() && c.Has(Q) && Q.z == 1 && c.OnCurve(Q.x, Q.y)
    requires c.verifyOrder ==> c.IsValidOrder(Q)
    requires FromLE(xb) == Q.x
    ensures DecodeX(c, xb, c.f.IsOdd(Q.y)) == Some(Q)
  {
    var f := c.f;
    Ec.GetYfromXSpec(c, Q.x, f.IsOdd(Q.y));
    var r := Ec.GetYfromX(c, Q.x, f.IsOdd(Q.y));
    assert r.Some?;
    SquareRoots(f, r.value, Q.y);
    if Q.y == 0 {
      NegZero(f);
    } else {
      NegParity(f, Q.y);
    }
  }

  /** The ETH choice of root: the square root, negated to match the sign flag, is y itself. */
  lemma EthRecovers(c: Curve, Q: Point)
    requires c.Valid() && c.Has(Q) && c.OnCurve(Q.x, Q.y)
    ensures var r := c.f.SquareRoot(Ec.GetWeierstrass(c, Q.x));
      r.Some? && EthY(c.f, r.value, IsNegative(c.f, Q.y)) == Q.y
  {
    var f := c.f;
    var r := f.SquareRoot(Ec.GetWeierstrass(c, Q.x));
    assert r.Some?;
    SquareRoots(f, r.value, Q.y);
    NegCanonical(f, Q.y);
    if Q.y == 0 {
      NegZero(f);
    } else {
      NegFlips(f, Q.y);
    }
  }

  /** A field element fits in its n bytes. */
  lemma FieldFits(f: Field, x: int)
    requires f.Valid() && f.In(x)
    ensures x < Pow2(8 * ByteSize(f))
  {
    var L := BitLen(f.p);
    assert L <= 8 * ByteSize(f);
    BitLenBound(f.p);
    Pow2Mono(L, 8 * ByteSize(f));
  }

  /**
   * A finite point whose compact encoding is all zero bytes, the encoding of
   * the identity: x == 0 and y even, a point with y^2 == b.
   */
  ghost predicate Ambiguous(c: Curve, eth: bool, P: Point)
    requires c.f.Valid() && c.Has(P)
  {
    && !eth && IsMSBSerialize(c) && !IsZero(P)
    && Ec.NormalForm(c, P).x == 0 && !c.f.IsOdd(Ec.NormalForm(c, P).y)
  }

  /**
   * The compact layout: bit 7 of byte n - 1 carries y's parity, the rest is x;
   * the bytes are all zero only for x == 0 and y even.
   */
  lemma CompactLayout(c: Curve, P: Point)
    requires c.Valid() && c.Has(P) && IsMSBSerialize(c) && !IsZero(P)
    ensures var Q, r, n := Ec.NormalForm(c, P), Serialize(c, false, P), ByteSize(c.f);
      && ((r[n - 1] / 0x80 != 0) <==> c.f.IsOdd(Q.y))
      && r[..n - 1] + [r[n - 1] % 0x80] == LE(Q.x, n)
      && (ZeroRange(r, 0, n) <==> Q.x == 0 && !c.f.IsOdd(Q.y))
  {
    CompactBits(c, P);
    var Q, r, n := Ec.NormalForm(c, P), Serialize(c, false, P), ByteSize(c.f);
    var xb := LE(Q.x, n);
    FieldFits(c.f, Q.x);
    FromLEofLE(Q.x, n);
    if ZeroRange(r, 0, n) {
      assert r == xb;
      FromLEZeros(xb);
    }
    if Q.x == 0 && !c.f.IsOdd(Q.y) {
      LEZero(n);
    }
  }

  /** The compact encoding of a finite point: x's bytes with y's parity in bit 7 of the last. */
  lemma CompactShape(c: Curve, P: Point)
    requires c.Valid() && c.Has(P) && IsMSBSerialize(c) && !IsZero(P)
    ensures var Q, n := Ec.NormalForm(c, P), ByteSize(c.f);
      var xb := LE(Q.x, n);
      && c.f.In(Q.x) && n >= 1
      && Serialize(c, false, P) == xb[..n - 1] + [if c.f.IsOdd(Q.y) then ByteOr(xb[n - 1], 0x80) else xb[n - 1]]
  {
    Ec.NormalFormProps(c, P);
    Ec.MeaningZero(c, P);
    Ec.MeaningZero(c, Ec.NormalForm(c, P));
  }

  /** Bit 7 of the last compact byte is y's parity, and clearing it leaves x's bytes. */
  lemma CompactBits(c: Curve, P: Point)
    requires c.Valid() && c.Has(P) && IsMSBSerialize(c) && !IsZero(P)
    ensures var Q, r, n := Ec.NormalForm(c, P), Serialize(c, false, P), ByteSize(c.f);
      && ((r[n - 1] / 0x80 != 0) <==> c.f.IsOdd(Q.y))
      && r[..n - 1] + [r[n - 1] % 0x80] == LE(Q.x, n)
  {
    CompactShape(c, P);
    var Q, n := Ec.NormalForm(c, P), ByteSize(c.f);
    MsbFree(c, Q.x);
    ParityByte(LE(Q.x, n), c.f.IsOdd(Q.y));
  }

  /** Setting bit 7 of a last byte below 0x80 records the flag and can be undone. */
  lemma ParityByte(xb: seq<Byte>, odd: bool)
    requires |xb| >= 1 && xb[|xb| - 1] < 0x80
    ensures var n := |xb|;
      var r := xb[..n - 1] + [if odd then ByteOr(xb[n - 1], 0x80) else xb[n - 1]];
      && ((r[n - 1] / 0x80 != 0) <==> odd)
      && r[..n - 1] + [r[n - 1] % 0x80] == xb
  {
    var n := |xb|;
    if odd {
      assert Pow2(7) == 0x80;
      OrHigh(xb[n - 1], 0x80, 7, 1);
    }
    assert xb == xb[..n - 1] + [xb[n - 1]];
  }

  lemma {:induction false} LEZero(n: nat)
    ensures ZeroRange(LE(0, n), 0, n)
  {
    if n > 0 {
      LEZero(n - 1);
    }
  }

  /** The first ETH byte: a value below 0x20 under the flags 0x80 and, for a negative y, 0x20. */
  lemma FlagBits(top: int, cba: int)
    requires 0 <= top < 0x20 && (cba == CFlag || cba == CAFlags)
    ensures 0 <= top + cba < 256
    ensures HasFlag(top + cba, CFlag) && !HasFlag(top + cba, BFlag)
    ensures HasFlag(top + cba, AFlag) <==> cba == CAFlags
    ensures (top + cba) % 0x20 == top
  {
  }

  /**
   * The ETH layout: flag 0x80 set, 0x40 clear, 0x20 the sign flag of y, and x
   * big-endian under them.
   */
  lemma EthLayout(c: Curve, P: Point)
    requires c.Valid() && c.Has(P) && IsMSBSerialize(c) && EthFlagsFree(c.f) && !IsZero(P)
    ensures var Q, r, n := Ec.NormalForm(c, P), Serialize(c, true, P), ByteSize(c.f);
      && HasFlag(r[0], CFlag) && !HasFlag(r[0], BFlag)
      && (HasFlag(r[0], AFlag) <==> IsNegative(c.f, Q.y))
      && Reverse([r[0] % 0x20] + r[1..n]) == LE(Q.x, n)
  {
    EthShape(c, P);
    var Q, n := Ec.NormalForm(c, P), ByteSize(c.f);
    EthTopFree(c.f, Q.x);
    var xb := Reverse(LE(Q.x, n));
    assert xb[0] == LE(Q.x, n)[n - 1];
    FlagByte(xb, IsNegative(c.f, Q.y));
    ReverseReverse(LE(Q.x, n));
  }

  /** The ETH encoding of a finite point: x big-endian with the flags ORed into the first byte. */
  lemma EthShape(c: Curve, P: Point)
    requires c.Valid() && c.Has(P) && IsMSBSerialize(c) && !IsZero(P)
    ensures var Q, n := Ec.NormalForm(c, P), ByteSize(c.f);
      var xb := Reverse(LE(Q.x, n));
      && c.f.In(Q.x) && n >= 1
      && Serialize(c, true, P) == [ByteOr(xb[0], if IsNegative(c.f, Q.y) then CAFlags else CFlag)] + xb[1..]
  {
    Ec.NormalFormProps(c, P);
    Ec.MeaningZero(c, P);
    Ec.MeaningZero(c, Ec.NormalForm(c, P));
  }

  /** ORing the flags into a first byte below 0x20 sets 0x80, leaves 0x40 clear, records the sign and can be undone. */
  lemma FlagByte(xb: seq<Byte>, neg: bool)
    requires |xb| >= 1 && xb[0] < 0x20
    ensures var r := [ByteOr(xb[0], if neg then CAFlags else CFlag)] + xb[1..];
      && HasFlag(r[0], CFlag) && !HasFlag(r[0], BFlag)
      && (HasFlag(r[0], AFlag) <==> neg)
      && [r[0] % 0x20] + r[1..|xb|] == xb
  {
    var cba := if neg then CAFlags else CFlag;
    assert Pow2(5) == 0x20;
    if neg {
      OrHigh(xb[0], CAFlags, 5, 5);
    } else {
      OrHigh(xb[0], CFlag, 5, 4);
    }
    FlagBits(xb[0], cba);
  }

  /**
   * The round trip: what `save` writes for a valid point, followed by any
   * bytes, is read back by `load` as the normalized point (the cleared
   * identity for the identity), which stands for the same affine point. The
   * compact layout needs the point not to be one with x == 0 and y even.
   */
  lemma RoundTrip(c: Curve, eth: bool, P: Point, rest: seq<Byte>)
    requires c.Valid() && c.Has(P) && Ec.OnCurveA(c, Ec.Meaning(c, P))
    requires c.mode == Affine ==> IsNormalized(P)
    requires !IsZero(P) && c.verifyOrder ==> c.IsValidOrder(Ec.NormalForm(c, P))
    requires eth ==> IsMSBSerialize(c) && EthFlagsFree(c.f)
    requires !Ambiguous(c, eth, P)
    ensures var r := Deserialize(c, eth, Serialize(c, eth, P) + rest);
      && r == Some(if IsZero(P) then Clear(c) else Ec.NormalForm(c, P))
      && Ec.Meaning(c, r.value) == Ec.Meaning(c, P)
  {
    var s := Serialize(c, eth, P);
    var n1 := SerializedByteSize(c);
    assert (s + rest)[..n1] == s;
    Ec.NormalFormProps(c, P);
    Ec.MeaningZero(c, P);
    Ec.MeaningZero(c, Clear(c));
    if IsZero(P) {
      assert HasFlag(CBFlags, CFlag) && HasFlag(CBFlags, BFlag);
    } else {
      Ec.MeaningZero(c, Ec.NormalForm(c, P));
      Ec.NormalFormCoords(c, P);
      RoundTripFinite(c, eth, P);
    }
  }

  /** The round trip of a finite point, on the n + adj bytes `save` writes. */
  lemma RoundTripFinite(c: Curve, eth: bool, P: Point)
    requires c.Valid() && c.Has(P) && !IsZero(P)
    requires var Q := Ec.NormalForm(c, P);
      c.Has(Q) && Q.z == 1 && c.OnCurve(Q.x, Q.y) && (c.verifyOrder ==> c.IsValidOrder(Q))
    requires eth ==> IsMSBSerialize(c) && EthFlagsFree(c.f)
    requires !Ambiguous(c, eth, P)
    ensures var s := Serialize(c, eth, P);
      (if eth then DecodeEth(c, s, ByteSize(c.f)) else DecodeCompressed(c, s)) == Some(Ec.NormalForm(c, P))
  {
    if eth {
      RoundTripEth(c, P);
    } else if !IsMSBSerialize(c) {
      RoundTripLead(c, P);
    } else {
      RoundTripCompact(c, P);
    }
  }

  lemma RoundTripEth(c: Curve, P: Point)
    requires c.Valid() && c.Has(P) && !IsZero(P) && IsMSBSerialize(c) && EthFlagsFree(c.f)
    requires var Q := Ec.NormalForm(c, P);
      c.Has(Q) && Q.z == 1 && c.OnCurve(Q.x, Q.y) && (c.verifyOrder ==> c.IsValidOrder(Q))
    ensures DecodeEth(c, Serialize(c, true, P), ByteSize(c.f)) == Some(Ec.NormalForm(c, P))
  {
    var Q := Ec.NormalForm(c, P);
    FieldFits(c.f, Q.x);
    FromLEofLE(Q.x, ByteSize(c.f));
    EthLayout(c, P);
    EthRecovers(c, Q);
  }

  lemma RoundTripLead(c: Curve, P: Point)
    requires c.Valid() && c.Has(P) && !IsZero(P) && !IsMSBSerialize(c)
    requires var Q := Ec.NormalForm(c, P);
      c.Has(Q) && Q.z == 1 && c.OnCurve(Q.x, Q.y) && (c.verifyOrder ==> c.IsValidOrder(Q))
    ensures DecodeCompressed(c, Serialize(c, false, P)) == Some(Ec.NormalForm(c, P))
  {
    var s := Serialize(c, false, P);
    var Q := Ec.NormalForm(c, P);
    FieldFits(c.f, Q.x);
    FromLEofLE(Q.x, ByteSize(c.f));
    LeadLayout(c, P);
    assert s[0] != 0;
    DecodeXRecovers(c, Q, s[1..]);
  }

  /** The n + 1 byte layout: the lead byte is 3 for an odd y and 2 for an even one, then x. */
  lemma LeadLayout(c: Curve, P: Point)
    requires c.Valid() && c.Has(P) && !IsZero(P) && !IsMSBSerialize(c)
    ensures var Q, s := Ec.NormalForm(c, P), Serialize(c, false, P);
      && s[0] == (if c.f.IsOdd(Q.y) then 3 else 2)
      && s[1..] == LE(Q.x, ByteSize(c.f))
  {
    Ec.NormalFormProps(c, P);
    Ec.MeaningZero(c, P);
    Ec.MeaningZero(c, Ec.NormalForm(c, P));
  }

  lemma RoundTripCompact(c: Curve, P: Point)
    requires c.Valid() && c.Has(P) && !IsZero(P) && IsMSBSerialize(c) && !Ambiguous(c, false, P)
    requires var Q := Ec.NormalForm(c, P);
      c.Has(Q) && Q.z == 1 && c.OnCurve(Q.x, Q.y) && (c.verifyOrder ==> c.IsValidOrder(Q))
    ensures DecodeCompressed(c, Serialize(c, false, P)) == Some(Ec.NormalForm(c, P))
  {
    var s := Serialize(c, false, P);
    var n := ByteSize(c.f);
    var Q := Ec.NormalForm(c, P);
    FieldFits(c.f, Q.x);
    FromLEofLE(Q.x, n);
    CompactLayout(c, P);
    DecodeXRecovers(c, Q, s[..n - 1] + [s[n - 1] % 0x80]);
  }

  /**
   * The compact layout cannot tell the identity from a finite point with
   * x == 0 and y even: both are all zero bytes, read back as the identity.
   */
  lemma AmbiguousCollision(c: Curve, P: Point)
    requires c.Valid() && c.Has(P) && Ambiguous(c, false, P)
    ensures Serialize(c, false, P) == Serialize(c, false, Clear(c))
    ensures Deserialize(c, false, Serialize(c, false, P)) == Some(Clear(c))
  {
    CompactLayout(c, P);
    Ec.NormalFormProps(c, Clear(c));
  }

  // ---------------------------------------------------------------------------
  // The ETH infinity check
  // ---------------------------------------------------------------------------

  /**
   * As written, the ETH infinity check skips the last byte: a buffer that is
   * not the encoding of the identity is read as the identity.
   */
  lemma EthInfinityLoophole(c: Curve)
    requires c.Valid() && IsMSBSerialize(c) && ByteSize(c.f) >= 2
    ensures var data := [CBFlags] + Zeros(ByteSize(c.f) - 2) + [1];
      && DeserializeAsWritten(c, true, data) == Some(Clear(c))
      && data != Serialize(c, true, Clear(c))
      && Deserialize(c, true, data) == None
  {
    var n := ByteSize(c.f);
    var data := [CBFlags] + Zeros(n - 2) + [1];
    assert data[..n] == data;
    EthClear(c);
    assert data[n - 1] != Serialize(c, true, Clear(c))[n - 1];
    EthInfinityFlag(c, data, n - 1);
    EthInfinityFlag(c, data, n);
    assert ZeroRange(data, 1, n - 1);
    assert !ZeroRange(data, 1, n);
  }

  /** The ETH encoding of the identity: 0xC0 then zeros. */
  lemma EthClear(c: Curve)
    requires c.Valid() && IsMSBSerialize(c)
    ensures Serialize(c, true, Clear(c)) == [CBFlags] + Zeros(ByteSize(c.f) - 1)
  {
    Ec.NormalFormProps(c, Clear(c));
  }

  /** With lead byte 0xC0 the ETH branch reads the identity exactly when bytes 1..infEnd - 1 are zero. */
  lemma EthInfinityFlag(c: Curve, data: seq<Byte>, infEnd: nat)
    requires c.Valid() && IsMSBSerialize(c)
    requires |data| == ByteSize(c.f) && data[0] == CBFlags && infEnd <= |data|
    ensures DecodeWith(c, true, data, infEnd) == if ZeroRange(data, 1, infEnd) then Some(Clear(c)) else None
  {
    assert data[..|data|] == data;
    assert HasFlag(CBFlags, CFlag) && HasFlag(CBFlags, BFlag);
  }

  /**
   * With the check over all bytes, a buffer flagged as infinity is accepted
   * exactly when it is the encoding of the identity, and then it is the
   * identity.
   */
  lemma EthInfinityCanonical(c: Curve, data: seq<Byte>)
    requires c.Valid() && IsMSBSerialize(c)
    requires |data| >= ByteSize(c.f) && HasFlag(data[0], BFlag)
    ensures var r := Deserialize(c, true, data);
      && (r.Some? <==> data[..ByteSize(c.f)] == Serialize(c, true, Clear(c)))
      && (r.Some? ==> r.value == Clear(c))
  {
    var n := ByteSize(c.f);
    EthClear(c);
    var s := Serialize(c, true, Clear(c));
    assert HasFlag(CBFlags, CFlag);
    if data[..n] == s {
      assert data[..n][1..] == Zeros(n - 1);
    }
    if data[0] == CBFlags && ZeroRange(data, 1, n) {
      assert data[..n] == s;
    }
  }

  // ---------------------------------------------------------------------------
  // save and load on the buffer
  // ---------------------------------------------------------------------------

  /**
   * `save` with IoSerialize: normalize a copy of the point, fill the buffer
   * for the layout, then patch in the flags, the lead byte or the parity bit.
   */
  method Save(c: Curve, eth: bool, P: Point) returns (buf: array<Byte>)
    requires c.Valid() && c.Has(P) && (eth ==> IsMSBSerialize(c))
    ensures buf[..] == Serialize(c, eth, P)
  {
    var Q := Ec.Normalize(c, P);
    Ec.NormalFormProps(c, P);
    Ec.MeaningZero(c, P);
    Ec.MeaningZero(c, Q);
    var n := ByteSize(c.f);
    var adj := if IsMSBSerialize(c) then 0 else 1;
    buf := new Byte[n + adj];
    if eth {
      PutEth(buf, Q.x, n, IsZero(Q), IsNegative(c.f, Q.y));
    } else {
      PutCompressed(buf, adj, Q.x, n, IsZero(P), c.f.IsOdd(Q.y));
    }
  }

  /** The ETH branch of `save`: 0xC0 and zeros for the identity, else x big-endian under the flags. */
  method PutEth(buf: array<Byte>, x: nat, n: nat, zero: bool, neg: bool)
    requires buf.Length == n >= 1
    modifies buf
    ensures buf[..] == if zero then [CBFlags] + Zeros(n - 1)
      else [ByteOr(Reverse(LE(x, n))[0], if neg then CAFlags else CFlag)] + Reverse(LE(x, n))[1..]
  {
    if zero {
      buf[0] := CBFlags;
      FillZero(buf, 1, n);
      assert buf[..] == [CBFlags] + Zeros(n - 1);
    } else {
      WriteBE(buf, x, n);
      var cba := CFlag;
      if neg {
        cba := CAFlags;
      }
      buf[0] := ByteOr(buf[0], cba);
      assert buf[..] == [buf[0]] + Reverse(LE(x, n))[1..];
    }
  }

  /**
   * The other branches of `save`: zeros for the identity, else x
   * little-endian after the lead byte 2 or 3 (adj == 1) or with y's parity
   * ORed into bit 7 of the last byte (adj == 0).
   */
  method PutCompressed(buf: array<Byte>, adj: nat, x: nat, n: nat, zero: bool, odd: bool)
    requires buf.Length == n + adj && adj <= 1 && n >= 1
    modifies buf
    ensures buf[..] == if zero then Zeros(n + adj)
      else if adj == 1 then [if odd then 3 else 2] + LE(x, n)
      else LE(x, n)[..n - 1] + [if odd then ByteOr(LE(x, n)[n - 1], 0x80) else LE(x, n)[n - 1]]
  {
    if zero {
      FillZero(buf, 0, n + adj);
    } else {
      WriteLE(buf, adj, x, n);
      if adj == 1 {
        buf[0] := if odd then 3 else 2;
        assert buf[..] == [buf[0]] + LE(x, n);
      } else if odd {
        buf[n - 1] := ByteOr(buf[n - 1], 0x80);
        assert buf[..] == LE(x, n)[..n - 1] + [buf[n - 1]];
      } else {
        assert buf[..] == LE(x, n)[..n - 1] + [buf[n - 1]];
      }
    }
  }

  /**
   * `load` with IoSerialize from the bytes `data` of the stream, on the point
   * P0: z is set to 1 first; reading fewer than n + adj bytes fails; the
   * layout's branch decodes the rest, with the ETH infinity check
   * corrected to cover bytes 1..n-1 (see `EthInfinityLoophole`). A failed
   * load leaves z == 1 and whatever x and y it reached.
   */
  method Load(c: Curve, eth: bool, P0: Point, data: seq<Byte>) returns (P: Point, ok: bool)
    requires c.Valid()
    ensures ok <==> Deserialize(c, eth, data).Some?
    ensures ok ==> P == Deserialize(c, eth, data).value
    ensures !ok ==> P.z == 1
  {
    P := P0.(z := 1);
    var n := ByteSize(c.f);
    var adj := if IsMSBSerialize(c) then 0 else 1;
    var n1 := n + adj;
    if |data| < n1 {
      return P, false;
    }
    var buf := new Byte[n1](i requires 0 <= i < n1 => data[i]);
    assert buf[..] == data[..n1];
    if eth {
      P, ok := LoadEth(c, P, buf);
    } else {
      P, ok := LoadCompressed(c, P, buf);
    }
  }

  /** The ETH branch of `load` on the buffer read. */
  method LoadEth(c: Curve, P0: Point, buf: array<Byte>) returns (P: Point, ok: bool)
    requires c.Valid() && buf.Length == SerializedByteSize(c) && P0.z == 1
    modifies buf
    ensures ok <==> DecodeEth(c, old(buf[..]), ByteSize(c.f)).Some?
    ensures ok ==> P == DecodeEth(c, old(buf[..]), ByteSize(c.f)).value
    ensures !ok ==> P.z == 1
  {
    ghost var b := buf[..];
    var n := ByteSize(c.f);
    P, ok := P0, false;
    if !HasFlag(buf[0], CFlag) {
      return;
    }
    if HasFlag(buf[0], BFlag) {
      if buf[0] != CBFlags {
        return;
      }
      var i := 1;
      while i < n
        invariant 1 <= i <= n
        invariant ZeroRange(b, 1, i)
      {
        if buf[i] != 0 {
          return;
        }
        i := i + 1;
      }
      return Clear(c), true;
    }
    var a := HasFlag(buf[0], AFlag);
    buf[0] := buf[0] % 0x20;
    assert buf[..n] == [b[0] % 0x20] + b[1..n];
    ByteSwap(buf, n);
    var x := FromLE(buf[..n]);
    if x >= c.f.p {
      return;
    }
    P := P.(x := x);
    var w := Ec.GetWeierstrass(c, x);
    P := P.(y := w);
    var r := c.f.SquareRoot(w);
    if r.None? {
      return;
    }
    var y := r.value;
    if IsNegative(c.f, y) != a {
      y := c.f.Neg(y);
    }
    P := P.(y := y);
    ok := !(c.verifyOrder && !c.IsValidOrder(P));
  }

  /** The non-ETH branch of `load` on the buffer read. */
  method LoadCompressed(c: Curve, P0: Point, buf: array<Byte>) returns (P: Point, ok: bool)
    requires c.Valid() && buf.Length == SerializedByteSize(c) && P0.z == 1
    modifies buf
    ensures ok <==> DecodeCompressed(c, old(buf[..])).Some?
    ensures ok ==> P == DecodeCompressed(c, old(buf[..])).value
    ensures !ok ==> P.z == 1
  {
    ghost var b := buf[..];
    var n := ByteSize(c.f);
    var adj := if IsMSBSerialize(c) then 0 else 1;
    P, ok := P0, false;
    var zero := IsZeroN(buf, n + adj);
    if zero {
      return Clear(c), true;
    }
    var isYodd;
    if adj == 1 {
      var t := buf[0];
      if t != 2 && t != 3 {
        return;
      }
      isYodd := t == 3;
      assert buf[adj..adj + n] == b[1..];
    } else {
      isYodd := buf[n - 1] / 0x80 != 0;
      buf[n - 1] := buf[n - 1] % 0x80;
      assert buf[adj..adj + n] == b[..n - 1] + [b[n - 1] % 0x80];
    }
    var x := FromLE(buf[adj..adj + n]);
    if x >= c.f.p {
      return;
    }
    P := P.(x := x);
    var y := Ec.GetYfromX(c, x, isYodd);
    if y.None? {
      return;
    }
    P := P.(y := y.value);
    ok := !(c.verifyOrder && !c.IsValidOrder(P));
  }
}
