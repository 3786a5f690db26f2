# A verified model of mcl's elliptic-curve class `EcT`

This project models the group-arithmetic core of `mcl::EcT` (include/mcl/ec.hpp).
`EcT` is a point on a short Weierstrass curve y^2 = x^3 + a x + b over a prime
field F_p. Points are kept in one of three coordinate systems (Jacobi, Proj or
Affine), chosen when the curve is initialised. The project proves properties of
that model in Dafny.

The model covers:

- The curve configuration: `init` and `setOrder`, with the classification of
  a (Zero / Minus3 / GenericA) and of b (Plus1 / Plus4 / GenericB).
- For each of the three coordinate modes: doubling, addition, negation and
  subtraction, `isValid`, `operator==`, `isEqualOrMinus`, normalization and
  `clear`. It also covers the `ProjToJacobi` / `JacobiToProj` conversions.
- Batch normalization `normalizeVecT` / `normalizeVec`. This walks 256-point
  chunks and writes into an output array that may be the input array itself.
- Scalar multiplication:
  - `mulSmallInt` (fixed chains for 0..16);
  - `addTbl`;
  - `mulArray` (window choice, odd-multiple table, signed-digit loop);
  - `mulArrayCT` (16-entry table, nibble loop);
  - `mulVecN` and `mulVec`.
- The binary point codec (`save` / `load` with IoSerialize). This includes the
  compressed n-byte and (n+1)-byte layouts, the ETH flag layout,
  `getWeierstrass`, `getYfromX`, `set` and `compareFunc`.

How the model is built:

- **Values.** A point is the value `Curve.Point(x, y, z)`, and the curve
  configuration is the immutable record `Curve.Curve`. `EcT` is copied by value
  throughout the source.
- **Field.** A field element is its canonical integer 0 <= x < p. `Fp.Field`
  gives add, sub, mul, neg, inverse and square root, and each is proved to have
  the property the curve code relies on.
- **Meaning.** Every coordinate mode has a ghost `Meaning`, the affine point a
  triple stands for: (X/Z^2, Y/Z^3) in Jacobi, (X/Z, Y/Z) in Proj, and (x, y)
  in Affine. Equality, normalization, validity and the conversions are stated
  against it.
- **Formulas.** Each doubling and addition formula is a method with the
  source's temporaries and branches (specialA, specialB, z == 1). Each is
  proved equal to a textbook reference formula over the integers mod p
  (`DblRef`, `AddRef`). The identity and coincident-input cases are proved
  about those reference formulas.
- **Scalar multiplication.** Every multiplication method returns, next to the
  point, a ghost `Chain.Term`: the tree of doublings, additions and negations
  that produced it. The point is the evaluation of the tree by the curve's own
  formulas, and the tree's coefficient on each base point is the scalar. So
  "z = y x" is proved as "z is the result of a chain of dbl/add steps whose
  coefficient is y", with no appeal to the group law.
- **Bytes.** Buffers are `array<Byte>`, and what is written or read is
  specified by functions on `seq<Byte>` (`Codec.Serialize`,
  `Codec.Deserialize`). Their round trip is proved.

## Model

| member | source | states |
|---|---|---|
| Curve.Init | include/mcl/ec.hpp:1070-1099 | The new configuration keeps a, b and the mode; b3 = 3b; specialA is Zero exactly when a = 0 and Minus3 exactly when a = -3 != 0; specialB is Plus1 exactly when b = 1 and Plus4 exactly when b = 4 != 1; the order check is off and the stored order is 0 |
| Curve.SetOrder | include/mcl/ec.hpp:1105-1114 | The order check is on exactly when the new order is nonzero; a zero order leaves the stored order as it was; no other setting changes; the configuration invariant is kept |
| Curve.Neg | include/mcl/ec.hpp:1227-1236 | neg keeps a point a triple of field elements, and the result is the identity exactly when the input is |
| Curve.Mul4 | include/mcl/ec.hpp:86-92 | The two doublings of mul4 compute 4x mod p |
| Fp.Field.Inv | include/mcl/ec.hpp:205-211 | The inverse the normalizations use is a field element with x * inv(x) = 1 mod p for every nonzero x |
| Fp.Field.SquareRoot | include/mcl/ec.hpp:1596-1606 | A square root that succeeds squares to v; when it fails, no field element squares to v |
| Jacobi.NormalForm | include/mcl/ec.hpp:205-211 | The Jacobi normal form has z in {0, 1}, keeps the affine meaning, and is the point itself when z is already 0 or 1 |
| Jacobi.NormalizeWith | include/mcl/ec.hpp:112-122 | `_normalizeJacobi` with inv * z = 1 gives z = 1 and the normal form of a point not yet normalized |
| Jacobi.Normalize | include/mcl/ec.hpp:204-211 | `normalizeJacobi` returns the Jacobi normal form |
| Jacobi.IsEqualMeaning | include/mcl/ec.hpp:225-246 | `isEqualJacobi` holds exactly when both points stand for the same affine point, the identities included |
| Jacobi.IsEqualOrMinusMeaning | include/mcl/ec.hpp:249-273 | `isEqualOrMinusJacobi` returns 1 exactly for equal affine meanings, -1 exactly when the meanings differ and P1 is the negation of P2, and 0 exactly when neither holds |
| Jacobi.IsValidMeaning | include/mcl/ec.hpp:276-300 | For z != 0, `isValidJacobi` holds exactly when the affine meaning satisfies y^2 = x^3 + a x + b |
| Jacobi.Dbl | include/mcl/ec.hpp:312-381 | `dblJacobi`, with all three specialA branches and the z == 1 shortcuts, computes the textbook Jacobian doubling mod p |
| Jacobi.DblRefZero | include/mcl/ec.hpp:316-319 | Jacobian doubling gives the identity exactly when the input is the identity or has y = 0 |
| Jacobi.Add | include/mcl/ec.hpp:388-463 | `addJacobi`, with its z == 1 shortcuts, computes the textbook Jacobian addition mod p; an identity operand gives the other operand unchanged |
| Jacobi.AddRefCases | include/mcl/ec.hpp:430-437 | When the x meanings coincide, Jacobian addition is doubling if the points are equal and the cleared identity otherwise; when they differ, the sum is finite |
| Jacobi.AddRefSelf | include/mcl/ec.hpp:430-437 | add(P, P) is dbl(P) in Jacobi mode |
| Jacobi.NegMeaning | include/mcl/ec.hpp:1227-1236 | In Jacobi mode, neg negates the affine meaning |
| Jacobi.AddNeg | include/mcl/ec.hpp:388-463 | In Jacobi mode, P + neg(P) is the identity |
| Proj.NormalForm | include/mcl/ec.hpp:570-577 | The Proj normal form has z in {0, 1}, keeps the affine meaning, and is the point itself when z is already 0 or 1 |
| Proj.NormalizeWith | include/mcl/ec.hpp:124-131 | `_normalizeProj` with inv * z = 1 gives z = 1 and the normal form of a point not yet normalized |
| Proj.Normalize | include/mcl/ec.hpp:570-577 | `normalizeProj` returns the Proj normal form |
| Proj.IsEqualMeaning | include/mcl/ec.hpp:598-615 | `isEqualProj` holds exactly when both points stand for the same affine point |
| Proj.IsEqualOrMinusMeaning | include/mcl/ec.hpp:618-638 | `isEqualOrMinusProj` returns 1 exactly for equal meanings, -1 exactly for distinct meanings with P1 = -P2, and 0 exactly when neither holds |
| Proj.IsValidMeaning | include/mcl/ec.hpp:580-595 | For z != 0, `isValidProj` holds exactly when the affine meaning is on the curve |
| Proj.Dbl | include/mcl/ec.hpp:646-710 | `dblProj`, with its specialA branches and z == 1 shortcuts, computes the textbook projective doubling mod p |
| Proj.DblRefZero | include/mcl/ec.hpp:650-653 | Projective doubling gives the identity exactly when the input is the identity or has y = 0 |
| Proj.Add | include/mcl/ec.hpp:717-778 | `addProj` computes the textbook projective addition mod p; an identity operand gives the other operand unchanged |
| Proj.AddRefCases | include/mcl/ec.hpp:741-748 | When the x meanings coincide, projective addition is doubling if the points are equal and the cleared identity otherwise; when they differ, the sum is finite |
| Proj.AddRefSelf | include/mcl/ec.hpp:741-748 | add(P, P) is dbl(P) in Proj mode |
| Proj.NegMeaning | include/mcl/ec.hpp:1227-1236 | In Proj mode, neg negates the affine meaning |
| Proj.AddNeg | include/mcl/ec.hpp:717-778 | In Proj mode, P + neg(P) is the identity |
| Affine.IsValidMeaning | include/mcl/ec.hpp:781-793 | `isValidAffine` holds exactly when (x, y) satisfies the curve equation |
| Affine.DblRef | include/mcl/ec.hpp:800-807 | Affine doubling gives the identity exactly when the input is the identity or has y = 0 |
| Affine.Dbl | include/mcl/ec.hpp:796-824 | `dblAffine` computes the tangent-line doubling: slope (3x^2 + a) / 2y |
| Affine.DblOnCurve | include/mcl/ec.hpp:796-824 | The affine double of a point on the curve is on the curve |
| Affine.Add | include/mcl/ec.hpp:826-854 | `addAffine` computes the chord-line addition; an identity operand gives the other operand unchanged |
| Affine.AddRefCases | include/mcl/ec.hpp:830-841 | For equal x, affine addition doubles if y also matches and gives the cleared identity otherwise; for different x, the sum has z = 1 |
| Affine.AddRefSelf | include/mcl/ec.hpp:830-841 | add(P, P) is dbl(P) in Affine mode |
| Affine.AddOnCurve | include/mcl/ec.hpp:826-854 | The affine sum of two points on the curve is on the curve |
| Affine.AddRefComm | include/mcl/ec.hpp:826-854 | Affine addition is commutative on meanings |
| Affine.NegMeaning | include/mcl/ec.hpp:1227-1236 | In Affine mode, neg negates the meaning |
| Affine.AddNeg | include/mcl/ec.hpp:826-854 | In Affine mode, P + neg(P) is the identity |
| Affine.IsEqualOrMinusMeaning | include/mcl/ec.hpp:1629-1644 | The affine branch of `isEqualOrMinus` returns 1 exactly for identical coordinates, -1 exactly when P1 is not P2 but is neg(P2), and 0 exactly when it is neither, for a finite P2; the result is always -1, 0 or 1 |
| Convert.ProjToJacobiMeaning | include/mcl/ec.hpp:179-189 | `ProjToJacobi` gives a Jacobi triple with the same affine meaning as the Proj triple |
| Convert.JacobiToProjMeaning | include/mcl/ec.hpp:191-202 | `JacobiToProj` gives a Proj triple with the same affine meaning as the Jacobi triple |
| Convert.RoundTrip | include/mcl/ec.hpp:179-202 | Converting Proj to Jacobi and back keeps the affine meaning |
| Ec.Normalize | include/mcl/ec.hpp:1043-1058 | `normalize` returns the mode's normal form (Affine: the point itself) |
| Ec.NormalFormProps | include/mcl/ec.hpp:1033-1058 | Normalizing keeps the affine meaning, makes the point normalized (z in {0, 1}) outside Affine mode, leaves a normalized point untouched, and is idempotent |
| Ec.NormalFormEqual | include/mcl/ec.hpp:1043-1053 | The normalized point is `==` to the input |
| Ec.NormalFormCoords | include/mcl/ec.hpp:1043-1053 | A finite point normalizes to z = 1 with the affine coordinates of its meaning |
| Ec.IsEqualMeaning | include/mcl/ec.hpp:1616-1627 | `operator==` holds exactly for equal affine meanings in Jacobi and Proj, and exactly for equal coordinates in Affine |
| Ec.IsEqualEquivalence | include/mcl/ec.hpp:1616-1627 | `operator==` is reflexive, symmetric and transitive; the identity equals only the identity; in Jacobi and Proj any two identities are equal |
| Ec.IsEqualOrMinusSpec | include/mcl/ec.hpp:1629-1644 | `isEqualOrMinus` is 1 exactly when `==` holds; it is -1 exactly when P is not `==` Q but is `==` neg(Q) (for Affine, this needs a finite Q); it is 0 exactly when neither holds (under the same condition), in particular when exactly one of them is the identity; the result is always -1, 0 or 1 |
| Ec.Dbl | include/mcl/ec.hpp:1193-1206 | `dbl` computes the doubling of the curve's mode; the identity doubles to the cleared identity |
| Ec.Add | include/mcl/ec.hpp:1207-1220 | `add` computes the addition of the curve's mode; an identity operand gives the other operand unchanged |
| Ec.Sub | include/mcl/ec.hpp:1221-1226 | `sub(P, Q)` is `add(P, neg(Q))` |
| Ec.AddCoincident | include/mcl/ec.hpp:1207-1220 | In every mode, for finite points with equal x meanings, add is dbl when the points are equal and the cleared identity otherwise; add(P, P) is dbl(P); Affine dbl of a point with y = 0 is the cleared identity |
| Ec.SubSelf | include/mcl/ec.hpp:1221-1236 | sub(P, P) is the identity in every mode |
| Ec.NegSpec | include/mcl/ec.hpp:1227-1236 | neg negates the affine meaning; neg(neg(P)) has P's coordinates for a finite P; neg of the identity is the cleared identity |
| Ec.IsValidMeaning | include/mcl/ec.hpp:1150-1164 | `isValid` holds exactly for the identity, or for a point whose meaning is on the curve, which passes the order test when it is on, and which has z = 1 in Affine mode |
| Ec.NegValid | include/mcl/ec.hpp:1150-1164 | neg keeps `isValid` in both directions |
| Ec.Compare | include/mcl/ec.hpp:1278-1297 | `compareFunc` returns the reference order: the identity first, then normalized x, then normalized y |
| Ec.CompareSpec | include/mcl/ec.hpp:1278-1297 | The comparison is -1, 0 or 1, antisymmetric and transitive, has the identity smallest, and is 0 exactly when `==` holds (for Affine, on normalized points) |
| Ec.SetSpec | include/mcl/ec.hpp:1165-1176 | `set` succeeds exactly when verification is off, or (x, y) is on the curve and passes the order test when that is on; on success the point is (x, y, 1); on failure it is cleared; a verified success is `isValid` |
| Ec.GetWeierstrass | include/mcl/ec.hpp:1588-1595 | The result is x^3 + a x + b mod p |
| Ec.GetYfromXSpec | include/mcl/ec.hpp:1596-1606 | On success, y is on the curve over x and has the requested parity unless y = 0; it fails exactly when no y lies on the curve over x |
| Batch.InvVec | include/mcl/ec.hpp:158-163 | The chunk's inverse buffer holds inv[i] with inv[i] * z = 1 for every nonzero z |
| Batch.NormalizeWith | include/mcl/ec.hpp:133-147 | `_normalize` dispatches by mode to the normal form, given inv * z = 1 |
| Batch.NormalizeChunk | include/mcl/ec.hpp:164-171 | One chunk writes Q[off + i] as the normal form of P[off + i] and touches no other entry of Q |
| Batch.NormalizeVecT | include/mcl/ec.hpp:154-175 | For every i < n, Q[i] ends as the single-point normal form of the original P[i]; entries from n on are untouched; P is unchanged unless it is Q |
| Batch.NormalizeVec | include/mcl/ec.hpp:1059-1069 | Affine mode copies P into Q (nothing when Q is P); the other modes batch-normalize; either way Q[i] is the normal form of P[i] |
| Mul.SmallChain | include/mcl/ec.hpp:874-995 | The fixed dbl/add chain of `mulSmallInt` for y <= 16 has coefficient y |
| Mul.MulSmallInt | include/mcl/ec.hpp:874-995 | It succeeds exactly for y <= 16 and otherwise leaves z alone; on success z is y x (negated when isNegative and y != 0); y = 0 gives the cleared identity |
| Mul.AddTbl | include/mcl/ec.hpp:47-57 | `addTbl` adds d x for the digit d at position i, using entry (abs(d) - 1) / 2; for d = 0 or i beyond the digits, Q is unchanged |
| Mul.FillOdd | include/mcl/ec.hpp:1709-1714 | The table gets tbl[k] = (2k + 1) x |
| Mul.RealSize | include/mcl/ec.hpp:1690 | The real size drops exactly the high zero limbs and is at least 1 |
| Mul.RealSizeValue | include/mcl/ec.hpp:1690-1694 | Dropping the high zero limbs keeps the scalar's value |
| Mul.WindowBits | include/mcl/ec.hpp:1702 | The window is 3 exactly for scalars <= 2^32, 5 exactly for scalars >= 2^128, and 4 in between |
| Mul.MulArray | include/mcl/ec.hpp:1680-1720 | `mulArray` (table, digit loop, small-int path or constant-time path) returns y x, negated when isNegative; yn = 0 gives the cleared identity |
| Mul.DigitLoop | include/mcl/ec.hpp:1715-1719 | The doubling and addTbl loop over the signed digits gives (value of the digits) x |
| Mul.MulArrayCT | include/mcl/ec.hpp:1653-1678 | `mulArrayCT` returns y x, negated when isNegative; yn = 0 gives the cleared identity |
| Mul.FillMultiples | include/mcl/ec.hpp:1659-1664 | The 16-entry table gets tbl[k] = k x, with tbl[0] the identity |
| Mul.CtLimb | include/mcl/ec.hpp:1667-1673 | One limb of the nibble loop turns the accumulator C x into (C 2^64 + v) x |
| Mul.Dbl4 | include/mcl/ec.hpp:1669-1671 | Four doublings multiply every coefficient by 16 |
| MulVec.FillRows | include/mcl/ec.hpp:1748-1763 | Row i of the table holds the odd multiples (2k + 1) xVec[off + i], and maxBit bounds every digit length |
| MulVec.NormalizeRows | include/mcl/ec.hpp:1765 | The in-place batch normalization of the table keeps every entry's multiple |
| MulVec.AddRows | include/mcl/ec.hpp:1768-1770 | The inner addTbl loop adds the digit at position pos of every scalar times its point |
| MulVec.DigitRows | include/mcl/ec.hpp:1764-1771 | The digit loop gives the sum of (value of each digit sequence) x_i |
| MulVec.MulVecN | include/mcl/ec.hpp:1739-1791 | `mulVecN` handles min(n, maxMulVecN) points and returns the sum of yVec[i] xVec[i] over them |
| MulVec.MulVec | include/mcl/ec.hpp:1792-1818 | `mulVec` returns the sum of yVec[i] xVec[i] over all i < n; n = 0 gives the cleared identity |
| Bytes.FromLEofLE | include/mcl/ec.hpp:1390-1391 | Reading back the n bytes written for x gives x when x fits in n bytes |
| Bytes.LEofFromLE | include/mcl/ec.hpp:1517 | The n bytes read are the n bytes of their value |
| Bytes.WriteLE | include/mcl/ec.hpp:1390-1391 | `P.x.save` into buf + adj writes LE(x) there and nothing else |
| Bytes.WriteBE | include/mcl/ec.hpp:1371-1372 | The ETH `P.x.save` writes x big-endian into the first n bytes and nothing else |
| Bytes.ByteSwap | include/mcl/ec.hpp:1487 | `byteSwap(buf, n)` reverses the first n bytes and keeps the rest |
| Bytes.FillZero | include/mcl/ec.hpp:1387-1388 | memset zeroes exactly the given range |
| Bytes.IsZeroN | include/mcl/ec.hpp:1500 | `isZeroN(buf, n)` holds exactly when the first n bytes are 0 |
| Codec.Serialize | include/mcl/ec.hpp:1306-1316 | The encoding has `getSerializedByteSize()` bytes: n when `isMSBserialize()` holds and n + 1 otherwise |
| Codec.MsbFree | include/mcl/ec.hpp:1306-1309 | When `isMSBserialize()` holds, the top byte of every field element is below 0x80, so bit 7 is free for the parity |
| Codec.EthTopFree | include/mcl/ec.hpp:1371-1375 | When the bit size leaves at least 3 bits free in the top byte, the first big-endian byte of x is below 0x20, so the c, b and a flags are free |
| Codec.NegFlips | include/mcl/ec.hpp:63-68 | `get_a_flag` flips under negation of a nonzero y |
| Codec.CompactLayout | include/mcl/ec.hpp:1387-1398 | In the n-byte form, bit 7 of byte n-1 is y's parity, and clearing it leaves x's little-endian bytes; the encoding is all zero exactly when x = 0 and y is even |
| Codec.LeadLayout | include/mcl/ec.hpp:1390-1393 | In the (n+1)-byte form, the lead byte is 3 for odd y and 2 for even y, followed by x's n bytes |
| Codec.EthLayout | include/mcl/ec.hpp:1370-1376 | An ETH finite point has the c flag set, the b flag clear, and the a flag exactly when y is negative; masking the flags and reversing gives x's bytes |
| Codec.Deserialize | include/mcl/ec.hpp:1453-1520 | A decoded point is normalized; when finite it is on the curve and passes the order test when that is on; fewer than n + adj bytes fail; n + adj zero bytes give the identity; in the (n+1)-byte form a lead byte other than 2 or 3 fails; ETH fails without the 0x80 flag and, with the infinity flag, fails unless the lead byte is 0xC0 |
| Codec.DecodeXProps | include/mcl/ec.hpp:1556-1562 | Recovering a point from x gives z = 1, a point on the curve, and the order test passed when it is on |
| Codec.DecodeXRecovers | include/mcl/ec.hpp:1514-1520 | The x bytes and the parity of a valid normalized point decode back to exactly that point |
| Codec.EthRecovers | include/mcl/ec.hpp:1490-1497 | For a point on the curve, the square root of x^3 + a x + b, flipped when its a flag disagrees, is y |
| Codec.RoundTrip | include/mcl/ec.hpp:1359-1520 | Decoding the encoding of a valid point (with any trailing bytes) gives its normal form, or the cleared identity for the identity, with the same affine meaning; this holds in the compact, lead-byte and ETH layouts |
| Codec.RoundTripEth | include/mcl/ec.hpp:1485-1498 | The ETH decoding of a finite point's ETH encoding is its normal form |
| Codec.RoundTripLead | include/mcl/ec.hpp:1506-1520 | The (n+1)-byte decoding of a finite point's encoding is its normal form |
| Codec.RoundTripCompact | include/mcl/ec.hpp:1500-1520 | The n-byte decoding of a finite point's encoding is its normal form, unless that encoding is all zero |
| Codec.AmbiguousCollision | include/mcl/ec.hpp:1500-1504 | In the n-byte form, a finite point with x = 0 and even y encodes exactly as the identity does, and decodes as the identity |
| Codec.EthInfinityLoophole | include/mcl/ec.hpp:1476-1483 | With the loop as written, 0xC0 followed by zeros and a nonzero last byte decodes as the identity, although it is not the identity's encoding; with the corrected loop it fails |
| Codec.EthInfinityCanonical | include/mcl/ec.hpp:1476-1483 | With the corrected loop, an ETH buffer with the infinity flag decodes exactly when it is the identity's encoding, and then to the identity |
| Codec.Save | include/mcl/ec.hpp:1359-1400 | `save` fills a buffer of n + adj bytes holding exactly the encoding of the point |
| Codec.Load | include/mcl/ec.hpp:1435-1520 | `load`, with the ETH infinity check corrected to cover bytes 1..n-1 (see Findings), succeeds exactly when the bytes decode, and then the point is the decoded point; on failure z = 1 |
| Codec.LoadEth | include/mcl/ec.hpp:1468-1499 | The ETH branch of `load` (with the corrected loop bound) succeeds exactly when the buffer decodes as ETH, and then gives the decoded point |
| Codec.LoadCompressed | include/mcl/ec.hpp:1500-1520 | The compressed branch of `load` succeeds exactly when the buffer decodes, and then gives the decoded point |

## Behaviour as coded

In these places the code's behaviour is easy to misread; the model follows the
code:

- `mulArray` doubles the accumulator once per signed digit, not `w` times per
  window (include/mcl/ec.hpp:1716-1719). The digits are width-w NAF digits.
- Window 3 is used for a single limb up to and including 2^32
  (include/mcl/ec.hpp:1702). That is 33 bits for 2^32 itself; the comment at
  include/mcl/ec.hpp:1699-1701 writes the threshold as log2(y) <= 32.
- `getYfromX` asked for odd parity returns y = 0 when the square root is 0,
  because -0 = 0 (include/mcl/ec.hpp:1602-1604). `Ec.GetYfromXSpec` therefore
  promises the parity only for y != 0.
- A failed `load` is not cleared. The source sets z = 1 first and may have
  written x and y by the time it fails (include/mcl/ec.hpp:1437, 1488, 1517-1520).
- In the compact n-byte layout, a finite point (0, y) with y even encodes as n
  zero bytes. `load` reads that as the identity (include/mcl/ec.hpp:1500-1504).
  Such a point exists only when b is a square. For example, (0, 2) lies on
  y^2 = x^3 + 4, the BLS12-381 G1 equation, though it is not in the prime-order
  subgroup. `Codec.AmbiguousCollision` proves the collision, and
  `Codec.RoundTrip` excludes these points.

## Findings

| source | as written | input that shows it | evidently intended | confidence | as-written member | corrected member |
|---|---|---|---|---|---|---|
| include/mcl/ec.hpp:1478-1480 | In the ETH infinity check, `for (i = 1; i < n - 1; i++)` checks bytes 1..n-2 only. So the last byte of the n-byte buffer is never checked, but `save` zeroes bytes 1..n-1 (include/mcl/ec.hpp:1368-1369). | n bytes: 0xC0, then n-2 zero bytes, then 0x01. This decodes as the identity but is not the identity's encoding. | The loop runs to n (`i < n`), so only the canonical 0xC0 00..00 is accepted | not executed | Codec.DeserializeAsWritten (shown by Codec.EthInfinityLoophole) | Codec.Deserialize (Codec.EthInfinityCanonical; Codec.Load implements it) |

## Left out

- Associativity and the full group law: these nonlinear identities are too
  heavy. Scalar multiplication is therefore specified by chains of the curve's
  own formulas (`Chain.Eval`) with integer coefficients. It is not specified
  by a group exponentiation.
- `addCTProj` / `dblCTProj` (the complete a = 0 formulas): `EcT::add` and
  `EcT::dbl` do not reach them, because they dispatch to `addProj` and
  `dblProj`. `mul3` and `mul12` (include/mcl/ec.hpp:78-84, 93-100) serve only
  these formulas and are left out with them.
- The `sizeof(F) > 32` branch of `dblJacobi`: only the M == S branch is
  modelled. Both compute the same 4 x y^2.
- `tryAndIncMapTo`: its loop ends only if a quadratic residue is found.
- `mulVecMT`: its purpose is parallelism.
- `mulEach`, and the `mul` / `mulCT` / `mulGeneric` wrappers: they convert
  `Fr` and `mpz_class` scalars into limbs, and that conversion code is not part
  of this model. `Mul.MulArray` and `MulVec.MulVec` take limbs or integer
  scalars directly.
- The hooks `mulVecGLV`, `mulVecOpti`, `mulEachOpti` and `isValidOrderFast`:
  they point to code that is not part of this model, so they are modelled as
  always absent.
- `isValidOrder`: it calls `mulGeneric` by the order. It is a function
  `orderIsValid` carried in the curve configuration.
- `Ec.NegValid`: it assumes that the order test gives the same answer for P
  and neg(P), because the code of `mulGeneric` is not part of this model.
- `gmp::getNAFwidth`: the signed digits come in as data, with the promise that
  they are width-w NAF digits of the scalar (`Mul.IsNafOf`).
- `Mul.MulArray`: the source stores the NAF in a fixed buffer of
  sizeof(Fp)·8+1 signed digits (include/mcl/ec.hpp:1704). A scalar whose NAF is
  longer fails `getNAFwidth`, and the source only asserts success
  (include/mcl/ec.hpp:1707-1708), so it aborts or goes on with digits it does
  not handle. The model takes a NAF of any length and does not capture that
  capacity. Only an mpz scalar wider than the Fp storage can reach it. The same
  holds for `MulVec.MulVecN` (include/mcl/ec.hpp:1754-1755), whose Fr scalars
  always fit.
- `bint::getRealSize`: its code is not part of this model. It is modelled by
  its contract.
- `fp::maxMulVecN`: it is defined outside ec.hpp and is the constant 32 here.
  No proof depends on its value beyond its being positive.
- `invVecT`: its code is not part of this model. `Batch.InvVec` inverts each z
  on its own and meets the contract the loop needs.
- The field implementation of `Fp`, which is not part of this model:
  - Montgomery form, `Fp::inv` and `Fp::squareRoot`. These are the extended
    Euclidean algorithm and a search, each proved to have the property used.
  - `Fp::save` / `setArray` with IoSerialize. These are n little-endian bytes,
    big-endian when ETH serialization is on (`load` byte-swaps before
    `setArray`, include/mcl/ec.hpp:1486-1488), with `setArray` failing for a
    value >= p.
  - `Fp::isNegative`. This is y >= (p + 1) / 2. The comment above `get_a_flag`
    at include/mcl/ec.hpp:64 reads the other way round, and the proved
    properties hold for either reading.
- `Mul.MulArray`, `Mul.MulArrayCT`, `Mul.WindowBits`: `Unit` is fixed at 64
  bits (`Mul.Radix`). So `yn * sizeof(Unit) > 16` in the window choice
  (include/mcl/ec.hpp:1702) is read as more than two limbs, and `mulArrayCT`
  takes sizeof(Unit)·8/4 = 16 nibbles per limb (include/mcl/ec.hpp:1658). A
  32-bit `Unit` build is not modelled.
- The Fp2 overload of `get_a_flag`: the model has no extension fields.
- Text, hex-string and stream I/O, including:
  - the '0'..'4' text branch of `load` / `save`;
  - IoEcProj and IoEcAffineSerialize;
  - `IoSerializeHexStr` (the same bytes in hex);
  - `operator<<` / `operator>>`.

  This is stream plumbing. A read of fewer than n + adj bytes is modelled as
  a short byte sequence.
- `Codec.Serialize`: the ETH layout is given only when `isMSBserialize()`
  holds. With adj = 1, the ETH branch of `save` writes n of its n + 1 bytes,
  and the last byte is uninitialised.
- `Codec.RoundTrip`: it needs the bit size to leave three free bits in the top
  byte for the ETH layout, because the source does not check this. It also
  excludes the all-zero compact encoding described above.
- `Codec.Load`: it promises only z = 1 on failure. The x and y that the source
  leaves on the failure paths are not specified.
- `initCurve`, the named-curve table, `initForSecp256k1` and the `std::hash`
  specialisation: these are foreign data and calls.
