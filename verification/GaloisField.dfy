/**
 The finite field GF(2^8) with reduction polynomial 0x11D that the QR Code
 encoder uses for error correction.  A byte is a polynomial over GF(2), bit i
 being the coefficient of x^i, and addition is exclusive or.
 */
module GaloisField {
  import opened Algebra
  import opened Horner
  import opened Bytes

  /** Multiplication by x, reduced modulo x^8 + x^4 + x^3 + x^2 + 1. */
  function Double(z: byte): byte {
    ((((z as bv16) << 1) ^ (((z as bv16) >> 7) * 0x11D)) & 0xFF) as byte
  }

  const BITWISE: Bitwise<byte> := Bitwise(0, 1, (a: byte, b: byte) => a ^ b, Double, Bits)
  const GF: Field<byte> := Ring(BITWISE)

  // ----- the field laws -----

  lemma AdditionLaws()
    ensures IsAdditive(GF)
  {
    forall a, b, c ensures AddAssoc(GF, a, b, c) {}
  }

  /** One round of the multiplication. */
  function Step(x: byte, z: byte, c: bool): byte { Double(z) ^ (if c then x else 0) }

  /** The eight rounds, written out. */
  function Unrolled(x: byte, y: byte): byte {
    var z2 := Step(x, Step(x, 0, BitOf(y, 7)), BitOf(y, 6));
    var z4 := Step(x, Step(x, z2, BitOf(y, 5)), BitOf(y, 4));
    var z6 := Step(x, Step(x, z4, BitOf(y, 3)), BitOf(y, 2));
    Step(x, Step(x, z6, BitOf(y, 1)), BitOf(y, 0))
  }

  lemma RoundIsStep()
    ensures forall x: byte, z: byte, c: bool :: Round(BITWISE, x, z, c) == Step(x, z, c)
  {
  }

  /** One round, on the n + 1 most significant bits of y. */
  lemma NextRound(x: byte, y: byte, n: nat, z: byte)
    requires n < 8 && z == Times(BITWISE, x, Bits(y)[..n])
    ensures Times(BITWISE, x, Bits(y)[..n + 1]) == Step(x, z, BitOf(y, 7 - n))
  {
    TimesSnoc(BITWISE, x, Bits(y), n);
    RoundIsStep();
  }

  method ReedSolomonMultiply(x: byte, y: byte) returns (z: byte)
    ensures z == GF.mul(x, y)
  {
    z := 0;
    var i := 7;
    while i >= 0
      invariant -1 <= i <= 7
      invariant z == Times(BITWISE, x, Bits(y)[..7 - i])
    {
      NextRound(x, y, 7 - i, z);
      z := Step(x, z, BitOf(y, i));
      i := i - 1;
    }
    assert Bits(y)[..8] == Bits(y);
  }

  lemma MulUnrolled(x: byte, y: byte)
    ensures GF.mul(x, y) == Unrolled(x, y)
  {
    TimesEight(BITWISE, x, Bits(y));
    RoundIsStep();
  }

  lemma UnrolledOne(y: byte)
    ensures Unrolled(1, y) == y
  {
  }

  lemma DoubleAddHolds(a: byte, b: byte)
    ensures DoubleAdd(BITWISE, a, b)
  {
  }

  lemma BitsAddHolds(a: byte, b: byte)
    ensures BitsAdd(BITWISE, a, b)
  {
    forall i | 0 <= i < 8 ensures Bits(a ^ b)[i] == (Bits(a)[i] != Bits(b)[i]) { BitXor(a, b, 7 - i); }
  }

  lemma OneTimesHolds(y: byte)
    ensures OneTimes(BITWISE, y)
  {
    MulUnrolled(1, y);
    UnrolledOne(y);
  }

  lemma FieldBitwise()
    ensures IsBitwise(BITWISE, 8)
  {
    AdditionLaws();
    forall a, b ensures DoubleAdd(BITWISE, a, b) { DoubleAddHolds(a, b); }
    forall a, b ensures BitsAdd(BITWISE, a, b) { BitsAddHolds(a, b); }
    forall y ensures OneTimes(BITWISE, y) { OneTimesHolds(y); }
  }

  // ----- inverses -----

  /** Raising to the 16th power is linear; these are its columns. */
  function Power16(x: byte): byte {
    (if x & 0x01 != 0 then 0x01 else 0) ^ (if x & 0x02 != 0 then 0x4C else 0) ^
    (if x & 0x04 != 0 then 0x9D else 0) ^ (if x & 0x08 != 0 then 0x46 else 0) ^
    (if x & 0x10 != 0 then 0x5F else 0) ^ (if x & 0x20 != 0 then 0xFD else 0) ^
    (if x & 0x40 != 0 then 0xD9 else 0) ^ (if x & 0x80 != 0 then 0x81 else 0)
  }

  /** The inverse of an element of the subfield with 16 elements, spanned by 0x01, 0x0A, 0x44 and 0x92. */
  function SubfieldInverse(s: byte): byte {
    if s == 0x01 then 0x01 else if s == 0x0A then 0xDD else if s == 0x0B then 0x98 else if s == 0x44 then 0x92
    else if s == 0x45 then 0x4E else if s == 0x4E then 0x45 else if s == 0x4F then 0x93 else if s == 0x92 then 0x44
    else if s == 0x93 then 0x4F else if s == 0x98 then 0x0B else if s == 0x99 then 0xDC else if s == 0xD6 then 0xD7
    else if s == 0xD7 then 0xD6 else if s == 0xDC then 0x99 else 0x0A
  }

  predicate InSubfield(s: byte) {
    || s == 0x01 || s == 0x0A || s == 0x0B || s == 0x44 || s == 0x45 || s == 0x4E || s == 0x4F || s == 0x92
    || s == 0x93 || s == 0x98 || s == 0x99 || s == 0xD6 || s == 0xD7 || s == 0xDC || s == 0xDD
  }

  /** x^17 is the norm of x: it lies in the subfield, and is zero only for zero. */
  lemma NormInSubfield(x: byte)
    requires x != 0
    ensures InSubfield(Unrolled(x, Power16(x)))
  {
  }

  lemma LowSubfieldInvertible(s: byte)
    requires InSubfield(s) && s <= 0x4E
    ensures Unrolled(s, SubfieldInverse(s)) == 1
  {
  }

  lemma MiddleSubfieldInvertible(s: byte)
    requires InSubfield(s) && 0x4E < s <= 0x98
    ensures Unrolled(s, SubfieldInverse(s)) == 1
  {
  }

  lemma HighSubfieldInvertible(s: byte)
    requires InSubfield(s) && 0x98 < s
    ensures Unrolled(s, SubfieldInverse(s)) == 1
  {
  }

  lemma SubfieldInvertible(s: byte)
    requires InSubfield(s)
    ensures Unrolled(s, SubfieldInverse(s)) == 1
  {
    hide Unrolled, SubfieldInverse, InSubfield;
    if s <= 0x4E { LowSubfieldInvertible(s); }
    else if s <= 0x98 { MiddleSubfieldInvertible(s); }
    else { HighSubfieldInvertible(s); }
  }

  lemma InverseExists(x: byte)
    requires x != 0
    ensures Invertible(GF, x)
  {
    var norm := GF.mul(x, Power16(x));
    MulUnrolled(x, Power16(x));
    NormInSubfield(x);
    SubfieldInvertible(norm);
    MulUnrolled(norm, SubfieldInverse(norm));
    FieldBitwise();
    MulAssocHolds(BITWISE, 8, x, Power16(x), SubfieldInverse(norm));
    assert GF.mul(x, GF.mul(Power16(x), SubfieldInverse(norm))) == GF.one;
  }

  /** The bytes form a field under exclusive or and reedSolomonMultiply. */
  lemma BytesFormField()
    ensures IsField(GF)
  {
    FieldBitwise();
    forall a: byte | a != 0 ensures Invertible(GF, a) { InverseExists(a); }
    RingIsField(BITWISE, 8);
  }

  /** The product is the only additive operation with unit 1 and x * z = Double(z). */
  lemma ProductUnique(f: byte -> byte, x: byte, y: byte)
    requires IsScaling(BITWISE, f, x)
    ensures f(y) == GF.mul(x, y)
  {
    FieldBitwise();
    ScalingUnique(BITWISE, 8, f, x, y);
  }
}
