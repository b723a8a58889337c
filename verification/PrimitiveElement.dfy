/**
 The element 2 generates the multiplicative group of GF(2^8)/0x11D, so blocks
 of up to 255 codewords enjoy the full minimum distance.
 */
module PrimitiveElement {
  import opened Algebra
  import opened Bytes
  import opened GaloisField
  import opened ReedSolomonCode
  import opened MinimumDistance
  import opened ReedSolomonBytes

  lemma {:induction false} PowPow<E(!new)>(F: Field<E>, a: E, i: nat, j: nat)
    requires IsField(F)
    ensures Pow(F, a, i * j) == Pow(F, Pow(F, a, i), j)
  {
    if j == 0 {
    } else {
      PowPow(F, a, i, j - 1);
      PowAdd(F, a, i * (j - 1), i);
      assert i * (j - 1) + i == i * j;
    }
  }

  lemma QuotientRemainder(j: nat, p: nat)
    requires p > 0
    ensures p * (j / p) + j % p == j
  {
  }

  lemma OneTimes<E(!new)>(F: Field<E>, x: E)
    requires IsField(F)
    ensures F.mul(F.one, x) == x && F.mul(x, F.one) == x
  {
    assert MulComm(F, F.one, x) && MulOne(F, x);
  }

  /** If u^p = 1 then u^j depends only on j modulo p. */
  lemma PowModulo<E(!new)>(F: Field<E>, u: E, p: nat, j: nat)
    requires IsField(F) && p > 0 && Pow(F, u, p) == F.one
    ensures Pow(F, u, j) == Pow(F, u, j % p)
  {
    hide Pow, IsField;
    QuotientRemainder(j, p);
    PowAdd(F, u, p * (j / p), j % p);
    PowPow(F, u, p, j / p);
    PowOne(F, j / p);
    OneTimes(F, Pow(F, u, j % p));
  }

  ghost predicate Prime(p: nat) {
    p > 1 && forall d {:trigger p % d} | 1 < d < p :: p % d != 0
  }

  /** Euclid: if u^p = u^k = 1 for a prime p and 0 < k < p, then u = 1. */
  lemma {:induction false} PrimeOrder<E(!new)>(F: Field<E>, u: E, p: nat, k: nat)
    requires IsField(F) && Prime(p) && 0 < k < p
    requires Pow(F, u, p) == F.one && Pow(F, u, k) == F.one
    ensures u == F.one
    decreases k
  {
    if k == 1 {
      assert Pow(F, u, 1) == F.mul(Pow(F, u, 0), u);
      assert MulComm(F, F.one, u) && MulOne(F, u);
    } else {
      PowModulo(F, u, k, p);
      assert p % k != 0;
      PrimeOrder(F, u, p, p % k);
    }
  }

  /** If 2^(np) = 1 but 2^n is not one, for a prime p that does not divide j, then 2^j is not one. */
  lemma NotOne<E(!new)>(F: Field<E>, a: E, n: nat, p: nat, j: nat)
    requires IsField(F) && Prime(p) && j % p != 0
    requires Pow(F, a, n * p) == F.one && Pow(F, a, n) != F.one
    ensures Pow(F, a, j) != F.one
  {
    var u := Pow(F, a, n);
    PowPow(F, a, n, p);
    if Pow(F, a, j) == F.one {
      PowPow(F, a, n, j);
      PowPow(F, a, j, n);
      assert n * j == j * n;
      PowOne(F, n);
      PowModulo(F, u, p, j);
      PrimeOrder(F, u, p, j % p);
    }
  }

  // ----- some powers of 2 -----

  /** Squaring is linear; these are its columns. */
  function Square(x: byte): byte {
    (if x & 0x01 != 0 then 0x01 else 0) ^ (if x & 0x02 != 0 then 0x04 else 0) ^
    (if x & 0x04 != 0 then 0x10 else 0) ^ (if x & 0x08 != 0 then 0x40 else 0) ^
    (if x & 0x10 != 0 then 0x1D else 0) ^ (if x & 0x20 != 0 then 0x74 else 0) ^
    (if x & 0x40 != 0 then 0xCD else 0) ^ (if x & 0x80 != 0 then 0x13 else 0)
  }

  lemma SquareIsProduct(x: byte)
    ensures Square(x) == Unrolled(x, x)
  {
  }

  lemma PowSum(i: nat, j: nat)
    ensures Pow(GF, ALPHA, i + j) == Unrolled(Pow(GF, ALPHA, i), Pow(GF, ALPHA, j))
  {
    BytesFormField();
    PowAdd(GF, ALPHA, i, j);
    MulUnrolled(Pow(GF, ALPHA, i), Pow(GF, ALPHA, j));
  }

  lemma PowDouble(i: nat)
    ensures Pow(GF, ALPHA, 2 * i) == Square(Pow(GF, ALPHA, i))
  {
    PowSum(i, i);
    SquareIsProduct(Pow(GF, ALPHA, i));
  }

  lemma LowTwoPowers()
    ensures Pow(GF, ALPHA, 1) == 2 && Pow(GF, ALPHA, 2) == 4 && Pow(GF, ALPHA, 4) == 0x10
    ensures Pow(GF, ALPHA, 16) == 0x4C
  {
    BytesFormField();
    assert Pow(GF, ALPHA, 1) == GF.mul(Pow(GF, ALPHA, 0), ALPHA);
    assert MulComm(GF, GF.one, ALPHA) && MulOne(GF, ALPHA);
    PowDouble(1); PowDouble(2); PowDouble(4); PowDouble(8);
  }

  lemma HighTwoPowers()
    requires Pow(GF, ALPHA, 16) == 0x4C
    ensures Pow(GF, ALPHA, 32) == 0x9D && Pow(GF, ALPHA, 64) == 0x5F && Pow(GF, ALPHA, 256) == 2
  {
    PowDouble(16); PowDouble(32); PowDouble(64); PowDouble(128);
  }

  lemma Product3()
    ensures Unrolled(4, 2) == 8
  {
  }

  lemma Product5()
    ensures Unrolled(0x10, 2) == 0x20
  {
  }

  lemma Products51()
    ensures Unrolled(0x9D, 0x4C) == 0x46 && Unrolled(0x46, 8) == 0x0A
  {
  }

  lemma Products85()
    ensures Unrolled(0x5F, 0x4C) == 0xFD && Unrolled(0xFD, 0x20) == 0xD6
  {
  }

  /** 2^51 and 2^85 are not one; neither is 2^15, since 2^16 is not 2. */
  lemma MaximalPowers()
    ensures Pow(GF, ALPHA, 15) != 1 && Pow(GF, ALPHA, 51) == 0x0A && Pow(GF, ALPHA, 85) == 0xD6
    ensures Pow(GF, ALPHA, 255) == 1
  {
    LowTwoPowers(); HighTwoPowers();
    Product3(); Product5(); Products51(); Products85();
    PowSum(2, 1); PowSum(4, 1);
    PowSum(32, 16); PowSum(48, 3);
    PowSum(64, 16); PowSum(80, 5);
    PowTwice(15); PowTwice(255);
  }

  /** 2^(i+1) = 2 exactly when 2^i = 1. */
  lemma PowTwice(i: nat)
    ensures Pow(GF, ALPHA, i + 1) == ALPHA <==> Pow(GF, ALPHA, i) == 1
  {
    BytesFormField();
    var p := Pow(GF, ALPHA, i);
    assert MulComm(GF, p, ALPHA) && Distrib(GF, ALPHA, p, 1) && MulOne(GF, ALPHA);
    NoZeroDivisors(GF, ALPHA, GF.add(p, 1));
    AddCancel(GF, p, 1);
    AddCancel(GF, GF.mul(ALPHA, p), ALPHA);
  }

  lemma SmallPrimes()
    ensures Prime(3) && Prime(5) && Prime(17)
  {
    forall d: nat | 1 < d < 17 ensures 17 % d != 0 {
      if d > 8 {
        assert 17 / d == 1;
      } else if d > 5 {
        assert 17 / d == 2;
      } else if d == 5 {} else if d == 4 {} else if d == 3 {} else {}
    }
  }

  /** No number below 255 is divisible by 3, 5 and 17. */
  lemma SomePrimeRemains(k: nat)
    requires 0 < k < 255
    ensures k % 3 != 0 || k % 5 != 0 || k % 17 != 0
  {
  }

  /** The powers of 2 below 2^255 are pairwise distinct. */
  lemma TwoIsPrimitive()
    ensures OrderAtLeast(GF, ALPHA, 255)
  {
    BytesFormField();
    MaximalPowers();
    forall k: nat | 0 < k < 255 ensures Pow(GF, ALPHA, k) != 1 { TwoPowerNotOne(k); }
  }

  lemma TwoPowerNotOne(k: nat)
    requires 0 < k < 255
    ensures Pow(GF, ALPHA, k) != 1
  {
    BytesFormField();
    MaximalPowers();
    SmallPrimes();
    SomePrimeRemains(k);
    if k % 3 != 0 {
      NotOne(GF, ALPHA, 85, 3, k);
    } else if k % 5 != 0 {
      NotOne(GF, ALPHA, 51, 5, k);
    } else {
      NotOne(GF, ALPHA, 15, 17, k);
    }
  }

  // ----- the code of the encoder -----

  /** What the encoder appends to a block, and the block itself. */
  function BlockCodeword(data: seq<byte>, degree: nat): (c: seq<byte>)
    requires degree >= 1
    ensures |c| == |data| + degree
  {
    Encode(GF, ALPHA, data, degree)
  }

  /** Blocks of up to 255 codewords with different data differ in more than "degree" codewords. */
  lemma BlockDistance(data: seq<byte>, data': seq<byte>, degree: nat)
    requires degree >= 1 && |data| == |data'| && |data| + degree <= 255 && data != data'
    ensures Distance(BlockCodeword(data, degree), BlockCodeword(data', degree)) > degree
  {
    BytesFormField();
    TwoIsPrimitive();
    EncodeDistance(GF, ALPHA, 255, data, data', degree);
  }

  /** Up to degree/2 damaged codewords leave the data of a block determined. */
  lemma BlockCorrectable(data: seq<byte>, data': seq<byte>, degree: nat, received: seq<byte>, t: nat)
    requires degree >= 1 && |data| == |data'| && |data| + degree == |received| <= 255 && 2 * t <= degree
    requires Distance(BlockCodeword(data, degree), received) <= t
    requires Distance(received, BlockCodeword(data', degree)) <= t
    ensures data == data'
  {
    BytesFormField();
    TwoIsPrimitive();
    UniqueDecoding(GF, ALPHA, 255, data, data', degree, received, t);
  }

  /** The appended codewords are the only ones with which all syndromes vanish. */
  lemma BlockSyndromesCharacterise(data: seq<byte>, ecc: seq<byte>)
    requires |ecc| >= 1 && |data| + |ecc| <= 255
    ensures IsCodeword(GF, ALPHA, data + ecc, |ecc|) <==> data + ecc == BlockCodeword(data, |ecc|)
  {
    BytesFormField();
    TwoIsPrimitive();
    SyndromesCharacterise(GF, ALPHA, 255, data, ecc);
  }
}
