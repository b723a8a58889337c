/**
 Fields of characteristic two, over an arbitrary carrier.  The laws are packed
 into small predicates so that a proof names the instance it uses.
 */
module Algebra {
  datatype Field<!E> = Field(zero: E, one: E, add: (E, E) -> E, mul: (E, E) -> E)

  ghost predicate AddComm<E>(F: Field<E>, a: E, b: E) { F.add(a, b) == F.add(b, a) }
  ghost predicate AddAssoc<E>(F: Field<E>, a: E, b: E, c: E) { F.add(F.add(a, b), c) == F.add(a, F.add(b, c)) }
  ghost predicate AddZero<E>(F: Field<E>, a: E) { F.add(a, F.zero) == a }
  ghost predicate AddSelf<E>(F: Field<E>, a: E) { F.add(a, a) == F.zero }
  ghost predicate MulComm<E>(F: Field<E>, a: E, b: E) { F.mul(a, b) == F.mul(b, a) }
  ghost predicate MulAssoc<E>(F: Field<E>, a: E, b: E, c: E) { F.mul(F.mul(a, b), c) == F.mul(a, F.mul(b, c)) }
  ghost predicate MulOne<E>(F: Field<E>, a: E) { F.mul(a, F.one) == a }
  ghost predicate Distrib<E>(F: Field<E>, a: E, b: E, c: E) { F.mul(a, F.add(b, c)) == F.add(F.mul(a, b), F.mul(a, c)) }
  ghost predicate Invertible<E(!new)>(F: Field<E>, a: E) { exists b :: F.mul(a, b) == F.one }

  ghost predicate IsAdditive<E(!new)>(F: Field<E>) {
    && (forall a, b :: AddComm(F, a, b))
    && (forall a, b, c :: AddAssoc(F, a, b, c))
    && (forall a :: AddZero(F, a))
    && (forall a :: AddSelf(F, a))
  }

  ghost predicate IsField<E(!new)>(F: Field<E>) {
    && IsAdditive(F)
    && (forall a, b :: MulComm(F, a, b))
    && (forall a, b, c :: MulAssoc(F, a, b, c))
    && (forall a :: MulOne(F, a))
    && (forall a, b, c :: Distrib(F, a, b, c))
    && F.one != F.zero
    && (forall a :: a != F.zero ==> Invertible(F, a))
  }

  /** (a + b) + (c + d) = (a + c) + (b + d). */
  lemma AddSwap<E(!new)>(F: Field<E>, a: E, b: E, c: E, d: E)
    requires IsAdditive(F)
    ensures F.add(F.add(a, b), F.add(c, d)) == F.add(F.add(a, c), F.add(b, d))
  {
    assert AddAssoc(F, a, b, F.add(c, d));
    assert AddAssoc(F, b, c, d);
    assert AddComm(F, b, c);
    assert AddAssoc(F, c, b, d);
    assert AddAssoc(F, a, c, F.add(b, d));
  }

  lemma ZeroAdd<E(!new)>(F: Field<E>, a: E)
    requires IsAdditive(F)
    ensures F.add(F.zero, a) == a && F.add(a, F.zero) == a
  {
    assert AddComm(F, F.zero, a);
    assert AddZero(F, a);
  }

  /** In characteristic two, a = b exactly when a + b = 0. */
  lemma AddCancel<E(!new)>(F: Field<E>, a: E, b: E)
    requires IsAdditive(F)
    ensures F.add(a, F.add(a, b)) == b
    ensures F.add(a, b) == F.zero <==> a == b
  {
    assert AddAssoc(F, a, a, b);
    assert AddSelf(F, a);
    ZeroAdd(F, b);
    ZeroAdd(F, a);
  }

  lemma MulZero<E(!new)>(F: Field<E>, a: E)
    requires IsField(F)
    ensures F.mul(a, F.zero) == F.zero && F.mul(F.zero, a) == F.zero
  {
    var p := F.mul(a, F.zero);
    assert AddZero(F, F.zero);
    assert Distrib(F, a, F.zero, F.zero);
    assert AddSelf(F, p);
    assert MulComm(F, a, F.zero);
  }

  lemma NoZeroDivisors<E(!new)>(F: Field<E>, a: E, b: E)
    requires IsField(F)
    ensures F.mul(a, b) == F.zero <==> a == F.zero || b == F.zero
  {
    MulZero(F, a);
    MulZero(F, b);
    if a != F.zero && F.mul(a, b) == F.zero {
      assert Invertible(F, a);
      var i :| F.mul(a, i) == F.one;
      assert MulComm(F, a, i);
      assert MulAssoc(F, i, a, b);
      assert MulComm(F, F.one, b);
      assert MulOne(F, b);
      MulZero(F, i);
    }
  }

  function Pow<E>(F: Field<E>, a: E, n: nat): E {
    if n == 0 then F.one else F.mul(Pow(F, a, n - 1), a)
  }
}

/**
 Multiplication by Horner's rule: in a group of characteristic two with an additive
 operator "double", the product of x with a list of bits.  The laws of a ring follow
 from four facts about the bits.
 */
module Horner {
  import opened Algebra

  /** An additive group with a doubling operator and a bit expansion of its elements. */
  datatype Bitwise<!E> = Bitwise(zero: E, one: E, add: (E, E) -> E, double: E -> E, bits: E -> seq<bool>)

  function When<E>(B: Bitwise<E>, c: bool, x: E): E { if c then x else B.zero }

  /** sum of x * 2^k over the bits that are set, most significant bit first. */
  function Times<E>(B: Bitwise<E>, x: E, bits: seq<bool>): E {
    if bits == [] then B.zero
    else B.add(B.double(Times(B, x, bits[..|bits| - 1])), When(B, bits[|bits| - 1], x))
  }

  /** One round of Horner's rule. */
  function Round<E>(B: Bitwise<E>, x: E, z: E, c: bool): E { B.add(B.double(z), When(B, c, x)) }

  lemma TimesSnoc<E>(B: Bitwise<E>, x: E, s: seq<bool>, n: nat)
    requires n < |s|
    ensures Times(B, x, s[..n + 1]) == Round(B, x, Times(B, x, s[..n]), s[n])
  {
    assert s[..n + 1][..n] == s[..n];
  }

  lemma TimesEight<E>(B: Bitwise<E>, x: E, s: seq<bool>)
    requires |s| == 8
    ensures Times(B, x, s)
         == var z2 := Round(B, x, Round(B, x, B.zero, s[0]), s[1]);
            var z4 := Round(B, x, Round(B, x, z2, s[2]), s[3]);
            var z6 := Round(B, x, Round(B, x, z4, s[4]), s[5]);
            Round(B, x, Round(B, x, z6, s[6]), s[7])
  {
    TimesSnoc(B, x, s, 0); TimesSnoc(B, x, s, 1); TimesSnoc(B, x, s, 2); TimesSnoc(B, x, s, 3);
    TimesSnoc(B, x, s, 4); TimesSnoc(B, x, s, 5); TimesSnoc(B, x, s, 6); TimesSnoc(B, x, s, 7);
    assert s[..8] == s;
  }

  function Ring<E>(B: Bitwise<E>): Field<E> {
    Field(B.zero, B.one, B.add, (x, y) => Times(B, x, B.bits(y)))
  }

  ghost predicate DoubleAdd<E>(B: Bitwise<E>, a: E, b: E) { B.double(B.add(a, b)) == B.add(B.double(a), B.double(b)) }
  ghost predicate BitsAdd<E>(B: Bitwise<E>, a: E, b: E) { B.bits(B.add(a, b)) == XorBits(B.bits(a), B.bits(b)) }
  ghost predicate OneTimes<E>(B: Bitwise<E>, y: E) { Times(B, B.one, B.bits(y)) == y }

  function XorBits(a: seq<bool>, b: seq<bool>): seq<bool> {
    if |a| == |b| then seq(|a|, i requires 0 <= i < |a| && |a| == |b| => a[i] != b[i]) else []
  }

  ghost predicate IsBitwise<E(!new)>(B: Bitwise<E>, width: nat) {
    && IsAdditive(Ring(B))
    && (forall a, b :: DoubleAdd(B, a, b))
    && (forall a :: |B.bits(a)| == width)
    && (forall a, b :: BitsAdd(B, a, b))
    && (forall y :: OneTimes(B, y))
    && B.one != B.zero
  }

  lemma DoubleZero<E(!new)>(B: Bitwise<E>, w: nat)
    requires IsBitwise(B, w)
    ensures B.double(B.zero) == B.zero
  {
    var F := Ring(B);
    assert AddZero(F, B.zero);
    assert DoubleAdd(B, B.zero, B.zero);
    assert AddSelf(F, B.double(B.zero));
  }

  lemma WhenLaws<E(!new)>(B: Bitwise<E>, w: nat, c: bool, d: bool, a: E, b: E)
    requires IsBitwise(B, w)
    ensures When(B, c, B.add(a, b)) == B.add(When(B, c, a), When(B, c, b))
    ensures When(B, c != d, a) == B.add(When(B, c, a), When(B, d, a))
    ensures When(B, c, B.double(a)) == B.double(When(B, c, a))
  {
    var F := Ring(B);
    assert AddZero(F, B.zero);
    ZeroAdd(F, a);
    assert AddSelf(F, a);
    DoubleZero(B, w);
  }

  lemma {:induction false} TimesAddLeft<E(!new)>(B: Bitwise<E>, w: nat, a: E, b: E, bits: seq<bool>)
    requires IsBitwise(B, w)
    ensures Times(B, B.add(a, b), bits) == B.add(Times(B, a, bits), Times(B, b, bits))
  {
    var F := Ring(B);
    if bits == [] {
      assert AddZero(F, B.zero);
    } else {
      var m, c := bits[..|bits| - 1], bits[|bits| - 1];
      TimesAddLeft(B, w, a, b, m);
      assert DoubleAdd(B, Times(B, a, m), Times(B, b, m));
      WhenLaws(B, w, c, c, a, b);
      AddSwap(F, B.double(Times(B, a, m)), B.double(Times(B, b, m)), When(B, c, a), When(B, c, b));
    }
  }

  lemma {:induction false} TimesAddRight<E(!new)>(B: Bitwise<E>, w: nat, x: E, s: seq<bool>, t: seq<bool>)
    requires IsBitwise(B, w) && |s| == |t|
    ensures Times(B, x, XorBits(s, t)) == B.add(Times(B, x, s), Times(B, x, t))
  {
    var F := Ring(B);
    if s == [] {
      assert AddZero(F, B.zero);
    } else {
      var n := |s| - 1;
      TimesAddRight(B, w, x, s[..n], t[..n]);
      assert XorBits(s, t)[..n] == XorBits(s[..n], t[..n]);
      assert DoubleAdd(B, Times(B, x, s[..n]), Times(B, x, t[..n]));
      WhenLaws(B, w, s[n], t[n], x, x);
      AddSwap(F, B.double(Times(B, x, s[..n])), B.double(Times(B, x, t[..n])), When(B, s[n], x), When(B, t[n], x));
    }
  }

  lemma {:induction false} TimesDouble<E(!new)>(B: Bitwise<E>, w: nat, x: E, bits: seq<bool>)
    requires IsBitwise(B, w)
    ensures Times(B, B.double(x), bits) == B.double(Times(B, x, bits))
  {
    if bits == [] {
      DoubleZero(B, w);
    } else {
      var m, c := bits[..|bits| - 1], bits[|bits| - 1];
      TimesDouble(B, w, x, m);
      WhenLaws(B, w, c, c, x, x);
      assert DoubleAdd(B, B.double(Times(B, x, m)), When(B, c, x));
    }
  }

  /** f is additive, commutes with doubling and sends one to x. */
  ghost predicate IsScaling<E(!new)>(B: Bitwise<E>, f: E -> E, x: E) {
    && (forall a, b :: Additive(B, f, a, b))
    && (forall a :: Commutes(B, f, a))
    && f(B.one) == x
  }

  ghost predicate Additive<E>(B: Bitwise<E>, f: E -> E, a: E, b: E) { f(B.add(a, b)) == B.add(f(a), f(b)) }
  ghost predicate Commutes<E>(B: Bitwise<E>, f: E -> E, a: E) { f(B.double(a)) == B.double(f(a)) }

  /** Multiplication by x is the only additive map that commutes with doubling and sends one to x. */
  lemma ScalingUnique<E(!new)>(B: Bitwise<E>, w: nat, f: E -> E, x: E, y: E)
    requires IsBitwise(B, w) && IsScaling(B, f, x)
    ensures f(y) == Times(B, x, B.bits(y))
  {
    ScalingOnBits(B, w, f, x, B.bits(y));
    assert OneTimes(B, y);
  }

  lemma {:induction false} ScalingOnBits<E(!new)>(B: Bitwise<E>, w: nat, f: E -> E, x: E, bits: seq<bool>)
    requires IsBitwise(B, w) && IsScaling(B, f, x)
    ensures f(Times(B, B.one, bits)) == Times(B, x, bits)
  {
    var F := Ring(B);
    assert f(B.zero) == B.zero by {
      assert AddZero(F, B.zero);
      assert Additive(B, f, B.zero, B.zero);
      assert AddSelf(F, f(B.zero));
    }
    if bits == [] {
    } else {
      var m, c := bits[..|bits| - 1], bits[|bits| - 1];
      ScalingOnBits(B, w, f, x, m);
      assert Additive(B, f, B.double(Times(B, B.one, m)), When(B, c, B.one));
      assert Commutes(B, f, Times(B, B.one, m));
    }
  }

  lemma DistribHolds<E(!new)>(B: Bitwise<E>, w: nat, x: E, a: E, b: E)
    requires IsBitwise(B, w)
    ensures Distrib(Ring(B), x, a, b)
  {
    assert BitsAdd(B, a, b);
    assert |B.bits(a)| == w && |B.bits(b)| == w;
    TimesAddRight(B, w, x, B.bits(a), B.bits(b));
  }

  lemma MulCommHolds<E(!new)>(B: Bitwise<E>, w: nat, x: E, y: E)
    requires IsBitwise(B, w)
    ensures MulComm(Ring(B), x, y)
  {
    var f := a => Times(B, a, B.bits(x));
    forall a, b ensures Additive(B, f, a, b) { TimesAddLeft(B, w, a, b, B.bits(x)); }
    forall a ensures Commutes(B, f, a) { TimesDouble(B, w, a, B.bits(x)); }
    assert OneTimes(B, x);
    ScalingUnique(B, w, f, x, y);
  }

  lemma MulOneHolds<E(!new)>(B: Bitwise<E>, w: nat, x: E)
    requires IsBitwise(B, w)
    ensures MulOne(Ring(B), x)
  {
    MulCommHolds(B, w, x, B.one);
    assert OneTimes(B, x);
  }

  lemma DoubleRight<E(!new)>(B: Bitwise<E>, w: nat, x: E, y: E)
    requires IsBitwise(B, w)
    ensures Ring(B).mul(x, B.double(y)) == B.double(Ring(B).mul(x, y))
  {
    MulCommHolds(B, w, x, B.double(y));
    MulCommHolds(B, w, x, y);
    TimesDouble(B, w, y, B.bits(x));
  }

  lemma MulAssocHolds<E(!new)>(B: Bitwise<E>, w: nat, x: E, y: E, z: E)
    requires IsBitwise(B, w)
    ensures MulAssoc(Ring(B), x, y, z)
  {
    var F := Ring(B);
    var f := c => F.mul(x, F.mul(y, c));
    forall a, b ensures Additive(B, f, a, b) {
      DistribHolds(B, w, y, a, b);
      DistribHolds(B, w, x, F.mul(y, a), F.mul(y, b));
    }
    forall a ensures Commutes(B, f, a) {
      DoubleRight(B, w, y, a);
      DoubleRight(B, w, x, F.mul(y, a));
    }
    assert f(B.one) == F.mul(x, y) by { MulOneHolds(B, w, y); }
    ScalingUnique(B, w, f, F.mul(x, y), z);
  }

  /** The ring is a field as soon as every nonzero element has an inverse. */
  lemma RingIsField<E(!new)>(B: Bitwise<E>, w: nat)
    requires IsBitwise(B, w)
    requires forall a :: a != B.zero ==> Invertible(Ring(B), a)
    ensures IsField(Ring(B))
  {
    var F := Ring(B);
    forall a, b ensures MulComm(F, a, b) { MulCommHolds(B, w, a, b); }
    forall a, b, c ensures MulAssoc(F, a, b, c) { MulAssocHolds(B, w, a, b, c); }
    forall a ensures MulOne(F, a) { MulOneHolds(B, w, a); }
    forall a, b, c ensures Distrib(F, a, b, c) { DistribHolds(B, w, a, b, c); }
  }
}
