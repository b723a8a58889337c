/**
 Polynomials over a field of characteristic two, as sequences of coefficients
 from the highest power to the lowest.
 */
module Polynomials {
  import opened Sequences
  import opened Algebra

  function Zeros<E>(F: Field<E>, n: nat): (s: seq<E>)
    ensures |s| == n
    ensures forall i {:trigger s[i]} | 0 <= i < n :: s[i] == F.zero
  {
    Repeat(F.zero, n)
  }

  /** The sum of two polynomials with the same number of coefficients. */
  function Sum<E>(F: Field<E>, a: seq<E>, b: seq<E>): (s: seq<E>)
    requires |a| == |b|
    ensures |s| == |a|
    ensures forall i {:trigger s[i]} | 0 <= i < |a| :: s[i] == F.add(a[i], b[i])
  {
    seq(|a|, i requires 0 <= i < |a| => F.add(a[i], b[i]))
  }

  function Scale<E>(F: Field<E>, c: E, a: seq<E>): (s: seq<E>)
    ensures |s| == |a|
    ensures forall i {:trigger s[i]} | 0 <= i < |a| :: s[i] == F.mul(c, a[i])
  {
    seq(|a|, i requires 0 <= i < |a| => F.mul(c, a[i]))
  }

  /** The product, with one coefficient per power up to the sum of the degrees. */
  function Product<E>(F: Field<E>, a: seq<E>, b: seq<E>): (p: seq<E>)
    requires |b| >= 1
    ensures |p| == |a| + |b| - 1
  {
    if a == [] then Zeros(F, |b| - 1)
    else Sum(F, Product(F, a[..|a| - 1], b) + [F.zero], Zeros(F, |a| - 1) + Scale(F, a[|a| - 1], b))
  }

  /** The value of the polynomial at x. */
  function Eval<E>(F: Field<E>, a: seq<E>, x: E): E {
    if a == [] then F.zero else F.add(F.mul(Eval(F, a[..|a| - 1], x), x), a[|a| - 1])
  }

  lemma SumConcat<E>(F: Field<E>, a: seq<E>, b: seq<E>, c: seq<E>, d: seq<E>)
    requires |a| == |c| && |b| == |d|
    ensures Sum(F, a + b, c + d) == Sum(F, a, c) + Sum(F, b, d)
  {
  }

  lemma SumZeros<E(!new)>(F: Field<E>, a: seq<E>)
    requires IsAdditive(F)
    ensures Sum(F, a, Zeros(F, |a|)) == a
  {
    forall i | 0 <= i < |a| ensures F.add(a[i], F.zero) == a[i] { assert AddZero(F, a[i]); }
  }

  // ----- evaluation is a ring homomorphism -----

  lemma EvalSnoc<E>(F: Field<E>, a: seq<E>, c: E, x: E)
    ensures Eval(F, a + [c], x) == F.add(F.mul(Eval(F, a, x), x), c)
  {
    assert (a + [c])[..|a|] == a;
  }

  lemma MulAdd<E(!new)>(F: Field<E>, a: E, b: E, x: E)
    requires IsField(F)
    ensures F.mul(F.add(a, b), x) == F.add(F.mul(a, x), F.mul(b, x))
  {
    assert MulComm(F, F.add(a, b), x) && MulComm(F, a, x) && MulComm(F, b, x);
    assert Distrib(F, x, a, b);
  }

  lemma {:induction false} EvalSum<E(!new)>(F: Field<E>, a: seq<E>, b: seq<E>, x: E)
    requires IsField(F) && |a| == |b|
    ensures Eval(F, Sum(F, a, b), x) == F.add(Eval(F, a, x), Eval(F, b, x))
  {
    if a == [] {
      assert AddZero(F, F.zero);
    } else {
      var n := |a| - 1;
      EvalSum(F, a[..n], b[..n], x);
      assert Sum(F, a, b)[..n] == Sum(F, a[..n], b[..n]);
      MulAdd(F, Eval(F, a[..n], x), Eval(F, b[..n], x), x);
      AddSwap(F, F.mul(Eval(F, a[..n], x), x), F.mul(Eval(F, b[..n], x), x), a[n], b[n]);
    }
  }

  lemma {:induction false} EvalScale<E(!new)>(F: Field<E>, c: E, a: seq<E>, x: E)
    requires IsField(F)
    ensures Eval(F, Scale(F, c, a), x) == F.mul(c, Eval(F, a, x))
  {
    if a == [] {
      MulZero(F, c);
    } else {
      var n := |a| - 1;
      EvalScale(F, c, a[..n], x);
      assert Scale(F, c, a)[..n] == Scale(F, c, a[..n]);
      assert MulAssoc(F, c, Eval(F, a[..n], x), x);
      assert Distrib(F, c, F.mul(Eval(F, a[..n], x), x), a[n]);
    }
  }

  lemma {:induction false} EvalLeadingZeros<E(!new)>(F: Field<E>, n: nat, a: seq<E>, x: E)
    requires IsField(F)
    ensures Eval(F, Zeros(F, n) + a, x) == Eval(F, a, x)
    decreases |a|, n
  {
    var s := Zeros(F, n) + a;
    if a == [] {
      assert s == Zeros(F, n);
      if n != 0 {
        assert s[..n - 1] == Zeros(F, n - 1) + a;
        EvalLeadingZeros(F, n - 1, a, x);
        MulZero(F, x);
        assert AddZero(F, F.zero);
      }
    } else {
      EvalLeadingZeros(F, n, a[..|a| - 1], x);
      assert s[..|s| - 1] == Zeros(F, n) + a[..|a| - 1];
    }
  }

  /** A root of a factor is a root of the product. */
  lemma {:induction false} EvalProduct<E(!new)>(F: Field<E>, a: seq<E>, b: seq<E>, x: E)
    requires IsField(F) && |b| >= 1
    ensures Eval(F, Product(F, a, b), x) == F.mul(Eval(F, a, x), Eval(F, b, x))
  {
    var eb := Eval(F, b, x);
    if a == [] {
      EvalLeadingZeros(F, |b| - 1, [], x);
      assert Zeros(F, |b| - 1) + [] == Zeros(F, |b| - 1);
      MulZero(F, eb);
    } else {
      var m, c := a[..|a| - 1], a[|a| - 1];
      EvalProduct(F, m, b, x);
      EvalSum(F, Product(F, m, b) + [F.zero], Zeros(F, |a| - 1) + Scale(F, c, b), x);
      EvalSnoc(F, Product(F, m, b), F.zero, x);
      assert AddZero(F, F.mul(Eval(F, Product(F, m, b), x), x));
      EvalLeadingZeros(F, |a| - 1, Scale(F, c, b), x);
      EvalScale(F, c, b, x);
      // (em * eb) * x + c * eb == (em * x + c) * eb
      var em := Eval(F, m, x);
      assert MulAssoc(F, em, eb, x) && MulComm(F, eb, x) && MulAssoc(F, em, x, eb);
      MulAdd(F, F.mul(em, x), c, eb);
    }
  }

  lemma EvalLinear<E(!new)>(F: Field<E>, r: E, x: E)
    requires IsField(F)
    ensures Eval(F, [F.one, r], x) == F.add(x, r)
  {
    assert [F.one, r][..1] == [F.one] && [F.one][..0] == [];
    MulZero(F, x);
    ZeroAdd(F, F.one);
    assert Eval(F, [F.one], x) == F.one;
    assert MulComm(F, F.one, x) && MulOne(F, x);
  }

  /** Multiplying by x + r shifts the coefficients and adds r times each of them one place down. */
  lemma {:induction false} ProductLinear<E(!new)>(F: Field<E>, a: seq<E>, r: E)
    requires IsField(F)
    ensures Product(F, a, [F.one, r]) == Sum(F, a + [F.zero], [F.zero] + Scale(F, r, a))
  {
    if a == [] {
      assert AddZero(F, F.zero);
    } else {
      var n := |a| - 1;
      var m, c := a[..n], a[n];
      ProductLinear(F, m, r);
      var p, q := Product(F, a, [F.one, r]), Sum(F, a + [F.zero], [F.zero] + Scale(F, r, a));
      forall i | 0 <= i < |p| ensures p[i] == q[i] {
        assert MulOne(F, c) && MulComm(F, c, r);
        ZeroAdd(F, F.zero);
        if i < n {
          ZeroAdd(F, Product(F, m, [F.one, r])[i]);
        } else if i == n {
          var s := if n == 0 then F.zero else F.mul(r, m[n - 1]);
          assert Product(F, m, [F.one, r])[n] == F.add(F.zero, s);
          ZeroAdd(F, s);
          assert AddComm(F, s, c);
        }
      }
    }
  }
}
