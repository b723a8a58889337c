/**
 Reed-Solomon error correction codewords, over any field of characteristic two.
 */
module ReedSolomonCode {
  import opened Algebra
  import opened Polynomials

  // ----- the generator polynomial -----

  /** The product of (x - a^i) for i < n. */
  function Generator<E>(F: Field<E>, a: E, n: nat): (g: seq<E>)
    ensures |g| == n + 1
  {
    if n == 0 then [F.one] else Product(F, Generator(F, a, n - 1), [F.one, Pow(F, a, n - 1)])
  }

  lemma {:induction false} GeneratorRoots<E(!new)>(F: Field<E>, a: E, n: nat, i: nat)
    requires IsField(F) && i < n
    ensures Eval(F, Generator(F, a, n), Pow(F, a, i)) == F.zero
  {
    var x, r := Pow(F, a, i), Pow(F, a, n - 1);
    EvalProduct(F, Generator(F, a, n - 1), [F.one, r], x);
    if i == n - 1 {
      EvalLinear(F, r, x);
      assert AddSelf(F, r);
    } else {
      GeneratorRoots(F, a, n - 1, i);
    }
    NoZeroDivisors(F, Eval(F, Generator(F, a, n - 1), x), Eval(F, [F.one, r], x));
  }

  lemma {:induction false} GeneratorMonic<E(!new)>(F: Field<E>, a: E, n: nat)
    requires IsField(F)
    ensures Generator(F, a, n)[0] == F.one
  {
    if n == 0 {
    } else {
      GeneratorMonic(F, a, n - 1);
      ProductLinear(F, Generator(F, a, n - 1), Pow(F, a, n - 1));
      assert AddZero(F, F.one);
    }
  }

  /** The d lowest coefficients of the generator of degree i. */
  function LowCoefficients<E>(F: Field<E>, a: E, d: nat, i: nat): (s: seq<E>)
    ensures |s| == d
  {
    (Zeros(F, d) + Generator(F, a, i))[i + 1..]
  }

  lemma Commuted<E(!new)>(F: Field<E>, up: E, r: E, x: E)
    requires IsField(F)
    ensures F.add(up, F.mul(r, x)) == F.add(F.mul(x, r), up)
  {
    assert MulComm(F, r, x) && AddComm(F, up, F.mul(r, x));
  }

  lemma ZeroPlusZero<E(!new)>(F: Field<E>)
    requires IsField(F)
    ensures F.add(F.zero, F.zero) == F.zero
  {
    ZeroAdd(F, F.zero);
  }

  /** Multiplication by x + a^i, with zeros in front. */
  lemma PaddedProduct<E(!new)>(F: Field<E>, a: E, d: nat, i: nat, t: nat)
    requires IsField(F) && 1 <= t < d + i + 2
    ensures var s, s' := Zeros(F, d) + Generator(F, a, i), Zeros(F, d) + Generator(F, a, i + 1);
            s'[t] == F.add(if t < |s| then s[t] else F.zero, F.mul(Pow(F, a, i), s[t - 1]))
  {
    hide IsField, Pow;
    ProductLinear(F, Generator(F, a, i), Pow(F, a, i));
    MulZero(F, Pow(F, a, i));
    ZeroPlusZero(F);
  }

  lemma LowCoefficientsStep<E(!new)>(F: Field<E>, a: E, d: nat, i: nat, j: nat)
    requires IsField(F) && j < d
    ensures LowCoefficients(F, a, d, i + 1)[j]
         == var low := LowCoefficients(F, a, d, i);
            F.add(F.mul(low[j], Pow(F, a, i)), if j + 1 < d then low[j + 1] else F.zero)
  {
    hide IsField, Pow, Generator;
    var s, t := Zeros(F, d) + Generator(F, a, i), i + 2 + j;
    PaddedProduct(F, a, d, i, t);
    Commuted(F, if t < |s| then s[t] else F.zero, Pow(F, a, i), s[t - 1]);
  }

  lemma LowCoefficientsNext<E(!new)>(F: Field<E>, a: E, d: nat, i: nat, low: seq<E>, next: seq<E>)
    requires IsField(F) && |next| == d && low == LowCoefficients(F, a, d, i)
    requires forall j {:trigger next[j]} | 0 <= j < d ::
               next[j] == F.add(F.mul(low[j], Pow(F, a, i)), if j + 1 < d then low[j + 1] else F.zero)
    ensures next == LowCoefficients(F, a, d, i + 1)
  {
    forall j | 0 <= j < d ensures next[j] == LowCoefficients(F, a, d, i + 1)[j] {
      LowCoefficientsStep(F, a, d, i, j);
    }
  }

  // ----- division -----

  /** The next quotient coefficient, when the digit d is brought down. */
  function Factor<E>(F: Field<E>, rem: seq<E>, d: E): E
    requires rem != []
  {
    F.add(d, rem[0])
  }

  function Reduce<E>(F: Field<E>, rem: seq<E>, d: E, g: seq<E>): (s: seq<E>)
    requires |rem| == |g| >= 1
    ensures |s| == |g|
  {
    Sum(F, rem[1..] + [F.zero], Scale(F, Factor(F, rem, d), g))
  }

  /** The remainder of data * x^|g| modulo the monic polynomial [1] + g, by long division. */
  function Remainder<E>(F: Field<E>, data: seq<E>, g: seq<E>): (rem: seq<E>)
    requires |g| >= 1
    ensures |rem| == |g|
  {
    if data == [] then Zeros(F, |g|)
    else Reduce(F, Remainder(F, data[..|data| - 1], g), data[|data| - 1], g)
  }

  function Quotient<E>(F: Field<E>, data: seq<E>, g: seq<E>): (q: seq<E>)
    requires |g| >= 1
    ensures |q| == |data|
  {
    if data == [] then []
    else Quotient(F, data[..|data| - 1], g) + [Factor(F, Remainder(F, data[..|data| - 1], g), data[|data| - 1])]
  }

  /** p * x + c * ([1] + g), where only the last |g| coefficients of p are in reach of g. */
  function AddMultiple<E>(F: Field<E>, p: seq<E>, c: E, g: seq<E>): (s: seq<E>)
    requires |p| >= |g| >= 1
  {
    var n := |p| - |g|;
    p[..n] + [F.add(p[n], c)] + Sum(F, p[n + 1..] + [F.zero], Scale(F, c, g))
  }

  lemma AddMultipleIsSum<E(!new)>(F: Field<E>, p: seq<E>, c: E, g: seq<E>)
    requires IsField(F) && |p| >= |g| >= 1
    ensures Sum(F, p + [F.zero], Zeros(F, |p| - |g|) + Scale(F, c, [F.one] + g)) == AddMultiple(F, p, c, g)
  {
    var n := |p| - |g|;
    var low, f := p[n + 1..] + [F.zero], Scale(F, c, g);
    assert Scale(F, c, [F.one] + g) == [c] + f by { assert MulOne(F, c); }
    assert p + [F.zero] == p[..n] + ([p[n]] + low);
    SumConcat(F, p[..n], [p[n]] + low, Zeros(F, n), [c] + f);
    SumConcat(F, [p[n]], low, [c], f);
    SumZeros(F, p[..n]);
    assert Sum(F, [p[n]], [c]) == [F.add(p[n], c)];
  }

  /** One more quotient coefficient leaves the leading coefficients alone and reduces the rest. */
  lemma ProductSnoc<E(!new)>(F: Field<E>, q: seq<E>, c: E, g: seq<E>, p: seq<E>)
    requires IsField(F) && |g| >= 1 && p == Product(F, q, [F.one] + g)
    ensures Product(F, q + [c], [F.one] + g) == AddMultiple(F, p, c, g)
  {
    assert (q + [c])[..|q|] == q;
    AddMultipleIsSum(F, p, c, g);
  }

  /** One step of the long division keeps data * x^|g| = quotient * ([1] + g) + remainder. */
  lemma DivisionStep<E(!new)>(F: Field<E>, q: seq<E>, m: seq<E>, rem: seq<E>, d: E, g: seq<E>)
    requires IsField(F) && |rem| == |g| >= 1
    requires m + rem == Product(F, q, [F.one] + g)
    ensures Product(F, q + [Factor(F, rem, d)], [F.one] + g) == m + [d] + Reduce(F, rem, d, g)
  {
    var p, n, f := m + rem, |m|, Factor(F, rem, d);
    ProductSnoc(F, q, f, g, p);
    assert p[..n] == m && p[n] == rem[0] && p[n + 1..] == rem[1..];
    AddCancel(F, rem[0], d);
    assert AddComm(F, d, rem[0]);
  }

  /** data * x^|g| = quotient * ([1] + g) + remainder. */
  lemma {:induction false} Division<E(!new)>(F: Field<E>, data: seq<E>, g: seq<E>)
    requires IsField(F) && |g| >= 1
    ensures Product(F, Quotient(F, data, g), [F.one] + g) == data + Remainder(F, data, g)
  {
    if data == [] {
    } else {
      var m, d := data[..|data| - 1], data[|data| - 1];
      Division(F, m, g);
      DivisionStep(F, Quotient(F, m, g), m, Remainder(F, m, g), d, g);
      assert data == m + [d];
    }
  }

  /** What the last step of the division leaves determines what was there before it. */
  lemma SplitMultiple<E(!new)>(F: Field<E>, data: seq<E>, rem: seq<E>, p: seq<E>, c: E, g: seq<E>, n: nat)
    requires |data| == n + 1 && |rem| == |g| >= 1 && |p| == n + |g| && data + rem == AddMultiple(F, p, c, g)
    ensures p == data[..n] + p[n..] && data[n] == F.add(p[n..][0], c)
    ensures rem == Sum(F, p[n..][1..] + [F.zero], Scale(F, c, g))
  {
    hide Sum, Scale;
    assert p[n + 1..] == p[n..][1..];
    assert p[..n] == (data + rem)[..n] == data[..n];
    assert data[n] == (data + rem)[n];
    assert rem == (data + rem)[n + 1..];
  }

  /** Quotient and remainder are the only ones of their lengths. */
  lemma {:induction false} DivisionUnique<E(!new)>(F: Field<E>, data: seq<E>, g: seq<E>, q: seq<E>, rem: seq<E>)
    requires IsField(F) && |g| >= 1 && |q| == |data| && |rem| == |g|
    requires Product(F, q, [F.one] + g) == data + rem
    ensures q == Quotient(F, data, g) && rem == Remainder(F, data, g)
  {
    if data == [] {
      assert rem == Zeros(F, |g|);
    } else {
      hide Product, Sum, Scale, AddMultiple;
      var n := |data| - 1;
      var m, c, p := q[..n], q[n], Product(F, q[..n], [F.one] + g);
      assert q == m + [c];
      ProductSnoc(F, m, c, g, p);
      SplitMultiple(F, data, rem, p, c, g, n);
      var r := p[n..];
      DivisionUnique(F, data[..n], g, m, r);
      AddCancel(F, r[0], c);
      assert AddComm(F, r[0], data[n]);
    }
  }

  // ----- codewords -----

  /** A block of data followed by its error correction codewords. */
  function Encode<E>(F: Field<E>, a: E, data: seq<E>, degree: nat): (c: seq<E>)
    requires degree >= 1
    ensures |c| == |data| + degree
  {
    data + Remainder(F, data, Generator(F, a, degree)[1..])
  }

  /** All d syndromes of the received block are zero. */
  ghost predicate IsCodeword<E>(F: Field<E>, a: E, c: seq<E>, d: nat) {
    forall i: nat {:trigger Pow(F, a, i)} | i < d :: Eval(F, c, Pow(F, a, i)) == F.zero
  }

  lemma EncodeIsCodeword<E(!new)>(F: Field<E>, a: E, data: seq<E>, degree: nat)
    requires IsField(F) && degree >= 1
    ensures IsCodeword(F, a, Encode(F, a, data, degree), degree)
  {
    var gen := Generator(F, a, degree);
    var g := gen[1..];
    GeneratorMonic(F, a, degree);
    assert gen == [F.one] + g;
    Division(F, data, g);
    forall i: nat | i < degree ensures Eval(F, Encode(F, a, data, degree), Pow(F, a, i)) == F.zero {
      GeneratorRoots(F, a, degree, i);
      EvalProduct(F, Quotient(F, data, g), gen, Pow(F, a, i));
      MulZero(F, Eval(F, Quotient(F, data, g), Pow(F, a, i)));
    }
  }
}
