/**
 How many errors the code can correct: distinct codewords differ in more than
 "degree" places, as long as the powers of the generator element are distinct.
 */
module MinimumDistance {
  import opened Sequences
  import opened Algebra
  import opened Polynomials
  import opened ReedSolomonCode

  /** The sum of c[j] * x[j]^i. */
  function PowerSum<E>(F: Field<E>, c: seq<E>, x: seq<E>, i: nat): E
    requires |c| == |x|
  {
    if c == [] then F.zero
    else var n := |c| - 1; F.add(PowerSum(F, c[..n], x[..n], i), F.mul(c[n], Pow(F, x[n], i)))
  }

  ghost function Support<E>(F: Field<E>, c: seq<E>): set<nat> {
    set j: nat | j < |c| && c[j] != F.zero
  }

  ghost predicate VanishingSums<E>(F: Field<E>, c: seq<E>, x: seq<E>, d: nat)
    requires |c| == |x|
  {
    forall i: nat {:trigger PowerSum(F, c, x, i)} | i < d :: PowerSum(F, c, x, i) == F.zero
  }

  /** c[j] * (x[j] + r): the coefficient of the locator r disappears. */
  function Eliminate<E>(F: Field<E>, c: seq<E>, x: seq<E>, r: E): (s: seq<E>)
    requires |c| == |x|
    ensures |s| == |c|
  {
    seq(|c|, j requires 0 <= j < |c| => F.mul(c[j], F.add(x[j], r)))
  }

  /** (c * (x + r)) * p = c * (p * x) + r * (c * p). */
  lemma EliminateTerm<E(!new)>(F: Field<E>, c: E, x: E, r: E, p: E)
    requires IsField(F)
    ensures F.mul(F.mul(c, F.add(x, r)), p) == F.add(F.mul(c, F.mul(p, x)), F.mul(r, F.mul(c, p)))
  {
    assert MulAssoc(F, c, F.add(x, r), p);
    assert MulComm(F, F.add(x, r), p);
    assert Distrib(F, p, x, r);
    assert Distrib(F, c, F.mul(p, x), F.mul(p, r));
    assert MulAssoc(F, c, p, r);
    assert MulComm(F, F.mul(c, p), r);
  }

  lemma {:induction false} EliminateSum<E(!new)>(F: Field<E>, c: seq<E>, x: seq<E>, r: E, i: nat)
    requires IsField(F) && |c| == |x|
    ensures PowerSum(F, Eliminate(F, c, x, r), x, i)
         == F.add(PowerSum(F, c, x, i + 1), F.mul(r, PowerSum(F, c, x, i)))
  {
    if c == [] {
      MulZero(F, r);
      assert AddZero(F, F.zero);
    } else {
      var n := |c| - 1;
      EliminateSum(F, c[..n], x[..n], r, i);
      assert Eliminate(F, c, x, r)[..n] == Eliminate(F, c[..n], x[..n], r);
      var p := Pow(F, x[n], i);
      EliminateTerm(F, c[n], x[n], r, p);
      assert Distrib(F, r, PowerSum(F, c[..n], x[..n], i), F.mul(c[n], p));
      AddSwap(F, PowerSum(F, c[..n], x[..n], i + 1), F.mul(r, PowerSum(F, c[..n], x[..n], i)),
        F.mul(c[n], F.mul(p, x[n])), F.mul(r, F.mul(c[n], p)));
    }
  }

  lemma {:induction false} SingleTerm<E(!new)>(F: Field<E>, c: seq<E>, x: seq<E>, w: nat)
    requires IsField(F) && |c| == |x| && w < |c|
    requires forall j | 0 <= j < |c| && j != w :: c[j] == F.zero
    ensures PowerSum(F, c, x, 0) == c[w]
  {
    var n := |c| - 1;
    assert MulOne(F, c[n]);
    if w < n {
      SingleTerm(F, c[..n], x[..n], w);
      ZeroAdd(F, c[w]);
    } else {
      ZeroTerms(F, c[..n], x[..n]);
      ZeroAdd(F, c[w]);
    }
  }

  lemma {:induction false} ZeroTerms<E(!new)>(F: Field<E>, c: seq<E>, x: seq<E>)
    requires IsField(F) && |c| == |x|
    requires forall j | 0 <= j < |c| :: c[j] == F.zero
    ensures PowerSum(F, c, x, 0) == F.zero
  {
    if c == [] {
    } else {
      var n := |c| - 1;
      ZeroTerms(F, c[..n], x[..n]);
      assert MulOne(F, F.zero);
      ZeroAdd(F, F.zero);
    }
  }

  /** Vandermonde: d power sums over at most d distinct locators vanish only if every coefficient does. */
  lemma {:induction false} Vandermonde<E(!new)>(F: Field<E>, c: seq<E>, x: seq<E>, d: nat)
    requires IsField(F) && |c| == |x| && Distinct(x)
    requires VanishingSums(F, c, x, d)
    requires |Support(F, c)| <= d
    ensures Support(F, c) == {}
    decreases d
  {
    if w :| w in Support(F, c) {
      var r := x[w];
      var c' := Eliminate(F, c, x, r);
      assert d >= 1 by { assert {w} <= Support(F, c); SubsetSize({w}, Support(F, c)); }
      assert Support(F, c') == Support(F, c) - {w} by {
        forall j: nat | j < |c| ensures c'[j] != F.zero <==> c[j] != F.zero && j != w {
          NoZeroDivisors(F, c[j], F.add(x[j], r));
          AddCancel(F, x[j], r);
        }
      }
      forall i: nat | i < d - 1 ensures PowerSum(F, c', x, i) == F.zero {
        EliminateSum(F, c, x, r, i);
        assert PowerSum(F, c, x, i) == F.zero && PowerSum(F, c, x, i + 1) == F.zero;
        MulZero(F, r);
        ZeroAdd(F, F.zero);
      }
      Vandermonde(F, c', x, d - 1);
      forall j | 0 <= j < |c| && j != w ensures c[j] == F.zero {
        assert j !in Support(F, c');
      }
      SingleTerm(F, c, x, w);
      assert false;
    }
  }

  lemma {:induction false} SubsetSize<T>(a: set<T>, b: set<T>)
    requires a <= b
    ensures |a| <= |b|
  {
    if a == {} {
    } else {
      var x :| x in a;
      SubsetSize(a - {x}, b - {x});
    }
  }

  // ----- powers -----

  lemma {:induction false} PowMul<E(!new)>(F: Field<E>, x: E, y: E, i: nat)
    requires IsField(F)
    ensures Pow(F, F.mul(x, y), i) == F.mul(Pow(F, x, i), Pow(F, y, i))
  {
    if i == 0 {
      assert MulOne(F, F.one);
    } else {
      PowMul(F, x, y, i - 1);
      var p, q := Pow(F, x, i - 1), Pow(F, y, i - 1);
      assert MulAssoc(F, p, q, F.mul(x, y)) && MulAssoc(F, q, x, y) && MulComm(F, q, x);
      assert MulAssoc(F, x, q, y) && MulAssoc(F, p, x, F.mul(q, y));
    }
  }

  lemma {:induction false} PowAdd<E(!new)>(F: Field<E>, a: E, i: nat, j: nat)
    requires IsField(F)
    ensures Pow(F, a, i + j) == F.mul(Pow(F, a, i), Pow(F, a, j))
  {
    if j == 0 {
      assert MulOne(F, Pow(F, a, i));
    } else {
      PowAdd(F, a, i, j - 1);
      assert MulAssoc(F, Pow(F, a, i), Pow(F, a, j - 1), a);
    }
  }

  lemma {:induction false} PowNonzero<E(!new)>(F: Field<E>, a: E, i: nat)
    requires IsField(F) && a != F.zero
    ensures Pow(F, a, i) != F.zero
  {
    if i == 0 {
    } else {
      PowNonzero(F, a, i - 1);
      NoZeroDivisors(F, Pow(F, a, i - 1), a);
    }
  }

  /** No positive power of a below n is one. */
  ghost predicate OrderAtLeast<E>(F: Field<E>, a: E, n: nat) {
    a != F.zero && forall k: nat {:trigger Pow(F, a, k)} | 0 < k < n :: Pow(F, a, k) != F.one
  }

  lemma PowersDistinct<E(!new)>(F: Field<E>, a: E, n: nat, i: nat, j: nat)
    requires IsField(F) && OrderAtLeast(F, a, n) && i < j < n
    ensures Pow(F, a, i) != Pow(F, a, j)
  {
    var p, q := Pow(F, a, i), Pow(F, a, j - i);
    PowAdd(F, a, i, j - i);
    PowNonzero(F, a, i);
    assert q != F.one;
    assert Distrib(F, p, F.one, q) && MulOne(F, p);
    NoZeroDivisors(F, p, F.add(F.one, q));
    AddCancel(F, F.one, q);
    AddCancel(F, p, F.mul(p, q));
  }

  // ----- evaluation as a power sum -----

  /** Position j of a block of n symbols is the coefficient of x^(n-1-j). */
  function Locators<E>(F: Field<E>, a: E, n: nat): (x: seq<E>)
    ensures |x| == n
  {
    seq(n, j requires 0 <= j < n => Pow(F, a, n - 1 - j))
  }

  lemma {:induction false} ScaleLocators<E(!new)>(F: Field<E>, c: seq<E>, x: seq<E>, y: seq<E>, a: E, i: nat)
    requires IsField(F) && |c| == |x| == |y|
    requires forall j | 0 <= j < |x| :: y[j] == F.mul(x[j], a)
    ensures PowerSum(F, c, y, i) == F.mul(PowerSum(F, c, x, i), Pow(F, a, i))
  {
    var q := Pow(F, a, i);
    if c == [] {
      MulZero(F, q);
    } else {
      var n := |c| - 1;
      ScaleLocators(F, c[..n], x[..n], y[..n], a, i);
      PowMul(F, x[n], a, i);
      assert MulAssoc(F, c[n], Pow(F, x[n], i), q);
      MulAdd(F, PowerSum(F, c[..n], x[..n], i), F.mul(c[n], Pow(F, x[n], i)), q);
    }
  }

  lemma {:induction false} PowOne<E(!new)>(F: Field<E>, i: nat)
    requires IsField(F)
    ensures Pow(F, F.one, i) == F.one
  {
    if i == 0 {
    } else {
      PowOne(F, i - 1);
      assert MulOne(F, F.one);
    }
  }

  lemma {:induction false} EvalIsPowerSum<E(!new)>(F: Field<E>, a: E, c: seq<E>, i: nat)
    requires IsField(F)
    ensures Eval(F, c, Pow(F, a, i)) == PowerSum(F, c, Locators(F, a, |c|), i)
  {
    if c == [] {
    } else {
      var n := |c| - 1;
      EvalIsPowerSum(F, a, c[..n], i);
      var x := Locators(F, a, |c|);
      forall j | 0 <= j < n ensures x[..n][j] == F.mul(Locators(F, a, n)[j], a) {
        assert x[j] == Pow(F, a, n - 1 - j + 1);
      }
      ScaleLocators(F, c[..n], Locators(F, a, n), x[..n], a, i);
      assert x[n] == Pow(F, a, 0);
      PowOne(F, i);
      assert MulOne(F, c[n]);
    }
  }

  // ----- the distance of the code -----

  /** A nonzero codeword of a block no longer than the order of a has more than d nonzero symbols. */
  lemma MinimumWeight<E(!new)>(F: Field<E>, a: E, order: nat, c: seq<E>, d: nat)
    requires IsField(F) && OrderAtLeast(F, a, order) && |c| <= order
    requires IsCodeword(F, a, c, d) && Support(F, c) != {}
    ensures |Support(F, c)| > d
  {
    if |Support(F, c)| <= d {
      var x := Locators(F, a, |c|);
      forall j, k | 0 <= j < k < |x| ensures x[j] != x[k] {
        PowersDistinct(F, a, order, |x| - 1 - k, |x| - 1 - j);
      }
      forall i: nat | i < d ensures PowerSum(F, c, x, i) == F.zero { EvalIsPowerSum(F, a, c, i); }
      Vandermonde(F, c, x, d);
    }
  }

  /** The positions where two blocks differ. */
  ghost function Errors<E>(c: seq<E>, c': seq<E>): set<nat>
    requires |c| == |c'|
  {
    set j: nat | j < |c| && c[j] != c'[j]
  }

  ghost function Distance<E>(c: seq<E>, c': seq<E>): nat
    requires |c| == |c'|
  {
    |Errors(c, c')|
  }

  lemma DistanceSymmetric<E>(c: seq<E>, c': seq<E>)
    requires |c| == |c'|
    ensures Distance(c, c') == Distance(c', c)
  {
    assert Errors(c, c') == Errors(c', c);
  }

  lemma Triangle<E>(a: seq<E>, b: seq<E>, c: seq<E>)
    requires |a| == |b| == |c|
    ensures Distance(a, c) <= Distance(a, b) + Distance(b, c)
  {
    SubsetSize(Errors(a, c), Errors(a, b) + Errors(b, c));
  }

  /** Two codewords of the same length differ nowhere or in more than d places. */
  lemma CodewordDistance<E(!new)>(F: Field<E>, a: E, order: nat, c: seq<E>, c': seq<E>, d: nat)
    requires IsField(F) && OrderAtLeast(F, a, order) && |c| == |c'| <= order
    requires IsCodeword(F, a, c, d) && IsCodeword(F, a, c', d) && c != c'
    ensures Distance(c, c') > d
  {
    var s := Sum(F, c, c');
    forall i: nat | i < d ensures Eval(F, s, Pow(F, a, i)) == F.zero {
      EvalSum(F, c, c', Pow(F, a, i));
      assert AddZero(F, F.zero);
    }
    assert Support(F, s) == Errors(c, c') by {
      forall j: nat | j < |c| ensures s[j] != F.zero <==> c[j] != c'[j] { AddCancel(F, c[j], c'[j]); }
    }
    var j: nat :| j < |c| && c[j] != c'[j];
    assert j in Support(F, s);
    MinimumWeight(F, a, order, s, d);
  }

  /** Distinct data give codewords that differ in more than "degree" places. */
  lemma EncodeDistance<E(!new)>(F: Field<E>, a: E, order: nat, data: seq<E>, data': seq<E>, degree: nat)
    requires IsField(F) && OrderAtLeast(F, a, order) && degree >= 1
    requires |data| == |data'| && |data| + degree <= order && data != data'
    ensures Distance(Encode(F, a, data, degree), Encode(F, a, data', degree)) > degree
  {
    var c, c' := Encode(F, a, data, degree), Encode(F, a, data', degree);
    EncodeIsCodeword(F, a, data, degree);
    EncodeIsCodeword(F, a, data', degree);
    assert c[..|data|] == data && c'[..|data|] == data';
    CodewordDistance(F, a, order, c, c', degree);
  }

  /** A block with t errors, 2t <= degree, is within reach of only one codeword. */
  lemma UniqueDecoding<E(!new)>(F: Field<E>, a: E, order: nat, data: seq<E>, data': seq<E>, degree: nat,
      received: seq<E>, t: nat)
    requires IsField(F) && OrderAtLeast(F, a, order) && degree >= 1
    requires |data| == |data'| && |data| + degree == |received| <= order && 2 * t <= degree
    requires Distance(Encode(F, a, data, degree), received) <= t
    requires Distance(received, Encode(F, a, data', degree)) <= t
    ensures data == data'
  {
    if data != data' {
      EncodeDistance(F, a, order, data, data', degree);
      Triangle(Encode(F, a, data, degree), received, Encode(F, a, data', degree));
    }
  }

  /** The error correction codewords are the only ones for which every syndrome is zero. */
  lemma SyndromesCharacterise<E(!new)>(F: Field<E>, a: E, order: nat, data: seq<E>, ecc: seq<E>)
    requires IsField(F) && OrderAtLeast(F, a, order) && |ecc| >= 1 && |data| + |ecc| <= order
    ensures IsCodeword(F, a, data + ecc, |ecc|) <==> data + ecc == Encode(F, a, data, |ecc|)
  {
    var c, c' := data + ecc, Encode(F, a, data, |ecc|);
    EncodeIsCodeword(F, a, data, |ecc|);
    if IsCodeword(F, a, c, |ecc|) && c != c' {
      CodewordDistance(F, a, order, c, c', |ecc|);
      var tail := Interval(|data|, |c|);
      assert Errors(c, c') <= tail;
      SubsetSize(Errors(c, c'), tail);
      assert false;
    }
  }

  ghost function Interval(lo: nat, hi: nat): (s: set<nat>)
    requires lo <= hi
    ensures forall j: nat {:trigger j in s} :: j in s <==> lo <= j < hi
    ensures |s| == hi - lo
    decreases hi
  {
    if lo == hi then {} else Interval(lo, hi - 1) + {hi - 1}
  }
}
