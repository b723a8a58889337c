/**
 The encoder's Reed-Solomon routines over GF(2^8), and what their results mean.
 */
module ReedSolomonBytes {
  import opened Algebra
  import opened Bytes
  import opened GaloisField
  import opened Polynomials
  import opened ReedSolomonCode

  const REED_SOLOMON_DEGREE_MAX := 30
  const ALPHA: byte := 2

  function GeneratorOf(degree: nat): (g: seq<byte>)
    ensures |g| == degree + 1
  {
    Generator(GF, ALPHA, degree)
  }

  /** The source's inner loop: multiplies the stored polynomial by x + root, dropping the leading term. */
  method MultiplyByLinear(result: array<byte>, degree: nat, root: byte)
    requires degree <= result.Length
    modifies result
    ensures forall j | 0 <= j < degree ::
              result[j] == GF.add(GF.mul(old(result[j]), root), if j + 1 < degree then old(result[j + 1]) else GF.zero)
    ensures result[degree..] == old(result[degree..])
  {
    for j := 0 to degree
      invariant forall k | 0 <= k < j ::
                  result[k] == GF.add(GF.mul(old(result[k]), root),
                    if k + 1 < degree then old(result[k + 1]) else GF.zero)
      invariant forall k | j <= k < result.Length :: result[k] == old(result[k])
    {
      var p := ReedSolomonMultiply(result[j], root);
      result[j] := p;
      if j + 1 < degree {
        result[j] := result[j] ^ result[j + 1];
      }
    }
  }

  lemma DivisorStart(degree: nat)
    requires degree >= 1
    ensures LowCoefficients(GF, ALPHA, degree, 0) == seq(degree - 1, _ => 0 as byte) + [1]
  {
  }

  lemma DivisorEnd(degree: nat)
    ensures [1] + LowCoefficients(GF, ALPHA, degree, degree) == GeneratorOf(degree)
  {
    BytesFormField();
    GeneratorMonic(GF, ALPHA, degree);
  }

  method ReedSolomonComputeDivisor(degree: nat, result: array<byte>)
    requires 1 <= degree <= REED_SOLOMON_DEGREE_MAX && degree <= result.Length
    modifies result
    ensures [1] + result[..degree] == GeneratorOf(degree)
    ensures result[degree..] == old(result[degree..])
  {
    Clear(result, 0, degree);
    result[degree - 1] := 1;
    DivisorStart(degree);
    var root: byte := 1;
    for i := 0 to degree
      invariant root == Pow(GF, ALPHA, i)
      invariant result[..degree] == LowCoefficients(GF, ALPHA, degree, i)
      invariant result[degree..] == old(result[degree..])
    {
      ghost var low := result[..degree];
      MultiplyByLinear(result, degree, root);
      BytesFormField();
      LowCoefficientsNext(GF, ALPHA, degree, i, low, result[..degree]);
      root := ReedSolomonMultiply(root, 2);
    }
    DivisorEnd(degree);
  }

  /** memmove(&a[at], &a[at + 1], n - 1), then a[at + n - 1] = 0. */
  method ShiftDown(a: array<byte>, at: nat, n: nat)
    requires 1 <= n && at + n <= a.Length
    modifies a
    ensures a[at..at + n] == old(a[at + 1..at + n]) + [0]
    ensures a[..at] == old(a[..at]) && a[at + n..] == old(a[at + n..])
  {
    for j := at to at + n - 1
      invariant forall k | 0 <= k < a.Length :: a[k] == if at <= k < j then old(a[k + 1]) else old(a[k])
    {
      a[j] := a[j + 1];
    }
    a[at + n - 1] := 0;
  }

  lemma MulCommutes(x: byte, y: byte)
    ensures GF.mul(x, y) == GF.mul(y, x)
  {
    BytesFormField();
    assert MulComm(GF, x, y);
  }

  lemma SumIsXor(x: byte, y: byte)
    ensures GF.add(x, y) == x ^ y
  {
  }

  /** result[at + j] ^= generator[j] * factor, for all j */
  method SubtractMultiple(generator: array<byte>, factor: byte, degree: nat, result: array<byte>, at: nat)
    requires degree <= generator.Length && at + degree <= result.Length && generator != result
    modifies result
    ensures result[at..at + degree]
         == Sum(GF, old(result[at..at + degree]), Scale(GF, factor, generator[..degree]))
    ensures result[..at] == old(result[..at]) && result[at + degree..] == old(result[at + degree..])
  {
    hide GF;
    ghost var was := result[at..at + degree];
    for j := 0 to degree
      invariant forall k | 0 <= k < j :: result[at + k] == GF.add(was[k], GF.mul(factor, generator[k]))
      invariant forall k | j <= k < degree :: result[at + k] == was[k]
      invariant result[..at] == old(result[..at]) && result[at + degree..] == old(result[at + degree..])
    {
      MulCommutes(generator[j], factor);
      var p := ReedSolomonMultiply(generator[j], factor);
      SumIsXor(result[at + j], p);
      result[at + j] := result[at + j] ^ p;
    }
  }

  /** One round of the division: brings down the digit d and subtracts the multiple of the divisor. */
  method DivideStep(d: byte, generator: array<byte>, degree: nat, result: array<byte>, at: nat)
    requires 1 <= degree <= generator.Length && at + degree <= result.Length && generator != result
    modifies result
    ensures result[at..at + degree] == Reduce(GF, old(result[at..at + degree]), d, generator[..degree])
    ensures result[..at] == old(result[..at]) && result[at + degree..] == old(result[at + degree..])
  {
    hide Sum, Scale;
    var factor := d ^ result[at];
    ghost var rem := result[at..at + degree];
    ShiftDown(result, at, degree);
    assert result[at..at + degree] == rem[1..] + [0];
    SubtractMultiple(generator, factor, degree, result, at);
  }

  lemma RemainderStart(g: seq<byte>, data: seq<byte>)
    requires |g| >= 1
    ensures Remainder(GF, data[..0], g) == Zeros(GF, |g|)
  {
  }

  lemma RemainderNext(g: seq<byte>, data: seq<byte>, i: nat)
    requires |g| >= 1 && i < |data|
    ensures Remainder(GF, data[..i + 1], g) == Reduce(GF, Remainder(GF, data[..i], g), data[i], g)
  {
    hide Reduce;
    assert data[..i + 1][..i] == data[..i];
  }

  method ReedSolomonComputeRemainder(data: array<byte>, start: nat, dataLen: nat,
                                     generator: array<byte>, degree: nat, result: array<byte>, at: nat)
    requires 1 <= degree <= REED_SOLOMON_DEGREE_MAX && degree <= generator.Length
    requires start + dataLen <= data.Length && at + degree <= result.Length
    requires generator != result
    requires data == result ==> start + dataLen <= at || at + degree <= start
    modifies result
    ensures result[at..at + degree] == Remainder(GF, old(data[start..start + dataLen]), generator[..degree])
    ensures result[..at] == old(result[..at]) && result[at + degree..] == old(result[at + degree..])
  {
    hide Remainder, Reduce;
    ghost var input, g := data[start..start + dataLen], generator[..degree];
    Clear(result, at, at + degree);
    RemainderStart(g, input);
    assert result[at..at + degree] == Zeros(GF, degree);
    for i := 0 to dataLen
      invariant result[at..at + degree] == Remainder(GF, input[..i], g) && generator[..degree] == g
      invariant result[..at] == old(result[..at]) && result[at + degree..] == old(result[at + degree..])
    {
      assert data[start + i] == input[i];
      RemainderNext(g, input, i);
      DivideStep(data[start + i], generator, degree, result, at);
    }
    assert input[..dataLen] == input;
  }
}
