/**
 Bit strings, and the buffers of bytes that hold them in big endian order.
 */
module BitBuffer {
  import opened Arithmetic
  import opened Bytes

  // ----- numbers as bit strings -----

  function Pow2(n: nat): (p: nat)
    ensures p >= 1
  {
    if n == 0 then 1 else 2 * Pow2(n - 1)
  }

  /** The n low-order bits of val, most significant first. */
  function ToBits(val: nat, n: nat): (bits: seq<bool>)
    ensures |bits| == n
  {
    if n == 0 then [] else ToBits(val / 2, n - 1) + [val % 2 == 1]
  }

  function FromBits(bits: seq<bool>): nat {
    if bits == [] then 0
    else 2 * FromBits(bits[..|bits| - 1]) + (if bits[|bits| - 1] then 1 else 0)
  }

  lemma {:induction false} FromToBits(val: nat, n: nat)
    requires val < Pow2(n)
    ensures FromBits(ToBits(val, n)) == val
  {
    if n == 0 {
    } else {
      FromToBits(val / 2, n - 1);
      assert ToBits(val, n)[..n - 1] == ToBits(val / 2, n - 1);
    }
  }

  lemma {:induction false} ToFromBits(bits: seq<bool>)
    ensures FromBits(bits) < Pow2(|bits|) && ToBits(FromBits(bits), |bits|) == bits
  {
    if bits == [] {
    } else {
      var m, c := bits[..|bits| - 1], bits[|bits| - 1];
      ToFromBits(m);
      assert FromBits(bits) / 2 == FromBits(m);
      assert bits == m + [c];
    }
  }

  /** The conversions between a byte and its numeric value. */
  function ByteOf(n: nat): byte { PackByte(ToBits(n, 8)) }

  function ValueOf(b: byte): (n: nat)
    ensures n < 256
  {
    ToFromBits(Bits(b));
    assert Pow2(8) == 256 by { assert Pow2(4) == 16; }
    FromBits(Bits(b))
  }

  lemma ValueOfByteOf(n: nat)
    requires n < 256
    ensures ValueOf(ByteOf(n)) == n
  {
    hide PackByte, Bits, ToBits, FromBits;
    assert Pow2(8) == 256 by { assert Pow2(4) == 16; }
    BitsOfPacked(ToBits(n, 8));
    FromToBits(n, 8);
  }

  /** val >> i */
  function ShiftRight(val: nat, i: nat): nat {
    if i == 0 then val else ShiftRight(val / 2, i - 1)
  }

  lemma {:induction false} ToBitsAt(val: nat, n: nat, i: nat)
    requires i < n
    ensures ToBits(val, n)[n - 1 - i] == (ShiftRight(val, i) % 2 == 1)
  {
    if i == 0 {
    } else {
      ToBitsAt(val / 2, n - 1, i - 1);
    }
  }

  lemma {:induction false} ShiftIsDivision(val: nat, i: nat)
    ensures ShiftRight(val, i) == val / Pow2(i)
  {
    if i == 0 {
    } else {
      ShiftIsDivision(val / 2, i - 1);
      DivideTwice(val, Pow2(i - 1));
    }
  }

  lemma DivideTwice(a: nat, p: nat)
    requires p > 0
    ensures a / 2 / p == a / (2 * p)
  {
    var q, r := a / 2 / p, a / 2 % p;
    assert a / 2 == p * q + r && a == 2 * (a / 2) + a % 2;
    assert a == q * (2 * p) + (2 * r + a % 2);
    DivModUnique(a, 2 * p, q, 2 * r + a % 2);
  }

  // ----- buffers -----

  /** Bit k of the buffer. */
  predicate StreamBit(buf: seq<byte>, k: nat)
    requires k < 8 * |buf|
  {
    BitOf(buf[k / 8], 7 - k % 8)
  }

  /** The first n bytes hold the given bits, and zeros after them. */
  ghost predicate Holds(buf: seq<byte>, n: nat, bits: seq<bool>)
    requires n <= |buf|
  {
    |bits| <= 8 * n && forall k: nat {:trigger StreamBit(buf, k)} | k < 8 * n ::
      StreamBit(buf, k) == (k < |bits| && bits[k])
  }

  /** The bits have been combined by "or" into the buffer, from position at on; all other bits are kept. */
  ghost predicate Ored(before: seq<byte>, after: seq<byte>, at: nat, bits: seq<bool>) {
    && |before| == |after| && at + |bits| <= 8 * |before|
    && forall k: nat {:trigger StreamBit(after, k)} | k < 8 * |before| ::
         StreamBit(after, k) == (StreamBit(before, k) || (at <= k < at + |bits| && bits[k - at]))
  }

  lemma AndOr(x: byte, y: byte, m: byte)
    ensures (x | y) & m == (x & m) | (y & m)
  {
  }

  lemma OneAndOne(i: nat, j: nat)
    requires i < 8 && j < 8
    ensures One(i) & One(j) == if i == j then One(i) else 0
    ensures One(i) != 0
  {
  }

  lemma OrIsZero(x: byte, y: byte)
    ensures x | y == 0 <==> x == 0 && y == 0
  {
  }

  lemma OrBit(x: byte, i: nat, j: nat)
    requires i < 8 && j < 8
    ensures BitOf(x | One(i), j) == (BitOf(x, j) || i == j)
  {
    AndOr(x, One(i), One(j));
    OneAndOne(i, j);
    OrIsZero(x & One(j), One(i) & One(j));
  }

  method OrBitInto(buffer: array<byte>, k: nat, bit: bool)
    requires k < 8 * buffer.Length
    modifies buffer
    ensures Ored(old(buffer[..]), buffer[..], k, [bit])
  {
    hide BitOf, One;
    var i := 7 - k % 8;
    if bit {
      ghost var was := buffer[k / 8];
      buffer[k / 8] := buffer[k / 8] | One(i);
      forall j: nat | j < 8 * buffer.Length && j / 8 == k / 8
        ensures StreamBit(buffer[..], j) == (StreamBit(old(buffer[..]), j) || j == k)
      {
        OrBit(was, i, 7 - j % 8);
      }
    }
  }

  method AppendBitsToBuffer(val: nat, numBits: nat, buffer: array<byte>, bitLen: nat) returns (newLen: nat)
    requires numBits <= 16 && val < Pow2(numBits) && bitLen + numBits <= 8 * buffer.Length
    modifies buffer
    ensures newLen == bitLen + numBits
    ensures Ored(old(buffer[..]), buffer[..], bitLen, ToBits(val, numBits))
  {
    newLen := bitLen;
    var i := numBits - 1;
    while i >= 0
      invariant -1 <= i < numBits && newLen == bitLen + (numBits - 1 - i)
      invariant Ored(old(buffer[..]), buffer[..], bitLen, ToBits(val, numBits)[..numBits - 1 - i])
    {
      ToBitsAt(val, numBits, i);
      OrBitInto(buffer, newLen, ShiftRight(val, i) % 2 == 1);
      i, newLen := i - 1, newLen + 1;
    }
    assert ToBits(val, numBits)[..numBits] == ToBits(val, numBits);
  }

  /** Appending to a buffer with zeros after its contents. */
  lemma AppendHolds(before: seq<byte>, after: seq<byte>, n: nat, bits: seq<bool>, more: seq<bool>)
    requires n <= |before| && Holds(before, n, bits) && |bits| + |more| <= 8 * n
    requires Ored(before, after, |bits|, more)
    ensures Holds(after, n, bits + more)
  {
  }

  lemma HoldsStream(buf: seq<byte>, n: nat, bits: seq<bool>)
    requires n <= |buf| && Holds(buf, n, bits)
    ensures |bits| <= 8 * n && forall k | 0 <= k < |bits| :: bits[k] == StreamBit(buf, k)
  {
  }

  /** Appends to a buffer with zeros after its contents. */
  method AppendBits(val: nat, numBits: nat, buffer: array<byte>, bitLen: nat, ghost n: nat, ghost bits: seq<bool>)
      returns (newLen: nat)
    requires numBits <= 16 && val < Pow2(numBits) && n <= buffer.Length && bitLen + numBits <= 8 * n
    requires Holds(buffer[..], n, bits) && bitLen == |bits|
    modifies buffer
    ensures newLen == bitLen + numBits && Holds(buffer[..], n, bits + ToBits(val, numBits))
  {
    hide Holds, Ored, Pow2, ToBits;
    ghost var before := buffer[..];
    newLen := AppendBitsToBuffer(val, numBits, buffer, bitLen);
    AppendHolds(before, buffer[..], n, bits, ToBits(val, numBits));
  }

  /** A cleared buffer holds the empty bit string. */
  lemma ClearedHolds(buf: seq<byte>, n: nat)
    requires n <= |buf| && forall k | 0 <= k < n :: buf[k] == 0
    ensures Holds(buf, n, [])
  {
    forall k: nat | k < 8 * n ensures !StreamBit(buf, k) { assert buf[k / 8] == 0; }
  }

  // ----- bytes and bit strings -----

  function BytesToBits(s: seq<byte>): (bits: seq<bool>)
    ensures |bits| == 8 * |s|
  {
    seq(8 * |s|, k requires 0 <= k < 8 * |s| => StreamBit(s, k))
  }
}
