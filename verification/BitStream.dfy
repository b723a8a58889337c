/**
 From segments to data codewords: the choice of version and level, the bit stream and its padding.
 */
module BitStream {
  import opened Arithmetic
  import opened Sequences
  import opened Bytes
  import opened BitBuffer
  import opened Capacity
  import opened TextModes
  import opened Segments

  // ----- sizes -----

  function SumBits(segs: seq<Segment>, v: Version): nat {
    if segs == [] then 0
    else
      var last := segs[|segs| - 1];
      SumBits(segs[..|segs| - 1], v) + 4 + last.mode.CharCountBits(v) + last.bitLength
  }

  predicate CountsFit(segs: seq<Segment>, v: Version) {
    forall s | s in segs :: s.numChars < Pow2(s.mode.CharCountBits(v))
  }

  /** The size of the bit stream, or -1 if a count does not fit its field or the size exceeds INT16_MAX. */
  function TotalBits(segs: seq<Segment>, v: Version): (r: int)
    ensures r >= -1
  {
    if CountsFit(segs, v) && SumBits(segs, v) <= INT16_MAX then SumBits(segs, v) else -1
  }

  lemma {:induction false} SumBitsMonotone(segs: seq<Segment>, v: Version, k: nat)
    requires k <= |segs|
    ensures SumBits(segs[..k], v) <= SumBits(segs, v)
  {
    if k == |segs| {
      assert segs[..k] == segs;
    } else {
      SumBitsMonotone(segs[..|segs| - 1], v, k);
      assert segs[..|segs| - 1][..k] == segs[..k];
    }
  }

  method GetTotalBits(segs: seq<Segment>, version: Version) returns (r: int)
    ensures r == TotalBits(segs, version)
    ensures r == if CountsFit(segs, version) && SumBits(segs, version) <= 32767 then SumBits(segs, version) else -1
  {
    hide Pow2;
    var result := 0;
    for i := 0 to |segs|
      invariant result == SumBits(segs[..i], version) <= INT16_MAX
      invariant CountsFit(segs[..i], version)
    {
      var numChars, bitLength := segs[i].numChars, segs[i].bitLength;
      var ccbits := segs[i].mode.CharCountBits(version);
      if numChars >= Pow2(ccbits) {
        assert segs[i] in segs;
        return -1;
      }
      result := result + 4 + ccbits + bitLength;
      assert segs[..i + 1][..i] == segs[..i];
      SumBitsMonotone(segs, version, i + 1);
      if result > INT16_MAX {
        return -1;
      }
    }
    assert segs[..|segs|] == segs;
    return result;
  }

  /** The segments fit into a symbol of the given version and level. */
  predicate Fits(segs: seq<Segment>, v: Version, e: Ecc) {
    TotalBits(segs, v) != -1 && TotalBits(segs, v) <= NumDataCodewords(v, e) * 8
  }

  method SelectVersion(segs: seq<Segment>, e: Ecc, minVersion: Version, maxVersion: Version)
      returns (version: int, dataUsedBits: int)
    requires minVersion <= maxVersion
    ensures version == -1 ==> forall v: Version | minVersion <= v <= maxVersion :: !Fits(segs, v, e)
    ensures version != -1 ==>
              && minVersion <= version <= maxVersion && Fits(segs, version, e)
              && 0 <= dataUsedBits == TotalBits(segs, version)
              && forall v: Version | minVersion <= v < version :: !Fits(segs, v, e)
  {
    hide TotalBits, NumDataCodewords;
    version := minVersion;
    while true
      invariant minVersion <= version <= maxVersion
      invariant forall v: Version | minVersion <= v < version :: !Fits(segs, v, e)
      decreases maxVersion - version
    {
      var dataCapacityBits := NumDataCodewords(version, e) * 8;
      dataUsedBits := GetTotalBits(segs, version);
      if dataUsedBits != -1 && dataUsedBits <= dataCapacityBits {
        return;
      }
      if version >= maxVersion {
        return -1, -1;
      }
      version := version + 1;
    }
  }

  /** The level is raised to the highest one that still holds the data, and never lowered. */
  method BoostLevel(ecl: Ecc, version: Version, dataUsedBits: nat, boostEcl: bool) returns (e: Ecc)
    requires dataUsedBits <= NumDataCodewords(version, ecl) * 8
    ensures ecl <= e && dataUsedBits <= NumDataCodewords(version, e) * 8
    ensures !boostEcl ==> e == ecl
    ensures boostEcl ==> forall i: Ecc | i > e :: dataUsedBits > NumDataCodewords(version, i) * 8
  {
    hide NumDataCodewords;
    e := ecl;
    for i := 1 to 4
      invariant dataUsedBits <= NumDataCodewords(version, e) * 8
      invariant !boostEcl ==> e == ecl
      invariant boostEcl ==> (e == ecl || e < i) && (ecl < i ==> ecl <= e)
      invariant boostEcl ==> forall j: Ecc | e < j < i :: dataUsedBits > NumDataCodewords(version, j) * 8
    {
      if boostEcl && dataUsedBits <= NumDataCodewords(version, i) * 8 {
        e := i;
      }
    }
  }

  // ----- the stream -----

  /** The segments hold the given contents, in buffers other than q. */
  ghost predicate AllRepresent(segs: seq<Segment>, contents: seq<Content>, q: array<byte>)
    reads set i | 0 <= i < |segs| :: segs[i].data
  {
    |segs| == |contents| && forall i | 0 <= i < |segs| :: segs[i].data != q && Represents(segs[i], contents[i])
  }

  lemma {:induction false} SumBitsIsStream(segs: seq<Segment>, contents: seq<Content>, v: Version)
    requires |segs| == |contents|
    requires forall i | 0 <= i < |segs| :: segs[i].mode == contents[i].mode && segs[i].bitLength == |contents[i].bits|
    ensures SumBits(segs, v) == |Stream(contents, v)|
  {
    if segs == [] {
    } else {
      SumBitsIsStream(segs[..|segs| - 1], contents[..|segs| - 1], v);
    }
  }

  lemma StreamSnoc(contents: seq<Content>, k: nat, v: Version)
    requires k < |contents|
    ensures Stream(contents[..k + 1], v) == Stream(contents[..k], v) + Encoding(contents[k], v)
  {
    assert contents[..k + 1][..k] == contents[..k];
  }

  lemma {:induction false} StreamPrefixSize(contents: seq<Content>, k: nat, v: Version)
    requires k <= |contents|
    ensures |Stream(contents[..k], v)| <= |Stream(contents, v)|
  {
    if k == |contents| {
      assert contents[..k] == contents;
    } else {
      StreamPrefixSize(contents[..|contents| - 1], k, v);
      assert contents[..|contents| - 1][..k] == contents[..k];
    }
  }

  /** Appends one segment: mode, count and data bits. */
  method AppendSegment(seg: Segment, v: Version, q: array<byte>, bitLen: nat,
                       ghost c: Content, ghost n: nat, ghost bits: seq<bool>) returns (newLen: nat)
    requires seg.data != q && Represents(seg, c) && CountFits(c, v)
    requires n <= q.Length && Holds(q[..], n, bits) && bitLen == |bits| && |bits| + |Encoding(c, v)| <= 8 * n
    modifies q
    ensures newLen == |bits + Encoding(c, v)| && Holds(q[..], n, bits + Encoding(c, v))
  {
    hide ToBits, Pow2, StreamBit, Holds, Ored;
    Pow2Values();
    ghost var m, cc := c.mode.Indicator(), c.mode.CharCountBits(v);
    newLen := AppendBits(seg.mode.Indicator(), 4, q, bitLen, n, bits);
    newLen := AppendBits(seg.numChars, seg.mode.CharCountBits(v), q, newLen, n, bits + ToBits(m, 4));
    ghost var head := bits + ToBits(m, 4) + ToBits(c.numChars, cc);
    newLen := AppendData(seg, q, newLen, c, n, head);
    assert head + c.bits == bits + Encoding(c, v);
  }

  lemma OneBitString(bit: bool)
    ensures ToBits(if bit then 1 else 0, 1) == [bit] && Pow2(1) == 2
  {
    assert ToBits(if bit then 1 else 0, 1) == ToBits(0, 0) + [bit];
  }

  /** The source's innermost loop: copies the data bits one at a time. */
  method AppendData(seg: Segment, q: array<byte>, bitLen: nat,
                    ghost c: Content, ghost n: nat, ghost head: seq<bool>) returns (newLen: nat)
    requires seg.data != q && Represents(seg, c)
    requires n <= q.Length && Holds(q[..], n, head) && bitLen == |head| && |head| + |c.bits| <= 8 * n
    modifies q
    ensures newLen == |head + c.bits| && Holds(q[..], n, head + c.bits)
  {
    hide ToBits, Pow2, Holds, Ored, BitOf;
    newLen := bitLen;
    assert head + c.bits[..0] == head;
    for j := 0 to seg.bitLength
      invariant newLen == |head| + j && Holds(q[..], n, head + c.bits[..j])
    {
      assert c.bits[j] == StreamBit(seg.data[..], j);
      var bit := BitOf(seg.data[j / 8], 7 - j % 8);
      OneBitString(bit);
      newLen := AppendBits(if bit then 1 else 0, 1, q, newLen, n, head + c.bits[..j]);
      assert head + c.bits[..j] + [bit] == head + c.bits[..j + 1];
    }
    assert c.bits[..|c.bits|] == c.bits;
  }

  method ConcatenateSegments(segs: seq<Segment>, v: Version, q: array<byte>, ghost contents: seq<Content>, ghost n: nat)
      returns (bitLen: nat)
    requires AllRepresent(segs, contents, q) && forall c | c in contents :: CountFits(c, v)
    requires n <= q.Length && Holds(q[..], n, []) && |Stream(contents, v)| <= 8 * n
    modifies q
    ensures bitLen == |Stream(contents, v)| && Holds(q[..], n, Stream(contents, v))
  {
    hide Holds, CountFits, Encoding, StreamBit;
    bitLen := 0;
    for i := 0 to |segs|
      invariant AllRepresent(segs, contents, q)
      invariant Holds(q[..], n, Stream(contents[..i], v)) && bitLen == |Stream(contents[..i], v)|
    {
      StreamSnoc(contents, i, v);
      StreamPrefixSize(contents, i + 1, v);
      bitLen := AppendSegment(segs[i], v, q, bitLen, contents[i], n, Stream(contents[..i], v));
    }
    assert contents[..|segs|] == contents;
  }

  // ----- padding -----

  lemma {:induction false} ToBitsOfZero(k: nat)
    ensures ToBits(0, k) == Repeat(false, k)
  {
    if k == 0 {
    } else {
      ToBitsOfZero(k - 1);
    }
  }

  /** k pad codewords, alternating between the two values. */
  function PadBytes(k: nat, pad: nat): (bits: seq<bool>)
    ensures |bits| == 8 * k
  {
    if k == 0 then [] else ToBits(pad, 8) + PadBytes(k - 1, if pad == 0xEC then 0x11 else 0xEC)
  }

  /** A terminator of up to four zeros, and zeros to the next codeword boundary. */
  function Terminated(bits: seq<bool>, capacity: nat): (r: seq<bool>)
    requires |bits| <= capacity && capacity % 8 == 0
    ensures |bits| <= |r| <= capacity && |r| % 8 == 0
  {
    var t := Min(4, capacity - |bits|);
    bits + Repeat(false, t) + Repeat(false, (8 - (|bits| + t) % 8) % 8)
  }

  lemma WholeBytes(a: nat, b: nat)
    requires b <= a && a % 8 == 0 && b % 8 == 0
    ensures 8 * ((a - b) / 8) == a - b
  {
  }

  function Padded(bits: seq<bool>, capacity: nat): (r: seq<bool>)
    requires |bits| <= capacity && capacity % 8 == 0
    ensures |r| == capacity
  {
    var t := Terminated(bits, capacity);
    WholeBytes(capacity, |t|);
    t + PadBytes((capacity - |t|) / 8, 0xEC)
  }

  /** A reader recognises the padding as the end of the stream. */
  lemma PaddingEnds(bits: seq<bool>, capacity: nat)
    requires |bits| <= capacity && capacity % 8 == 0
    ensures bits <= Padded(bits, capacity) && EndsStream(Padded(bits, capacity)[|bits|..])
  {
    var t := Min(4, capacity - |bits|);
    var r := Padded(bits, capacity);
    assert r[..|bits|] == bits;
    if t == 4 {
      assert r[|bits|..|bits| + 4] == Repeat(false, 4);
      assert r[|bits|..][..4] == Repeat(false, 4) == [false, false, false, false];
    }
  }

  method AppendPadding(q: array<byte>, bitLen: nat, capacity: nat, ghost n: nat, ghost bits: seq<bool>)
    requires n <= q.Length && Holds(q[..], n, bits) && bitLen == |bits| <= capacity <= 8 * n && capacity % 8 == 0
    modifies q
    ensures Holds(q[..], n, Padded(bits, capacity))
  {
    hide ToBits, Pow2, Holds, Ored, Terminated, PadBytes;
    Pow2Values();
    var terminatorBits := capacity - bitLen;
    if terminatorBits > 4 {
      terminatorBits := 4;
    }
    ghost var pad := (8 - (bitLen + terminatorBits) % 8) % 8;
    PowPositive(terminatorBits);
    PowPositive(pad);
    ToBitsOfZero(terminatorBits);
    ToBitsOfZero(pad);
    var len := AppendBits(0, terminatorBits, q, bitLen, n, bits);
    len := AppendBits(0, (8 - len % 8) % 8, q, len, n, bits + Repeat(false, terminatorBits));
    TerminatedIs(bits, capacity, terminatorBits, pad);
    AppendPadBytes(q, len, capacity, n, Terminated(bits, capacity));
  }

  lemma TerminatedIs(bits: seq<bool>, capacity: nat, t: nat, pad: nat)
    requires |bits| <= capacity && capacity % 8 == 0
    requires t == Min(4, capacity - |bits|) && pad == (8 - (|bits| + t) % 8) % 8
    ensures Terminated(bits, capacity) == bits + Repeat(false, t) + Repeat(false, pad)
  {
  }

  lemma PowPositive(k: nat)
    ensures 0 < Pow2(k)
  {
  }

  lemma PadNext(bits: seq<bool>, k: nat, pad: nat)
    requires k >= 1
    ensures bits + PadBytes(k, pad) == bits + ToBits(pad, 8) + PadBytes(k - 1, if pad == 0xEC then 0x11 else 0xEC)
  {
    hide ToBits;
  }

  lemma NoPadBytes(pad: nat)
    ensures PadBytes(0, pad) == []
  {
  }

  method AppendPadBytes(q: array<byte>, bitLen: nat, capacity: nat, ghost n: nat, ghost bits: seq<bool>)
    requires n <= q.Length && Holds(q[..], n, bits) && bitLen == |bits| <= capacity <= 8 * n
    requires capacity % 8 == 0 && |bits| % 8 == 0
    modifies q
    ensures Holds(q[..], n, bits + PadBytes((capacity - |bits|) / 8, 0xEC))
  {
    hide ToBits, Pow2, Holds, Ored, PadBytes;
    Pow2Values();
    var len, padByte := bitLen, 0xEC;
    WholeBytes(capacity, |bits|);
    ghost var now, k, all := bits, (capacity - |bits|) / 8, bits + PadBytes((capacity - |bits|) / 8, 0xEC);
    while len < capacity
      invariant k >= 0 && len == |now| == capacity - 8 * k && (padByte == 0xEC || padByte == 0x11)
      invariant Holds(q[..], n, now) && now + PadBytes(k, padByte) == all
    {
      PadNext(now, k, padByte);
      len := AppendBits(padByte, 8, q, len, n, now);
      now, k := now + ToBits(padByte, 8), k - 1;
      padByte := if padByte == 0xEC then 0x11 else 0xEC;
    }
    NoPadBytes(padByte);
    assert now + [] == now;
  }
}
