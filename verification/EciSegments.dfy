/**
 Extended Channel Interpretation designators: ISO/IEC 18004:2015, section 7.4.2. A designator says its own length.
 */
module EciSegments {
  import opened Bytes
  import opened BitBuffer
  import opened Segments

  const ECI_LIMIT := 1_000_000

  /** One, two or three bytes, with the prefix 0, 10 or 110. */
  function EciBits(val: nat): seq<bool>
    requires val < ECI_LIMIT
  {
    if val < 0x80 then ToBits(val, 8)
    else if val < 0x4000 then ToBits(2, 2) + ToBits(val, 14)
    else ToBits(6, 3) + ToBits(val / 0x400, 11) + ToBits(val % 0x400, 10)
  }

  /** One byte for the first 128 designators, two up to the first 16384, and three for the others. */
  lemma EciLength(val: nat)
    requires val < 1_000_000
    ensures |EciBits(val)| == if val < 128 then 8 else if val < 16384 then 16 else 24
  {
  }

  /** What a reader makes of a designator. */
  function DecodeEci(bits: seq<bool>): nat {
    if |bits| < 2 || !bits[0] then FromBits(bits)
    else if !bits[1] then FromBits(bits[2..])
    else if |bits| < 3 then 0 else FromBits(bits[3..])
  }

  lemma PowersOfTwo()
    ensures Pow2(2) == 4 && Pow2(3) == 8 && Pow2(7) == 0x80 && Pow2(8) == 0x100
    ensures Pow2(10) == 0x400 && Pow2(11) == 0x800 && Pow2(14) == 0x4000
  {
    assert Pow2(7) == 0x80;
    assert Pow2(11) == 0x800;
  }

  lemma FromBitsSnoc(a: seq<bool>, c: bool)
    ensures FromBits(a + [c]) == 2 * FromBits(a) + if c then 1 else 0
  {
    assert (a + [c])[..|a|] == a;
  }

  lemma Doubled(x: nat, p: nat)
    ensures x * (2 * p) == 2 * (x * p)
  {
  }

  lemma {:induction false} FromBitsConcat(a: seq<bool>, b: seq<bool>)
    ensures FromBits(a + b) == FromBits(a) * Pow2(|b|) + FromBits(b)
  {
    if b == [] {
      assert a + b == a;
    } else {
      hide FromBits;
      var init, last := b[..|b| - 1], b[|b| - 1];
      FromBitsConcat(a, init);
      FromBitsSnoc(a + init, last);
      FromBitsSnoc(init, last);
      Doubled(FromBits(a), Pow2(|init|));
      assert a + b == a + init + [last] && b == init + [last];
    }
  }

  /** The top bit of a number that does not need it is clear. */
  lemma TopBit(val: nat, n: nat)
    requires n >= 1 && val < Pow2(n)
    ensures ToBits(val, n)[0] == (val >= Pow2(n - 1))
  {
    if n > 1 {
      TopBit(val / 2, n - 1);
      assert ToBits(val, n)[0] == ToBits(val / 2, n - 1)[0];
    }
  }

  lemma Prefixes()
    ensures ToBits(2, 2) == [true, false] && ToBits(6, 3) == [true, true, false]
  {
    assert ToBits(1, 1) == ToBits(0, 0) + [true];
    assert ToBits(2, 2) == ToBits(1, 1) + [false];
    assert ToBits(3, 2) == ToBits(1, 1) + [true];
    assert ToBits(6, 3) == ToBits(3, 2) + [false];
  }

  /** Every designator is read back, and knows its length whatever follows it. */
  lemma EciRoundTrip(val: nat, more: seq<bool>)
    requires val < ECI_LIMIT
    ensures DecodeEci(EciBits(val)) == val
    ensures DataLength(ECI, 0, EciBits(val) + more) == |EciBits(val)| && Consistent(Content(ECI, 0, EciBits(val)))
  {
    hide ToBits, FromBits, Pow2;
    PowersOfTwo();
    Prefixes();
    if val < 0x80 {
      TopBit(val, 8);
      FromToBits(val, 8);
    } else if val < 0x4000 {
      FromToBits(val, 14);
      assert EciBits(val)[2..] == ToBits(val, 14);
    } else {
      var hi, lo := val / 0x400, val % 0x400;
      FromToBits(hi, 11);
      FromToBits(lo, 10);
      FromBitsConcat(ToBits(hi, 11), ToBits(lo, 10));
      assert EciBits(val)[3..] == ToBits(hi, 11) + ToBits(lo, 10);
    }
  }

  method MakeEci(assignVal: nat, buf: array<byte>) returns (result: Segment)
    requires assignVal < ECI_LIMIT && |EciBits(assignVal)| <= 8 * buf.Length
    modifies buf
    ensures result.data == buf && Represents(result, Content(ECI, 0, EciBits(assignVal)))
  {
    hide ToBits, Pow2, Holds, StreamBit;
    PowersOfTwo();
    var len, n := 0, if assignVal < 0x80 then 1 else if assignVal < 0x4000 then 2 else 3;
    Clear(buf, 0, n);
    ClearedHolds(buf[..], n);
    if assignVal < 0x80 {
      len := AppendBits(assignVal, 8, buf, len, n, []);
    } else if assignVal < 0x4000 {
      len := AppendBits(2, 2, buf, len, n, []);
      len := AppendBits(assignVal, 14, buf, len, n, [] + ToBits(2, 2));
    } else {
      len := AppendBits(6, 3, buf, len, n, []);
      len := AppendBits(assignVal / 0x400, 11, buf, len, n, [] + ToBits(6, 3));
      len := AppendBits(assignVal % 0x400, 10, buf, len, n, [] + ToBits(6, 3) + ToBits(assignVal / 0x400, 11));
    }
    Leading(ToBits(assignVal, 8), ToBits(2, 2), ToBits(6, 3));
    HoldsStream(buf[..], n, EciBits(assignVal));
    result := Segment(ECI, 0, buf, len);
  }

  lemma Leading(a: seq<bool>, b: seq<bool>, c: seq<bool>)
    ensures [] + a == a && [] + b == b && [] + c == c
  {
  }
}
