/**
 The bit streams of the standard's examples, and the order of the bits in a byte: ISO/IEC 18004:2015, section 7.4.
 */
module StandardExamples {
  import opened Sequences
  import opened Characters
  import opened Bytes
  import opened BitBuffer
  import opened Capacity
  import opened TextModes
  import opened Segments
  import opened BitStream

  // ----- groups -----

  lemma ThreeDigits(s: string)
    requires |s| == 3 && IsNumeric(s)
    ensures DecimalValue(s) == 100 * DigitValue(s[0]) + 10 * DigitValue(s[1]) + DigitValue(s[2])
  {
    hide DigitValue;
    DecimalSnoc(s, 0);
    DecimalSnoc(s, 1);
    DecimalSnoc(s, 2);
    assert s[..3] == s && DecimalValue(s[..0]) == 0;
  }

  lemma TwoDigits(s: string)
    requires |s| == 2 && IsNumeric(s)
    ensures DecimalValue(s) == 10 * DigitValue(s[0]) + DigitValue(s[1])
  {
    hide DigitValue;
    DecimalSnoc(s, 0);
    DecimalSnoc(s, 1);
    assert s[..2] == s && DecimalValue(s[..0]) == 0;
  }

  lemma PairValue(s: string)
    requires |s| == 2 && IsAlphanumeric(s)
    ensures Base45Value(s) == 45 * CharValue(s[0]) + CharValue(s[1])
  {
    hide CharValue, ALPHANUMERIC_CHARSET;
    Base45Snoc(s, 0);
    Base45Snoc(s, 1);
    assert s[..2] == s && Base45Value(s[..0]) == 0;
  }

  lemma SingleValue(s: string)
    requires |s| == 1 && IsAlphanumeric(s)
    ensures Base45Value(s) == CharValue(s[0])
  {
    hide CharValue, ALPHANUMERIC_CHARSET;
    Base45Snoc(s, 0);
    assert s[..1] == s && Base45Value(s[..0]) == 0;
  }

  // ----- the examples -----

  lemma NumericGroups()
    ensures IsNumeric("012") && IsNumeric("34567") && IsNumeric("345") && IsNumeric("67") && IsNumeric("01234567")
    ensures DecimalValue("012") == 12 && DecimalValue("345") == 345 && DecimalValue("67") == 67
  {
    hide DecimalValue;
    ThreeDigits("012");
    ThreeDigits("345");
    TwoDigits("67");
  }

  lemma NumericParts()
    ensures "01234567"[..3] == "012" && "01234567"[3..] == "34567" && "34567"[..3] == "345" && "34567"[3..] == "67"
  {
  }

  /** The digits 01234567 in version 1: mode, count, two groups of three digits and one of two. */
  lemma NumericExample()
    ensures IsNumeric("01234567")
    ensures Stream([Content(NUMERIC, 8, NumericBits("01234567"))], 1)
         == ToBits(1, 4) + ToBits(8, 10) + (ToBits(12, 10) + (ToBits(345, 10) + ToBits(67, 7)))
  {
    hide ToBits, DecimalValue, NumericBits, Encoding, IsNumeric;
    NumericGroups();
    NumericParts();
    NumericGroup("01234567");
    NumericGroup("34567");
    NumericTail("67");
    OneSegment(Content(NUMERIC, 8, NumericBits("01234567")), 1);
  }

  lemma AlphanumericGroups()
    ensures IsAlphanumeric("AC") && IsAlphanumeric("-42") && IsAlphanumeric("-4") && IsAlphanumeric("2")
    ensures IsAlphanumeric("AC-42")
    ensures Base45Value("AC") == 462 && Base45Value("-4") == 1849 && Base45Value("2") == 2
  {
    hide Base45Value, ALPHANUMERIC_CHARSET, CharValue;
    CharsetMembers();
    CharValues('A'); CharValues('C'); CharValues('-'); CharValues('4'); CharValues('2');
    PairValue("AC");
    PairValue("-4");
    SingleValue("2");
  }

  lemma CharsetMembers()
    ensures forall c | c in ['A', 'C', '-', '4', '2'] :: c in ALPHANUMERIC_CHARSET
  {
    assert ALPHANUMERIC_CHARSET[10] == 'A' && ALPHANUMERIC_CHARSET[12] == 'C' && ALPHANUMERIC_CHARSET[41] == '-';
    assert ALPHANUMERIC_CHARSET[4] == '4' && ALPHANUMERIC_CHARSET[2] == '2';
  }

  lemma AlphanumericParts()
    ensures "AC-42"[..2] == "AC" && "AC-42"[2..] == "-42" && "-42"[..2] == "-4" && "-42"[2..] == "2"
  {
  }

  /** The characters AC-42 in version 1: mode, count, two pairs of characters and one alone. */
  lemma AlphanumericExample()
    ensures IsAlphanumeric("AC-42")
    ensures Stream([Content(ALPHANUMERIC, 5, AlphanumericBits("AC-42"))], 1)
         == ToBits(2, 4) + ToBits(5, 9) + (ToBits(462, 11) + (ToBits(1849, 11) + ToBits(2, 6)))
  {
    hide ToBits, Base45Value, AlphanumericBits, Encoding, IsAlphanumeric;
    AlphanumericGroups();
    AlphanumericParts();
    AlphanumericGroup("AC-42");
    AlphanumericGroup("-42");
    AlphanumericTail("2");
    OneSegment(Content(ALPHANUMERIC, 5, AlphanumericBits("AC-42")), 1);
  }

  lemma EncodingParts(c: Content, v: Version)
    ensures Encoding(c, v) == ToBits(c.mode.Indicator(), 4) + ToBits(c.numChars, c.mode.CharCountBits(v)) + c.bits
  {
  }

  lemma OneSegment(c: Content, v: Version)
    ensures Stream([c], v) == ToBits(c.mode.Indicator(), 4) + ToBits(c.numChars, c.mode.CharCountBits(v)) + c.bits
  {
    hide Encoding;
    EncodingParts(c, v);
    assert [c][..0] == [] && [] + Encoding(c, v) == Encoding(c, v);
  }

  /** Every segment begins with its mode in four bits. */
  lemma ModeFirst(c: Content, v: Version)
    ensures Encoding(c, v)[..4] == ToBits(match c.mode
        case NUMERIC => 1 case ALPHANUMERIC => 2 case BYTE => 4 case KANJI => 8 case ECI => 7, 4)
  {
    hide ToBits;
    EncodingParts(c, v);
  }

  // ----- bytes and padding -----

  /** The most significant bit of a byte comes first. */
  lemma ByteBits(n: nat)
    requires n < 256
    ensures BytesToBits([ByteOf(n)]) == ToBits(n, 8)
  {
    hide PackByte, ToBits, BitOf;
    BitsOfPacked(ToBits(n, 8));
    forall k | 0 <= k < 8 ensures BytesToBits([ByteOf(n)])[k] == ToBits(n, 8)[k] {
      assert BytesToBits([ByteOf(n)])[k] == StreamBit([ByteOf(n)], k) == BitOf(ByteOf(n), 7 - k);
      assert Bits(ByteOf(n))[k] == BitOf(ByteOf(n), 7 - k);
    }
  }

  lemma SliceAfter(a: seq<bool>, rest: seq<bool>, k: nat)
    requires |a| == 8 && k + 8 <= |rest|
    ensures (a + rest)[..8] == a && (a + rest)[8 + k..8 + k + 8] == rest[k..k + 8]
  {
  }

  lemma NextPad(k: nat, pad: nat)
    requires k > 0
    ensures PadBytes(k, pad) == ToBits(pad, 8) + PadBytes(k - 1, if pad == 0xEC then 0x11 else 0xEC)
  {
  }

  /** The pad codewords: 11101100 and 00010001 in turn. */
  lemma {:induction false} PadAlternates(k: nat, pad: nat, j: nat)
    requires j < k && (pad == 236 || pad == 17)
    ensures PadBytes(k, pad)[8 * j..8 * j + 8] == ToBits(if j % 2 == 0 then pad else 253 - pad, 8)
  {
    hide ToBits, PadBytes;
    NextPad(k, pad);
    if j == 0 {
    } else {
      PadAlternates(k - 1, 253 - pad, j - 1);
      SliceAfter(ToBits(pad, 8), PadBytes(k - 1, 253 - pad), 8 * (j - 1));
    }
  }

  lemma TerminatedParts(bits: seq<bool>, capacity: nat)
    requires capacity % 8 == 0 && |bits| + 4 <= capacity
    ensures Terminated(bits, capacity) == bits + Repeat(false, 4) + Repeat(false, (8 - (|bits| + 4) % 8) % 8)
  {
  }

  lemma Followed(bits: seq<bool>, a: seq<bool>, b: seq<bool>)
    ensures bits <= bits + a + b
    ensures forall k | |bits| <= k < |bits + a + b| :: (bits + a + b)[k] == (a + b)[k - |bits|]
  {
    assert bits + a + b == bits + (a + b);
  }

  lemma TerminatedLayout(bits: seq<bool>, capacity: nat)
    requires capacity % 8 == 0 && |bits| + 4 <= capacity
    ensures var r, t := Terminated(bits, capacity), (|bits| + 11) / 8;
            && |r| == 8 * t <= capacity && bits <= r && forall k | |bits| <= k < 8 * t :: !r[k]
  {
    hide Terminated;
    var m := (8 - (|bits| + 4) % 8) % 8;
    RoundUp(|bits| + 4, capacity);
    TerminatedParts(bits, capacity);
    Followed(bits, Repeat(false, 4), Repeat(false, m));
  }

  lemma RoundUp(n: nat, capacity: nat)
    requires n <= capacity && capacity % 8 == 0
    ensures n + (8 - n % 8) % 8 == 8 * ((n + 7) / 8) <= capacity
  {
  }

  lemma PadSlice(head: seq<bool>, n: nat, j: nat)
    requires |head| % 8 == 0 && j < n
    ensures var at := |head| + 8 * j;
            (head + PadBytes(n, 0xEC))[at..at + 8] == ToBits(if j % 2 == 0 then 236 else 17, 8)
  {
    hide ToBits, PadBytes;
    PadAlternates(n, 236, j);
    var pad, at := PadBytes(n, 0xEC), |head| + 8 * j;
    assert (head + pad)[at..at + 8] == pad[8 * j..8 * j + 8];
  }

  lemma PaddedParts(bits: seq<bool>, capacity: nat)
    requires capacity % 8 == 0 && |bits| <= capacity
    ensures var head := Terminated(bits, capacity);
            Padded(bits, capacity) == head + PadBytes((capacity - |head|) / 8, 0xEC)
  {
  }

  /** With less room than that, the terminator is cut short, and there is nothing after it. */
  lemma ShortTerminator(bits: seq<bool>, capacity: nat)
    requires capacity % 8 == 0 && |bits| <= capacity < |bits| + 4
    ensures Padded(bits, capacity) == bits + Repeat(false, capacity - |bits|)
  {
    hide PadBytes;
    PaddedParts(bits, capacity);
    assert PadBytes(0, 0xEC) == [] by { NoPadding(); }
    assert Terminated(bits, capacity) == bits + Repeat(false, capacity - |bits|);
  }

  lemma NoPadding()
    ensures PadBytes(0, 0xEC) == []
  {
  }

  /** After the stream come a terminator of four zeros, zeros to the next codeword, and the pad codewords. */
  lemma PaddingLayout(bits: seq<bool>, capacity: nat)
    requires capacity % 8 == 0 && |bits| + 4 <= capacity
    ensures var r, t := Padded(bits, capacity), (|bits| + 11) / 8;
            && 8 * t <= capacity && bits <= r && (forall k | |bits| <= k < 8 * t :: !r[k])
            && forall j | 0 <= j < capacity / 8 - t ::
                 r[8 * t + 8 * j..8 * t + 8 * j + 8] == ToBits(if j % 2 == 0 then 236 else 17, 8)
  {
    hide ToBits, PadBytes, Terminated, Padded;
    TerminatedLayout(bits, capacity);
    PaddedParts(bits, capacity);
    var t, head := (|bits| + 11) / 8, Terminated(bits, capacity);
    var n := (capacity - |head|) / 8;
    assert n == capacity / 8 - t;
    forall j | 0 <= j < n
      ensures Padded(bits, capacity)[8 * t + 8 * j..8 * t + 8 * j + 8] == ToBits(if j % 2 == 0 then 236 else 17, 8)
    {
      PadSlice(head, n, j);
    }
  }
}
