/**
 Segments of text and the bit stream they make: ISO/IEC 18004:2015, section 7.4.
 */
module Segments {
  import opened Characters
  import opened Options
  import opened Bytes
  import opened BitBuffer
  import opened Capacity
  import opened TextModes

  datatype Mode = NUMERIC | ALPHANUMERIC | BYTE | KANJI | ECI {
    /** The mode indicator. */
    function Indicator(): (m: nat)
      ensures 1 <= m < 16
    {
      match this case NUMERIC => 1 case ALPHANUMERIC => 2 case BYTE => 4 case KANJI => 8 case ECI => 7
    }

    /** The width of the character count field. */
    function CharCountBits(version: Version): (n: nat)
      ensures n <= 16
    {
      var i := (version + 7) / 17;
      match this
      case NUMERIC => if i == 0 then 10 else if i == 1 then 12 else 14
      case ALPHANUMERIC => if i == 0 then 9 else if i == 1 then 11 else 13
      case BYTE => if i == 0 then 8 else 16
      case KANJI => if i == 0 then 8 else if i == 1 then 10 else 12
      case ECI => 0
    }
  }

  /** The widths of the count field in the three ranges of versions. */
  lemma CharCountWidths(v: Version)
    ensures v <= 9 ==> NUMERIC.CharCountBits(v) == 10 && ALPHANUMERIC.CharCountBits(v) == 9
                       && BYTE.CharCountBits(v) == 8 && KANJI.CharCountBits(v) == 8
    ensures 10 <= v <= 26 ==> NUMERIC.CharCountBits(v) == 12 && ALPHANUMERIC.CharCountBits(v) == 11
                              && BYTE.CharCountBits(v) == 16 && KANJI.CharCountBits(v) == 10
    ensures 27 <= v ==> NUMERIC.CharCountBits(v) == 14 && ALPHANUMERIC.CharCountBits(v) == 13
                        && BYTE.CharCountBits(v) == 16 && KANJI.CharCountBits(v) == 12
    ensures ECI.CharCountBits(v) == 0
  {
  }

  function ModeOf(indicator: nat): Option<Mode> {
    if indicator == 1 then Some(NUMERIC) else if indicator == 2 then Some(ALPHANUMERIC)
    else if indicator == 4 then Some(BYTE) else if indicator == 8 then Some(KANJI)
    else if indicator == 7 then Some(ECI) else None
  }

  /** A segment as the encoder sees it: the data bits are packed into a buffer; without data there may be none. */
  datatype Segment = Segment(mode: Mode, numChars: nat, data: array?<byte>, bitLength: nat)

  /** A segment as the reader sees it. */
  datatype Content = Content(mode: Mode, numChars: nat, bits: seq<bool>)

  ghost predicate Represents(seg: Segment, c: Content)
    reads seg.data
  {
    && seg.mode == c.mode && seg.numChars == c.numChars && seg.bitLength == |c.bits|
    && (if seg.data == null then c.bits == []
        else |c.bits| <= 8 * seg.data.Length && forall k | 0 <= k < |c.bits| :: c.bits[k] == StreamBit(seg.data[..], k))
  }

  // ----- sizes -----

  /** The number of data bits of a segment, or -1 if it is more than INT16_MAX. */
  function CalcSegmentBitLength(mode: Mode, numChars: nat): int
    requires mode == ECI ==> numChars == 0
  {
    if numChars > INT16_MAX then -1
    else
      var result := match mode
        case NUMERIC => (numChars * 10 + 2) / 3
        case ALPHANUMERIC => (numChars * 11 + 1) / 2
        case BYTE => numChars * 8
        case KANJI => numChars * 13
        case ECI => 3 * 8;
      if result > INT16_MAX then -1 else result
  }

  /**
   Ten bits for three digits and eleven for two characters, rounded up; eight for a byte and thirteen for a Kanji
   character; and -1 exactly if that is more than 32767.
   */
  lemma SegmentBitLength(mode: Mode, n: nat, bits: nat)
    requires mode == ECI ==> n == 0 && bits == 24
    requires mode == NUMERIC ==> 10 * n <= 3 * bits < 10 * n + 3
    requires mode == ALPHANUMERIC ==> 11 * n <= 2 * bits < 11 * n + 2
    requires mode == BYTE ==> bits == 8 * n
    requires mode == KANJI ==> bits == 13 * n
    ensures CalcSegmentBitLength(mode, n) == if bits > 32767 then -1 else bits
    ensures mode != ECI ==> DataLength(mode, n, []) == bits
  {
  }

  // ----- making segments -----

  /** The first full group of digits, and the rest. */
  lemma NumericGroup(s: string)
    requires IsNumeric(s) && |s| >= 3
    ensures NumericBits(s) == ToBits(DecimalValue(s[..3]), 10) + NumericBits(s[3..])
    ensures DecimalValue(s[..3]) < Pow2(10)
  {
    DecimalBound(s[..3]);
    if |s| == 3 {
      assert s[..3] == s;
      assert ToBits(0, 0) == [];
    }
  }

  lemma DecimalSnoc(s: string, k: nat)
    requires IsNumeric(s) && k < |s|
    ensures DecimalValue(s[..k + 1]) == 10 * DecimalValue(s[..k]) + DigitValue(s[k])
  {
    assert s[..k + 1][..k] == s[..k];
  }

  lemma NumericTail(s: string)
    requires IsNumeric(s) && |s| < 3
    ensures NumericBits(s) == ToBits(DecimalValue(s), GroupBits(|s|))
    ensures DecimalValue(s) < Pow2(GroupBits(|s|))
  {
    hide ToBits, DecimalValue;
    DecimalBound(s);
  }

  /** The bits written so far, the group being collected and what is still to come make up the whole. */
  ghost predicate NumericLoop(s: string, i: nat, count: nat, data: nat, bits: seq<bool>, rest: string) {
    && IsNumeric(s) && count <= i <= |s| && rest == s[i - count..] && data == DecimalValue(rest[..count])
    && bits + NumericBits(rest) == NumericBits(s)
  }

  lemma NumericNothing()
    ensures NumericBits("") == []
  {
  }

  lemma NumericStart(s: string)
    requires IsNumeric(s)
    ensures NumericLoop(s, 0, 0, 0, [], s)
  {
    hide NumericBits;
    assert s[..0] == "";
    assert [] + NumericBits(s) == NumericBits(s);
  }

  lemma NumericAdd(s: string, i: nat, count: nat, data: nat, bits: seq<bool>, rest: string)
    requires NumericLoop(s, i, count, data, bits, rest) && i < |s|
    ensures NumericLoop(s, i + 1, count + 1, data * 10 + DigitValue(s[i]), bits, rest)
  {
    hide NumericBits;
    DecimalSnoc(rest, count);
  }

  lemma NumericFull(s: string, i: nat, data: nat, bits: seq<bool>, rest: string)
    requires NumericLoop(s, i, 3, data, bits, rest)
    ensures |rest| >= 3 && data < Pow2(10) && |bits| + 10 <= |NumericBits(s)|
    ensures NumericLoop(s, i, 0, 0, bits + ToBits(data, 10), rest[3..])
  {
    hide NumericBits, Pow2, ToBits;
    NumericGroup(rest);
    assert bits + (ToBits(data, 10) + NumericBits(rest[3..])) == bits + ToBits(data, 10) + NumericBits(rest[3..]);
    assert rest[3..][..0] == [];
  }

  lemma NumericEnd(s: string, count: nat, data: nat, bits: seq<bool>, rest: string)
    requires NumericLoop(s, |s|, count, data, bits, rest) && count < 3
    ensures count == 0 ==> bits == NumericBits(s)
    ensures count > 0 ==> data < Pow2(count * 3 + 1) && bits + ToBits(data, count * 3 + 1) == NumericBits(s)
  {
    hide NumericBits, Pow2, ToBits;
    assert rest[..count] == rest;
    NumericTail(rest);
    if count == 0 {
      NumericNothing();
      assert bits + [] == bits;
    }
  }

  method MakeNumeric(digits: string, buf: array<byte>) returns (result: Segment)
    requires IsNumeric(digits)
    requires CalcSegmentBitLength(NUMERIC, |digits|) != -1
    requires (CalcSegmentBitLength(NUMERIC, |digits|) + 7) / 8 <= buf.Length
    modifies buf
    ensures result.data == buf && Represents(result, Content(NUMERIC, |digits|, NumericBits(digits)))
    ensures result.bitLength == CalcSegmentBitLength(NUMERIC, |digits|)
  {
    hide ToBits, Pow2, NumericBits, Holds, StreamBit, NumericLoop;
    var bitLen := CalcSegmentBitLength(NUMERIC, |digits|);
    var n := (bitLen + 7) / 8;
    NumericLength(digits);
    Clear(buf, 0, n);
    ClearedHolds(buf[..], n);
    var len, accumData: nat, accumCount: nat := 0, 0, 0;
    ghost var bits, rest := [], digits;
    NumericStart(digits);
    for i := 0 to |digits|
      invariant accumCount < 3 && NumericLoop(digits, i, accumCount, accumData, bits, rest)
      invariant Holds(buf[..], n, bits) && len == |bits|
    {
      NumericAdd(digits, i, accumCount, accumData, bits, rest);
      accumData := accumData * 10 + DigitValue(digits[i]);
      accumCount := accumCount + 1;
      if accumCount == 3 {
        NumericFull(digits, i + 1, accumData, bits, rest);
        len := AppendBits(accumData, 10, buf, len, n, bits);
        bits, rest := bits + ToBits(accumData, 10), rest[3..];
        accumData, accumCount := 0, 0;
      }
    }
    NumericEnd(digits, accumCount, accumData, bits, rest);
    if accumCount > 0 {
      len := AppendBits(accumData, accumCount * 3 + 1, buf, len, n, bits);
    }
    HoldsStream(buf[..], n, NumericBits(digits));
    result := Segment(NUMERIC, |digits|, buf, len);
  }

  lemma AlphanumericGroup(s: string)
    requires IsAlphanumeric(s) && |s| >= 2
    ensures AlphanumericBits(s) == ToBits(Base45Value(s[..2]), 11) + AlphanumericBits(s[2..])
    ensures Base45Value(s[..2]) < Pow2(11)
  {
    hide ALPHANUMERIC_CHARSET, IndexOf;
    Base45Bound(s[..2]);
    if |s| == 2 {
      assert s[..2] == s;
      assert ToBits(0, 0) == [];
    }
  }

  lemma AlphanumericTail(s: string)
    requires IsAlphanumeric(s) && |s| < 2
    ensures AlphanumericBits(s) == ToBits(Base45Value(s), PairBits(|s|))
    ensures Base45Value(s) < Pow2(PairBits(|s|))
  {
    hide ALPHANUMERIC_CHARSET, IndexOf;
    Base45Bound(s);
  }

  lemma Base45Snoc(s: string, k: nat)
    requires IsAlphanumeric(s) && k < |s|
    ensures Base45Value(s[..k + 1]) == 45 * Base45Value(s[..k]) + CharValue(s[k])
  {
    hide ALPHANUMERIC_CHARSET, IndexOf;
    assert s[..k + 1][..k] == s[..k];
  }

  /** The bits written so far, the group being collected and what is still to come make up the whole. */
  ghost predicate AlphanumericLoop(s: string, i: nat, count: nat, data: nat, bits: seq<bool>, rest: string) {
    && IsAlphanumeric(s) && count <= i <= |s| && rest == s[i - count..] && data == Base45Value(rest[..count])
    && bits + AlphanumericBits(rest) == AlphanumericBits(s)
  }

  lemma AlphanumericNothing()
    ensures AlphanumericBits("") == []
  {
  }

  lemma AlphanumericStart(s: string)
    requires IsAlphanumeric(s)
    ensures AlphanumericLoop(s, 0, 0, 0, [], s)
  {
    hide AlphanumericBits, ALPHANUMERIC_CHARSET, IndexOf;
    assert s[..0] == "";
    assert [] + AlphanumericBits(s) == AlphanumericBits(s);
  }

  lemma AlphanumericAdd(s: string, i: nat, count: nat, data: nat, bits: seq<bool>, rest: string)
    requires AlphanumericLoop(s, i, count, data, bits, rest) && i < |s|
    ensures AlphanumericLoop(s, i + 1, count + 1, data * 45 + CharValue(s[i]), bits, rest)
  {
    hide AlphanumericBits, ALPHANUMERIC_CHARSET, IndexOf;
    Base45Snoc(rest, count);
  }

  lemma AlphanumericFull(s: string, i: nat, data: nat, bits: seq<bool>, rest: string)
    requires AlphanumericLoop(s, i, 2, data, bits, rest)
    ensures |rest| >= 2 && data < Pow2(11) && |bits| + 11 <= |AlphanumericBits(s)|
    ensures AlphanumericLoop(s, i, 0, 0, bits + ToBits(data, 11), rest[2..])
  {
    hide AlphanumericBits, ALPHANUMERIC_CHARSET, IndexOf, Pow2, ToBits;
    AlphanumericGroup(rest);
    assert bits + (ToBits(data, 11) + AlphanumericBits(rest[2..]))
      == bits + ToBits(data, 11) + AlphanumericBits(rest[2..]);
    assert rest[2..][..0] == [];
  }

  lemma AlphanumericEnd(s: string, count: nat, data: nat, bits: seq<bool>, rest: string)
    requires AlphanumericLoop(s, |s|, count, data, bits, rest) && count < 2
    ensures count == 0 ==> bits == AlphanumericBits(s)
    ensures count > 0 ==> data < Pow2(6) && bits + ToBits(data, 6) == AlphanumericBits(s)
  {
    hide AlphanumericBits, ALPHANUMERIC_CHARSET, IndexOf, Pow2, ToBits;
    assert rest[..count] == rest;
    AlphanumericTail(rest);
    if count == 0 {
      AlphanumericNothing();
      assert bits + [] == bits;
    }
  }

  method MakeAlphanumeric(text: string, buf: array<byte>) returns (result: Segment)
    requires IsAlphanumeric(text)
    requires CalcSegmentBitLength(ALPHANUMERIC, |text|) != -1
    requires (CalcSegmentBitLength(ALPHANUMERIC, |text|) + 7) / 8 <= buf.Length
    modifies buf
    ensures result.data == buf && Represents(result, Content(ALPHANUMERIC, |text|, AlphanumericBits(text)))
    ensures result.bitLength == CalcSegmentBitLength(ALPHANUMERIC, |text|)
  {
    hide ToBits, Pow2, AlphanumericBits, ALPHANUMERIC_CHARSET, IndexOf, Holds, StreamBit, AlphanumericLoop;
    var bitLen := CalcSegmentBitLength(ALPHANUMERIC, |text|);
    var n := (bitLen + 7) / 8;
    AlphanumericLength(text);
    Clear(buf, 0, n);
    ClearedHolds(buf[..], n);
    var len, accumData: nat, accumCount: nat := 0, 0, 0;
    ghost var bits, rest := [], text;
    AlphanumericStart(text);
    for i := 0 to |text|
      invariant accumCount < 2 && AlphanumericLoop(text, i, accumCount, accumData, bits, rest)
      invariant Holds(buf[..], n, bits) && len == |bits|
    {
      AlphanumericAdd(text, i, accumCount, accumData, bits, rest);
      accumData := accumData * 45 + CharValue(text[i]);
      accumCount := accumCount + 1;
      if accumCount == 2 {
        AlphanumericFull(text, i + 1, accumData, bits, rest);
        len := AppendBits(accumData, 11, buf, len, n, bits);
        bits, rest := bits + ToBits(accumData, 11), rest[2..];
        accumData, accumCount := 0, 0;
      }
    }
    AlphanumericEnd(text, accumCount, accumData, bits, rest);
    if accumCount > 0 {
      len := AppendBits(accumData, 6, buf, len, n, bits);
    }
    HoldsStream(buf[..], n, AlphanumericBits(text));
    result := Segment(ALPHANUMERIC, |text|, buf, len);
  }

  // ----- the bit stream -----

  function Encoding(c: Content, version: Version): (bits: seq<bool>)
    ensures |bits| == 4 + c.mode.CharCountBits(version) + |c.bits|
  {
    ToBits(c.mode.Indicator(), 4) + ToBits(c.numChars, c.mode.CharCountBits(version)) + c.bits
  }

  function Stream(cs: seq<Content>, version: Version): seq<bool> {
    if cs == [] then [] else Stream(cs[..|cs| - 1], version) + Encoding(cs[|cs| - 1], version)
  }

  /** The count fits its field. */
  predicate CountFits(c: Content, version: Version) {
    c.numChars < Pow2(c.mode.CharCountBits(version))
  }

  // ----- reading the bit stream -----

  /** The length of the data bits that follow the count field; an ECI designator says its own length. */
  function DataLength(mode: Mode, n: nat, rest: seq<bool>): nat {
    match mode
    case NUMERIC => (n * 10 + 2) / 3
    case ALPHANUMERIC => (n * 11 + 1) / 2
    case BYTE => 8 * n
    case KANJI => 13 * n
    case ECI => if rest == [] || !rest[0] then 8 else if |rest| == 1 || !rest[1] then 16 else 24
  }

  /** The data bits agree with the mode and the count, as the caller of the encoder must see to. */
  predicate Consistent(c: Content) {
    |c.bits| == DataLength(c.mode, c.numChars, c.bits)
  }

  function ParseSegment(bits: seq<bool>, version: Version): Option<Content>
    requires |bits| >= 4
  {
    var mode := ModeOf(FromBits(bits[..4]));
    if mode == None then None
    else
      var cc := mode.value.CharCountBits(version);
      if |bits| < 4 + cc then None
      else
        var n := FromBits(bits[4..4 + cc]);
        var rest := bits[4 + cc..];
        var len := DataLength(mode.value, n, rest);
        if |rest| < len then None else Some(Content(mode.value, n, rest[..len]))
  }

  /** Reads segments until the terminator, or until fewer than four bits are left. */
  function Parse(bits: seq<bool>, version: Version): Option<seq<Content>>
    decreases |bits|
  {
    if |bits| < 4 || FromBits(bits[..4]) == 0 then Some([])
    else
      match ParseSegment(bits, version)
      case None => None
      case Some(c) =>
        match Parse(bits[|Encoding(c, version)|..], version)
        case None => None
        case Some(cs) => Some([c] + cs)
  }

  /** What follows the data bits does not change their length. */
  lemma DataLengthKnown(mode: Mode, n: nat, bits: seq<bool>, more: seq<bool>)
    requires |bits| == DataLength(mode, n, bits)
    ensures DataLength(mode, n, bits + more) == |bits|
  {
  }

  lemma ParseEncoding(c: Content, version: Version, more: seq<bool>)
    requires CountFits(c, version) && Consistent(c)
    ensures var bits := Encoding(c, version) + more;
            |bits| >= 4 && FromBits(bits[..4]) != 0 && ParseSegment(bits, version) == Some(c)
  {
    hide Pow2, ToBits, FromBits, DataLength;
    var bits := Encoding(c, version) + more;
    var m, cc := c.mode.Indicator(), c.mode.CharCountBits(version);
    Pow2Values();
    FromToBits(m, 4);
    FromToBits(c.numChars, cc);
    assert bits[..4] == ToBits(m, 4);
    assert bits[4..4 + cc] == ToBits(c.numChars, cc);
    assert bits[4 + cc..] == c.bits + more;
    DataLengthKnown(c.mode, c.numChars, c.bits, more);
    assert (c.bits + more)[..|c.bits|] == c.bits;
  }

  /** Padding that a reader recognises as the end of the segments. */
  predicate EndsStream(padding: seq<bool>) {
    |padding| < 4 || padding[..4] == [false, false, false, false]
  }

  lemma ParseEnd(padding: seq<bool>, version: Version)
    requires EndsStream(padding)
    ensures Parse(padding, version) == Some([])
  {
    if |padding| >= 4 {
      assert ToBits(0, 4) == [false, false, false, false];
      Pow2Values();
      FromToBits(0, 4);
    }
  }

  lemma {:induction false} StreamCons(cs: seq<Content>, version: Version)
    requires cs != []
    ensures Stream(cs, version) == Encoding(cs[0], version) + Stream(cs[1..], version)
  {
    hide Encoding;
    if |cs| > 1 {
      StreamCons(cs[..|cs| - 1], version);
      assert cs[..|cs| - 1][1..] == cs[1..][..|cs| - 2];
    } else {
      assert cs[..0] == [] && cs[1..] == [];
    }
  }

  lemma NoStream(version: Version)
    ensures Stream([], version) == []
  {
  }

  /** The reader recovers exactly the segments that were put in. */
  lemma {:induction false} ParseStream(cs: seq<Content>, version: Version, padding: seq<bool>)
    requires forall c | c in cs :: CountFits(c, version) && Consistent(c)
    requires EndsStream(padding)
    ensures Parse(Stream(cs, version) + padding, version) == Some(cs)
  {
    hide Stream, Encoding, ParseSegment, CountFits, Consistent, EndsStream, FromBits;
    if cs == [] {
      NoStream(version);
      ParseEnd(padding, version);
      assert [] + padding == padding;
    } else {
      var more := Stream(cs[1..], version) + padding;
      StreamCons(cs, version);
      ParseEncoding(cs[0], version, more);
      ParseStream(cs[1..], version, padding);
      var bits := Encoding(cs[0], version) + more;
      assert Stream(cs, version) + padding == bits;
      assert bits[|Encoding(cs[0], version)|..] == more;
      assert [cs[0]] + cs[1..] == cs;
    }
  }
}
