/**
 The high-level functions: from a text or a string of bytes to a symbol.
 */
module TextEncoder {
  import opened Options
  import opened Bytes
  import opened BitBuffer
  import opened Capacity
  import opened TextModes
  import opened Segments
  import opened Grid
  import opened FunctionModules
  import opened MaskChoice
  import opened SymbolReader
  import opened Encoder

  // ----- text as bytes -----

  /** The characters of a C string: nonzero bytes. */
  predicate IsCString(text: string) { forall i | 0 <= i < |text| :: 0 < text[i] as int < 256 }

  function TextBytes(text: string): (s: seq<byte>)
    requires IsCString(text)
    ensures |s| == |text|
  {
    seq(|text|, i requires 0 <= i < |text| => ByteOf(text[i] as int))
  }

  function BytesText(s: seq<byte>): (text: string)
    ensures |text| == |s|
  {
    seq(|s|, i requires 0 <= i < |s| => ValueOf(s[i]) as char)
  }

  lemma TextBytesRoundTrip(text: string)
    requires IsCString(text)
    ensures BytesText(TextBytes(text)) == text
  {
    forall i | 0 <= i < |text| ensures BytesText(TextBytes(text))[i] == text[i] { ValueOfByteOf(text[i] as int); }
  }

  // ----- the segment for a text -----

  function TextContent(text: string): Content
    requires IsCString(text)
  {
    if IsNumeric(text) then Content(NUMERIC, |text|, NumericBits(text))
    else if IsAlphanumeric(text) then Content(ALPHANUMERIC, |text|, AlphanumericBits(text))
    else Content(BYTE, |text|, BytesToBits(TextBytes(text)))
  }

  function TextContents(text: string): seq<Content>
    requires IsCString(text)
  {
    if text == "" then [] else [TextContent(text)]
  }

  /** The text that a reader sees in the segments. */
  function ContentText(c: Content): string {
    match c.mode
    case NUMERIC => DecodeNumeric(c.bits, c.numChars)
    case ALPHANUMERIC => DecodeAlphanumeric(c.bits, c.numChars)
    case _ => BytesText(BitsToBytes(c.bits))
  }

  function ReadText(contents: seq<Content>): string {
    if contents == [] then "" else ReadText(contents[..|contents| - 1]) + ContentText(contents[|contents| - 1])
  }

  /** Whatever mode is chosen, the reader sees the text. */
  lemma TextRoundTrip(text: string)
    requires IsCString(text)
    ensures ReadText(TextContents(text)) == text
    ensures forall c | c in TextContents(text) :: Consistent(c)
  {
    hide NumericBits, AlphanumericBits, DecodeNumeric, DecodeAlphanumeric, BytesText, BitsToBytes, TextBytes,
      BytesToBits;
    if text != "" {
      var c := TextContent(text);
      if IsNumeric(text) {
        NumericRoundTrip(text);
        NumericLength(text);
      } else if IsAlphanumeric(text) {
        AlphanumericRoundTrip(text);
        AlphanumericLength(text);
      } else {
        BytesRoundTrip(TextBytes(text));
        TextBytesRoundTrip(text);
      }
      assert [c][..0] == [];
      assert ReadText([c]) == ReadText([]) + ContentText(c);
    }
  }

  // ----- choosing the mode -----

  method IsNumericText(text: string) returns (b: bool)
    ensures b == IsNumeric(text)
  {
    for i := 0 to |text|
      invariant IsNumeric(text[..i])
    {
      assert text[i] in text;
      if text[i] < '0' || text[i] > '9' {
        return false;
      }
    }
    assert text[..|text|] == text;
    return true;
  }

  method IsAlphanumericText(text: string) returns (b: bool)
    ensures b == IsAlphanumeric(text)
  {
    hide ALPHANUMERIC_CHARSET, IndexOf;
    for i := 0 to |text|
      invariant IsAlphanumeric(text[..i])
    {
      if IndexOf(ALPHANUMERIC_CHARSET, text[i]) == |ALPHANUMERIC_CHARSET| {
        return false;
      }
    }
    assert text[..|text|] == text;
    return true;
  }

  const SIZE_MAX := 0xFFFF_FFFF

  function CalcSegmentBufferSize(mode: Mode, numChars: nat): nat
    requires mode == ECI ==> numChars == 0
  {
    var temp := CalcSegmentBitLength(mode, numChars);
    if temp == -1 then SIZE_MAX else (temp + 7) / 8
  }

  /** A segment that does not fit into the buffer does not fit into any symbol that does. */
  lemma TooLong(c: Content, v: Version, maxVersion: Version, e: Ecc)
    requires v <= maxVersion
    requires |c.bits| > 8 * BufferLenForVersion(maxVersion) || |c.bits| > INT16_MAX
    ensures !StreamFits([c], v, e)
  {
    hide NumDataCodewords, RawCodewords, NumRawDataModules, BufferLenForVersion, Pow2;
    BufferLenMonotone(v, maxVersion);
    CodewordsFit(v, e);
    CapacityBound(v, e);
    assert [c][..0] == [];
    assert |Stream([c], v)| == |Stream([], v)| + |Encoding(c, v)|;
  }

  /** The bits of the segment are too many for a symbol, or for the buffer. */
  lemma TooLongText(text: string, minVersion: Version, maxVersion: Version, e: Ecc)
    requires IsCString(text) && text != ""
    requires var c := TextContent(text); |c.bits| > 8 * BufferLenForVersion(maxVersion) || |c.bits| > INT16_MAX
    ensures !exists w: Version :: minVersion <= w <= maxVersion && StreamFits(TextContents(text), w, e)
  {
    hide StreamFits, TextContent;
    forall w: Version | w <= maxVersion ensures !StreamFits(TextContents(text), w, e) {
      TooLong(TextContent(text), w, maxVersion, e);
    }
  }

  lemma TextContentLength(text: string)
    requires IsCString(text)
    ensures IsNumeric(text) ==> |TextContent(text).bits| == (|text| * 10 + 2) / 3
    ensures !IsNumeric(text) && IsAlphanumeric(text) ==> |TextContent(text).bits| == (|text| * 11 + 1) / 2
    ensures !IsNumeric(text) && !IsAlphanumeric(text) ==> |TextContent(text).bits| == |text| * 8
  {
    hide NumericBits, AlphanumericBits;
    if IsNumeric(text) { NumericLength(text); } else if IsAlphanumeric(text) { AlphanumericLength(text); }
  }

  /** Copies the text into the buffer. */
  method CopyText(text: string, buf: array<byte>)
    requires IsCString(text) && |text| <= buf.Length
    modifies buf
    ensures buf[..|text|] == TextBytes(text)
  {
    for i := 0 to |text|
      invariant forall k | 0 <= k < i :: buf[k] == TextBytes(text)[k]
    {
      buf[i] := ByteOf(text[i] as int);
    }
  }

  lemma BytesRepresent(s: seq<byte>, n: nat)
    requires n <= |s|
    ensures forall k | 0 <= k < 8 * n :: BytesToBits(s[..n])[k] == StreamBit(s, k)
  {
    forall k | 0 <= k < 8 * n ensures BytesToBits(s[..n])[k] == StreamBit(s, k) {
      assert s[..n][k / 8] == s[k / 8];
    }
  }

  /** The segment for a text, or none if it does not fit into the buffer of length bufLen. */
  method MakeTextSegment(text: string, bufLen: nat, buf: array<byte>) returns (r: Option<Segment>)
    requires IsCString(text) && text != "" && bufLen <= buf.Length && bufLen < 4000
    modifies buf
    ensures r.Some? ==> r.value.data == buf && Represents(r.value, TextContent(text))
    ensures r.None? ==> |TextContent(text).bits| > 8 * bufLen || |TextContent(text).bits| > INT16_MAX
  {
    hide NumericBits, AlphanumericBits, IsNumeric, IsAlphanumeric, BytesToBits, TextBytes, StreamBit;
    TextContentLength(text);
    var numeric := IsNumericText(text);
    if numeric {
      if CalcSegmentBufferSize(NUMERIC, |text|) > bufLen {
        return None;
      }
      var seg := MakeNumeric(text, buf);
      return Some(seg);
    }
    var alphanumeric := IsAlphanumericText(text);
    if alphanumeric {
      if CalcSegmentBufferSize(ALPHANUMERIC, |text|) > bufLen {
        return None;
      }
      var seg := MakeAlphanumeric(text, buf);
      return Some(seg);
    }
    if |text| > bufLen {
      return None;
    }
    CopyText(text, buf);
    var bitLength := CalcSegmentBitLength(BYTE, |text|);
    if bitLength == -1 {
      return None;
    }
    BytesRepresent(buf[..], |text|);
    assert buf[..][..|text|] == TextBytes(text);
    return Some(Segment(BYTE, |text|, buf, bitLength));
  }

  /** A symbol made from a text reads back as that text. */
  method EncodeText(text: string, tempBuffer: array<byte>, qrcode: array<byte>, ecl: Ecc,
                    minVersion: Version, maxVersion: Version, mask: int, boostEcl: bool,
                    penalty: seq<byte> -> int, ghost score: set<Cell> -> int)
      returns (ok: bool, ghost v: Version, ghost e: Ecc)
    requires IsCString(text) && minVersion <= maxVersion && MASK_AUTO <= mask < 8 && tempBuffer != qrcode
    requires BufferLenForVersion(maxVersion) <= tempBuffer.Length && BufferLenForVersion(maxVersion) <= qrcode.Length
    requires forall w: Version {:trigger SideLength(w)} | minVersion <= w <= maxVersion ::
        Scores(penalty, score, SideLength(w))
    modifies tempBuffer, qrcode
    ensures ok <==> exists w: Version :: minVersion <= w <= maxVersion && StreamFits(TextContents(text), w, ecl)
    ensures !ok ==> qrcode.Length >= 1 && qrcode[0] == 0
    ensures ok ==>
              && minVersion <= v <= maxVersion
              && Encoded(qrcode[..], TextContents(text), ecl, minVersion, boostEcl, v, e)
  {
    hide TextContent, StreamFits, Encoded, Scores;
    var textLen := |text|;
    TextRoundTrip(text);
    ghost var contents := TextContents(text);
    if textLen == 0 {
      ghost var m, drawn;
      ok, v, e, m, drawn := EncodeSegmentsAdvanced([], ecl, minVersion, maxVersion, mask, boostEcl, tempBuffer, qrcode,
        penalty, score, contents);
      return;
    }
    var bufLen := BufferLenForVersion(maxVersion);
    BufferLenSmall(maxVersion);
    var seg := MakeTextSegment(text, bufLen, tempBuffer);
    if seg.None? {
      TooLongText(text, minVersion, maxVersion, ecl);
      BufferNotEmpty(maxVersion);
      qrcode[0] := 0;
      ok, v, e := false, minVersion, ecl;
      return;
    }
    ghost var m, drawn;
    ok, v, e, m, drawn := EncodeSegmentsAdvanced([seg.value], ecl, minVersion, maxVersion, mask, boostEcl,
      tempBuffer, qrcode,
      penalty, score, contents);
  }

  /** The one segment that holds a string of bytes. */
  function BinaryContent(s: seq<byte>): Content { Content(BYTE, |s|, BytesToBits(s)) }

  /** The reader sees the bytes. */
  lemma BinaryRoundTrip(s: seq<byte>)
    ensures Consistent(BinaryContent(s)) && BitsToBytes(BinaryContent(s).bits) == s
  {
    hide BytesToBits, BitsToBytes;
    BytesRoundTrip(s);
  }

  lemma TooManyBytes(s: seq<byte>, maxVersion: Version, e: Ecc)
    requires 8 * |s| > INT16_MAX
    ensures forall w: Version | w <= maxVersion :: !StreamFits([BinaryContent(s)], w, e)
  {
    hide StreamFits, BytesToBits;
    forall w: Version | w <= maxVersion ensures !StreamFits([BinaryContent(s)], w, e) {
      TooLong(BinaryContent(s), w, maxVersion, e);
    }
  }

  /** A symbol made from bytes reads back as those bytes; the buffer that holds them is used for scratch afterwards. */
  method EncodeBinary(dataAndTemp: array<byte>, dataLen: nat, qrcode: array<byte>, ecl: Ecc,
                      minVersion: Version, maxVersion: Version, mask: int, boostEcl: bool,
                      penalty: seq<byte> -> int, ghost score: set<Cell> -> int)
      returns (ok: bool, ghost v: Version, ghost e: Ecc)
    requires dataLen <= dataAndTemp.Length && minVersion <= maxVersion && MASK_AUTO <= mask < 8 && dataAndTemp != qrcode
    requires BufferLenForVersion(maxVersion) <= dataAndTemp.Length && BufferLenForVersion(maxVersion) <= qrcode.Length
    requires forall w: Version {:trigger SideLength(w)} | minVersion <= w <= maxVersion ::
        Scores(penalty, score, SideLength(w))
    modifies dataAndTemp, qrcode
    ensures var contents := [BinaryContent(old(dataAndTemp[..dataLen]))];
            && (ok <==> exists w: Version :: minVersion <= w <= maxVersion && StreamFits(contents, w, ecl))
            && (ok ==> minVersion <= v <= maxVersion && Encoded(qrcode[..], contents, ecl, minVersion, boostEcl, v, e))
    ensures !ok ==> qrcode.Length >= 1 && qrcode[0] == 0
  {
    hide StreamFits, Encoded, Scores, BytesToBits, StreamBit;
    ghost var s := dataAndTemp[..dataLen];
    ghost var contents := [BinaryContent(s)];
    var bitLength := CalcSegmentBitLength(BYTE, dataLen);
    if bitLength == -1 {
      TooManyBytes(s, maxVersion, ecl);
      BufferNotEmpty(maxVersion);
      qrcode[0] := 0;
      ok, v, e := false, minVersion, ecl;
      return;
    }
    BinaryRoundTrip(s);
    BytesRepresent(dataAndTemp[..], dataLen);
    assert dataAndTemp[..][..dataLen] == s;
    ghost var m, drawn;
    ok, v, e, m, drawn := EncodeSegmentsAdvanced([Segment(BYTE, dataLen, dataAndTemp, bitLength)], ecl, minVersion,
      maxVersion, mask, boostEcl, dataAndTemp, qrcode, penalty, score, contents);
  }

  lemma BufferLenSmall(v: Version)
    ensures BufferLenForVersion(v) <= 3918
  {
    BufferLenMonotone(v, 40);
  }

  /** A finished symbol has one text only. */
  lemma TextUnique(q: seq<byte>, v: Version, v': Version, text: string, text': string)
    requires IsCString(text) && IsCString(text')
    requires Decodes(q, v, TextContents(text)) && Decodes(q, v', TextContents(text'))
    ensures text == text'
  {
    DecodesUnique(q, v, v', TextContents(text), TextContents(text'));
    TextRoundTrip(text);
    TextRoundTrip(text');
  }
}
