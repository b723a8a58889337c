/**
 How much a symbol holds. The count field of a segment is never what limits it, so that a text fits exactly if its bits
 do, and the longest texts are those that the documentation promises.
 */
module TextCapacity {
  import opened Bytes
  import opened BitBuffer
  import opened Capacity
  import opened CapacityTables
  import opened TextModes
  import opened Segments
  import opened Encoder
  import opened TextEncoder

  // ----- bounds on the data codewords -----

  lemma LowBound(v: Version)
    ensures DATA_LOW[v - 1] <= if v <= 9 then 232 else if v <= 26 then 1370 else 2956
    ensures v == 40 ==> DATA_LOW[v - 1] == 2956
  {
  }

  lemma DataBound(v: Version, e: Ecc)
    ensures NumDataCodewords(v, e) <= if v <= 9 then 232 else if v <= 26 then 1370 else 2956
  {
    hide NumDataCodewords, Correction;
    TableEntries(v, LOW);
    LowBound(v);
    if e != LOW { LevelsIncrease(v, LOW, e); }
  }

  lemma FieldPowers()
    ensures Pow2(8) == 256 && Pow2(9) == 512 && Pow2(10) == 1024 && Pow2(11) == 2048 && Pow2(12) == 4096
    ensures Pow2(13) == 8192 && Pow2(14) == 16384 && Pow2(16) == 65536 && Pow2(0) == 1
  {
    Pow2Values();
    assert Pow2(9) == 2 * Pow2(8) && Pow2(12) == 2 * Pow2(11) && Pow2(13) == 2 * Pow2(12);
  }

  // ----- the count field never limits -----

  lemma {:induction false} StreamHolds(cs: seq<Content>, c: Content, v: Version)
    requires c in cs
    ensures |Stream(cs, v)| >= |Encoding(c, v)|
  {
    hide Encoding;
    var k := |cs| - 1;
    if c != cs[k] { StreamHolds(cs[..k], c, v); }
  }

  /** A segment whose bits fit into a symbol has a count that fits its field. */
  lemma CountIsSmall(c: Content, v: Version, e: Ecc)
    requires Consistent(c) && (c.mode == ECI ==> c.numChars == 0)
    requires |c.bits| <= 8 * NumDataCodewords(v, e)
    ensures CountFits(c, v)
  {
    hide NumDataCodewords, Mode.CharCountBits, Pow2;
    DataBound(v, e);
    CharCountWidths(v);
    FieldPowers();
  }

  /** Segments fit exactly if their bits fit. */
  lemma BitsDecide(cs: seq<Content>, v: Version, e: Ecc)
    requires forall c | c in cs :: Consistent(c) && (c.mode == ECI ==> c.numChars == 0)
    ensures StreamFits(cs, v, e) <==> |Stream(cs, v)| <= 8 * NumDataCodewords(v, e)
  {
    hide NumDataCodewords, CountFits, Consistent, Stream;
    if |Stream(cs, v)| <= 8 * NumDataCodewords(v, e) {
      forall c | c in cs ensures CountFits(c, v) {
        StreamHolds(cs, c, v);
        CountIsSmall(c, v, e);
      }
    }
  }

  // ----- texts -----

  /** The bits of a text that is not empty: mode, count and data. */
  function TextSize(text: string, v: Version): nat {
    4 + if IsNumeric(text) then (if v <= 9 then 10 else if v <= 26 then 12 else 14) + (|text| * 10 + 2) / 3
        else if IsAlphanumeric(text) then (if v <= 9 then 9 else if v <= 26 then 11 else 13) + (|text| * 11 + 1) / 2
        else (if v <= 9 then 8 else 16) + |text| * 8
  }

  lemma OneSegment(c: Content, v: Version)
    ensures |Stream([c], v)| == |Encoding(c, v)|
  {
    assert [c][..0] == [];
  }

  /** A text fits into a symbol exactly if its bits do, whatever the version and the level. */
  lemma TextFits(text: string, v: Version, e: Ecc)
    requires IsCString(text) && text != ""
    ensures StreamFits(TextContents(text), v, e) <==> TextSize(text, v) <= 8 * DataCodewords(v, e)
  {
    hide NumDataCodewords, DataCodewords, IsNumeric, IsAlphanumeric, NumericBits, AlphanumericBits, BytesToBits,
      TextBytes, Mode.CharCountBits, Stream, StreamFits;
    var c := TextContent(text);
    TextRoundTrip(text);
    TextContentLength(text);
    BitsDecide([c], v, e);
    OneSegment(c, v);
    CharCountWidths(v);
    TableEntries(v, e);
  }

  /** The longest text that a symbol can hold: digits, alphanumeric characters or bytes. */
  function Longest(text: string): nat {
    if IsNumeric(text) then 7089 else if IsAlphanumeric(text) then 4296 else 2953
  }

  lemma LargestCapacity()
    ensures DataCodewords(40, LOW) == 2956
  {
  }

  /** With all versions allowed and the lowest level, a text can be encoded exactly up to these lengths. */
  lemma LongestText(text: string, minVersion: Version)
    requires IsCString(text) && text != ""
    ensures (exists w: Version :: minVersion <= w <= 40 && StreamFits(TextContents(text), w, LOW))
       <==> |text| <= Longest(text)
  {
    hide NumDataCodewords, DataCodewords, IsNumeric, IsAlphanumeric, TextContents, StreamFits;
    LargestCapacity();
    TextFits(text, 40, LOW);
    forall w: Version | StreamFits(TextContents(text), w, LOW) ensures |text| <= Longest(text) {
      TextFits(text, w, LOW);
      TableEntries(w, LOW);
      DataBound(w, LOW);
    }
  }

  // ----- bytes -----

  /** Bytes fit exactly if their bits do. */
  lemma BytesFit(s: seq<byte>, v: Version, e: Ecc)
    ensures StreamFits([BinaryContent(s)], v, e)
       <==> 4 + (if v <= 9 then 8 else 16) + 8 * |s| <= 8 * DataCodewords(v, e)
  {
    hide NumDataCodewords, DataCodewords, BytesToBits, Mode.CharCountBits, Stream, StreamFits;
    BinaryRoundTrip(s);
    BitsDecide([BinaryContent(s)], v, e);
    OneSegment(BinaryContent(s), v);
    CharCountWidths(v);
    TableEntries(v, e);
  }

  /** With all versions allowed and the lowest level, up to 2953 bytes can be encoded. */
  lemma LongestBytes(s: seq<byte>, minVersion: Version)
    ensures (exists w: Version :: minVersion <= w <= 40 && StreamFits([BinaryContent(s)], w, LOW)) <==> |s| <= 2953
  {
    hide NumDataCodewords, DataCodewords, BinaryContent, StreamFits;
    LargestCapacity();
    BytesFit(s, 40, LOW);
    forall w: Version | StreamFits([BinaryContent(s)], w, LOW) ensures |s| <= 2953 {
      BytesFit(s, w, LOW);
      TableEntries(w, LOW);
      DataBound(w, LOW);
    }
  }
}
