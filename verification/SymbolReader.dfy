/**
 What a reader of a finished symbol does: it reads the format information, removes the mask,
 collects the codewords, undoes the interleaving and parses the segments.
 */
module SymbolReader {
  import opened Sequences
  import opened Options
  import opened Bytes
  import opened BitBuffer
  import opened Capacity
  import opened Grid
  import opened Zigzag
  import opened Masking
  import opened FormatInformation
  import opened FunctionModules
  import opened FunctionPatterns
  import opened Interleaving
  import opened ErrorCorrection
  import opened MinimumDistance
  import opened Segments
  import opened BitStream
  import opened ModuleCount
  import opened MaskChoice

  // ----- bits to bytes -----

  function BitsToBytes(bits: seq<bool>): (s: seq<byte>)
    ensures |s| == |bits| / 8
  {
    seq(|bits| / 8, k requires 0 <= k < |bits| / 8 => PackByte(bits[8 * k..8 * k + 8]))
  }

  lemma BytesRoundTrip(s: seq<byte>)
    ensures BitsToBytes(BytesToBits(s)) == s
  {
    hide PackByte, Bits, BitOf;
    forall k | 0 <= k < |s| ensures BitsToBytes(BytesToBits(s))[k] == s[k] {
      var group := BytesToBits(s)[8 * k..8 * k + 8];
      forall i | 0 <= i < 8 ensures group[i] == Bits(s[k])[i] {
        assert (8 * k + i) / 8 == k && (8 * k + i) % 8 == i;
      }
      assert group == Bits(s[k]);
      PackBits(s[k]);
    }
  }

  lemma BitsToBytesPrefix(bits: seq<bool>, m: nat)
    requires 8 * m <= |bits| < 8 * m + 8
    ensures BitsToBytes(bits) == BitsToBytes(bits[..8 * m])
  {
    hide PackByte;
    forall k | 0 <= k < m ensures bits[8 * k..8 * k + 8] == bits[..8 * m][8 * k..8 * k + 8] {}
  }

  // ----- the reader -----

  /** The cells that carry data, in the order of the scan. */
  ghost function DataCells(v: Version): (light: seq<Cell>)
    ensures Distinct(light) && |light| == NumRawDataModules(v)
    ensures forall c :: c in light ==> c !in FunctionCells(v) && InGrid(SideLength(v), c)
  {
    hide FunctionCells, Scan, Distinct, Light, NumRawDataModules;
    LightCount(v);
    ScanIsBijection(SideLength(v));
    Light(FunctionCells(v), Scan(SideLength(v), SideLength(v) - 1))
  }

  /** The codewords of a symbol, once the mask is removed. */
  ghost function ReadCodewords(black: set<Cell>, v: Version, mask: Mask): (msg: seq<byte>)
    ensures |msg| == RawCodewords(v)
  {
    BitsToBytes(ReadCells(Masked(black, FunctionCells(v), SideLength(v), mask), DataCells(v)))
  }

  /** The data codewords: the data parts of the blocks, without the error correction codewords. */
  ghost function ReadData(black: set<Cell>, v: Version, e: Ecc, mask: Mask): seq<byte> {
    LayoutSizes(v, e);
    Concat(ReadBlocks(LayoutOf(v, e), ReadCodewords(black, v, mask)))
  }

  ghost function ReadContents(black: set<Cell>, v: Version, e: Ecc, mask: Mask): Option<seq<Content>> {
    Parse(BytesToBits(ReadData(black, v, e, mask)), v)
  }

  /** The first copy of the format information names this level and mask. */
  ghost predicate ShowsFormat(black: set<Cell>, e: Ecc, mask: Mask) {
    forall i {:trigger FirstCopy(i)} | 0 <= i < 15 :: FirstCopy(i) in black <==> WordBit(FormatWord(e, mask), i)
  }

  /** The buffer is a symbol of version v from which a reader recovers the contents. */
  ghost predicate Decodes(q: seq<byte>, v: Version, contents: seq<Content>) {
    && HoldsGrid(q, SideLength(v))
    && exists e: Ecc, mask: Mask {:trigger ShowsFormat(Black(q, SideLength(v)), e, mask)} ::
         ShowsFormat(Black(q, SideLength(v)), e, mask)
           && ReadContents(Black(q, SideLength(v)), v, e, mask) == Some(contents)
  }

  lemma ShowsFormatUnique(black: set<Cell>, e: Ecc, mask: Mask, e': Ecc, mask': Mask)
    requires ShowsFormat(black, e, mask) && ShowsFormat(black, e', mask')
    ensures e == e' && mask == mask'
  {
    hide WordBit, FormatWord;
    forall i | 0 <= i < 15 ensures WordBit(FormatWord(e, mask), i) == WordBit(FormatWord(e', mask'), i) {
      assert FirstCopy(i) in black <==> WordBit(FormatWord(e, mask), i);
    }
    FormatUnique(e, mask, e', mask');
  }

  /** A symbol has at most one version and one reading. */
  lemma DecodesUnique(q: seq<byte>, v: Version, v': Version, contents: seq<Content>, contents': seq<Content>)
    requires Decodes(q, v, contents) && Decodes(q, v', contents')
    ensures v == v' && contents == contents'
  {
    hide ShowsFormat, ReadContents, Black;
    var black := Black(q, SideLength(v));
    var e: Ecc, mask: Mask :| ShowsFormat(black, e, mask) && ReadContents(black, v, e, mask) == Some(contents);
    var e': Ecc, mask': Mask :| ShowsFormat(black, e', mask') && ReadContents(black, v, e', mask') == Some(contents');
    ShowsFormatUnique(black, e, mask, e', mask');
  }

  // ----- finished symbols can be read -----

  /** The finished symbol shows the format that was drawn. */
  lemma FinishedShowsFormat(black: set<Cell>, v: Version, e: Ecc, mask: Mask)
    ensures ShowsFormat(Finished(black, v, e, mask), e, mask)
  {
    hide WordBit, FormatWord, Finished, Masked, FirstCopy, SecondCopy;
    FinishedCells(black, v, e, mask);
    forall i | 0 <= i < 15
      ensures FirstCopy(i) in Finished(black, v, e, mask) <==> WordBit(FormatWord(e, mask), i)
    {
      assert FormatCell(SideLength(v), i) == FirstCopy(i);
    }
  }

  /** Outside the format information, the function modules show the patterns of the standard. */
  ghost predicate ShowsPatterns(black: set<Cell>, v: Version) {
    forall c {:trigger c in black} | c in FunctionCells(v) && !IsFormatCell(SideLength(v), c) ::
      c in black <==> c in Pattern(v)
  }

  /** Neither mask nor format information disturbs the patterns. */
  lemma FinishedShowsPatterns(black: set<Cell>, v: Version, e: Ecc, mask: Mask)
    requires ShowsPattern(black, v)
    ensures ShowsPatterns(Finished(black, v, e, mask), v)
  {
    hide FunctionCells, Finished, Invert, FormatWord, Pattern, IsFormatCell;
    FinishedCells(black, v, e, mask);
    FunctionCellsInGrid(v);
  }

  /** Removing the mask from the finished symbol uncovers the data modules. */
  lemma UnmaskedData(black: set<Cell>, v: Version, e: Ecc, mask: Mask, c: Cell)
    requires InGrid(SideLength(v), c) && c !in FunctionCells(v)
    ensures c in Masked(Finished(black, v, e, mask), FunctionCells(v), SideLength(v), mask) <==> c in black
  {
    hide FunctionCells, Finished, Invert, FormatWord;
    if IsFormatCell(SideLength(v), c) { FormatCellsAreFunction(v, c); }
    FinishedCells(black, v, e, mask);
  }

  /** The codewords that were placed are read back. */
  lemma ReadFinished(drawn: set<Cell>, v: Version, e: Ecc, mask: Mask, msg: seq<byte>)
    requires |msg| == RawCodewords(v)
    requires SameData(drawn, FunctionCells(v) + Drawn(DataCells(v), BytesToBits(msg)), v)
    ensures ReadCodewords(Finished(drawn, v, e, mask), v, mask) == msg
  {
    hide FunctionCells, Finished, Masked, DataCells, BitsToBytes, NumRawDataModules, BytesToBits;
    var func, light, bits := FunctionCells(v), DataCells(v), BytesToBits(msg);
    var r := ReadCells(Masked(Finished(drawn, v, e, mask), func, SideLength(v), mask), light);
    var r' := ReadCells(func + Drawn(light, bits), light);
    forall k | 0 <= k < |light| ensures r[k] == r'[k] {
      assert light[k] in light;
      UnmaskedData(drawn, v, e, mask, light[k]);
    }
    assert r == r';
    ReadDrawn(func, light, bits);
    BitsToBytesPrefix(r, RawCodewords(v));
    BytesRoundTrip(msg);
  }

  /** The whole chain: the reader recovers the segments. */
  lemma ReadEncoded(drawn: set<Cell>, v: Version, e: Ecc, mask: Mask, L: Layout, data: seq<byte>,
      contents: seq<Content>)
    requires L.Valid() && L.ecc >= 1 && |data| == L.DataLen()
    requires SameData(drawn, FunctionCells(v) + Drawn(DataCells(v), BytesToBits(FinalMessage(L, data))), v)
    requires forall c | c in contents :: CountFits(c, v) && Consistent(c)
    requires IsPadded(BytesToBits(data), contents, v)
    requires L == LayoutOf(v, e)
    ensures ShowsFormat(Finished(drawn, v, e, mask), e, mask)
    ensures ReadContents(Finished(drawn, v, e, mask), v, e, mask) == Some(contents)
  {
    hide FunctionCells, Finished, DataCells, BytesToBits, FinalMessage, LayoutOf, IsPadded, Stream, Parse, SameData,
      ReadCodewords, RawCodewords, ReadBlocks, ShowsFormat;
    LayoutSizes(v, e);
    ReadFinished(drawn, v, e, mask, FinalMessage(L, data));
    FinalMessageData(L, data);
    FinishedShowsFormat(drawn, v, e, mask);
    ParsePadded(BytesToBits(data), contents, v);
  }

  /** The bits are the padded stream of the contents. */
  ghost predicate IsPadded(bits: seq<bool>, contents: seq<Content>, v: Version) {
    |Stream(contents, v)| <= |bits| && |bits| % 8 == 0 && bits == Padded(Stream(contents, v), |bits|)
  }

  lemma ParsePadded(bits: seq<bool>, contents: seq<Content>, v: Version)
    requires IsPadded(bits, contents, v)
    requires forall c | c in contents :: CountFits(c, v) && Consistent(c)
    ensures Parse(bits, v) == Some(contents)
  {
    hide Padded, Stream, Parse;
    var s := Stream(contents, v);
    PaddingEnds(s, |bits|);
    ParseStream(contents, v, bits[|s|..]);
    assert s + bits[|s|..] == bits;
  }

  // ----- damaged symbols -----

  /**
   With its mask taken away, the symbol holds the message for these data codewords, and they are the padded stream of
   the contents, which a reader gets back from them.
   */
  ghost predicate Carries(black: set<Cell>, v: Version, e: Ecc, mask: Mask, data: seq<byte>, contents: seq<Content>) {
    && |data| == LayoutOf(v, e).DataLen()
    && ReadCodewords(black, v, mask) == FinalMessage(LayoutOf(v, e), data)
    && IsPadded(BytesToBits(data), contents, v) && Parse(BytesToBits(data), v) == Some(contents)
  }

  lemma FinishedCarries(drawn: set<Cell>, v: Version, e: Ecc, mask: Mask, L: Layout, data: seq<byte>,
      contents: seq<Content>)
    requires L.Valid() && L.ecc >= 1 && |data| == L.DataLen()
    requires SameData(drawn, FunctionCells(v) + Drawn(DataCells(v), BytesToBits(FinalMessage(L, data))), v)
    requires forall c | c in contents :: CountFits(c, v) && Consistent(c)
    requires IsPadded(BytesToBits(data), contents, v)
    requires L == LayoutOf(v, e)
    ensures Carries(Finished(drawn, v, e, mask), v, e, mask, data, contents)
  {
    hide FunctionCells, Finished, DataCells, BytesToBits, FinalMessage, LayoutOf, IsPadded, Stream, Parse, SameData,
      ReadCodewords, RawCodewords;
    LayoutSizes(v, e);
    ReadFinished(drawn, v, e, mask, FinalMessage(L, data));
    ParsePadded(BytesToBits(data), contents, v);
  }

  /** In every block, at most half as many codewords as there are for error correction are read wrongly. */
  ghost predicate Repairable(black: set<Cell>, seen: set<Cell>, v: Version, e: Ecc, mask: Mask) {
    var L := LayoutOf(v, e);
    LayoutSizes(v, e);
    forall i | 0 <= i < L.n ::
      Distance(Deinterleave(L, ReadCodewords(black, v, mask), i), Deinterleave(L, ReadCodewords(seen, v, mask), i))
        <= L.ecc / 2
  }

  /** What is left of a damaged symbol determines what was in it. */
  lemma DamagedSymbol(black: set<Cell>, black': set<Cell>, seen: set<Cell>, v: Version, e: Ecc, mask: Mask,
      data: seq<byte>, data': seq<byte>, contents: seq<Content>, contents': seq<Content>)
    requires Carries(black, v, e, mask, data, contents) && Carries(black', v, e, mask, data', contents')
    requires Repairable(black, seen, v, e, mask) && Repairable(black', seen, v, e, mask)
    ensures data == data' && contents == contents'
  {
    hide IsPadded, LayoutOf, FinalMessage, Parse, BytesToBits, ReadCodewords, Distance, Deinterleave;
    var L := LayoutOf(v, e);
    LayoutSizes(v, e);
    var received := ReadCodewords(seen, v, mask);
    forall i | 0 <= i < L.n
      ensures Distance(Deinterleave(L, received, i), Deinterleave(L, FinalMessage(L, data'), i)) <= L.ecc / 2
    {
      DistanceSymmetric(Deinterleave(L, FinalMessage(L, data'), i), Deinterleave(L, received, i));
    }
    FinalMessageCorrectable(L, data, data', received, L.ecc / 2);
  }
}
