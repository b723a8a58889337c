/**
 The encoder as a whole: from segments to a finished symbol.
 */
module Encoder {
  import opened Arithmetic
  import opened Bytes
  import opened BitBuffer
  import opened Capacity
  import opened TextModes
  import opened Segments
  import opened BitStream
  import opened Grid
  import opened Zigzag
  import opened Masking
  import opened FunctionModules
  import opened FunctionPatterns
  import opened ModuleCount
  import opened MaskChoice
  import opened Interleaving
  import opened ErrorCorrection
  import opened SymbolReader

  function BufferLenForVersion(v: Version): nat { BufferLen(SideLength(v)) }

  lemma BufferLenMonotone(v: Version, w: Version)
    requires v <= w
    ensures BufferLenForVersion(v) <= BufferLenForVersion(w)
  {
    SquareMonotone(SideLength(v), SideLength(w));
  }

  /** The codewords of a symbol fit into the buffer that will hold its modules. */
  lemma CodewordsFit(v: Version, e: Ecc)
    ensures NumDataCodewords(v, e) <= RawCodewords(v) <= BufferLenForVersion(v)
    ensures 8 * RawCodewords(v) <= NumRawDataModules(v)
  {
    hide NumRawDataModules, BlockEccLen, NumBlocks, FunctionCells;
    FunctionCellsSize(v);
    EntriesOk(v, e);
  }

  /** The contents fit into a symbol of the given version and level. */
  predicate StreamFits(contents: seq<Content>, v: Version, e: Ecc) {
    (forall c | c in contents :: CountFits(c, v)) && |Stream(contents, v)| <= NumDataCodewords(v, e) * 8
  }

  ghost predicate SameShape(segs: seq<Segment>, contents: seq<Content>) {
    |segs| == |contents| && forall i | 0 <= i < |segs| ::
      segs[i].mode == contents[i].mode && segs[i].numChars == contents[i].numChars
        && segs[i].bitLength == |contents[i].bits|
  }

  lemma ContentsFit(segs: seq<Segment>, contents: seq<Content>, v: Version)
    requires SameShape(segs, contents)
    ensures (forall c | c in contents :: CountFits(c, v)) <==> CountsFit(segs, v)
    ensures |Stream(contents, v)| == SumBits(segs, v)
  {
    hide Pow2;
    SumBitsIsStream(segs, contents, v);
    if CountsFit(segs, v) {
      forall c | c in contents ensures CountFits(c, v) {
        var i :| 0 <= i < |contents| && contents[i] == c;
        assert segs[i] in segs;
      }
    }
    if forall c | c in contents :: CountFits(c, v) {
      forall s | s in segs ensures s.numChars < Pow2(s.mode.CharCountBits(v)) {
        var i :| 0 <= i < |segs| && segs[i] == s;
        assert contents[i] in contents;
      }
    }
  }

  lemma CapacityBound(v: Version, e: Ecc)
    ensures NumDataCodewords(v, e) * 8 <= INT16_MAX
  {
    CodewordsFit(v, e);
    hide NumDataCodewords;
    assert NumRawDataModules(v) <= (16 * v + 128) * v + 64;
    MulLess(16 * v + 128, 769, v);
  }

  /** The overflow guard of getTotalBits rejects nothing that would fit. */
  lemma FitsIsStreamFits(segs: seq<Segment>, contents: seq<Content>, v: Version, e: Ecc)
    requires SameShape(segs, contents)
    ensures Fits(segs, v, e) <==> StreamFits(contents, v, e)
  {
    hide NumDataCodewords, CountsFit, Stream, SumBits;
    ContentsFit(segs, contents, v);
    CapacityBound(v, e);
  }

  lemma PaddedBytes(q: seq<byte>, n: nat, contents: seq<Content>, v: Version, k: nat)
    requires k <= n <= |q| && |Stream(contents, v)| <= 8 * k
    requires Holds(q, n, Padded(Stream(contents, v), 8 * k))
    ensures IsPadded(BytesToBits(q[..k]), contents, v)
  {
    hide Stream, Padded, Parse;
    var bits := Padded(Stream(contents, v), 8 * k);
    forall i | 0 <= i < 8 * k ensures BytesToBits(q[..k])[i] == bits[i] {
      assert StreamBit(q[..k], i) == StreamBit(q, i);
    }
    assert BytesToBits(q[..k]) == bits;
  }

  /** Concatenates the segments and pads them to the capacity of the symbol. */
  method MakeDataCodewords(segs: seq<Segment>, v: Version, e: Ecc, dataUsedBits: nat, q: array<byte>,
      ghost contents: seq<Content>)
      returns (dataLen: nat)
    requires AllRepresent(segs, contents, q) && BufferLenForVersion(v) <= q.Length
    requires TotalBits(segs, v) == dataUsedBits <= NumDataCodewords(v, e) * 8
    modifies q
    ensures dataLen <= q.Length && IsPadded(BytesToBits(q[..dataLen]), contents, v)
    ensures dataLen == NumDataCodewords(v, e)
  {
    hide NumDataCodewords, Stream, Padded, Holds, CountFits, CountsFit, SumBits, RawCodewords, NumRawDataModules, Ored,
      IsPadded, BytesToBits, BufferLen, StreamFits;
    FitsIsStreamFits(segs, contents, v, e);
    ContentsFit(segs, contents, v);
    CodewordsFit(v, e);
    ghost var n := BufferLenForVersion(v);
    Clear(q, 0, BufferLenForVersion(v));
    ClearedHolds(q[..], n);
    var bitLen := ConcatenateSegments(segs, v, q, contents, n);
    assert bitLen == dataUsedBits;
    dataLen := NumDataCodewords(v, e);
    var dataCapacityBits := NumDataCodewords(v, e) * 8;
    AppendPadding(q, bitLen, dataCapacityBits, n, Stream(contents, v));
    PaddedBytes(q[..], n, contents, v, dataLen);
  }

  /** Adds the error correction codewords and draws the symbol, not yet masked. */
  method DrawSymbol(q: array<byte>, temp: array<byte>, v: Version, e: Ecc) returns (ghost L: Layout)
    requires q != temp && BufferLenForVersion(v) <= q.Length && BufferLenForVersion(v) <= temp.Length
    modifies q, temp
    ensures HoldsGrid(q[..], SideLength(v)) && HoldsGrid(temp[..], SideLength(v))
    ensures Black(temp[..], SideLength(v)) == FunctionCells(v)
    ensures L.Valid() && L.ecc >= 1 && L.DataLen() == NumDataCodewords(v, e) <= q.Length
    ensures var msg := FinalMessage(L, old(q[..L.DataLen()]));
            SameData(Black(q[..], SideLength(v)), FunctionCells(v) + Drawn(DataCells(v), BytesToBits(msg)), v)
    ensures ShowsPattern(Black(q[..], SideLength(v)), v)
    ensures L == LayoutOf(v, e)
  {
    hide FunctionCells, LayoutOf, BytesToBits, FinalMessage, Drawn, Scan, RawCodewords, NumRawDataModules,
      NumDataCodewords, Light, Black, BufferLen, SameData, Redrawn, ShowsPattern;
    CodewordsFit(v, e);
    LayoutSizes(v, e);
    LightCount(v);
    L := AddEccAndInterleave(q, v, e, temp);
    ghost var msg := FinalMessage(L, old(q[..L.DataLen()]));
    InitializeFunctionModules(v, q);
    DrawCodewords(temp, RawCodewords(v), q, SideLength(v));
    assert temp[..RawCodewords(v)] == msg;
    ghost var black := Black(q[..], SideLength(v));
    RedrawnSameData(black, v);
    RedrawnShowsPattern(black, v);
    DrawWhiteFunctionModules(q, v);
    InitializeFunctionModules(v, temp);
  }

  const MASK_AUTO := -1

  /** What the encoder promises about the symbol it has made. */
  ghost predicate Encoded(q: seq<byte>, contents: seq<Content>, ecl: Ecc, minVersion: Version, boostEcl: bool,
      v: Version, e: Ecc) {
    && Decodes(q, v, contents) && ShowsPatterns(Black(q, SideLength(v)), v)
    && (forall w: Version | minVersion <= w < v :: !StreamFits(contents, w, ecl))
    && ecl <= e && (e != ecl ==> boostEcl) && StreamFits(contents, v, e)
    && (boostEcl ==> forall i: Ecc | i > e :: !StreamFits(contents, v, i))
  }

  /**
   The symbol, if there is one, has the smallest version that fits, the highest level that does not need a larger one,
   the mask asked for or else the first with the least score, and a reader recovers the segments from it.
   */
  method EncodeSegmentsAdvanced(segs: seq<Segment>, ecl: Ecc, minVersion: Version, maxVersion: Version, mask: int,
                                boostEcl: bool, tempBuffer: array<byte>, qrcode: array<byte>,
                                penalty: seq<byte> -> int, ghost score: set<Cell> -> int, ghost contents: seq<Content>)
      returns (ok: bool, ghost v: Version, ghost e: Ecc, ghost m: Mask, ghost drawn: set<Cell>)
    requires minVersion <= maxVersion && MASK_AUTO <= mask < 8
    requires BufferLenForVersion(maxVersion) <= tempBuffer.Length && BufferLenForVersion(maxVersion) <= qrcode.Length
    requires tempBuffer != qrcode && AllRepresent(segs, contents, qrcode)
    requires forall c | c in contents :: Consistent(c)
    requires forall w: Version {:trigger SideLength(w)} | minVersion <= w <= maxVersion ::
        Scores(penalty, score, SideLength(w))
    modifies tempBuffer, qrcode
    ensures ok <==> exists w: Version :: minVersion <= w <= maxVersion && StreamFits(contents, w, ecl)
    ensures !ok ==> qrcode.Length >= 1 && qrcode[0] == 0
    ensures ok ==> minVersion <= v <= maxVersion && Encoded(qrcode[..], contents, ecl, minVersion, boostEcl, v, e)
    ensures ok ==> HoldsGrid(qrcode[..], SideLength(v)) && Black(qrcode[..], SideLength(v)) == Finished(drawn, v, e, m)
    ensures ok ==> exists data :: Carries(Black(qrcode[..], SideLength(v)), v, e, m, data, contents)
    ensures ok ==> if mask == MASK_AUTO then FirstLeast(score, drawn, v, e, 8, m) else m == mask
  {
    hide TotalBits, NumDataCodewords, FunctionCells, LayoutOf, FinalMessage, Drawn, BitAt, CellIndex, Finished,
      ReadContents, ShowsFormat, ShowsPatterns, Carries, IsPadded, Stream, SameData, SameButFormat, BufferLen,
      BytesToBits;
    forall w: Version, i: Ecc ensures Fits(segs, w, i) <==> StreamFits(contents, w, i) {
      FitsIsStreamFits(segs, contents, w, i);
    }
    var version, dataUsedBits := SelectVersion(segs, ecl, minVersion, maxVersion);
    v, e, m, drawn := minVersion, ecl, 0, {};
    if version == -1 {
      BufferNotEmpty(maxVersion);
      qrcode[0] := 0;
      ok := false;
      return;
    }
    ok, v := true, version;
    var level := BoostLevel(ecl, version, dataUsedBits, boostEcl);
    e := level;
    BufferLenMonotone(v, maxVersion);
    ContentsFit(segs, contents, v);
    var dataLen := MakeDataCodewords(segs, version, level, dataUsedBits, qrcode, contents);
    ghost var data := qrcode[..dataLen];
    ghost var L := DrawSymbol(qrcode, tempBuffer, version, level);
    drawn := Black(qrcode[..], SideLength(v));
    var chosen := mask;
    SameButFormatReflexive(drawn, v);
    if mask == MASK_AUTO {
      chosen := ChooseMask(tempBuffer, qrcode, version, level, penalty, score);
    }
    m := chosen;
    FinishedSame(Black(qrcode[..], SideLength(v)), drawn, v, e, m);
    Finish(tempBuffer, qrcode, version, level, chosen);
    ReadEncoded(drawn, v, e, m, L, data, contents);
    FinishedShowsPatterns(drawn, v, e, m);
    FinishedCarries(drawn, v, e, m, L, data, contents);
  }

  lemma BufferNotEmpty(v: Version)
    ensures BufferLenForVersion(v) >= 1
  {
  }
}
