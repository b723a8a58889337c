/**
 Error correction of the data codewords and their interleaving.
 */
module ErrorCorrection {
  import opened Sequences
  import opened Arithmetic
  import opened Bytes
  import opened Capacity
  import opened GaloisField
  import opened Interleaving
  import opened ReedSolomonCode
  import opened ReedSolomonBytes
  import opened PrimitiveElement
  import opened MinimumDistance

  /** n blocks of as equal length as possible, with ecc error correction codewords each. */
  function Divide(raw: nat, n: nat, ecc: nat): (L: Layout)
    requires Divides(raw, n, ecc)
    ensures L.Valid() && L.n == n && 7 <= L.ecc == ecc <= 30
  {
    DivideEvenly(raw, n, ecc);
    Layout(n, raw / n - ecc, n - raw % n, ecc)
  }

  lemma DivideEvenly(raw: nat, n: nat, ecc: nat)
    requires Divides(raw, n, ecc)
    ensures ecc + 1 <= raw / n < 255
    ensures n * (raw / n - ecc) + raw % n == raw - ecc * n
  {
    var q := raw / n;
    assert raw == q * n + raw % n;
    if q < ecc + 1 { MulLess(q, ecc + 1, n); }
    if q > 254 { MulLess(254, q, n); }
    assert n * (q - ecc) == q * n - ecc * n;
  }

  lemma DivideSizes(raw: nat, n: nat, ecc: nat)
    requires Divides(raw, n, ecc)
    ensures var L := Divide(raw, n, ecc);
            L.Raw() == raw && L.DataLen() == raw - ecc * n && forall i: nat {:trigger L.Len(i)} ::
              L.Len(i) + L.ecc <= 255
  {
    DivideEvenly(raw, n, ecc);
  }

  function LayoutOf(v: Version, e: Ecc): (L: Layout)
    ensures L.Valid() && 7 <= L.ecc <= 30
  {
    EntriesOk(v, e);
    hide NumBlocks, BlockEccLen;
    Divide(RawCodewords(v), NumBlocks(v, e), BlockEccLen(v, e))
  }

  /** The blocks use up the capacity of the symbol exactly, and none is longer than 255 codewords. */
  lemma LayoutSizes(v: Version, e: Ecc)
    ensures LayoutOf(v, e).Raw() == RawCodewords(v)
    ensures LayoutOf(v, e).DataLen() == NumDataCodewords(v, e)
    ensures forall i: nat {:trigger LayoutOf(v, e).Len(i)} :: LayoutOf(v, e).Len(i) + LayoutOf(v, e).ecc <= 255
  {
    EntriesOk(v, e);
    hide NumBlocks, BlockEccLen;
    DivideSizes(RawCodewords(v), NumBlocks(v, e), BlockEccLen(v, e));
  }

  /** The example of version 5 at level QUARTILE: two blocks with 15 data codewords, and then two with 16. */
  lemma LayoutOf5Quartile()
    ensures var L := LayoutOf(5, QUARTILE);
            && L.n == 4 && L.ecc == 18 && L.Len(0) == 15 && L.Len(1) == 15 && L.Len(2) == 16 && L.Len(3) == 16
            && L.Start(1) == 15 && L.Start(2) == 30 && L.Start(3) == 46 && L.DataLen() == 62
  {
    hide RawCodewords, NumRawDataModules, NumBlocks, BlockEccLen;
    EntriesOf5Quartile();
  }

  lemma EntriesOf5Quartile()
    ensures RawCodewords(5) == 134 && NumBlocks(5, QUARTILE) == 4 && BlockEccLen(5, QUARTILE) == 18
  {
  }

  /** The error correction codewords of one block. */
  function BlockEcc(block: seq<byte>, degree: nat): (ecc: seq<byte>)
    requires degree >= 1
    ensures |ecc| == degree
    ensures block + ecc == BlockCodeword(block, degree)
  {
    Remainder(GF, block, GeneratorOf(degree)[1..])
  }

  function EccBlocks(L: Layout, data: seq<byte>): (eccs: seq<seq<byte>>)
    requires L.Valid() && L.ecc >= 1 && |data| == L.DataLen()
    ensures |eccs| == L.n
  {
    seq(L.n, i requires 0 <= i < L.n => BlockEcc(Block(L, data, i), L.ecc))
  }

  /** The final message for the given data codewords. */
  function FinalMessage(L: Layout, data: seq<byte>): (msg: seq<byte>)
    requires L.Valid() && L.ecc >= 1 && |data| == L.DataLen()
    ensures |msg| == L.Raw()
  {
    MessageSize(L, Blocks(L, data), EccBlocks(L, data));
    Message(L, Blocks(L, data), EccBlocks(L, data))
  }

  lemma PlacesDisjoint(L: Layout, i: nat)
    requires L.Valid() && i < L.n
    ensures forall j: nat {:trigger L.Pos(i, j)} | j < L.Len(i) + L.ecc ::
              L.Pos(i, j) < L.Raw() && L.Owner(L.Pos(i, j)) == i && L.Offset(L.Pos(i, j)) == j
  {
    forall j: nat | j < L.Len(i) + L.ecc
      ensures L.Pos(i, j) < L.Raw() && L.Owner(L.Pos(i, j)) == i && L.Offset(L.Pos(i, j)) == j
    {
      PosInverse(L, i, j);
    }
  }

  lemma DataPlace(L: Layout, i: nat, j: nat)
    requires L.Valid() && i < L.n && j < L.Len(i)
    ensures L.Pos(i, j) == if j == L.s then j * L.n + i - L.k else j * L.n + i
    ensures (j + 1) * L.n + i == j * L.n + i + L.n
  {
  }

  /** The source's first copy loop. */
  method CopyData(data: array<byte>, dat: nat, L: Layout, i: nat, result: array<byte>, ghost block: seq<byte>)
    requires L.Valid() && i < L.n && data != result
    requires dat + L.Len(i) <= data.Length && L.Raw() <= result.Length
    requires data[dat..dat + L.Len(i)] == block
    modifies result
    ensures forall j | 0 <= j < L.Len(i) :: result[L.Pos(i, j)] == block[j]
    ensures forall p | 0 <= p < result.Length && (p >= L.Raw() || L.Owner(p) != i) :: result[p] == old(result[p])
  {
    hide Layout.Owner, Layout.Offset, Layout.Pos;
    PlacesDisjoint(L, i);
    assert 0 * L.n + i == i;
    var k := i;
    for j := 0 to L.Len(i)
      invariant j <= L.s ==> k == j * L.n + i
      invariant forall j' | 0 <= j' < j :: result[L.Pos(i, j')] == block[j']
      invariant forall p | 0 <= p < result.Length && (p >= L.Raw() || L.Owner(p) != i) :: result[p] == old(result[p])
    {
      if j == L.s {
        k := k - L.k;
      }
      DataPlace(L, i, j);
      assert block[j] == data[dat + j];
      result[k] := data[dat + j];
      k := k + L.n;
    }
  }

  lemma EccPlace(L: Layout, i: nat, j: nat)
    requires L.Valid() && i < L.n
    ensures L.Pos(i, L.Len(i) + j) == L.DataLen() + j * L.n + i
    ensures L.DataLen() + (j + 1) * L.n + i == L.DataLen() + j * L.n + i + L.n
  {
  }

  /** The source's second copy loop. */
  method CopyEcc(data: array<byte>, L: Layout, i: nat, result: array<byte>, ghost ecc: seq<byte>)
    requires L.Valid() && i < L.n && data != result
    requires L.DataLen() + L.ecc <= data.Length && L.Raw() <= result.Length
    requires data[L.DataLen()..L.DataLen() + L.ecc] == ecc
    modifies result
    ensures forall j | L.Len(i) <= j < L.Len(i) + L.ecc :: result[L.Pos(i, j)] == ecc[j - L.Len(i)]
    ensures forall p | 0 <= p < result.Length && (p >= L.Raw() || L.Owner(p) != i || L.Offset(p) < L.Len(i)) ::
              result[p] == old(result[p])
  {
    hide Layout.Owner, Layout.Offset, Layout.Pos;
    PlacesDisjoint(L, i);
    assert L.DataLen() + 0 * L.n + i == L.DataLen() + i;
    var k := L.DataLen() + i;
    for j := 0 to L.ecc
      invariant k == L.DataLen() + j * L.n + i
      invariant forall j' | L.Len(i) <= j' < L.Len(i) + j :: result[L.Pos(i, j')] == ecc[j' - L.Len(i)]
      invariant forall p | 0 <= p < result.Length && (p >= L.Raw() || L.Owner(p) != i || L.Offset(p) < L.Len(i)) ::
                  result[p] == old(result[p])
    {
      EccPlace(L, i, j);
      assert ecc[j] == data[L.DataLen() + j];
      result[k] := data[L.DataLen() + j];
      k := k + L.n;
    }
  }

  /** The places of block i hold its data and error correction codewords. */
  lemma PlacesFilled(L: Layout, data: seq<byte>, i: nat, result: seq<byte>)
    requires L.Valid() && L.ecc >= 1 && |data| == L.DataLen() && i < L.n && L.Raw() <= |result|
    requires forall j | 0 <= j < L.Len(i) :: result[L.Pos(i, j)] == Block(L, data, i)[j]
    requires forall j | L.Len(i) <= j < L.Len(i) + L.ecc ::
        result[L.Pos(i, j)] == BlockEcc(Block(L, data, i), L.ecc)[j - L.Len(i)]
    ensures forall p | 0 <= p < L.Raw() && L.Owner(p) == i :: result[p] == FinalMessage(L, data)[p]
  {
    forall p | 0 <= p < L.Raw() && L.Owner(p) == i ensures result[p] == FinalMessage(L, data)[p] {
      PosOnto(L, p);
      MessageAt(L, Blocks(L, data), EccBlocks(L, data), i, L.Offset(p));
    }
  }

  /** One round of the source's outer loop: computes and places the codewords of block i. */
  method AddBlock(data: array<byte>, dat: nat, L: Layout, i: nat, rsdiv: array<byte>, result: array<byte>,
                  ghost input: seq<byte>)
    requires L.Valid() && 1 <= L.ecc <= REED_SOLOMON_DEGREE_MAX && i < L.n && dat == L.Start(i)
    requires data != result && data != rsdiv && result != rsdiv
    requires L.DataLen() + L.ecc <= data.Length && L.Raw() <= result.Length && L.ecc <= rsdiv.Length
    requires data[..L.DataLen()] == input
    requires [1] + rsdiv[..L.ecc] == GeneratorOf(L.ecc)
    modifies data, result
    ensures data[..L.DataLen()] == input
    ensures data[L.DataLen() + L.ecc..] == old(data[L.DataLen() + L.ecc..])
    ensures forall p | 0 <= p < L.Raw() && L.Owner(p) == i :: result[p] == FinalMessage(L, input)[p]
    ensures forall p | 0 <= p < result.Length && (p >= L.Raw() || L.Owner(p) != i) :: result[p] == old(result[p])
  {
    hide FinalMessage, BlockEcc, Block, Layout.Owner, Layout.Offset, Layout.Pos;
    ghost var block := Block(L, input, i);
    BlockInData(L, input, i);
    assert data[dat..dat + L.Len(i)] == data[..L.DataLen()][dat..dat + L.Len(i)];
    ComputeBlockEcc(data, dat, L, i, rsdiv, block);
    CopyData(data, dat, L, i, result, block);
    PlacesDisjoint(L, i);
    CopyEcc(data, L, i, result, BlockEcc(block, L.ecc));
    PlacesFilled(L, input, i, result[..]);
  }

  lemma BlockInData(L: Layout, data: seq<byte>, i: nat)
    requires L.Valid() && i < L.n && |data| == L.DataLen()
    ensures L.Start(i) + L.Len(i) <= L.DataLen()
    ensures data[L.Start(i)..L.Start(i) + L.Len(i)] == Block(L, data, i)
  {
    StartNext(L, i);
    StartMonotone(L, i + 1, L.n);
    StartNext(L, L.n);
  }

  /** The error correction codewords of a block, in the scratch area after the data. */
  method ComputeBlockEcc(data: array<byte>, dat: nat, L: Layout, i: nat, rsdiv: array<byte>, ghost block: seq<byte>)
    requires L.Valid() && 1 <= L.ecc <= REED_SOLOMON_DEGREE_MAX && i < L.n && dat + L.Len(i) <= L.DataLen()
    requires data != rsdiv && L.DataLen() + L.ecc <= data.Length && L.ecc <= rsdiv.Length
    requires data[dat..dat + L.Len(i)] == block
    requires [1] + rsdiv[..L.ecc] == GeneratorOf(L.ecc)
    modifies data
    ensures data[..L.DataLen()] == old(data[..L.DataLen()])
    ensures data[L.DataLen() + L.ecc..] == old(data[L.DataLen() + L.ecc..])
    ensures data[dat..dat + L.Len(i)] == block
    ensures data[L.DataLen()..L.DataLen() + L.ecc] == BlockEcc(block, L.ecc)
  {
    hide GeneratorOf, Remainder, BlockCodeword, Layout.DataLen;
    var datLen := L.s + (if i < L.k then 0 else 1);
    assert rsdiv[..L.ecc] == GeneratorOf(L.ecc)[1..];
    ReedSolomonComputeRemainder(data, dat, datLen, rsdiv, L.ecc, data, L.DataLen());
  }

  method AddBlocks(data: array<byte>, L: Layout, rsdiv: array<byte>, result: array<byte>)
    requires L.Valid() && 1 <= L.ecc <= REED_SOLOMON_DEGREE_MAX
    requires data != result && data != rsdiv && result != rsdiv
    requires L.DataLen() + L.ecc <= data.Length && L.Raw() <= result.Length && L.ecc <= rsdiv.Length
    requires [1] + rsdiv[..L.ecc] == GeneratorOf(L.ecc)
    modifies data, result
    ensures data[..L.DataLen()] == old(data[..L.DataLen()])
    ensures L.Raw() <= data.Length ==> data[L.Raw()..] == old(data[L.Raw()..])
    ensures result[..L.Raw()] == FinalMessage(L, old(data[..L.DataLen()]))
    ensures result[L.Raw()..] == old(result[L.Raw()..])
  {
    ghost var input := data[..L.DataLen()];
    ghost var target := FinalMessage(L, input);
    var dat := 0;
    StartNext(L, 0);
    for i := 0 to L.n
      invariant dat == L.Start(i)
      invariant data[..L.DataLen()] == input
      invariant data[L.DataLen() + L.ecc..] == old(data[L.DataLen() + L.ecc..])
      invariant forall p | 0 <= p < L.Raw() && L.Owner(p) < i :: result[p] == target[p]
      invariant forall p | L.Raw() <= p < result.Length :: result[p] == old(result[p])
    {
      AddBlock(data, dat, L, i, rsdiv, result, input);
      StartNext(L, i);
      dat := dat + L.Len(i);
    }
    forall p | 0 <= p < L.Raw() ensures result[p] == target[p] { PosOnto(L, p); }
    EccFits(L);
  }

  lemma FitDivides(v: Version, n: int, ecc: int)
    requires BlocksFit(v, n, ecc)
    ensures Divides(RawCodewords(v), n, ecc)
  {
  }

  method ComputeLayout(v: Version, e: Ecc) returns (L: Layout)
    ensures L == LayoutOf(v, e)
  {
    hide NumBlocks, BlockEccLen, NumRawDataModules, BlocksFit;
    var numBlocks := NumBlocks(v, e);
    var blockEccLen := BlockEccLen(v, e);
    var rawCodewords := NumRawDataModules(v) / 8;
    EntriesOk(v, e);
    FitDivides(v, numBlocks, blockEccLen);
    DivideEvenly(rawCodewords, numBlocks, blockEccLen);
    var numShortBlocks := numBlocks - rawCodewords % numBlocks;
    var shortBlockDataLen := rawCodewords / numBlocks - blockEccLen;
    L := Layout(numBlocks, shortBlockDataLen, numShortBlocks, blockEccLen);
  }

  method AddEccAndInterleave(data: array<byte>, v: Version, e: Ecc, result: array<byte>) returns (ghost L: Layout)
    requires data != result && RawCodewords(v) <= data.Length && RawCodewords(v) <= result.Length
    modifies data, result
    ensures L.Valid() && L.ecc >= 1 && L.Raw() == RawCodewords(v)
    ensures data[..L.DataLen()] == old(data[..L.DataLen()])
    ensures data[L.Raw()..] == old(data[L.Raw()..])
    ensures result[..L.Raw()] == FinalMessage(L, old(data[..L.DataLen()]))
    ensures result[L.Raw()..] == old(result[L.Raw()..])
    ensures L == LayoutOf(v, e)
  {
    var layout := ComputeLayout(v, e);
    L := layout;
    LayoutSizes(v, e);
    EccFits(L);
    var rsdiv := new byte[REED_SOLOMON_DEGREE_MAX];
    ReedSolomonComputeDivisor(layout.ecc, rsdiv);
    AddBlocks(data, layout, rsdiv, result);
  }

  /** The scratch area after the data lies within the raw codewords. */
  lemma EccFits(L: Layout)
    requires L.Valid()
    ensures L.DataLen() + L.ecc <= L.Raw()
  {
    assert L.n * L.ecc == L.ecc + (L.n - 1) * L.ecc;
  }

  // ----- what a reader recovers -----

  /** Every block that the reader collects is a codeword. */
  lemma FinalMessageBlocks(L: Layout, data: seq<byte>, i: nat)
    requires L.Valid() && L.ecc >= 1 && |data| == L.DataLen() && i < L.n
    ensures Deinterleave(L, FinalMessage(L, data), i) == BlockCodeword(Block(L, data, i), L.ecc)
  {
    DeinterleaveMessage(L, Blocks(L, data), EccBlocks(L, data), i);
  }

  /** The data parts of the blocks, one after the other. */
  function ReadBlocks(L: Layout, msg: seq<byte>): seq<seq<byte>>
    requires L.Valid() && |msg| == L.Raw()
  {
    seq(L.n, i requires 0 <= i < L.n => Deinterleave(L, msg, i)[..L.Len(i)])
  }

  /** The reader recovers the data codewords. */
  lemma FinalMessageData(L: Layout, data: seq<byte>)
    requires L.Valid() && L.ecc >= 1 && |data| == L.DataLen()
    ensures Concat(ReadBlocks(L, FinalMessage(L, data))) == data
  {
    forall i | 0 <= i < L.n ensures ReadBlocks(L, FinalMessage(L, data))[i] == Block(L, data, i) {
      FinalMessageBlocks(L, data, i);
    }
    assert ReadBlocks(L, FinalMessage(L, data)) == Blocks(L, data);
    BlocksTile(L, data, L.n);
    StartNext(L, 0);
    assert Blocks(L, data)[..L.n] == Blocks(L, data);
    assert data[..L.Start(L.n)] == data;
  }

  /** A received message with at most ecc/2 wrong codewords in each block determines the data. */
  lemma FinalMessageCorrectable(L: Layout, data: seq<byte>, data': seq<byte>, received: seq<byte>, t: nat)
    requires L.Valid() && L.ecc >= 1 && |data| == |data'| == L.DataLen() && |received| == L.Raw()
    requires 2 * t <= L.ecc && forall i | 0 <= i < L.n :: L.Len(i) + L.ecc <= 255
    requires forall i | 0 <= i < L.n ::
               && Distance(Deinterleave(L, FinalMessage(L, data), i), Deinterleave(L, received, i)) <= t
               && Distance(Deinterleave(L, received, i), Deinterleave(L, FinalMessage(L, data'), i)) <= t
    ensures data == data'
  {
    forall i | 0 <= i < L.n ensures Block(L, data, i) == Block(L, data', i) {
      FinalMessageBlocks(L, data, i);
      FinalMessageBlocks(L, data', i);
      BlockCorrectable(Block(L, data, i), Block(L, data', i), L.ecc, Deinterleave(L, received, i), t);
    }
    assert Blocks(L, data) == Blocks(L, data');
    BlocksTile(L, data, L.n);
    BlocksTile(L, data', L.n);
    StartNext(L, 0);
    assert data[..L.Start(L.n)] == data && data'[..L.Start(L.n)] == data';
  }
}
