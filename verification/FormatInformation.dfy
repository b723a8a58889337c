/**
 The format information: ISO/IEC 18004:2015, section 7.9.
 */
module FormatInformation {
  import opened Bytes
  import opened Capacity
  import opened Grid
  import opened Masking

  // ----- the fifteen bits -----

  /** One round of the division by the generator 0x537. */
  function DivisionRound(rem: bv16): bv16 { (rem << 1) ^ ((rem >> 9) * 0x537) }

  /** The remainder of the five data bits, after k of ten rounds. */
  function FormatRemainder(data: bv16, k: nat): bv16 {
    if k == 0 then data else DivisionRound(FormatRemainder(data, k - 1))
  }

  /** The error correction level as it appears in the format information. */
  function LevelBits(e: Ecc): bv16 { if e == 0 then 1 else if e == 1 then 0 else if e == 2 then 3 else 2 }

  function MaskBits(mask: Mask): bv16 {
    if mask == 0 then 0 else if mask == 1 then 1 else if mask == 2 then 2 else if mask == 3 then 3
    else if mask == 4 then 4 else if mask == 5 then 5 else if mask == 6 then 6 else 7
  }

  function FormatData(e: Ecc, mask: Mask): bv16 { (LevelBits(e) << 3) | MaskBits(mask) }

  function FormatWord(e: Ecc, mask: Mask): bv16 {
    ((FormatData(e, mask) << 10) | FormatRemainder(FormatData(e, mask), 10)) ^ 0x5412
  }

  lemma {:induction false} RemainderFits(data: bv16, k: nat)
    requires data < 32
    ensures FormatRemainder(data, k) < 1024
  {
    if k == 0 {
    } else {
      RemainderFits(data, k - 1);
    }
  }

  /** The data bits can be read off the word. */
  lemma WordData(e: Ecc, mask: Mask)
    ensures (FormatWord(e, mask) ^ 0x5412) >> 10 == FormatData(e, mask) < 32
  {
    assert FormatData(e, mask) < 32;
    RemainderFits(FormatData(e, mask), 10);
    DataAboveRemainder(FormatData(e, mask), FormatRemainder(FormatData(e, mask), 10));
  }

  lemma DataAboveRemainder(data: bv16, rem: bv16)
    requires data < 32 && rem < 1024
    ensures ((((data << 10) | rem) ^ 0x5412) ^ 0x5412) >> 10 == data
  {
  }

  /** The level and the mask are determined by the data bits. */
  lemma FormatDataInjective(e: Ecc, mask: Mask, e': Ecc, mask': Mask)
    requires FormatData(e, mask) == FormatData(e', mask')
    ensures e == e' && mask == mask'
  {
  }

  function WordMask(i: nat): bv16
    requires i < 15
  {
    if i == 0 then 0x1 else if i == 1 then 0x2 else if i == 2 then 0x4 else if i == 3 then 0x8
    else if i == 4 then 0x10 else if i == 5 then 0x20 else if i == 6 then 0x40 else if i == 7 then 0x80
    else if i == 8 then 0x100 else if i == 9 then 0x200 else if i == 10 then 0x400 else if i == 11 then 0x800
    else if i == 12 then 0x1000 else if i == 13 then 0x2000 else 0x4000
  }

  /** getBit(w, i) */
  predicate WordBit(w: bv16, i: nat)
    requires i < 15
  {
    w & WordMask(i) != 0
  }

  /** The source writes the bit test as a shift followed by `& 1`; here for bits 0 to 4. */
  lemma LowBitsShifted(w: bv16)
    ensures ((w >> 0) & 1 != 0) == WordBit(w, 0) && ((w >> 1) & 1 != 0) == WordBit(w, 1)
    ensures ((w >> 2) & 1 != 0) == WordBit(w, 2) && ((w >> 3) & 1 != 0) == WordBit(w, 3)
    ensures ((w >> 4) & 1 != 0) == WordBit(w, 4)
  {
    hide WordBit;
    WordBitIs(w, 0, 0x1);
    WordBitIs(w, 1, 0x2);
    WordBitIs(w, 2, 0x4);
    WordBitIs(w, 3, 0x8);
    WordBitIs(w, 4, 0x10);
  }

  /** The same for bits 5 to 9. */
  lemma MiddleBitsShifted(w: bv16)
    ensures ((w >> 5) & 1 != 0) == WordBit(w, 5) && ((w >> 6) & 1 != 0) == WordBit(w, 6)
    ensures ((w >> 7) & 1 != 0) == WordBit(w, 7) && ((w >> 8) & 1 != 0) == WordBit(w, 8)
    ensures ((w >> 9) & 1 != 0) == WordBit(w, 9)
  {
    hide WordBit;
    WordBitIs(w, 5, 0x20);
    WordBitIs(w, 6, 0x40);
    WordBitIs(w, 7, 0x80);
    WordBitIs(w, 8, 0x100);
    WordBitIs(w, 9, 0x200);
  }

  /** The same for bits 10 to 14. */
  lemma HighBitsShifted(w: bv16)
    ensures ((w >> 10) & 1 != 0) == WordBit(w, 10) && ((w >> 11) & 1 != 0) == WordBit(w, 11)
    ensures ((w >> 12) & 1 != 0) == WordBit(w, 12) && ((w >> 13) & 1 != 0) == WordBit(w, 13)
    ensures ((w >> 14) & 1 != 0) == WordBit(w, 14)
  {
    hide WordBit;
    WordBitIs(w, 10, 0x400);
    WordBitIs(w, 11, 0x800);
    WordBitIs(w, 12, 0x1000);
    WordBitIs(w, 13, 0x2000);
    WordBitIs(w, 14, 0x4000);
  }

  /** Words of fifteen bits that agree in the five highest have the same data. */
  lemma HighBits(w: bv16, w': bv16)
    requires w < 0x8000 && w' < 0x8000
    requires forall i | 10 <= i < 15 :: WordBit(w, i) == WordBit(w', i)
    ensures (w ^ 0x5412) >> 10 == (w' ^ 0x5412) >> 10
  {
    hide WordBit;
    HighMasks(w);
    HighMasks(w');
    assert WordBit(w, 10) == WordBit(w', 10) && WordBit(w, 11) == WordBit(w', 11) && WordBit(w, 12) == WordBit(w', 12);
    assert WordBit(w, 13) == WordBit(w', 13) && WordBit(w, 14) == WordBit(w', 14);
    FiveBits(w, w');
  }

  lemma HighMasks(w: bv16)
    ensures WordBit(w, 10) == (w & 0x400 != 0) && WordBit(w, 11) == (w & 0x800 != 0)
    ensures WordBit(w, 12) == (w & 0x1000 != 0) && WordBit(w, 13) == (w & 0x2000 != 0)
    ensures WordBit(w, 14) == (w & 0x4000 != 0)
  {
    hide WordBit;
    WordBitIs(w, 10, 0x400);
    WordBitIs(w, 11, 0x800);
    WordBitIs(w, 12, 0x1000);
    WordBitIs(w, 13, 0x2000);
    WordBitIs(w, 14, 0x4000);
  }

  lemma WordBitIs(w: bv16, i: nat, m: bv16)
    requires i < 15 && WordMask(i) == m
    ensures WordBit(w, i) == (w & m != 0)
  {
  }

  lemma FiveBits(w: bv16, w': bv16)
    requires w < 0x8000 && w' < 0x8000
    requires (w & 0x400 != 0) == (w' & 0x400 != 0) && (w & 0x800 != 0) == (w' & 0x800 != 0)
    requires (w & 0x1000 != 0) == (w' & 0x1000 != 0) && (w & 0x2000 != 0) == (w' & 0x2000 != 0)
    requires (w & 0x4000 != 0) == (w' & 0x4000 != 0)
    ensures (w ^ 0x5412) >> 10 == (w' ^ 0x5412) >> 10
  {
  }

  lemma WordFits(e: Ecc, mask: Mask)
    ensures FormatWord(e, mask) < 0x8000
  {
    assert FormatData(e, mask) < 32;
    RemainderFits(FormatData(e, mask), 10);
  }

  /** A reader that sees the fifteen bits knows the level and the mask. */
  lemma FormatUnique(e: Ecc, mask: Mask, e': Ecc, mask': Mask)
    requires forall i | 0 <= i < 15 :: WordBit(FormatWord(e, mask), i) == WordBit(FormatWord(e', mask'), i)
    ensures e == e' && mask == mask'
  {
    WordFits(e, mask);
    WordFits(e', mask');
    HighBits(FormatWord(e, mask), FormatWord(e', mask'));
    WordData(e, mask);
    WordData(e', mask');
    FormatDataInjective(e, mask, e', mask');
  }

  // ----- drawing -----

  function FirstCopy(i: nat): Cell
    requires i < 15
  {
    if i <= 5 then Cell(8, i) else if i == 6 then Cell(8, 7) else if i == 7 then Cell(8, 8)
    else if i == 8 then Cell(7, 8) else Cell(14 - i, 8)
  }

  function SecondCopy(n: nat, i: nat): Cell
    requires n >= 21 && i < 15
  {
    if i < 8 then Cell(n - 1 - i, 8) else Cell(8, n - 15 + i)
  }

  /** The thirty cells of the two copies, and the one that is always black. */
  function FormatCell(n: nat, i: nat): Cell
    requires n >= 21 && i < 31
  {
    if i < 15 then FirstCopy(i) else if i < 30 then SecondCopy(n, i - 15) else Cell(8, n - 8)
  }

  predicate FormatColor(w: bv16, i: nat)
    requires i < 31
  {
    i == 30 || WordBit(w, i % 15)
  }

  /** The symbol after the first k cells have been drawn. */
  ghost function FormatDrawn(black: set<Cell>, n: nat, w: bv16, k: nat): set<Cell>
    requires n >= 21 && k <= 31
  {
    if k == 0 then black
    else
      var p, c := FormatDrawn(black, n, w, k - 1), FormatCell(n, k - 1);
      if FormatColor(w, k - 1) then p + {c} else p - {c}
  }

  ghost predicate IsFormatCell(n: nat, c: Cell)
    requires n >= 21
  {
    exists i {:trigger FormatCell(n, i)} :: 0 <= i < 31 && FormatCell(n, i) == c
  }

  lemma FormatCellsDistinct(n: nat, i: nat, j: nat)
    requires n >= 21 && i < j < 31
    ensures FormatCell(n, i) != FormatCell(n, j)
  {
  }

  /** The format cells show the word; the other cells are as before. */
  lemma {:induction false} FormatDrawnCells(black: set<Cell>, n: nat, w: bv16, k: nat)
    requires n >= 21 && k <= 31
    ensures forall i {:trigger FormatCell(n, i)} | 0 <= i < k ::
        FormatCell(n, i) in FormatDrawn(black, n, w, k) <==> FormatColor(w, i)
    ensures forall c | !IsFormatCell(n, c) :: c in FormatDrawn(black, n, w, k) <==> c in black
  {
    hide FormatCell, FormatColor;
    if k == 0 {
    } else {
      FormatDrawnCells(black, n, w, k - 1);
      forall i | 0 <= i < k - 1 ensures FormatCell(n, i) != FormatCell(n, k - 1) { FormatCellsDistinct(n, i, k - 1); }
      assert IsFormatCell(n, FormatCell(n, k - 1));
    }
  }

  method ComputeFormatWord(e: Ecc, mask: Mask) returns (bits: bv16)
    ensures bits == FormatWord(e, mask)
  {
    hide DivisionRound, FormatData;
    var data := FormatData(e, mask);
    var rem := data;
    for i := 0 to 10
      invariant rem == FormatRemainder(data, i)
    {
      rem := DivisionRound(rem);
    }
    bits := ((data << 10) | rem) ^ 0x5412;
  }

  lemma NothingDrawn(black: set<Cell>, n: nat, w: bv16)
    requires n >= 21
    ensures FormatDrawn(black, n, w, 0) == black
  {
  }

  lemma FormatDrawnNext(black: set<Cell>, n: nat, w: bv16, i: nat, x: nat, y: nat)
    requires n >= 21 && i < 31 && FormatCell(n, i) == Cell(x, y)
    ensures FormatDrawn(black, n, w, i + 1)
         == if FormatColor(w, i) then FormatDrawn(black, n, w, i) + {Cell(x, y)}
            else FormatDrawn(black, n, w, i) - {Cell(x, y)}
  {
    hide FormatCell, FormatColor;
  }

  method DrawFirstCopy(w: bv16, q: array<byte>, ghost n: nat)
    requires HoldsGrid(q[..], n) && n >= 21
    modifies q
    ensures HoldsGrid(q[..], n)
    ensures Black(q[..], n) == FormatDrawn(old(Black(q[..], n)), n, w, 15)
  {
    hide WordBit, Black, HoldsGrid, FormatDrawn;
    ghost var black := Black(q[..], n);
    NothingDrawn(black, n, w);
    for i := 0 to 6
      invariant HoldsGrid(q[..], n) && Black(q[..], n) == FormatDrawn(black, n, w, i)
    {
      FormatDrawnNext(black, n, w, i, 8, i);
      SetModule(q, 8, i, WordBit(w, i), n);
    }
    FormatDrawnNext(black, n, w, 6, 8, 7);
    SetModule(q, 8, 7, WordBit(w, 6), n);
    FormatDrawnNext(black, n, w, 7, 8, 8);
    SetModule(q, 8, 8, WordBit(w, 7), n);
    FormatDrawnNext(black, n, w, 8, 7, 8);
    SetModule(q, 7, 8, WordBit(w, 8), n);
    for i := 9 to 15
      invariant HoldsGrid(q[..], n) && Black(q[..], n) == FormatDrawn(black, n, w, i)
    {
      FormatDrawnNext(black, n, w, i, 14 - i, 8);
      SetModule(q, 14 - i, 8, WordBit(w, i), n);
    }
  }

  method DrawSecondCopy(w: bv16, q: array<byte>, ghost n: nat, ghost black: set<Cell>)
    requires HoldsGrid(q[..], n) && n >= 21 && Black(q[..], n) == FormatDrawn(black, n, w, 15)
    modifies q
    ensures HoldsGrid(q[..], n)
    ensures Black(q[..], n) == FormatDrawn(black, n, w, 31)
  {
    hide WordBit, Black, HoldsGrid, FormatDrawn;
    var qrsize := GetSize(q, n);
    for i := 0 to 8
      invariant HoldsGrid(q[..], n) && Black(q[..], n) == FormatDrawn(black, n, w, 15 + i)
    {
      FormatDrawnNext(black, n, w, 15 + i, qrsize - 1 - i, 8);
      SetModule(q, qrsize - 1 - i, 8, WordBit(w, i), n);
    }
    for i := 8 to 15
      invariant HoldsGrid(q[..], n) && Black(q[..], n) == FormatDrawn(black, n, w, 15 + i)
    {
      FormatDrawnNext(black, n, w, 15 + i, 8, qrsize - 15 + i);
      SetModule(q, 8, qrsize - 15 + i, WordBit(w, i), n);
    }
    FormatDrawnNext(black, n, w, 30, 8, qrsize - 8);
    SetModule(q, 8, qrsize - 8, true, n);
  }

  method DrawFormatBits(e: Ecc, mask: Mask, q: array<byte>, ghost n: nat)
    requires HoldsGrid(q[..], n) && n >= 21
    modifies q
    ensures HoldsGrid(q[..], n)
    ensures Black(q[..], n) == FormatDrawn(old(Black(q[..], n)), n, FormatWord(e, mask), 31)
  {
    hide FormatWord, FormatDrawn;
    var w := ComputeFormatWord(e, mask);
    ghost var black := Black(q[..], n);
    DrawFirstCopy(w, q, n);
    DrawSecondCopy(w, q, n, black);
  }
}
