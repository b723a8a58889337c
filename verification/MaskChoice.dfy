/**
 The automatic choice of the mask: ISO/IEC 18004:2015, section 7.8.3.
 */
module MaskChoice {
  import opened Bytes
  import opened Capacity
  import opened Grid
  import opened Masking
  import opened FormatInformation
  import opened FunctionModules
  import opened FunctionPatterns

  const LONG_MAX := 0x7FFF_FFFF

  /** The penalty of a symbol is a score of its modules, below LONG_MAX. */
  ghost predicate Scores(penalty: seq<byte> -> int, score: set<Cell> -> int, n: nat) {
    forall q {:trigger penalty(q)} | HoldsGrid(q, n) :: penalty(q) == score(Black(q, n)) < LONG_MAX
  }

  /** The symbol with the given mask and its format information, made from unmasked data. */
  ghost function Finished(black: set<Cell>, v: Version, e: Ecc, mask: Mask): set<Cell> {
    FormatDrawn(Masked(black, FunctionCells(v), SideLength(v), mask), SideLength(v), FormatWord(e, mask), 31)
  }

  lemma FormatCellsAreFunction(v: Version, c: Cell)
    requires IsFormatCell(SideLength(v), c)
    ensures InGrid(SideLength(v), c) && c in FunctionCells(v)
  {
    hide FunctionCells;
    var i :| 0 <= i < 31 && FormatCell(SideLength(v), i) == c;
    PatternCells(v, c);
  }

  /** The finished symbol, module by module. */
  lemma FinishedCells(black: set<Cell>, v: Version, e: Ecc, mask: Mask)
    ensures forall i {:trigger FormatCell(SideLength(v), i)} | 0 <= i < 31 ::
              FormatCell(SideLength(v), i) in Finished(black, v, e, mask) <==> FormatColor(FormatWord(e, mask), i)
    ensures forall c | !IsFormatCell(SideLength(v), c) ::
              c in Finished(black, v, e, mask) <==> c in Masked(black, FunctionCells(v), SideLength(v), mask)
  {
    FormatDrawnCells(Masked(black, FunctionCells(v), SideLength(v), mask), SideLength(v), FormatWord(e, mask), 31);
  }

  /** Where the finished symbol shows bit i of the format word: around the first finder pattern. */
  lemma FirstCopyShows(black: set<Cell>, v: Version, e: Ecc, mask: Mask, i: nat)
    requires i < 15
    ensures var f, bit := Finished(black, v, e, mask), WordBit(FormatWord(e, mask), i);
            && (i <= 5 ==> (Cell(8, i) in f <==> bit)) && (i == 6 ==> (Cell(8, 7) in f <==> bit))
            && (i == 7 ==> (Cell(8, 8) in f <==> bit)) && (i == 8 ==> (Cell(7, 8) in f <==> bit))
            && (i >= 9 ==> (Cell(14 - i, 8) in f <==> bit))
  {
    hide Finished, WordBit, FormatWord, SecondCopy;
    FinishedCells(black, v, e, mask);
    assert FormatCell(SideLength(v), i) == FirstCopy(i) && FormatColor(FormatWord(e, mask), i)
        == WordBit(FormatWord(e, mask), i);
  }

  /** The same below the second and beside the third finder pattern; the module next to that is always dark. */
  lemma SecondCopyShows(black: set<Cell>, v: Version, e: Ecc, mask: Mask, i: nat)
    requires i < 15
    ensures var f, n, bit := Finished(black, v, e, mask), SideLength(v), WordBit(FormatWord(e, mask), i);
            && (i < 8 ==> (Cell(n - 1 - i, 8) in f <==> bit)) && (i >= 8 ==> (Cell(8, n - 15 + i) in f <==> bit))
            && Cell(8, n - 8) in f
  {
    hide Finished, WordBit, FormatWord, FirstCopy;
    FinishedCells(black, v, e, mask);
    assert FormatCell(SideLength(v), 15 + i) == SecondCopy(SideLength(v), i);
    assert FormatColor(FormatWord(e, mask), 15 + i) == WordBit(FormatWord(e, mask), i);
    assert FormatCell(SideLength(v), 30) == Cell(8, SideLength(v) - 8) && FormatColor(FormatWord(e, mask), 30);
  }

  /** The two symbols agree outside the format information. */
  ghost predicate SameButFormat(a: set<Cell>, b: set<Cell>, v: Version) {
    && a <= Cells(SideLength(v)) && b <= Cells(SideLength(v))
    && forall c {:trigger c in a} {:trigger c in b} | !IsFormatCell(SideLength(v), c) :: c in a <==> c in b
  }

  /** What the format cells held before is of no consequence. */
  lemma FinishedSame(a: set<Cell>, b: set<Cell>, v: Version, e: Ecc, mask: Mask)
    requires SameButFormat(a, b, v)
    ensures Finished(a, v, e, mask) == Finished(b, v, e, mask)
  {
    hide FormatDrawn, FormatWord, FunctionCells, Invert, FormatCell, FormatColor, Finished;
    FinishedCells(a, v, e, mask);
    FinishedCells(b, v, e, mask);
    forall c ensures c in Finished(a, v, e, mask) <==> c in Finished(b, v, e, mask) {
      if !IsFormatCell(SideLength(v), c) {
        assert c in Masked(a, FunctionCells(v), SideLength(v), mask)
          <==> c in Masked(b, FunctionCells(v), SideLength(v), mask);
      } else {
        var i :| 0 <= i < 31 && FormatCell(SideLength(v), i) == c;
      }
    }
  }

  /** Taking the mask away again restores everything but the format cells. */
  lemma UnmaskFinished(black: set<Cell>, v: Version, e: Ecc, mask: Mask)
    requires black <= Cells(SideLength(v))
    ensures SameButFormat(Masked(Finished(black, v, e, mask), FunctionCells(v), SideLength(v), mask), black, v)
  {
    hide FormatDrawn, FormatWord, FunctionCells, Invert, FormatCell, FormatColor, Finished;
    FinishedCells(black, v, e, mask);
  }

  /** Masks the symbol and draws the format information. */
  method Finish(functionModules: array<byte>, q: array<byte>, v: Version, e: Ecc, mask: Mask)
    requires functionModules != q && HoldsGrid(functionModules[..], SideLength(v)) && HoldsGrid(q[..], SideLength(v))
    requires Black(functionModules[..], SideLength(v)) == FunctionCells(v)
    modifies q
    ensures HoldsGrid(q[..], SideLength(v))
    ensures Black(q[..], SideLength(v)) == Finished(old(Black(q[..], SideLength(v))), v, e, mask)
  {
    hide FunctionCells, FormatDrawn, FormatWord, Masked, BitAt, CellIndex;
    ApplyMask(functionModules, q, mask, SideLength(v));
    DrawFormatBits(e, mask, q, SideLength(v));
  }

  /** Among the first k masks, this is the first with the least score. */
  ghost predicate FirstLeast(score: set<Cell> -> int, black: set<Cell>, v: Version, e: Ecc, k: nat, mask: Mask) {
    mask < k && forall m: Mask {:trigger Finished(black, v, e, m)} | m < k ::
      var least, other := score(Finished(black, v, e, mask)), score(Finished(black, v, e, m));
      least <= other && (m < mask ==> least < other)
  }

  /** Tries all eight masks. In the end the data modules are as before. */
  method ChooseMask(functionModules: array<byte>, q: array<byte>, v: Version, e: Ecc,
                    penalty: seq<byte> -> int, ghost score: set<Cell> -> int) returns (mask: Mask)
    requires functionModules != q && HoldsGrid(functionModules[..], SideLength(v)) && HoldsGrid(q[..], SideLength(v))
    requires Black(functionModules[..], SideLength(v)) == FunctionCells(v)
    requires Scores(penalty, score, SideLength(v))
    modifies q
    ensures HoldsGrid(q[..], SideLength(v))
        && SameButFormat(Black(q[..], SideLength(v)), old(Black(q[..], SideLength(v))), v)
    ensures FirstLeast(score, old(Black(q[..], SideLength(v))), v, e, 8, mask)
  {
    hide FunctionCells, Finished, Masked, BitAt, CellIndex, SameButFormat;
    ghost var n, func, black := SideLength(v), FunctionCells(v), Black(q[..], SideLength(v));
    var best, minPenalty := -1, LONG_MAX;
    SameButFormatReflexive(black, v);
    for i := 0 to 8
      invariant HoldsGrid(q[..], n) && SameButFormat(Black(q[..], n), black, v)
      invariant HoldsGrid(functionModules[..], n) && Black(functionModules[..], n) == func
      invariant i == 0 ==> best == -1 && minPenalty == LONG_MAX
      invariant i > 0 ==> 0 <= best < i && FirstLeast(score, black, v, e, i, best)
                          && minPenalty == score(Finished(black, v, e, best))
    {
      FinishedSame(Black(q[..], n), black, v, e, i);
      Finish(functionModules, q, v, e, i);
      assert Black(q[..], n) == Finished(black, v, e, i);
      var p := penalty(q[..]);
      if p < minPenalty {
        best := i;
        minPenalty := p;
      }
      UnmaskFinished(black, v, e, i);
      ApplyMask(functionModules, q, i, n);
    }
    mask := best;
  }

  lemma SameButFormatReflexive(black: set<Cell>, v: Version)
    requires black <= Cells(SideLength(v))
    ensures SameButFormat(black, black, v)
  {
  }
}
