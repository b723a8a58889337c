/**
 The function modules of a symbol: finder, timing and alignment patterns, format and version information.
 */
module FunctionModules {
  import opened Bytes
  import opened BitBuffer
  import opened Capacity
  import opened Grid

  function SideLength(v: Version): (n: nat)
    ensures 21 <= n <= 177 && n % 2 == 1
  {
    4 * v + 17
  }

  // ----- the alignment patterns -----

  function NumAlign(v: Version): (a: nat)
    ensures a == 0 || 2 <= a <= 7
    ensures a == 0 <==> v == 1
  {
    if v == 1 then 0 else v / 7 + 2
  }

  function AlignStep(v: Version): nat
    requires v >= 2
  {
    if v == 32 then 26 else (v * 4 + NumAlign(v) * 2 + 1) / (NumAlign(v) * 2 - 2) * 2
  }

  /** The i-th coordinate of the alignment patterns, counted down from the last one. */
  function AlignPos(v: Version, i: nat): int
    requires v >= 2 && i < NumAlign(v)
    decreases NumAlign(v) - i
  {
    if i == 0 then 6 else if i == NumAlign(v) - 1 then v * 4 + 10 else AlignPos(v, i + 1) - AlignStep(v)
  }

  /** The patterns are far enough apart, and far enough from the finder patterns. */
  lemma AlignSpacing(v: Version)
    requires v >= 2
    ensures NumAlign(v) >= 3 ==> AlignStep(v) >= 16
    ensures v * 4 + 10 - (NumAlign(v) - 2) * AlignStep(v) >= 18
  {
    if v < 7 {
    } else if v < 14 {
      assert NumAlign(v) == 3;
    } else if v < 21 {
      assert NumAlign(v) == 4;
    } else if v < 28 {
      assert NumAlign(v) == 5;
    } else if v < 35 {
      assert NumAlign(v) == 6;
    } else {
      assert NumAlign(v) == 7;
    }
  }

  lemma {:induction false} AlignPosBounds(v: Version, i: nat)
    requires v >= 2 && 1 <= i < NumAlign(v)
    ensures AlignPos(v, i) == v * 4 + 10 - (NumAlign(v) - 1 - i) * AlignStep(v)
    ensures 18 <= AlignPos(v, i) <= v * 4 + 10
    ensures i < NumAlign(v) - 1 ==> AlignPos(v, i) + 16 <= AlignPos(v, i + 1)
    decreases NumAlign(v) - i
  {
    hide AlignStep;
    AlignSpacing(v);
    if i < NumAlign(v) - 1 {
      AlignPosBounds(v, i + 1);
      assert (NumAlign(v) - 2) * AlignStep(v) >= (NumAlign(v) - 1 - i) * AlignStep(v);
    }
  }

  /** Later patterns lie at least sixteen modules further on; the first two at least twelve apart. */
  lemma {:induction false} AlignPosIncreasing(v: Version, i: nat, j: nat)
    requires v >= 2 && i < j < NumAlign(v)
    ensures AlignPos(v, i) + (if i == 0 then 12 else 16) <= AlignPos(v, j)
    decreases j - i
  {
    if i > 0 {
      AlignPosBounds(v, i);
    }
    AlignPosBounds(v, j);
    if i + 1 < j {
      AlignPosIncreasing(v, i + 1, j);
      AlignPosBounds(v, i + 1);
    }
  }

  /** The last two patterns lie at the far edge, one step apart; the step is even. */
  predicate EvenlySpaced(v: Version, step: int)
    requires v >= 2
  {
    && step % 2 == 0
    && (forall i: nat | 1 <= i < NumAlign(v) - 1 :: AlignPos(v, i + 1) - AlignPos(v, i) == step)
    && AlignPos(v, 0) == 6 && AlignPos(v, NumAlign(v) - 1) == 4 * v + 10
  }

  lemma StepBounds(v: Version)
    requires v >= 7 && v != 32
    ensures AlignStep(v) % 2 == 0
    ensures (NumAlign(v) - 1) * (AlignStep(v) - 2) < 4 * v + 4 <= (NumAlign(v) - 1) * AlignStep(v)
  {
    if v < 14 {
      assert NumAlign(v) == 3;
    } else if v < 21 {
      assert NumAlign(v) == 4;
    } else if v < 28 {
      assert NumAlign(v) == 5;
    } else if v < 35 {
      assert NumAlign(v) == 6;
    } else {
      assert NumAlign(v) == 7;
    }
  }

  /**
   The patterns of all versions but 32 lie from 6 to 4 v + 10, at equal even distances but for the first, which is no
   longer than the others; and no smaller even step would do.
   */
  lemma AlignPosSpacing(v: Version)
    requires v >= 7 && v != 32
    ensures var step := AlignPos(v, 2) - AlignPos(v, 1);
            && EvenlySpaced(v, step) && AlignPos(v, 1) - AlignPos(v, 0) <= step
            && (NumAlign(v) - 1) * (step - 2) < 4 * v + 4
  {
    hide AlignStep;
    StepBounds(v);
    forall i: nat | 1 <= i < NumAlign(v) - 1 ensures AlignPos(v, i + 1) - AlignPos(v, i) == AlignStep(v) {}
    AlignPosBounds(v, 1);
    assert (NumAlign(v) - 1) * AlignStep(v) == (NumAlign(v) - 2) * AlignStep(v) + AlignStep(v);
  }

  /** In version 32, the first distance is longer than the others. */
  lemma AlignPosOf32()
    ensures NumAlign(32) == 6
    ensures seq(6, i requires 0 <= i < 6 => AlignPos(32, i)) == [6, 34, 60, 86, 112, 138]
  {
    AlignPosBounds(32, 1);
    AlignPosBounds(32, 2);
    AlignPosBounds(32, 3);
    AlignPosBounds(32, 4);
    AlignPosBounds(32, 5);
  }

  /** Up to version 6 there are two coordinates, and none in version 1. */
  lemma AlignPosOfSmall(v: Version)
    ensures NumAlign(v) == if v == 1 then 0 else 2 + v / 7
    ensures 2 <= v <= 6 ==> AlignPos(v, 0) == 6 && AlignPos(v, 1) == 4 * v + 10
  {
  }

  method GetAlignmentPatternPositions(v: Version, result: array<nat>) returns (numAlign: nat)
    requires result.Length >= 7
    modifies result
    ensures numAlign == NumAlign(v)
    ensures forall i | 0 <= i < numAlign :: result[i] == AlignPos(v, i) < 256
  {
    hide AlignStep;
    if v == 1 {
      return 0;
    }
    numAlign := v / 7 + 2;
    var step := AlignStep(v);
    var i, pos := numAlign - 1, v * 4 + 10;
    while i >= 1
      invariant 0 <= i < numAlign
      invariant i >= 1 ==> pos == AlignPos(v, i)
      invariant forall k | i < k < numAlign :: result[k] == AlignPos(v, k) < 256
    {
      AlignPosBounds(v, i);
      result[i] := pos;
      if i >= 2 { assert AlignPos(v, i - 1) == AlignPos(v, i) - AlignStep(v); }
      i, pos := i - 1, pos - step;
    }
    result[0] := 6;
  }

  // ----- the set of function modules -----

  ghost function Rect(left: nat, top: nat, width: nat, height: nat): (s: set<Cell>)
    ensures forall c {:trigger c in s} :: c in s <==> left <= c.x < left + width && top <= c.y < top + height
  {
    set c | c in Cells(left + width + top + height) && left <= c.x < left + width && top <= c.y < top + height
  }

  /** Timing patterns, and finder patterns with their separators and the format information. */
  ghost function BasePatterns(n: nat): set<Cell>
    requires n >= 21
  {
    Rect(6, 0, 1, n) + Rect(0, 6, n, 1) + Rect(0, 0, 9, 9) + Rect(n - 8, 0, 8, 9) + Rect(0, n - 8, 9, 8)
  }

  predicate IsCorner(v: Version, i: nat, j: nat) {
    (i == 0 && j == 0) || (i == 0 && j == NumAlign(v) - 1) || (i == NumAlign(v) - 1 && j == 0)
  }

  /** The square around an alignment pattern's centre, of the given radius; there are none at the finder patterns. */
  ghost function AlignBlock(v: Version, i: nat, j: nat, r: nat): set<Cell>
    requires i < NumAlign(v) && j < NumAlign(v) && r <= 2
  {
    if IsCorner(v, i, j) then {}
    else
      AlignPosAtLeast6(v, i); AlignPosAtLeast6(v, j);
      Rect(AlignPos(v, i) - r, AlignPos(v, j) - r, 2 * r + 1, 2 * r + 1)
  }

  lemma AlignPosAtLeast6(v: Version, i: nat)
    requires i < NumAlign(v)
    ensures 6 <= AlignPos(v, i) <= v * 4 + 10
  {
    if i > 0 { AlignPosBounds(v, i); }
  }

  ghost function AlignRow(v: Version, i: nat, j: nat, r: nat): set<Cell>
    requires i < NumAlign(v) && j <= NumAlign(v) && r <= 2
  {
    if j == 0 then {} else AlignRow(v, i, j - 1, r) + AlignBlock(v, i, j - 1, r)
  }

  ghost function AlignRows(v: Version, i: nat, r: nat): set<Cell>
    requires i <= NumAlign(v) && r <= 2
  {
    if i == 0 then {} else AlignRows(v, i - 1, r) + AlignRow(v, i - 1, NumAlign(v), r)
  }

  ghost function VersionBlocks(v: Version): set<Cell> {
    var n := SideLength(v);
    if v >= 7 then Rect(n - 11, 0, 3, 6) + Rect(0, n - 11, 6, 3) else {}
  }

  /** All the function modules. */
  ghost function FunctionCells(v: Version): set<Cell> {
    BasePatterns(SideLength(v)) + AlignRows(v, NumAlign(v), 2) + VersionBlocks(v)
  }

  // ----- drawing them -----

  method FillRectangle(left: nat, top: nat, width: nat, height: nat, q: array<byte>, ghost n: nat)
    requires HoldsGrid(q[..], n) && left + width <= n && top + height <= n
    modifies q
    ensures HoldsGrid(q[..], n) && Black(q[..], n) == old(Black(q[..], n)) + Rect(left, top, width, height)
  {
    hide Black;
    ghost var black := Black(q[..], n);
    for dy := 0 to height
      invariant HoldsGrid(q[..], n) && Black(q[..], n) == black + Rect(left, top, width, dy)
    {
      for dx := 0 to width
        invariant HoldsGrid(q[..], n) && Black(q[..], n)
            == black + Rect(left, top, width, dy) + Rect(left, top + dy, dx, 1)
      {
        SetModule(q, left + dx, top + dy, true, n);
      }
    }
  }

  /** A cleared buffer shows an all white symbol. */
  lemma ClearedIsWhite(q: seq<byte>, n: nat)
    requires HoldsGrid(q, n) && forall k | 1 <= k < BufferLen(n) :: q[k] == 0
    ensures Black(q, n) == {}
  {
    forall c | InGrid(n, c) ensures !BitAt(q, CellIndex(n, c)) {
      var k := CellIndex(n, c);
      assert q[k / 8 + 1] == 0;
    }
  }

  method DrawAlignments(v: Version, q: array<byte>)
    requires HoldsGrid(q[..], SideLength(v))
    modifies q
    ensures HoldsGrid(q[..], SideLength(v))
    ensures Black(q[..], SideLength(v)) == old(Black(q[..], SideLength(v))) + AlignRows(v, NumAlign(v), 2)
  {
    hide NumAlign, AlignPos, AlignRow, Black, HoldsGrid;
    ghost var n, black := SideLength(v), Black(q[..], SideLength(v));
    var alignPatPos := new nat[7];
    var numAlign := GetAlignmentPatternPositions(v, alignPatPos);
    ghost var positions := alignPatPos[..numAlign];
    for i := 0 to numAlign
      invariant alignPatPos[..numAlign] == positions
      invariant HoldsGrid(q[..], n) && Black(q[..], n) == black + AlignRows(v, i, 2)
    {
      DrawAlignmentRow(v, i, alignPatPos, numAlign, q);
    }
  }

  lemma AlignRowStart(v: Version, i: nat, black: set<Cell>)
    requires i < NumAlign(v)
    ensures black + AlignRow(v, i, 0, 2) == black
  {
  }

  lemma AlignRowNext(v: Version, i: nat, j: nat, black: set<Cell>)
    requires i < NumAlign(v) && j < NumAlign(v)
    ensures AlignPos(v, i) >= 6 && AlignPos(v, j) >= 6
    ensures black + AlignRow(v, i, j + 1, 2)
         == black + AlignRow(v, i, j, 2)
            + if IsCorner(v, i, j) then {} else Rect(AlignPos(v, i) - 2, AlignPos(v, j) - 2, 5, 5)
  {
    hide AlignPos, Rect, NumAlign;
    AlignPosAtLeast6(v, i);
    AlignPosAtLeast6(v, j);
  }

  /** The source's inner loop. */
  method DrawAlignmentRow(v: Version, i: nat, alignPatPos: array<nat>, numAlign: nat, q: array<byte>)
    requires HoldsGrid(q[..], SideLength(v)) && i < numAlign == NumAlign(v) <= alignPatPos.Length
    requires alignPatPos as object != q as object
    requires forall k | 0 <= k < numAlign :: alignPatPos[k] == AlignPos(v, k)
    modifies q
    ensures HoldsGrid(q[..], SideLength(v))
    ensures Black(q[..], SideLength(v)) == old(Black(q[..], SideLength(v))) + AlignRow(v, i, numAlign, 2)
  {
    hide NumAlign, AlignPos, Rect, Black, HoldsGrid, AlignRow, AlignBlock;
    ghost var n, black := SideLength(v), Black(q[..], SideLength(v));
    AlignRowStart(v, i, black);
    for j := 0 to numAlign
      invariant forall k | 0 <= k < numAlign :: alignPatPos[k] == AlignPos(v, k)
      invariant HoldsGrid(q[..], n) && Black(q[..], n) == black + AlignRow(v, i, j, 2)
    {
      AlignRowNext(v, i, j, black);
      if !((i == 0 && j == 0) || (i == 0 && j == numAlign - 1) || (i == numAlign - 1 && j == 0)) {
        AlignPosAtLeast6(v, i);
        AlignPosAtLeast6(v, j);
        FillRectangle(alignPatPos[i] - 2, alignPatPos[j] - 2, 5, 5, q, n);
      }
    }
  }

  method ClearSymbol(q: array<byte>, qrsize: nat)
    requires 1 <= qrsize < 256 && BufferLen(qrsize) <= q.Length
    modifies q
    ensures HoldsGrid(q[..], qrsize) && Black(q[..], qrsize) == {}
  {
    Clear(q, 0, (qrsize * qrsize + 7) / 8 + 1);
    q[0] := ByteOf(qrsize);
    ValueOfByteOf(qrsize);
    ClearedIsWhite(q[..], qrsize);
  }

  method FillBasePatterns(qrsize: nat, q: array<byte>)
    requires HoldsGrid(q[..], qrsize) && qrsize >= 21
    modifies q
    ensures HoldsGrid(q[..], qrsize) && Black(q[..], qrsize) == old(Black(q[..], qrsize)) + BasePatterns(qrsize)
  {
    hide BitAt, CellIndex, Rect, BufferLen, SizeOf;
    FillRectangle(6, 0, 1, qrsize, q, qrsize);
    FillRectangle(0, 6, qrsize, 1, q, qrsize);
    FillRectangle(0, 0, 9, 9, q, qrsize);
    FillRectangle(qrsize - 8, 0, 8, 9, q, qrsize);
    FillRectangle(0, qrsize - 8, 9, 8, q, qrsize);
  }

  method FillVersionBlocks(v: Version, qrsize: nat, q: array<byte>)
    requires qrsize == SideLength(v) && HoldsGrid(q[..], qrsize)
    modifies q
    ensures HoldsGrid(q[..], qrsize) && Black(q[..], qrsize) == old(Black(q[..], qrsize)) + VersionBlocks(v)
  {
    hide BitAt, CellIndex, Rect, BufferLen, SizeOf;
    if v >= 7 {
      FillRectangle(qrsize - 11, 0, 3, 6, q, qrsize);
      FillRectangle(0, qrsize - 11, 6, 3, q, qrsize);
    }
  }

  /** Clears the symbol and blackens exactly the function modules. */
  method InitializeFunctionModules(v: Version, q: array<byte>)
    requires BufferLen(SideLength(v)) <= q.Length
    modifies q
    ensures HoldsGrid(q[..], SideLength(v)) && Black(q[..], SideLength(v)) == FunctionCells(v)
  {
    hide BitAt, CellIndex, AlignRows, BasePatterns, VersionBlocks, BufferLen, SizeOf;
    var qrsize := v * 4 + 17;
    ClearSymbol(q, qrsize);
    FillBasePatterns(qrsize, q);
    DrawAlignments(v, q);
    FillVersionBlocks(v, qrsize, q);
  }
}
