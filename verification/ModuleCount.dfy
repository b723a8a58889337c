/**
 The number of modules left for data: the closed form of the encoder counts exactly
 the modules outside the function patterns.
 */
module ModuleCount {
  import opened Sequences
  import opened Capacity
  import opened Grid
  import opened FunctionModules
  import opened Zigzag

  lemma UnionSize<T>(a: set<T>, b: set<T>)
    requires a * b == {}
    ensures |a + b| == |a| + |b|
  {
  }

  lemma {:induction false} RowSize(left: nat, top: nat, width: nat)
    ensures |Rect(left, top, width, 1)| == width
    decreases width
  {
    hide Rect;
    if width == 0 {
      assert Rect(left, top, 0, 1) == {};
    } else {
      RowSize(left, top, width - 1);
      assert Rect(left, top, width, 1) == Rect(left, top, width - 1, 1) + {Cell(left + width - 1, top)};
    }
  }

  lemma {:induction false} RectSize(left: nat, top: nat, width: nat, height: nat)
    ensures |Rect(left, top, width, height)| == width * height
    decreases height
  {
    hide Rect;
    if height == 0 {
      assert Rect(left, top, width, 0) == {};
    } else {
      RectSize(left, top, width, height - 1);
      RowSize(left, top + height - 1, width);
      var a, b := Rect(left, top, width, height - 1), Rect(left, top + height - 1, width, 1);
      assert Rect(left, top, width, height) == a + b;
      UnionSize(a, b);
      assert width * height == width * (height - 1) + width;
    }
  }

  // ----- timing, finder and version patterns -----

  ghost function Corners(n: nat): set<Cell>
    requires n >= 21
  {
    Rect(0, 0, 9, 9) + Rect(n - 8, 0, 8, 9) + Rect(0, n - 8, 9, 8)
  }

  lemma CornersSize(n: nat)
    requires n >= 21
    ensures |Corners(n)| == 225
  {
    hide Rect;
    var a, b, c := Rect(0, 0, 9, 9), Rect(n - 8, 0, 8, 9), Rect(0, n - 8, 9, 8);
    RectSize(0, 0, 9, 9); RectSize(n - 8, 0, 8, 9); RectSize(0, n - 8, 9, 8);
    UnionSize(a, b);
    UnionSize(a + b, c);
  }

  /** The timing patterns add what lies between the corners. */
  lemma TimingBetweenCorners(n: nat, c: Cell)
    requires n >= 21
    ensures c in BasePatterns(n) <==> c in Corners(n) || c in Rect(9, 6, n - 17, 1) || c in Rect(6, 9, 1, n - 17)
  {
    hide Rect;
  }

  lemma BaseSize(n: nat)
    requires n >= 21
    ensures |BasePatterns(n)| == 2 * n + 191
  {
    hide Rect, BasePatterns;
    var a, d, e := Corners(n), Rect(9, 6, n - 17, 1), Rect(6, 9, 1, n - 17);
    CornersSize(n);
    RectSize(9, 6, n - 17, 1); RectSize(6, 9, 1, n - 17);
    UnionSize(a, d);
    UnionSize(a + d, e);
    forall c ensures c in BasePatterns(n) <==> c in a + d + e { TimingBetweenCorners(n, c); }
    assert BasePatterns(n) == a + d + e;
  }

  lemma VersionApart(n: nat, c: Cell)
    requires n >= 45 && (c in Rect(n - 11, 0, 3, 6) || c in Rect(0, n - 11, 6, 3))
    ensures c !in BasePatterns(n)
  {
    hide Rect;
  }

  lemma VersionSize(v: Version)
    ensures |VersionBlocks(v)| == if v >= 7 then 36 else 0
    ensures VersionBlocks(v) * BasePatterns(SideLength(v)) == {}
  {
    hide Rect, BasePatterns;
    var n := SideLength(v);
    if v >= 7 {
      var a, b := Rect(n - 11, 0, 3, 6), Rect(0, n - 11, 6, 3);
      RectSize(n - 11, 0, 3, 6);
      RectSize(0, n - 11, 6, 3);
      assert a * b == {};
      UnionSize(a, b);
      forall c ensures c !in VersionBlocks(v) || c !in BasePatterns(n) {
        if c in a || c in b { VersionApart(n, c); }
      }
    }
  }

  // ----- alignment patterns -----

  /** What an alignment pattern adds to the patterns before: five modules lie on a timing pattern at the edge. */
  function BlockGain(v: Version, i: nat, j: nat): nat {
    if IsCorner(v, i, j) then 0 else if i == 0 || j == 0 then 20 else 25
  }

  lemma LeftEdgeGain(n: nat, y: nat)
    requires n >= 21 && 9 <= y && y + 5 <= n - 8
    ensures |Rect(4, y, 5, 5) - BasePatterns(n)| == 20
  {
    hide Rect;
    var a, b := Rect(4, y, 2, 5), Rect(7, y, 2, 5);
    RectSize(4, y, 2, 5);
    RectSize(7, y, 2, 5);
    UnionSize(a, b);
    assert Rect(4, y, 5, 5) - BasePatterns(n) == a + b;
  }

  lemma TopEdgeGain(n: nat, x: nat)
    requires n >= 21 && 9 <= x && x + 5 <= n - 8
    ensures |Rect(x, 4, 5, 5) - BasePatterns(n)| == 20
  {
    hide Rect;
    var a, b := Rect(x, 4, 5, 2), Rect(x, 7, 5, 2);
    RectSize(x, 4, 5, 2);
    RectSize(x, 7, 5, 2);
    UnionSize(a, b);
    assert Rect(x, 4, 5, 5) - BasePatterns(n) == a + b;
  }

  lemma InnerGain(n: nat, x: nat, y: nat)
    requires n >= 21 && 9 <= x && x + 5 <= n && 9 <= y && y + 5 <= n
    ensures |Rect(x, y, 5, 5) - BasePatterns(n)| == 25
  {
    hide Rect;
    RectSize(x, y, 5, 5);
    assert Rect(x, y, 5, 5) - BasePatterns(n) == Rect(x, y, 5, 5);
  }

  lemma BlockSize(v: Version, i: nat, j: nat)
    requires i < NumAlign(v) && j < NumAlign(v)
    ensures |AlignBlock(v, i, j, 2) - BasePatterns(SideLength(v))| == BlockGain(v, i, j)
  {
    hide NumAlign, AlignPos, AlignStep, Rect, BasePatterns;
    if !IsCorner(v, i, j) {
      AlignPosAtLeast6(v, i);
      AlignPosAtLeast6(v, j);
      PosZero(v);
      if j > 0 { AlignPosBounds(v, j); }
      if i > 0 { AlignPosBounds(v, i); }
      if i == 0 {
        AlignPosIncreasing(v, j, NumAlign(v) - 1);
        LeftEdgeGain(SideLength(v), AlignPos(v, j) - 2);
      } else if j == 0 {
        AlignPosIncreasing(v, i, NumAlign(v) - 1);
        TopEdgeGain(SideLength(v), AlignPos(v, i) - 2);
      } else {
        InnerGain(SideLength(v), AlignPos(v, i) - 2, AlignPos(v, j) - 2);
      }
    }
  }

  lemma PosZero(v: Version)
    requires v >= 2
    ensures AlignPos(v, 0) == 6
    ensures AlignPos(v, NumAlign(v) - 1) == v * 4 + 10
  {
  }

  /** Where the cells of an alignment pattern are. */
  lemma BlockCells(v: Version, i: nat, j: nat, c: Cell)
    requires i < NumAlign(v) && j < NumAlign(v) && c in AlignBlock(v, i, j, 2)
    ensures AlignPos(v, i) - 2 <= c.x <= AlignPos(v, i) + 2 && AlignPos(v, j) - 2 <= c.y <= AlignPos(v, j) + 2
    ensures InGrid(SideLength(v), c) && c !in VersionBlocks(v)
  {
    hide NumAlign, AlignPos, AlignStep, Rect;
    AlignPosAtLeast6(v, i);
    AlignPosAtLeast6(v, j);
    PosZero(v);
    if i > 0 { AlignPosBounds(v, i); }
    if j > 0 { AlignPosBounds(v, j); }
    if j == 0 { AlignPosIncreasing(v, i, NumAlign(v) - 1); }
    if i == 0 { AlignPosIncreasing(v, j, NumAlign(v) - 1); }
  }

  lemma {:induction false} RowCells(v: Version, i: nat, k: nat, c: Cell)
    requires i < NumAlign(v) && k <= NumAlign(v) && c in AlignRow(v, i, k, 2)
    ensures k >= 1 && AlignPos(v, i) - 2 <= c.x <= AlignPos(v, i) + 2 && c.y <= AlignPos(v, k - 1) + 2
    ensures InGrid(SideLength(v), c) && c !in VersionBlocks(v)
  {
    hide NumAlign, AlignPos, AlignStep, Rect, AlignBlock, VersionBlocks;
    if c in AlignBlock(v, i, k - 1, 2) {
      BlockCells(v, i, k - 1, c);
    } else {
      RowCells(v, i, k - 1, c);
      AlignPosIncreasing(v, k - 2, k - 1);
    }
  }

  lemma {:induction false} RowsCells(v: Version, m: nat, c: Cell)
    requires m <= NumAlign(v) && c in AlignRows(v, m, 2)
    ensures m >= 1 && c.x <= AlignPos(v, m - 1) + 2
    ensures InGrid(SideLength(v), c) && c !in VersionBlocks(v)
  {
    hide NumAlign, AlignPos, AlignStep, AlignRow, VersionBlocks;
    if c in AlignRow(v, m - 1, NumAlign(v), 2) {
      RowCells(v, m - 1, NumAlign(v), c);
    } else {
      RowsCells(v, m - 1, c);
      AlignPosIncreasing(v, m - 2, m - 1);
    }
  }

  function RowGain(v: Version, i: nat, k: nat): nat {
    if k == 0 then 0 else RowGain(v, i, k - 1) + BlockGain(v, i, k - 1)
  }

  function RowsGain(v: Version, m: nat): nat {
    if m == 0 then 0 else RowsGain(v, m - 1) + RowGain(v, m - 1, NumAlign(v))
  }

  lemma DifferenceSize<T>(a: set<T>, b: set<T>, base: set<T>)
    requires a * b == {}
    ensures |a + b - base| == |a - base| + |b - base|
  {
    UnionSize(a - base, b - base);
    assert a + b - base == (a - base) + (b - base);
  }

  lemma {:induction false} AlignRowSize(v: Version, i: nat, k: nat)
    requires i < NumAlign(v) && k <= NumAlign(v)
    ensures |AlignRow(v, i, k, 2) - BasePatterns(SideLength(v))| == RowGain(v, i, k)
  {
    hide NumAlign, AlignPos, AlignStep, AlignBlock, BlockGain, BasePatterns;
    if k == 0 {
    } else {
      var a, b := AlignRow(v, i, k - 1, 2), AlignBlock(v, i, k - 1, 2);
      AlignRowSize(v, i, k - 1);
      BlockSize(v, i, k - 1);
      forall c | c in a ensures c !in b {
        RowCells(v, i, k - 1, c);
        AlignPosIncreasing(v, k - 2, k - 1);
        if c in b { BlockCells(v, i, k - 1, c); }
      }
      DifferenceSize(a, b, BasePatterns(SideLength(v)));
    }
  }

  lemma {:induction false} AlignRowsSize(v: Version, m: nat)
    requires m <= NumAlign(v)
    ensures |AlignRows(v, m, 2) - BasePatterns(SideLength(v))| == RowsGain(v, m)
  {
    hide NumAlign, AlignPos, AlignStep, AlignRow, RowGain, BasePatterns;
    if m == 0 {
    } else {
      var a, b := AlignRows(v, m - 1, 2), AlignRow(v, m - 1, NumAlign(v), 2);
      AlignRowsSize(v, m - 1);
      AlignRowSize(v, m - 1, NumAlign(v));
      forall c | c in a ensures c !in b {
        RowsCells(v, m - 1, c);
        AlignPosIncreasing(v, m - 2, m - 1);
        if c in b { RowCells(v, m - 1, NumAlign(v), c); }
      }
      DifferenceSize(a, b, BasePatterns(SideLength(v)));
    }
  }

  lemma {:induction false} RowGainClosed(v: Version, i: nat, k: nat)
    requires 1 <= k <= NumAlign(v) && i < NumAlign(v)
    ensures i == 0 ==> RowGain(v, i, k) == 20 * (k - 1) - if k == NumAlign(v) then 20 else 0
    ensures 0 < i < NumAlign(v) - 1 ==> RowGain(v, i, k) == 20 + 25 * (k - 1)
    ensures i == NumAlign(v) - 1 ==> RowGain(v, i, k) == 25 * (k - 1)
  {
    hide NumAlign;
    if k > 1 {
      RowGainClosed(v, i, k - 1);
    } else {
      assert RowGain(v, i, 0) == 0;
    }
  }

  lemma {:induction false} RowsGainClosed(v: Version, m: nat)
    requires 1 <= m <= NumAlign(v)
    ensures var a := NumAlign(v);
            RowsGain(v, m) == 20 * (a - 2) + (m - 1) * (20 + 25 * (a - 1)) - if m == a then 20 else 0
  {
    hide NumAlign, RowGain;
    var a := NumAlign(v);
    RowGainClosed(v, m - 1, a);
    if m > 1 {
      RowsGainClosed(v, m - 1);
      assert (m - 1) * (20 + 25 * (a - 1)) == (m - 2) * (20 + 25 * (a - 1)) + (20 + 25 * (a - 1));
    } else {
      assert RowsGain(v, 0) == 0;
    }
  }

  /** The patterns that the encoder subtracts in closed form. */
  lemma AlignmentGain(v: Version)
    ensures var a := NumAlign(v);
            RowsGain(v, a) == if v >= 2 then (25 * a - 10) * a - 55 else 0
  {
    hide NumAlign, RowGain;
    var a := NumAlign(v);
    if v >= 2 {
      RowsGainClosed(v, a);
      assert (a - 1) * (20 + 25 * (a - 1)) == 25 * (a * a) - 30 * a + 5;
      assert (25 * a - 10) * a == 25 * (a * a) - 10 * a;
    } else {
      assert RowsGain(v, 0) == 0;
    }
  }

  // ----- the whole symbol -----

  lemma {:induction false} CellsSize(n: nat)
    ensures |Cells(n)| == n * n
  {
    RectSize(0, 0, n, n);
    assert Cells(n) == Rect(0, 0, n, n);
  }

  lemma FunctionCellsInGrid(v: Version)
    ensures FunctionCells(v) <= Cells(SideLength(v))
  {
    hide AlignRows, NumAlign, Cells, Rect;
    forall c | c in FunctionCells(v) ensures InGrid(SideLength(v), c) {
      if c in AlignRows(v, NumAlign(v), 2) { RowsCells(v, NumAlign(v), c); }
    }
  }

  lemma ClosedForm(v: Version)
    ensures var n := SideLength(v);
            NumRawDataModules(v) == n * n - (2 * n + 191) - RowsGain(v, NumAlign(v)) - if v >= 7 then 36 else 0
  {
    AlignmentGain(v);
    hide RowsGain;
    var n := SideLength(v);
    assert n * n == 16 * (v * v) + 136 * v + 289;
    assert (16 * v + 128) * v == 16 * (v * v) + 128 * v;
  }

  /** Function modules and data modules make up the symbol. */
  lemma FunctionCellsSize(v: Version)
    ensures |FunctionCells(v)| + NumRawDataModules(v) == SideLength(v) * SideLength(v)
  {
    hide NumAlign, AlignRows, BasePatterns, VersionBlocks, RowsGain, NumRawDataModules;
    var n, a := SideLength(v), NumAlign(v);
    var base, align, version := BasePatterns(n), AlignRows(v, a, 2), VersionBlocks(v);
    BaseSize(n);
    AlignRowsSize(v, a);
    VersionSize(v);
    ClosedForm(v);
    forall c | c in align ensures c !in version { RowsCells(v, a, c); }
    UnionSize(base, align - base);
    UnionSize(base + (align - base), version);
    assert FunctionCells(v) == base + (align - base) + version;
  }

  // ----- the cells of the scan -----

  lemma {:induction false} DistinctSize(cells: seq<Cell>)
    requires Distinct(cells)
    ensures |set c | c in cells| == |cells|
  {
    if cells == [] {
      assert (set c | c in cells) == {};
    } else {
      var k := |cells| - 1;
      DistinctSize(cells[..k]);
      assert (set c | c in cells) == (set c | c in cells[..k]) + {cells[k]};
      forall i | 0 <= i < k ensures cells[i] != cells[k] {}
      assert cells[k] !in cells[..k];
    }
  }

  lemma ColumnSix(v: Version, y: nat)
    requires y < SideLength(v)
    ensures Cell(6, y) in FunctionCells(v)
  {
    hide AlignRows, VersionBlocks, NumAlign;
    assert Cell(6, y) in Rect(6, 0, 1, SideLength(v));
  }

  /** The scan meets exactly as many light cells as the closed form says. */
  lemma LightCount(v: Version)
    ensures var n := SideLength(v);
            && Distinct(Light(FunctionCells(v), Scan(n, n - 1)))
            && |Light(FunctionCells(v), Scan(n, n - 1))| == NumRawDataModules(v)
  {
    hide Scan, NumRawDataModules, FunctionCells, Light, Distinct;
    var n, func := SideLength(v), FunctionCells(v);
    var light := Light(func, Scan(n, n - 1));
    ScanIsBijection(n);
    LightDistinct(func, Scan(n, n - 1));
    DistinctSize(light);
    FunctionCellsInGrid(v);
    FunctionCellsSize(v);
    CellsSize(n);
    forall c ensures c in light <==> c in Cells(n) - func {
      if c.x == 6 && InGrid(n, c) { ColumnSix(v, c.y); }
    }
    assert (set c | c in light) == Cells(n) - func;
    UnionSize(Cells(n) - func, func);
    assert Cells(n) == (Cells(n) - func) + func;
  }
}
