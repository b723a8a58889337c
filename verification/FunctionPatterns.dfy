/**
 The patterns that the function modules show: finder, timing and alignment patterns and the version information,
 ISO/IEC 18004:2015, section 6.3.
 */
module FunctionPatterns {
  import opened Bytes
  import opened Capacity
  import opened Grid
  import opened FunctionModules

  // ----- the white modules -----

  /** The light modules of the timing patterns, up to the given coordinate. */
  ghost function TimingWhite(n: nat, m: nat): set<Cell> {
    set c | c in Cells(n) && ((c.x == 6 && 7 <= c.y < m && c.y % 2 == 1) || (c.y == 6 && 7 <= c.x < m && c.x % 2 == 1))
  }

  function Abs(x: int): nat { if x < 0 then -x else x }

  function Dist(dx: int, dy: int): nat { if Abs(dy) > Abs(dx) then Abs(dy) else Abs(dx) }

  /** In a light ring around the centre of a finder pattern, before the given offset in the order of drawing. */
  predicate InRing(c: Cell, cx: nat, cy: nat, dy: int, dx: int) {
    var ox, oy := c.x - cx, c.y - cy;
    (Dist(ox, oy) == 2 || Dist(ox, oy) == 4) && (oy < dy || (oy == dy && ox < dx))
  }

  ghost function Rings(n: nat, cx: nat, cy: nat, dy: int, dx: int): set<Cell> {
    set c | c in Cells(n) && InRing(c, cx, cy, dy, dx)
  }

  /** The light rings of the three finder patterns. */
  ghost function FinderWhite(n: nat, dy: int, dx: int): set<Cell>
    requires n >= 21
  {
    Rings(n, 3, 3, dy, dx) + Rings(n, n - 4, 3, dy, dx) + Rings(n, 3, n - 4, dy, dx)
  }

  // ----- the version information -----

  function SixBits(f: bool, e: bool, d: bool, c: bool, b: bool, a: bool): bv32 {
    (if f then 32 else 0) | (if e then 16 else 0) | (if d then 8 else 0) |
    (if c then 4 else 0) | (if b then 2 else 0) | (if a then 1 else 0)
  }

  /** The version as a word. */
  function VersionBits(v: Version): bv32 {
    SixBits(v / 32 % 2 == 1, v / 16 % 2 == 1, v / 8 % 2 == 1, v / 4 % 2 == 1, v / 2 % 2 == 1, v % 2 == 1)
  }

  function VersionRound(rem: bv32): bv32 { (rem << 1) ^ ((rem >> 11) * 0x1F25) }

  /** The remainder after k of twelve rounds. */
  function VersionRemainder(data: bv32, k: nat): bv32 {
    if k == 0 then data else VersionRound(VersionRemainder(data, k - 1))
  }

  /** Six bits of version and twelve of remainder. */
  function VersionWord(v: Version): bv32 { Joined(VersionBits(v), VersionRemainder(VersionBits(v), 12)) }

  function Joined(high: bv32, low: bv32): bv32 { (high << 12) | low }

  function Half(w: bv32): bv32 { w >> 1 }

  predicate Odd(w: bv32) { w & 1 != 0 }

  function Shifted(w: bv32, k: nat): bv32 { if k == 0 then w else Half(Shifted(w, k - 1)) }

  /** Which bit of the word a cell of the version blocks shows. */
  function VersionIndex(n: nat, c: Cell): int
    requires n >= 45
  {
    if c.y < 6 then 3 * c.y + (c.x - (n - 11)) else 3 * c.x + (c.y - (n - 11))
  }

  ghost function VersionBefore(v: Version, t: nat): set<Cell>
    requires v >= 7
  {
    set c | c in VersionBlocks(v) && VersionIndex(SideLength(v), c) < t
  }

  ghost function VersionDark(v: Version, t: nat): set<Cell>
    requires v >= 7
  {
    set c | c in VersionBefore(v, t) && VersionIndex(SideLength(v), c) >= 0
            && Odd(Shifted(VersionWord(v), VersionIndex(SideLength(v), c)))
  }

  // ----- all the patterns -----

  ghost function WithoutFinders(black: set<Cell>, v: Version): set<Cell> {
    black - TimingWhite(SideLength(v), SideLength(v) - 7) - FinderWhite(SideLength(v), 5, -4)
  }

  ghost function WithAlignment(black: set<Cell>, v: Version): set<Cell> {
    black - AlignRows(v, NumAlign(v), 1) + AlignRows(v, NumAlign(v), 0)
  }

  ghost function WithVersion(black: set<Cell>, v: Version): set<Cell> {
    if v >= 7 then black - VersionBlocks(v) + VersionDark(v, 18) else black
  }

  /** A symbol whose function modules were black, after they have been redrawn. */
  ghost function Redrawn(black: set<Cell>, v: Version): set<Cell> {
    WithVersion(WithAlignment(WithoutFinders(black, v), v), v)
  }

  /** The dark function modules, before the format information is drawn. */
  ghost function Pattern(v: Version): set<Cell> { Redrawn(FunctionCells(v), v) }

  /** The symbol shows the patterns. */
  ghost predicate ShowsPattern(black: set<Cell>, v: Version) {
    forall c {:trigger c in black} | c in FunctionCells(v) :: c in black <==> c in Pattern(v)
  }

  /** The two symbols differ in function modules only. */
  ghost predicate SameData(a: set<Cell>, b: set<Cell>, v: Version) {
    forall c {:trigger c in a} {:trigger c in b} | c !in FunctionCells(v) :: c in a <==> c in b
  }

  // ----- drawing them -----

  method SetModuleBounded(q: array<byte>, x: int, y: int, isBlack: bool, ghost n: nat)
    requires HoldsGrid(q[..], n)
    modifies q
    ensures HoldsGrid(q[..], n)
    ensures Black(q[..], n)
         == if !(0 <= x < n && 0 <= y < n) then old(Black(q[..], n))
            else if isBlack then old(Black(q[..], n)) + {Cell(x, y)} else old(Black(q[..], n)) - {Cell(x, y)}
  {
    hide Black;
    var qrsize := GetSize(q, n);
    if 0 <= x && x < qrsize && 0 <= y && y < qrsize {
      SetModule(q, x, y, isBlack, n);
    }
  }

  lemma TimingNext(n: nat, i: nat)
    requires 7 <= i < n && i % 2 == 1
    ensures TimingWhite(n, i + 2) == TimingWhite(n, i) + {Cell(6, i), Cell(i, 6)}
  {
  }

  lemma TimingEnds(n: nat, i: nat)
    requires n >= 21 && n % 2 == 1 && i == n - 6
    ensures TimingWhite(n, 7) == {} && TimingWhite(n, i) == TimingWhite(n, n - 7)
  {
  }

  method DrawTiming(q: array<byte>, qrsize: nat)
    requires qrsize >= 21 && qrsize % 2 == 1 && HoldsGrid(q[..], qrsize)
    modifies q
    ensures HoldsGrid(q[..], qrsize)
    ensures Black(q[..], qrsize) == old(Black(q[..], qrsize)) - TimingWhite(qrsize, qrsize - 7)
  {
    hide Black, HoldsGrid, TimingWhite;
    ghost var black := Black(q[..], qrsize);
    TimingEnds(qrsize, qrsize - 6);
    var i := 7;
    while i < qrsize - 7
      invariant 7 <= i <= qrsize - 6 && i % 2 == 1
      invariant HoldsGrid(q[..], qrsize) && Black(q[..], qrsize) == black - TimingWhite(qrsize, i)
    {
      TimingNext(qrsize, i);
      SetModule(q, 6, i, false, qrsize);
      SetModule(q, i, 6, false, qrsize);
      i := i + 2;
    }
  }

  /** The cell, if it lies in the grid. */
  function Bounded(n: nat, x: int, y: int): set<Cell> { if 0 <= x < n && 0 <= y < n then {Cell(x, y)} else {} }

  lemma RingNext(n: nat, cx: nat, cy: nat, dy: int, dx: int)
    ensures Rings(n, cx, cy, dy, dx + 1)
         == Rings(n, cx, cy, dy, dx)
            + if Dist(dx, dy) == 2 || Dist(dx, dy) == 4 then Bounded(n, cx + dx, cy + dy) else {}
  {
  }

  lemma FinderNext(n: nat, dy: int, dx: int)
    requires n >= 21 && -4 <= dy <= 4 && -4 <= dx <= 4
    ensures FinderWhite(n, dy, dx + 1)
         == FinderWhite(n, dy, dx)
            + if Dist(dx, dy) == 2 || Dist(dx, dy) == 4
              then Bounded(n, 3 + dx, 3 + dy) + Bounded(n, n - 4 + dx, 3 + dy) + Bounded(n, 3 + dx, n - 4 + dy)
              else {}
  {
    hide Rings, Bounded, Dist;
    RingNext(n, 3, 3, dy, dx);
    RingNext(n, n - 4, 3, dy, dx);
    RingNext(n, 3, n - 4, dy, dx);
  }

  lemma RingRow(n: nat, cx: nat, cy: nat, dy: int)
    ensures Rings(n, cx, cy, dy, 5) == Rings(n, cx, cy, dy + 1, -4) && Rings(n, cx, cy, -4, -4) == {}
  {
  }

  lemma FinderRow(n: nat, dy: int)
    requires n >= 21
    ensures FinderWhite(n, dy, 5) == FinderWhite(n, dy + 1, -4) && FinderWhite(n, -4, -4) == {}
  {
    hide Rings;
    RingRow(n, 3, 3, dy);
    RingRow(n, n - 4, 3, dy);
    RingRow(n, 3, n - 4, dy);
  }

  method WhitenFinders(q: array<byte>, dx: int, dy: int, qrsize: nat)
    requires qrsize >= 21 && HoldsGrid(q[..], qrsize)
    modifies q
    ensures HoldsGrid(q[..], qrsize)
    ensures Black(q[..], qrsize)
         == old(Black(q[..], qrsize))
            - (Bounded(qrsize, 3 + dx, 3 + dy) + Bounded(qrsize, qrsize - 4 + dx, 3 + dy)
               + Bounded(qrsize, 3 + dx, qrsize - 4 + dy))
  {
    hide Black, HoldsGrid;
    SetModuleBounded(q, 3 + dx, 3 + dy, false, qrsize);
    SetModuleBounded(q, qrsize - 4 + dx, 3 + dy, false, qrsize);
    SetModuleBounded(q, 3 + dx, qrsize - 4 + dy, false, qrsize);
  }

  method DrawFinders(q: array<byte>, qrsize: nat)
    requires qrsize >= 21 && HoldsGrid(q[..], qrsize)
    modifies q
    ensures HoldsGrid(q[..], qrsize)
    ensures Black(q[..], qrsize) == old(Black(q[..], qrsize)) - FinderWhite(qrsize, 5, -4)
  {
    hide Black, HoldsGrid, FinderWhite, Bounded;
    ghost var black := Black(q[..], qrsize);
    FinderRow(qrsize, -4);
    for dy := -4 to 5
      invariant HoldsGrid(q[..], qrsize) && Black(q[..], qrsize) == black - FinderWhite(qrsize, dy, -4)
    {
      FinderRow(qrsize, dy);
      for dx := -4 to 5
        invariant HoldsGrid(q[..], qrsize) && Black(q[..], qrsize) == black - FinderWhite(qrsize, dy, dx)
      {
        FinderNext(qrsize, dy, dx);
        var dist := Abs(dx);
        if Abs(dy) > dist {
          dist := Abs(dy);
        }
        if dist == 2 || dist == 4 {
          WhitenFinders(q, dx, dy, qrsize);
        }
      }
    }
  }

  /** The part of the three by three square that has been drawn. */
  ghost function SquareBefore(px: nat, py: nat, dy: int, dx: int): set<Cell>
    requires px >= 1 && py >= 1
  {
    set c | c in Rect(px - 1, py - 1, 3, 3) && (c.y - py < dy || (c.y - py == dy && c.x - px < dx))
  }

  function CenterBefore(px: nat, py: nat, dy: int, dx: int): set<Cell> {
    if 0 < dy || (0 == dy && 0 < dx) then {Cell(px, py)} else {}
  }

  lemma SquareNext(px: nat, py: nat, dy: int, dx: int)
    requires px >= 1 && py >= 1 && -1 <= dy <= 1 && -1 <= dx <= 1
    ensures SquareBefore(px, py, dy, dx + 1) == SquareBefore(px, py, dy, dx) + {Cell(px + dx, py + dy)}
  {
    hide Rect;
  }

  lemma SquareRow(px: nat, py: nat, dy: int)
    requires px >= 1 && py >= 1 && -1 <= dy <= 1
    ensures SquareBefore(px, py, dy, 2) == SquareBefore(px, py, dy + 1, -1)
    ensures SquareBefore(px, py, -1, -1) == {} && SquareBefore(px, py, 2, -1) == Rect(px - 1, py - 1, 3, 3)
    ensures CenterBefore(px, py, 2, -1) == Rect(px, py, 1, 1)
  {
    hide Rect;
    forall c ensures c in Rect(px, py, 1, 1) <==> c == Cell(px, py) {}
  }

  /** Dark in the middle, light around it. */
  method DrawAlignment(q: array<byte>, px: nat, py: nat, ghost n: nat)
    requires HoldsGrid(q[..], n) && 1 <= px < n - 1 && 1 <= py < n - 1
    modifies q
    ensures HoldsGrid(q[..], n)
    ensures Black(q[..], n) == old(Black(q[..], n)) - Rect(px - 1, py - 1, 3, 3) + Rect(px, py, 1, 1)
  {
    hide Black, HoldsGrid, SquareBefore, Rect;
    ghost var black := Black(q[..], n);
    SquareRow(px, py, -1);
    assert black - {} + CenterBefore(px, py, -1, -1) == black;
    for dy := -1 to 2
      invariant HoldsGrid(q[..], n)
      invariant Black(q[..], n) == black - SquareBefore(px, py, dy, -1) + CenterBefore(px, py, dy, -1)
    {
      SquareRow(px, py, dy);
      for dx := -1 to 2
        invariant HoldsGrid(q[..], n)
        invariant Black(q[..], n) == black - SquareBefore(px, py, dy, dx) + CenterBefore(px, py, dy, dx)
      {
        SquareNext(px, py, dy, dx);
        SetModule(q, px + dx, py + dy, dx == 0 && dy == 0, n);
      }
    }
  }

  /** A centre is not within reach of another pattern's light ring. */
  lemma CenterApart(v: Version, i: nat, j: nat, i': nat, j': nat)
    requires i < NumAlign(v) && j < NumAlign(v) && i' < NumAlign(v) && j' < NumAlign(v) && (i != i' || j != j')
    ensures AlignBlock(v, i, j, 0) !! AlignBlock(v, i', j', 1)
  {
    hide AlignPos, NumAlign;
    if i < i' { AlignPosIncreasing(v, i, i'); } else if i' < i { AlignPosIncreasing(v, i', i); }
    if j < j' { AlignPosIncreasing(v, j, j'); } else if j' < j { AlignPosIncreasing(v, j', j); }
    AlignPosAtLeast6(v, i);
    AlignPosAtLeast6(v, j);
    AlignPosAtLeast6(v, i');
    AlignPosAtLeast6(v, j');
  }

  lemma {:induction false} RowCentersApart(v: Version, i: nat, k: nat, i': nat, j': nat)
    requires i < NumAlign(v) && k <= NumAlign(v) && i' < NumAlign(v) && j' < NumAlign(v) && (i != i' || k <= j')
    ensures AlignRow(v, i, k, 0) !! AlignBlock(v, i', j', 1)
  {
    hide AlignBlock, NumAlign;
    if k == 0 {
    } else {
      RowCentersApart(v, i, k - 1, i', j');
      CenterApart(v, i, k - 1, i', j');
    }
  }

  lemma {:induction false} RowsCentersApart(v: Version, m: nat, i': nat, j': nat)
    requires m <= i' < NumAlign(v) && j' < NumAlign(v)
    ensures AlignRows(v, m, 0) !! AlignBlock(v, i', j', 1)
  {
    hide AlignBlock, AlignRow, NumAlign;
    if m == 0 {
    } else {
      RowsCentersApart(v, m - 1, i', j');
      RowCentersApart(v, m - 1, NumAlign(v), i', j');
    }
  }

  /** The squares and centres before pattern (i, j). */
  ghost function AlignBefore(v: Version, i: nat, j: nat, r: nat): set<Cell>
    requires i < NumAlign(v) && j <= NumAlign(v) && r <= 2
  {
    AlignRows(v, i, r) + AlignRow(v, i, j, r)
  }

  lemma Overdraw(black: set<Cell>, white: set<Cell>, dark: set<Cell>, more: set<Cell>, center: set<Cell>)
    requires dark !! more
    ensures black - (white + more) + (dark + center) == black - white + dark - more + center
  {
  }

  lemma AlignNext(v: Version, i: nat, j: nat, black: set<Cell>)
    requires i < NumAlign(v) && j < NumAlign(v)
    ensures black - AlignBefore(v, i, j + 1, 1) + AlignBefore(v, i, j + 1, 0)
         == black - AlignBefore(v, i, j, 1) + AlignBefore(v, i, j, 0) - AlignBlock(v, i, j, 1) + AlignBlock(v, i, j, 0)
  {
    hide AlignBlock, NumAlign, AlignRows;
    RowsCentersApart(v, i, i, j);
    RowCentersApart(v, i, j, i, j);
    Overdraw(black, AlignBefore(v, i, j, 1), AlignBefore(v, i, j, 0), AlignBlock(v, i, j, 1), AlignBlock(v, i, j, 0));
    assert AlignBefore(v, i, j + 1, 1) == AlignBefore(v, i, j, 1) + AlignBlock(v, i, j, 1);
    assert AlignBefore(v, i, j + 1, 0) == AlignBefore(v, i, j, 0) + AlignBlock(v, i, j, 0);
  }

  lemma AlignRowEnds(v: Version, i: nat)
    requires i < NumAlign(v)
    ensures AlignBefore(v, i, 0, 0) == AlignRows(v, i, 0) && AlignBefore(v, i, 0, 1) == AlignRows(v, i, 1)
    ensures AlignBefore(v, i, NumAlign(v), 0) == AlignRows(v, i + 1, 0)
    ensures AlignBefore(v, i, NumAlign(v), 1) == AlignRows(v, i + 1, 1)
  {
    hide AlignBlock, NumAlign;
  }

  method DrawAlignmentPatterns(v: Version, q: array<byte>)
    requires HoldsGrid(q[..], SideLength(v))
    modifies q
    ensures HoldsGrid(q[..], SideLength(v))
    ensures Black(q[..], SideLength(v)) == WithAlignment(old(Black(q[..], SideLength(v))), v)
  {
    hide Black, HoldsGrid, NumAlign, AlignPos, AlignRow, AlignBefore;
    ghost var n, black := SideLength(v), Black(q[..], SideLength(v));
    var alignPatPos := new nat[7];
    var numAlign := GetAlignmentPatternPositions(v, alignPatPos);
    ghost var positions := alignPatPos[..numAlign];
    for i := 0 to numAlign
      invariant alignPatPos[..numAlign] == positions
      invariant HoldsGrid(q[..], n) && Black(q[..], n) == black - AlignRows(v, i, 1) + AlignRows(v, i, 0)
    {
      AlignRowEnds(v, i);
      DrawAlignmentPatternRow(v, i, alignPatPos, numAlign, q, black);
    }
  }

  /** The source's inner loops. */
  method DrawAlignmentPatternRow(v: Version, i: nat, alignPatPos: array<nat>, numAlign: nat, q: array<byte>,
                                 ghost black: set<Cell>)
    requires HoldsGrid(q[..], SideLength(v)) && i < numAlign == NumAlign(v) <= alignPatPos.Length
    requires alignPatPos as object != q as object
    requires forall k | 0 <= k < numAlign :: alignPatPos[k] == AlignPos(v, k)
    requires Black(q[..], SideLength(v)) == black - AlignBefore(v, i, 0, 1) + AlignBefore(v, i, 0, 0)
    modifies q
    ensures HoldsGrid(q[..], SideLength(v))
    ensures Black(q[..], SideLength(v)) == black - AlignBefore(v, i, numAlign, 1) + AlignBefore(v, i, numAlign, 0)
  {
    hide Black, HoldsGrid, NumAlign, AlignPos, AlignBefore, Rect;
    ghost var n := SideLength(v);
    for j := 0 to numAlign
      invariant forall k | 0 <= k < numAlign :: alignPatPos[k] == AlignPos(v, k)
      invariant HoldsGrid(q[..], n) && Black(q[..], n) == black - AlignBefore(v, i, j, 1) + AlignBefore(v, i, j, 0)
    {
      AlignNext(v, i, j, black);
      AlignPosAtLeast6(v, i);
      AlignPosAtLeast6(v, j);
      if !((i == 0 && j == 0) || (i == 0 && j == numAlign - 1) || (i == numAlign - 1 && j == 0)) {
        DrawAlignment(q, alignPatPos[i], alignPatPos[j], n);
      }
    }
  }

  // ----- the version information -----

  lemma VersionNext(v: Version, i: nat, j: nat)
    requires v >= 7 && i < 6 && j < 3
    ensures var n, t := SideLength(v), 3 * i + j;
            && VersionBefore(v, t + 1) == VersionBefore(v, t) + {Cell(n - 11 + j, i), Cell(i, n - 11 + j)}
            && VersionDark(v, t + 1)
            == VersionDark(v, t)
               + (if Odd(Shifted(VersionWord(v), t)) then {Cell(n - 11 + j, i), Cell(i, n - 11 + j)} else {})
            && Cell(n - 11 + j, i) !in VersionDark(v, t) && Cell(i, n - 11 + j) !in VersionDark(v, t)
  {
    hide VersionWord, Shifted, Odd;
    VersionAdded(v, i, j);
  }

  lemma VersionAdded(v: Version, i: nat, j: nat)
    requires v >= 7 && i < 6 && j < 3
    ensures var n, t := SideLength(v), 3 * i + j;
            forall c :: c in VersionBlocks(v) && VersionIndex(n, c) == t
                   <==> c == Cell(n - 11 + j, i) || c == Cell(i, n - 11 + j)
  {
    hide Rect;
  }

  lemma VersionEnds(v: Version)
    requires v >= 7
    ensures VersionBefore(v, 0) == {} && VersionDark(v, 0) == {} && VersionBefore(v, 18) == VersionBlocks(v)
  {
    hide Rect, VersionWord, Shifted;
  }

  method DrawVersion(v: Version, q: array<byte>, qrsize: nat)
    requires qrsize == SideLength(v) && HoldsGrid(q[..], qrsize) && v >= 7
    modifies q
    ensures HoldsGrid(q[..], qrsize)
    ensures Black(q[..], qrsize) == WithVersion(old(Black(q[..], qrsize)), v)
  {
    hide Black, HoldsGrid, VersionBefore, VersionDark, VersionBlocks, VersionWord, Half, Odd;
    ghost var black := Black(q[..], qrsize);
    var bits := ComputeVersionWord(v);
    VersionEnds(v);
    for i := 0 to 6
      invariant HoldsGrid(q[..], qrsize) && bits == Shifted(VersionWord(v), 3 * i)
      invariant Black(q[..], qrsize) == black - VersionBefore(v, 3 * i) + VersionDark(v, 3 * i)
    {
      for j := 0 to 3
        invariant HoldsGrid(q[..], qrsize) && bits == Shifted(VersionWord(v), 3 * i + j)
        invariant Black(q[..], qrsize) == black - VersionBefore(v, 3 * i + j) + VersionDark(v, 3 * i + j)
      {
        VersionNext(v, i, j);
        var k := qrsize - 11 + j;
        SetModule(q, k, i, Odd(bits), qrsize);
        SetModule(q, i, k, Odd(bits), qrsize);
        bits := Half(bits);
      }
    }
  }

  method ComputeVersionWord(v: Version) returns (bits: bv32)
    ensures bits == VersionWord(v)
  {
    hide VersionRound, VersionBits, Joined;
    var rem := VersionBits(v);
    for i := 0 to 12
      invariant rem == VersionRemainder(VersionBits(v), i)
    {
      rem := VersionRound(rem);
    }
    bits := Joined(VersionBits(v), rem);
  }

  /** Gives the function modules, which must all be black before, their final colours, and changes nothing else. */
  method DrawWhiteFunctionModules(q: array<byte>, v: Version)
    requires HoldsGrid(q[..], SideLength(v))
    modifies q
    ensures HoldsGrid(q[..], SideLength(v))
    ensures Black(q[..], SideLength(v)) == Redrawn(old(Black(q[..], SideLength(v))), v)
  {
    hide Black, HoldsGrid, TimingWhite, FinderWhite, WithAlignment, VersionBlocks, VersionDark;
    var qrsize := GetSize(q, SideLength(v));
    DrawTiming(q, qrsize);
    DrawFinders(q, qrsize);
    DrawAlignmentPatterns(v, q);
    if v >= 7 {
      DrawVersion(v, q, qrsize);
    }
  }

  // ----- only function modules are redrawn -----

  lemma PatternCells(v: Version, c: Cell)
    requires InGrid(SideLength(v), c)
    requires var n := SideLength(v);
             c.x == 6 || c.y == 6 || (c.x < 9 && c.y < 9) || (n - 8 <= c.x && c.y < 9) || (c.x < 9 && n - 8 <= c.y)
             || (v >= 7 && ((n - 11 <= c.x < n - 8 && c.y < 6) || (c.x < 6 && n - 11 <= c.y < n - 8)))
    ensures c in FunctionCells(v)
  {
    hide AlignRows, NumAlign;
  }

  lemma BlockWithin(v: Version, i: nat, j: nat, r: nat)
    requires i < NumAlign(v) && j < NumAlign(v) && r <= 2
    ensures AlignBlock(v, i, j, r) <= AlignBlock(v, i, j, 2)
  {
    hide NumAlign, AlignPos;
    AlignPosAtLeast6(v, i);
    AlignPosAtLeast6(v, j);
  }

  lemma {:induction false} RowWithin(v: Version, i: nat, k: nat, r: nat)
    requires i < NumAlign(v) && k <= NumAlign(v) && r <= 2
    ensures AlignRow(v, i, k, r) <= AlignRow(v, i, k, 2)
  {
    hide NumAlign, AlignBlock;
    if k == 0 {
    } else {
      RowWithin(v, i, k - 1, r);
      BlockWithin(v, i, k - 1, r);
    }
  }

  lemma {:induction false} RowsWithin(v: Version, m: nat, r: nat)
    requires m <= NumAlign(v) && r <= 2
    ensures AlignRows(v, m, r) <= AlignRows(v, m, 2)
  {
    hide NumAlign, AlignRow;
    if m == 0 {
    } else {
      RowsWithin(v, m - 1, r);
      RowWithin(v, m - 1, NumAlign(v), r);
    }
  }

  lemma AlignmentIsFunction(v: Version, r: nat)
    requires r <= 2
    ensures AlignRows(v, NumAlign(v), r) <= FunctionCells(v)
  {
    hide NumAlign, AlignRows, BasePatterns, VersionBlocks;
    RowsWithin(v, NumAlign(v), r);
  }

  lemma WhiteIsFunction(v: Version, c: Cell)
    requires c in TimingWhite(SideLength(v), SideLength(v) - 7) || c in FinderWhite(SideLength(v), 5, -4)
    ensures c in FunctionCells(v)
  {
    hide FunctionCells;
    PatternCells(v, c);
  }

  lemma RedrawnSameData(black: set<Cell>, v: Version)
    ensures SameData(Redrawn(black, v), black, v)
  {
    hide TimingWhite, FinderWhite, NumAlign, AlignRows, VersionWord, Odd, Shifted;
    AlignmentIsFunction(v, 0);
    AlignmentIsFunction(v, 1);
    forall c | c !in FunctionCells(v) ensures c in Redrawn(black, v) <==> c in black {
      if c in TimingWhite(SideLength(v), SideLength(v) - 7) || c in FinderWhite(SideLength(v), 5, -4) {
        WhiteIsFunction(v, c);
      }
    }
  }

  /** If the function modules were black before, they show the patterns afterwards. */
  lemma RedrawnShowsPattern(black: set<Cell>, v: Version)
    requires FunctionCells(v) <= black
    ensures ShowsPattern(Redrawn(black, v), v)
  {
    hide TimingWhite, FinderWhite, NumAlign, AlignRows, VersionDark, VersionBlocks, FunctionCells;
  }

  // ----- what the patterns look like -----

  lemma {:induction false} RowReach(v: Version, i: nat, k: nat, r: nat, c: Cell)
    requires i < NumAlign(v) && k <= NumAlign(v) && r <= 2
    ensures c in AlignRow(v, i, k, r) <==> exists j: nat :: j < k && c in AlignBlock(v, i, j, r)
  {
    hide NumAlign, AlignBlock;
    if k == 0 {
    } else {
      RowReach(v, i, k - 1, r, c);
    }
  }

  lemma {:induction false} RowsReach(v: Version, m: nat, r: nat, c: Cell)
    requires m <= NumAlign(v) && r <= 2
    ensures c in AlignRows(v, m, r)
       <==> exists i: nat, j: nat :: i < m && j < NumAlign(v) && c in AlignBlock(v, i, j, r)
  {
    hide NumAlign, AlignBlock, AlignRow;
    if m == 0 {
    } else {
      RowsReach(v, m - 1, r, c);
      RowReach(v, m - 1, NumAlign(v), r, c);
    }
  }

  lemma {:induction false} AlignPosEven(v: Version, i: nat)
    requires i < NumAlign(v)
    ensures AlignPos(v, i) % 2 == 0
    decreases NumAlign(v) - i
  {
    hide NumAlign;
    if i == 0 || i == NumAlign(v) - 1 {
    } else {
      AlignPosEven(v, i + 1);
    }
  }

  lemma PatternAt(v: Version, c: Cell)
    requires c in FunctionCells(v) && c !in VersionBlocks(v)
    ensures var n, a := SideLength(v), NumAlign(v);
            (c in Pattern(v)
             <==> c in AlignRows(v, a, 0)
                  || (c !in AlignRows(v, a, 1) && c !in TimingWhite(n, n - 7) && c !in FinderWhite(n, 5, -4)))
  {
    hide TimingWhite, FinderWhite, NumAlign, AlignRows, FunctionCells, VersionBlocks, VersionIndex, Odd, Shifted,
      VersionWord;
  }

  /** An alignment pattern: its place, away from the other patterns. */
  predicate AlignedAt(v: Version, i: nat, j: nat, c: Cell, r: nat) {
    && i < NumAlign(v) && j < NumAlign(v) && !IsCorner(v, i, j)
    && Dist(c.x - AlignPos(v, i), c.y - AlignPos(v, j)) <= r
  }

  lemma BlockIsSquare(v: Version, i: nat, j: nat, r: nat, c: Cell)
    requires i < NumAlign(v) && j < NumAlign(v) && r <= 2
    ensures c in AlignBlock(v, i, j, r) <==> AlignedAt(v, i, j, c, r)
  {
    hide NumAlign, AlignPos;
    AlignPosAtLeast6(v, i);
    AlignPosAtLeast6(v, j);
  }

  /** The last coordinate lies at the far edge, the others well before it; all but the first well inside. */
  lemma AlignPosRange(v: Version, i: nat)
    requires i < NumAlign(v)
    ensures AlignPos(v, i) == 6 || AlignPos(v, i) >= 18
    ensures i == 0 <==> AlignPos(v, i) == 6
    ensures i < NumAlign(v) - 1 ==> AlignPos(v, i) <= 4 * v - 2
    ensures AlignPos(v, i) <= 4 * v + 10
  {
    hide NumAlign;
    if i > 0 { AlignPosBounds(v, i); }
    if i < NumAlign(v) - 1 {
      AlignPosIncreasing(v, i, NumAlign(v) - 1);
    }
  }

  /** A cell is within reach of at most one alignment pattern. */
  lemma AlignedUnique(v: Version, i: nat, j: nat, i': nat, j': nat, c: Cell)
    requires AlignedAt(v, i, j, c, 2) && AlignedAt(v, i', j', c, 2)
    ensures i == i' && j == j'
  {
    hide NumAlign, AlignPos;
    if i < i' { AlignPosIncreasing(v, i, i'); } else if i' < i { AlignPosIncreasing(v, i', i); }
    if j < j' { AlignPosIncreasing(v, j, j'); } else if j' < j { AlignPosIncreasing(v, j', j); }
  }

  lemma RowsAt(v: Version, i: nat, j: nat, c: Cell, r: nat)
    requires AlignedAt(v, i, j, c, 2) && r <= 2
    ensures c in AlignRows(v, NumAlign(v), r) <==> AlignedAt(v, i, j, c, r)
  {
    hide NumAlign, AlignBlock, AlignRows, AlignPos, IsCorner, Dist;
    RowsReach(v, NumAlign(v), r, c);
    BlockIsSquare(v, i, j, r, c);
    if c in AlignRows(v, NumAlign(v), r) {
      var i': nat, j': nat :| i' < NumAlign(v) && j' < NumAlign(v) && c in AlignBlock(v, i', j', r);
      BlockIsSquare(v, i', j', r, c);
      AlignedUnique(v, i, j, i', j', c);
    }
  }

  /** Alignment patterns keep clear of the finder patterns and the version information. */
  lemma AlignedClear(v: Version, i: nat, j: nat, c: Cell)
    requires AlignedAt(v, i, j, c, 2)
    ensures c !in FinderWhite(SideLength(v), 5, -4) && c !in VersionBlocks(v)
  {
    hide NumAlign, AlignPos;
    AlignPosRange(v, i);
    AlignPosRange(v, j);
  }

  /** Every alignment pattern shows: a dark centre, a light ring and a dark ring. */
  lemma AlignmentShows(v: Version, i: nat, j: nat, c: Cell)
    requires AlignedAt(v, i, j, c, 2)
    ensures c in Pattern(v) <==> Dist(c.x - AlignPos(v, i), c.y - AlignPos(v, j)) != 1
  {
    hide NumAlign, AlignPos, AlignRows, VersionBlocks, FinderWhite, Pattern, FunctionCells, AlignBlock;
    AlignmentIsFunction(v, 2);
    RowsAt(v, i, j, c, 2);
    RowsAt(v, i, j, c, 1);
    RowsAt(v, i, j, c, 0);
    AlignedClear(v, i, j, c);
    PatternAt(v, c);
    AlignPosRange(v, i);
    AlignPosRange(v, j);
    AlignPosEven(v, i);
    AlignPosEven(v, j);
  }

  lemma NotAligned(v: Version, c: Cell)
    requires forall i: nat, j: nat :: !AlignedAt(v, i, j, c, 2)
    ensures forall r: nat | r <= 2 :: c !in AlignRows(v, NumAlign(v), r)
  {
    hide NumAlign, AlignBlock, AlignRows, AlignPos, IsCorner, AlignedAt;
    forall r: nat | r <= 2 ensures c !in AlignRows(v, NumAlign(v), r) {
      RowsWithin(v, NumAlign(v), r);
      RowsReach(v, NumAlign(v), 2, c);
      forall i: nat, j: nat | i < NumAlign(v) && j < NumAlign(v) ensures c !in AlignBlock(v, i, j, 2) {
        BlockIsSquare(v, i, j, 2, c);
      }
    }
  }

  /** A cell of one of the three finder patterns with its separator, at the given distance from its centre. */
  predicate FinderAt(n: nat, c: Cell, d: nat)
    requires n >= 21
  {
    InGrid(n, c) && d <= 4
    && (Dist(c.x - 3, c.y - 3) == d || Dist(c.x - (n - 4), c.y - 3) == d || Dist(c.x - 3, c.y - (n - 4)) == d)
  }

  lemma FinderClear(v: Version, c: Cell, d: nat)
    requires FinderAt(SideLength(v), c, d)
    ensures c in FunctionCells(v) && c !in VersionBlocks(v)
    ensures forall i: nat, j: nat :: !AlignedAt(v, i, j, c, 2)
  {
    hide NumAlign, AlignPos, FunctionCells;
    PatternCells(v, c);
    forall i: nat, j: nat | i < NumAlign(v) && j < NumAlign(v) && !IsCorner(v, i, j) ensures !AlignedAt(v, i, j, c, 2) {
      AlignPosRange(v, i);
      AlignPosRange(v, j);
    }
  }

  /** Every finder pattern shows: a dark square, a light ring, a dark ring, and light around it. */
  lemma FinderShows(v: Version, c: Cell, d: nat)
    requires FinderAt(SideLength(v), c, d)
    ensures c in Pattern(v) <==> d != 2 && d != 4
  {
    hide NumAlign, AlignRows, VersionBlocks, Pattern, FunctionCells, AlignedAt;
    FinderClear(v, c, d);
    NotAligned(v, c);
    PatternAt(v, c);
  }

  lemma TimingClear(v: Version, c: Cell, k: nat)
    requires 8 <= k <= SideLength(v) - 9 && (c == Cell(6, k) || c == Cell(k, 6))
    ensures c in FunctionCells(v) && c !in VersionBlocks(v) && c !in FinderWhite(SideLength(v), 5, -4)
    ensures c in TimingWhite(SideLength(v), SideLength(v) - 7) <==> k % 2 == 1
  {
    hide FunctionCells;
    PatternCells(v, c);
  }

  /** An alignment pattern on a timing pattern agrees with it. */
  lemma TimingAligned(v: Version, c: Cell, k: nat, i: nat, j: nat)
    requires 8 <= k <= SideLength(v) - 9 && (c == Cell(6, k) || c == Cell(k, 6)) && AlignedAt(v, i, j, c, 2)
    ensures Dist(c.x - AlignPos(v, i), c.y - AlignPos(v, j)) != 1 <==> k % 2 == 0
  {
    hide NumAlign, AlignPos;
    AlignPosRange(v, i);
    AlignPosRange(v, j);
    AlignPosEven(v, i);
    AlignPosEven(v, j);
  }

  /** The timing patterns alternate, unbroken by the alignment patterns that lie on them. */
  lemma TimingShows(v: Version, c: Cell, k: nat)
    requires 8 <= k <= SideLength(v) - 9 && (c == Cell(6, k) || c == Cell(k, 6))
    ensures c in Pattern(v) <==> k % 2 == 0
  {
    hide NumAlign, AlignRows, AlignPos, VersionBlocks, FinderWhite, TimingWhite, Pattern, FunctionCells, AlignedAt,
      Dist;
    TimingClear(v, c, k);
    if i: nat, j: nat :| AlignedAt(v, i, j, c, 2) {
      AlignmentShows(v, i, j, c);
      TimingAligned(v, c, k, i, j);
    } else {
      NotAligned(v, c);
      PatternAt(v, c);
    }
  }

  /** Both version blocks show the bits of the version word. */
  lemma VersionShows(v: Version, i: nat, j: nat)
    requires v >= 7 && i < 6 && j < 3
    ensures var n := SideLength(v);
            && (Cell(n - 11 + j, i) in Pattern(v) <==> Odd(Shifted(VersionWord(v), 3 * i + j)))
            && (Cell(i, n - 11 + j) in Pattern(v) <==> Odd(Shifted(VersionWord(v), 3 * i + j)))
  {
    hide VersionWord, Odd, Shifted, WithAlignment, WithoutFinders, FunctionCells;
  }
}
