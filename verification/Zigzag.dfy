/**
 Placement of the codewords in the symbol: ISO/IEC 18004:2015, section 7.7.3.
 */
module Zigzag {
  import opened Sequences
  import opened Arithmetic
  import opened Bytes
  import opened BitBuffer
  import opened Grid

  // ----- the scan -----

  predicate Upward(right: nat) { (right + 1) / 2 % 2 == 0 }

  /** The cell visited at step t of a pair of columns. */
  function PairCell(n: nat, right: nat, t: nat): Cell
    requires 1 <= right < n && t < 2 * n
  {
    Cell(right - t % 2, if Upward(right) then n - 1 - t / 2 else t / 2)
  }

  function PairCells(n: nat, right: nat): (cells: seq<Cell>)
    requires 1 <= right < n
    ensures |cells| == 2 * n
  {
    seq(2 * n, t requires 0 <= t < 2 * n => PairCell(n, right, t))
  }

  /** The pairs of columns are taken from right to left; the timing pattern in column 6 is skipped. */
  function Scan(n: nat, right: int): seq<Cell>
    requires right < n
  {
    if right < 1 then []
    else if right == 6 then PairCells(n, 5) + Scan(n, 3)
    else PairCells(n, right) + Scan(n, right - 2)
  }

  lemma DistinctConcat(a: seq<Cell>, b: seq<Cell>)
    requires Distinct(a) && Distinct(b) && forall c | c in a :: c !in b
    ensures Distinct(a + b)
  {
    forall i, j | 0 <= i < j < |a + b| ensures (a + b)[i] != (a + b)[j] {
      if i < |a| <= j {
        assert a[i] in a && b[j - |a|] in b;
      }
    }
  }

  lemma DistinctPrefix(a: seq<Cell>, b: seq<Cell>)
    requires Distinct(a + b)
    ensures Distinct(a)
  {
    forall i, j | 0 <= i < j < |a| ensures a[i] != a[j] { assert (a + b)[i] != (a + b)[j]; }
  }

  lemma PairCellsDistinct(n: nat, right: nat)
    requires 1 <= right < n
    ensures Distinct(PairCells(n, right))
    ensures forall c: Cell :: c in PairCells(n, right) <==> right - 1 <= c.x <= right && c.y < n
  {
    var p := PairCells(n, right);
    forall i, j | 0 <= i < j < |p| ensures p[i] != p[j] {
      assert i / 2 != j / 2 || i % 2 != j % 2;
    }
    forall c: Cell | right - 1 <= c.x <= right && c.y < n ensures c in p {
      var v := if Upward(right) then n - 1 - c.y else c.y;
      assert p[2 * v + (right - c.x)] == c;
    }
  }

  /** From here on, the scan visits all the columns up to "right" but column 6, each cell once. */
  lemma {:induction false} ScanVisits(n: nat, right: int)
    requires -1 <= right < n && (right % 2 == 1 ==> right <= 5) && (right % 2 == 0 ==> 6 <= right)
    ensures Distinct(Scan(n, right))
    ensures forall c: Cell :: c in Scan(n, right) <==> c.x <= right && c.x != 6 && c.y < n
  {
    if right < 1 {
    } else {
      var r := if right == 6 then 5 else right;
      PairCellsDistinct(n, r);
      ScanVisits(n, r - 2);
      DistinctConcat(PairCells(n, r), Scan(n, r - 2));
    }
  }

  /** The scan visits every cell outside column 6 exactly once. */
  lemma ScanIsBijection(n: nat)
    requires n >= 7 && n % 2 == 1
    ensures Distinct(Scan(n, n - 1))
    ensures forall c: Cell :: c in Scan(n, n - 1) <==> InGrid(n, c) && c.x != 6
  {
    ScanVisits(n, n - 1);
  }

  /** The right column of pair p, counted from the right; past the timing pattern, pairs lie one column to the left. */
  function RightColumn(right: int, p: nat): int {
    if right <= 5 || right - 2 * p > 6 then right - 2 * p else right - 1 - 2 * p
  }

  lemma Appended(a: seq<Cell>, b: seq<Cell>, k: nat)
    ensures k < |a| ==> (a + b)[k] == a[k]
    ensures k < |b| ==> (a + b)[|a| + k] == b[k]
  {
  }

  lemma RightColumnNext(right: int, p: nat)
    requires p > 0 && 1 <= RightColumn(right, p) && (right % 2 == 1 ==> right <= 5)
    ensures var r := if right == 6 then 5 else right; r >= 1 && RightColumn(right, p) == RightColumn(r - 2, p - 1)
  {
  }

  /** Where step t of pair p comes in the scan. */
  function StepOf(n: nat, p: nat, t: nat): nat { if p == 0 then t else 2 * n + StepOf(n, p - 1, t) }

  lemma {:induction false} StepOfIs(n: nat, p: nat, t: nat)
    ensures StepOf(n, p, t) == p * (2 * n) + t
  {
    if p == 0 {
    } else {
      StepOfIs(n, p - 1, t);
      assert p * (2 * n) == (p - 1) * (2 * n) + 2 * n;
    }
  }

  lemma {:induction false} ScanFrom(n: nat, right: int, p: nat, t: nat)
    requires 1 <= RightColumn(right, p) && 1 <= right < n && t < 2 * n && (right % 2 == 1 ==> right <= 5)
    ensures StepOf(n, p, t) < |Scan(n, right)| && RightColumn(right, p) < n
    ensures Scan(n, right)[StepOf(n, p, t)] == PairCell(n, RightColumn(right, p), t)
    decreases p
  {
    hide Scan, PairCell;
    var r := if right == 6 then 5 else right;
    ScanStep(n, right);
    if p == 0 {
      Appended(PairCells(n, r), Scan(n, r - 2), t);
    } else {
      RightColumnNext(right, p);
      ScanFrom(n, r - 2, p - 1, t);
      Appended(PairCells(n, r), Scan(n, r - 2), StepOf(n, p - 1, t));
    }
  }

  lemma TurnsEachPair(n: nat, p: nat)
    requires n >= 21 && n % 4 == 1 && p < (n - 1) / 2
    ensures RightColumn(n - 1, p) >= 1 && (Upward(RightColumn(n - 1, p)) <==> p % 2 == 0)
  {
  }

  lemma OrderedStep(n: nat, p: nat, t: nat, j: nat)
    requires n >= 21 && n % 4 == 1 && p < (n - 1) / 2 && t < n && j < 2
    ensures StepOf(n, p, 2 * t + j) < |Scan(n, n - 1)| && RightColumn(n - 1, p) >= 1
    ensures Scan(n, n - 1)[StepOf(n, p, 2 * t + j)]
         == Cell(RightColumn(n - 1, p) - j, if p % 2 == 0 then n - 1 - t else t)
  {
    hide Scan, StepOf, Upward, RightColumn;
    TurnsEachPair(n, p);
    ScanFrom(n, n - 1, p, 2 * t + j);
    assert (2 * t + j) % 2 == j && (2 * t + j) / 2 == t;
  }

  /**
   The scan takes the columns in pairs from the right, the first pair upwards, and turns after each pair; in each row
   the right cell comes first. Step k is step 2 t + j of pair p.
   */
  lemma ScanOrder(n: nat, p: nat, t: nat, j: nat, k: nat)
    requires n >= 21 && n % 4 == 1 && p < (n - 1) / 2 && t < n && j < 2 && k == p * (2 * n) + 2 * t + j
    ensures var x := if n - 1 - 2 * p > 6 then n - 1 - 2 * p else n - 2 - 2 * p;
            var y := if p % 2 == 0 then n - 1 - t else t;
            x >= 1 && k < |Scan(n, n - 1)| && Scan(n, n - 1)[k] == Cell(x - j, y)
  {
    hide Scan, StepOf;
    OrderedStep(n, p, t, j);
    StepOfIs(n, p, 2 * t + j);
  }

  lemma ScanDistinct(n: nat)
    requires n >= 7 && n % 2 == 1
    ensures Distinct(Scan(n, n - 1))
  {
    ScanIsBijection(n);
  }

  // ----- the cells that receive bits -----

  /** The cells outside the function modules, in the order given. */
  ghost function Light(func: set<Cell>, cells: seq<Cell>): (light: seq<Cell>)
    ensures forall c :: c in light <==> c in cells && c !in func
  {
    if cells == [] then []
    else
      var c := cells[|cells| - 1];
      var m := Light(func, cells[..|cells| - 1]);
      if c in func then m else m + [c]
  }

  lemma {:induction false} LightDistinct(func: set<Cell>, cells: seq<Cell>)
    requires Distinct(cells)
    ensures Distinct(Light(func, cells))
  {
    if cells == [] {
    } else {
      LightDistinct(func, cells[..|cells| - 1]);
    }
  }

  /** The cells blackened when the bits are written to the given cells, as far as both go. */
  ghost function Drawn(light: seq<Cell>, bits: seq<bool>): set<Cell> {
    set k | 0 <= k < |light| && k < |bits| && bits[k] :: light[k]
  }

  lemma DrawnSnoc(light: seq<Cell>, c: Cell, bits: seq<bool>)
    ensures Drawn(light + [c], bits) == Drawn(light, bits) + if |light| < |bits| && bits[|light|] then {c} else {}
  {
    var a, b := Drawn(light, bits), Drawn(light + [c], bits);
    forall d | d in a ensures d in b {
      var k :| 0 <= k < |light| && k < |bits| && bits[k] && light[k] == d;
      assert (light + [c])[k] == d;
    }
    if |light| < |bits| && bits[|light|] {
      assert (light + [c])[|light|] == c;
    }
  }

  /** After the cells in "seen", the first i bits are in place. */
  ghost predicate Progress(q: seq<byte>, n: nat, func: set<Cell>, seen: seq<Cell>, bits: seq<bool>, i: nat) {
    && HoldsGrid(q, n)
    && Black(q, n) == func + Drawn(Light(func, seen), bits)
    && i == Min(|Light(func, seen)|, |bits|)
  }

  lemma ProgressHolds(q: seq<byte>, n: nat, func: set<Cell>, seen: seq<Cell>, bits: seq<bool>, i: nat)
    requires Progress(q, n, func, seen, bits, i)
    ensures HoldsGrid(q, n)
  {
  }

  /** One step of the source's innermost loop. */
  method VisitCell(data: array<byte>, dataLen: nat, q: array<byte>, x: nat, y: nat, i: nat,
                   ghost n: nat, ghost func: set<Cell>, ghost seen: seq<Cell>) returns (next: nat)
    requires InGrid(n, Cell(x, y)) && data != q && dataLen <= data.Length && Cell(x, y) !in seen
    requires Progress(q[..], n, func, seen, BytesToBits(data[..dataLen]), i)
    modifies q
    ensures Progress(q[..], n, func, seen + [Cell(x, y)], BytesToBits(data[..dataLen]), next)
  {
    ghost var c, bits, light := Cell(x, y), BytesToBits(data[..dataLen]), Light(func, seen);
    assert (seen + [c])[..|seen|] == seen;
    DrawnSnoc(light, c, bits);
    next := i;
    var b := GetModule(q, x, y, n);
    if !b && i < dataLen * 8 {
      assert bits[i] == BitOf(data[i / 8], 7 - i % 8);
      var black := BitOf(data[i / 8], 7 - i % 8);
      SetModule(q, x, y, black, n);
      next := i + 1;
    }
  }

  lemma PairCellAt(n: nat, right: nat, vert: nat, j: nat)
    requires 1 <= right < n && vert < n && j < 2
    ensures PairCells(n, right)[2 * vert + j] == Cell(right - j, if (right + 1) / 2 % 2
        == 0 then n - 1 - vert else vert)
  {
  }

  /** The source's innermost loop: the two cells of one row. */
  method DrawRow(data: array<byte>, dataLen: nat, q: array<byte>, right: nat, vert: nat, i: nat,
                 ghost n: nat, ghost func: set<Cell>, ghost seen: seq<Cell>) returns (next: nat)
    requires 1 <= right < n && vert < n && data != q && dataLen <= data.Length
    requires Distinct(seen + PairCells(n, right))
    requires Progress(q[..], n, func, Upto(seen, PairCells(n, right), 2 * vert), BytesToBits(data[..dataLen]), i)
    modifies q
    ensures Progress(q[..], n, func, Upto(seen, PairCells(n, right), 2 * (vert + 1)), BytesToBits(data[..dataLen]),
        next)
  {
    hide Progress, BytesToBits, Distinct, PairCells, PairCell, Upto;
    ghost var p := PairCells(n, right);
    ProgressHolds(q[..], n, func, Upto(seen, p, 2 * vert), BytesToBits(data[..dataLen]), i);
    var qrsize := GetSize(q, n);
    next := i;
    for j := 0 to 2
      invariant Progress(q[..], n, func, Upto(seen, p, 2 * vert + j), BytesToBits(data[..dataLen]), next)
    {
      var x := right - j;
      var upward := (right + 1) / 2 % 2 == 0;
      var y := if upward then qrsize - 1 - vert else vert;
      PairCellAt(n, right, vert, j);
      NextCell(seen, p, 2 * vert + j);
      next := VisitCell(data, dataLen, q, x, y, next, n, func, Upto(seen, p, 2 * vert + j));
    }
  }

  /** The source's middle loop: one pair of columns. */
  method DrawPair(data: array<byte>, dataLen: nat, q: array<byte>, right: nat, i: nat,
                  ghost n: nat, ghost func: set<Cell>, ghost seen: seq<Cell>) returns (next: nat)
    requires 1 <= right < n && data != q && dataLen <= data.Length
    requires Distinct(seen + PairCells(n, right))
    requires Progress(q[..], n, func, seen, BytesToBits(data[..dataLen]), i)
    modifies q
    ensures Progress(q[..], n, func, seen + PairCells(n, right), BytesToBits(data[..dataLen]), next)
  {
    hide Progress, BytesToBits, Distinct, PairCells, PairCell, Upto;
    ProgressHolds(q[..], n, func, seen, BytesToBits(data[..dataLen]), i);
    var qrsize := GetSize(q, n);
    ghost var p := PairCells(n, right);
    UptoEnds(seen, p);
    next := i;
    for vert := 0 to qrsize
      invariant Progress(q[..], n, func, Upto(seen, p, 2 * vert), BytesToBits(data[..dataLen]), next)
    {
      next := DrawRow(data, dataLen, q, right, vert, next, n, func, seen);
    }
  }

  /** What has been seen after t cells of a pair of columns. */
  ghost function Upto(seen: seq<Cell>, p: seq<Cell>, t: nat): seq<Cell>
    requires t <= |p|
  {
    seen + p[..t]
  }

  lemma UptoEnds(seen: seq<Cell>, p: seq<Cell>)
    ensures Upto(seen, p, 0) == seen && Upto(seen, p, |p|) == seen + p
  {
    assert seen + p[..0] == seen;
    assert p[..|p|] == p;
  }

  lemma NextCell(seen: seq<Cell>, p: seq<Cell>, t: nat)
    requires Distinct(seen + p) && t < |p|
    ensures p[t] !in Upto(seen, p, t) && Upto(seen, p, t) + [p[t]] == Upto(seen, p, t + 1)
  {
    var s := seen + p;
    assert s[|seen| + t] == p[t];
    forall k | 0 <= k < |seen| + t ensures Upto(seen, p, t)[k] != p[t] { assert Upto(seen, p, t)[k] == s[k]; }
  }

  lemma ProgressStart(q: seq<byte>, n: nat, bits: seq<bool>)
    requires HoldsGrid(q, n)
    ensures Progress(q, n, Black(q, n), [], bits, 0)
  {
  }

  /** The bits are written to the light cells in the order of the scan; nothing else changes. */
  method DrawCodewords(data: array<byte>, dataLen: nat, q: array<byte>, ghost n: nat)
    requires HoldsGrid(q[..], n) && n >= 7 && n % 2 == 1 && data != q && dataLen <= data.Length
    requires 8 * dataLen <= |Light(Black(q[..], n), Scan(n, n - 1))|
    modifies q
    ensures HoldsGrid(q[..], n)
    ensures var func := old(Black(q[..], n));
            Black(q[..], n) == func + Drawn(Light(func, Scan(n, n - 1)), BytesToBits(data[..dataLen]))
  {
    var qrsize := GetSize(q, n);
    ghost var func, bits := Black(q[..], n), BytesToBits(data[..dataLen]);
    ScanDistinct(n);
    hide Scan, Distinct;
    ProgressStart(q[..], n, bits);
    var i := DrawPairs(data, dataLen, q, qrsize, func);
    assert i == dataLen * 8;
  }

  /** The source's outer loop. */
  method DrawPairs(data: array<byte>, dataLen: nat, q: array<byte>, qrsize: nat, ghost func: set<Cell>) returns (i: nat)
    requires qrsize >= 7 && qrsize % 2 == 1 && data != q && dataLen <= data.Length
    requires Distinct(Scan(qrsize, qrsize - 1))
    requires Progress(q[..], qrsize, func, [], BytesToBits(data[..dataLen]), 0)
    modifies q
    ensures Progress(q[..], qrsize, func, Scan(qrsize, qrsize - 1), BytesToBits(data[..dataLen]), i)
  {
    hide Progress, BytesToBits, PairCells, Scan, Distinct;
    ghost var bits := BytesToBits(data[..dataLen]);
    ghost var scan, seen: seq<Cell> := Scan(qrsize, qrsize - 1), [];
    i := 0;
    var right := qrsize - 1;
    while right >= 1
      invariant -1 <= right < qrsize && (right % 2 == 1 ==> right <= 5)
      invariant seen + Scan(qrsize, right) == scan
      invariant Progress(q[..], qrsize, func, seen, bits, i)
      decreases right
    {
      ghost var rest := Scan(qrsize, right);
      ScanStep(qrsize, right);
      if right == 6 {
        right := 5;
      }
      ghost var p := PairCells(qrsize, right);
      assert seen + p + Scan(qrsize, right - 2) == scan;
      DistinctPrefix(seen + p, Scan(qrsize, right - 2));
      i := DrawPair(data, dataLen, q, right, i, qrsize, func, seen);
      seen := seen + p;
      right := right - 2;
    }
    ScanEnd(qrsize, right);
    assert seen == scan;
  }

  lemma ScanStep(n: nat, right: nat)
    requires 1 <= right < n
    ensures var r := if right == 6 then 5 else right; Scan(n, right) == PairCells(n, r) + Scan(n, r - 2)
  {
  }

  lemma ScanEnd(n: nat, right: int)
    requires right < 1 && right < n
    ensures Scan(n, right) == []
  {
  }

  // ----- reading back -----

  ghost function ReadCells(black: set<Cell>, cells: seq<Cell>): (bits: seq<bool>)
    ensures |bits| == |cells|
  {
    seq(|cells|, k requires 0 <= k < |cells| => cells[k] in black)
  }

  /** Reading the light cells in the same order gives the bits that were written. */
  lemma ReadDrawn(func: set<Cell>, light: seq<Cell>, bits: seq<bool>)
    requires Distinct(light) && (forall c | c in light :: c !in func) && |bits| <= |light|
    ensures ReadCells(func + Drawn(light, bits), light)[..|bits|] == bits
  {
    var r := ReadCells(func + Drawn(light, bits), light);
    forall k | 0 <= k < |bits| ensures r[k] == bits[k] {
      assert light[k] in light;
    }
  }
}
