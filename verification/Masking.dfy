/**
 Data masking and the choice of the mask: ISO/IEC 18004:2015, section 7.8.
 */
module Masking {
  import opened Bytes
  import opened Grid

  type Mask = m: nat | m < 8

  predicate Invert(mask: Mask, x: nat, y: nat) {
    match mask
    case 0 => (x + y) % 2 == 0
    case 1 => y % 2 == 0
    case 2 => x % 3 == 0
    case 3 => (x + y) % 3 == 0
    case 4 => (x / 3 + y / 2) % 2 == 0
    case 5 => x * y % 2 + x * y % 3 == 0
    case 6 => (x * y % 2 + x * y % 3) % 2 == 0
    case _ => ((x + y) % 2 + x * y % 3) % 2 == 0
  }

  // ----- what the eight patterns look like -----

  /** Mask 0 is a chessboard that begins with an inverted module. */
  lemma MaskZero(x: nat, y: nat)
    ensures Invert(0, 0, 0)
    ensures Invert(0, x + 1, y) != Invert(0, x, y) && Invert(0, x, y + 1) != Invert(0, x, y)
  {
  }

  /** Mask 1 inverts every other row, from the first. */
  lemma MaskOne(x: nat, y: nat)
    ensures Invert(1, x, 0) && Invert(1, x, y) == Invert(1, 0, y) && Invert(1, x, y + 1) != Invert(1, x, y)
  {
  }

  /** Mask 2 inverts every third column, from the first. */
  lemma MaskTwo(x: nat, y: nat)
    ensures Invert(2, 0, y) && !Invert(2, 1, y) && !Invert(2, 2, y) && Invert(2, x + 3, y) == Invert(2, x, y)
  {
  }

  /** Mask 3 inverts every third diagonal, from the corner. */
  lemma MaskThree(x: nat, y: nat)
    ensures Invert(3, 0, 0) && !Invert(3, 1, 0) && !Invert(3, 2, 0) && Invert(3, x + 3, 0) == Invert(3, x, 0)
    ensures Invert(3, x, y + 1) == Invert(3, x + 1, y)
  {
  }

  lemma BlockCoordinates(x: nat, y: nat, dx: nat, dy: nat)
    requires dx < 3 && dy < 2
    ensures (3 * x + dx) / 3 == x && (2 * y + dy) / 2 == y
  {
  }

  /** The colour of a field of a chessboard. */
  predicate BlockColor(i: nat, j: nat) { (i + j) % 2 == 0 }

  lemma MaskFourBlock(x: nat, y: nat, dx: nat, dy: nat)
    requires dx < 3 && dy < 2
    ensures Invert(4, 3 * x + dx, 2 * y + dy) == BlockColor(x, y)
  {
    BlockCoordinates(x, y, dx, dy);
  }

  /** Mask 4 is a chessboard of blocks, three modules wide and two high, that begins with an inverted block. */
  lemma MaskFour(x: nat, y: nat, dx: nat, dy: nat)
    requires dx < 3 && dy < 2
    ensures Invert(4, 0, 0) && Invert(4, 3 * x + dx, 2 * y + dy) == Invert(4, 3 * x, 2 * y)
    ensures Invert(4, 3 * x + 3, 2 * y) != Invert(4, 3 * x, 2 * y)
    ensures Invert(4, 3 * x, 2 * y + 2) != Invert(4, 3 * x, 2 * y)
  {
    hide Invert;
    MaskFourBlock(0, 0, 0, 0);
    MaskFourBlock(x, y, dx, dy);
    MaskFourBlock(x, y, 0, 0);
    MaskFourBlock(x + 1, y, 0, 0);
    MaskFourBlock(x, y + 1, 0, 0);
  }

  /** The first six modules of row y under masks 5 to 7; row y + 6 is like row y. */
  function MaskRow(mask: Mask, y: nat): (row: string)
    requires mask >= 5 && y < 6
    ensures |row| == 6
  {
    if mask == 5 then
      if y == 0 then "######" else if y == 3 then "#.#.#." else if y % 2 == 0 then "#..#.." else "#....."
    else if mask == 6 then
      if y == 0 then "######" else if y == 1 then "###..." else if y == 2 then "##.##."
      else if y == 3 then "#.#.#." else if y == 4 then "#.##.#" else "#...##"
    else
      if y == 0 then "#.#.#." else if y == 1 then "...###" else if y == 2 then "#...##"
      else if y == 3 then ".#.#.#" else if y == 4 then "###..." else ".###.."
  }

  lemma Multiples(x: nat, y: nat)
    ensures (x + 6) * y % 2 == x * y % 2 && (x + 6) * y % 3 == x * y % 3
  {
    assert (x + 6) * y == x * y + 6 * y;
  }

  lemma MaskPeriods(mask: Mask, x: nat, y: nat)
    requires mask >= 5
    ensures Invert(mask, x + 6, y) == Invert(mask, x, y)
  {
    Multiples(x, y);
  }

  lemma MaskSymmetric(mask: Mask, x: nat, y: nat)
    requires mask >= 5
    ensures Invert(mask, x, y) == Invert(mask, y, x)
  {
    assert x * y == y * x;
  }

  lemma SmallProduct(x: nat, y: nat)
    requires y < 6
    ensures x * y == if y == 0 then 0 else if y == 1 then x else if y == 2 then 2 * x
      else if y == 3 then 3 * x else if y == 4 then 4 * x else 5 * x
  {
  }

  /** What masks 5 to 7 make of a coordinate sum and a product. */
  predicate Inverted(mask: Mask, sum: nat, p: nat)
    requires mask >= 5
  {
    if mask == 5 then p % 2 + p % 3 == 0 else if mask == 6 then (p % 2 + p % 3) % 2 == 0 else (sum % 2 + p % 3) % 2 == 0
  }

  lemma InvertedProduct(mask: Mask, x: nat, y: nat, p: nat)
    requires mask >= 5 && p == x * y
    ensures Invert(mask, x, y) == Inverted(mask, x + y, p)
  {
  }

  lemma MaskValues(mask: Mask, x: nat, y: nat)
    requires mask >= 5 && x < 6 && y < 6
    ensures Invert(mask, x, y) <==> MaskRow(mask, y)[x] == '#'
  {
    hide Invert;
    SmallProduct(x, y);
    var p := if y == 0 then 0 else if y == 1 then x else if y == 2 then 2 * x
      else if y == 3 then 3 * x else if y == 4 then 4 * x else 5 * x;
    InvertedProduct(mask, x, y, p);
    if x == 0 {} else if x == 1 {} else if x == 2 {} else if x == 3 {} else if x == 4 {} else {}
  }

  /** Masks 5 to 7 are symmetric in x and y, repeat themselves every six modules, and begin with these rows. */
  lemma MaskFiveToSeven(mask: Mask, x: nat, y: nat)
    requires mask >= 5
    ensures Invert(mask, x + 6, y) == Invert(mask, x, y) == Invert(mask, y, x)
    ensures x < 6 && y < 6 ==> (Invert(mask, x, y) <==> MaskRow(mask, y)[x] == '#')
  {
    hide Invert, MaskRow;
    MaskPeriods(mask, x, y);
    MaskSymmetric(mask, x, y);
    if x < 6 && y < 6 { MaskValues(mask, x, y); }
  }

  // ----- masked symbols -----

  /** The symbol with the mask applied outside the function modules. */
  ghost function Masked(black: set<Cell>, func: set<Cell>, n: nat, mask: Mask): set<Cell> {
    set c | c in Cells(n) && ((c in black) != (c !in func && Invert(mask, c.x, c.y)))
  }

  lemma MaskTwice(black: set<Cell>, func: set<Cell>, n: nat, mask: Mask)
    requires black <= Cells(n)
    ensures Masked(Masked(black, func, n, mask), func, n, mask) == black
  {
  }

  predicate Before(c: Cell, x: nat, y: nat) { c.y < y || (c.y == y && c.x < x) }

  /** The cells before (x, y) are masked, the others not yet. */
  ghost predicate PartlyMasked(now: set<Cell>, was: set<Cell>, func: set<Cell>, n: nat, mask: Mask, x: nat, y: nat) {
    && now <= Cells(n)
    && forall c {:trigger c in now} | c in Cells(n) ::
         c in now <==> (c in was) != (c !in func && Invert(mask, c.x, c.y) && Before(c, x, y))
  }

  method ApplyMask(functionModules: array<byte>, q: array<byte>, mask: Mask, ghost n: nat)
    requires functionModules != q && HoldsGrid(functionModules[..], n) && HoldsGrid(q[..], n)
    modifies q
    ensures HoldsGrid(q[..], n)
    ensures Black(q[..], n) == Masked(old(Black(q[..], n)), Black(functionModules[..], n), n, mask)
  {
    hide Invert, BitAt, CellIndex;
    ghost var func, was := Black(functionModules[..], n), Black(q[..], n);
    var qrsize := GetSize(q, n);
    for y := 0 to qrsize
      invariant HoldsGrid(q[..], n) && HoldsGrid(functionModules[..], n) && Black(functionModules[..], n) == func
      invariant PartlyMasked(Black(q[..], n), was, func, n, mask, 0, y)
    {
      for x := 0 to qrsize
        invariant HoldsGrid(q[..], n) && HoldsGrid(functionModules[..], n) && Black(functionModules[..], n) == func
        invariant PartlyMasked(Black(q[..], n), was, func, n, mask, x, y)
      {
        var f := GetModule(functionModules, x, y, n);
        if !f {
          var invert := Invert(mask, x, y);
          var val := GetModule(q, x, y, n);
          SetModule(q, x, y, val != invert, n);
        }
      }
    }
  }
}
