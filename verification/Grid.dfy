/**
 The packed grid of modules: byte 0 is the side length, then one bit a module.
 */
module Grid {
  import opened Arithmetic
  import opened Bytes
  import opened BitBuffer

  datatype Cell = Cell(x: nat, y: nat)

  predicate InGrid(n: nat, c: Cell) { c.x < n && c.y < n }

  ghost function Cells(n: nat): (s: set<Cell>)
    ensures forall c {:trigger c in s} :: c in s <==> InGrid(n, c)
  {
    var s := set x: nat, y: nat | x < n && y < n :: Cell(x, y);
    assert forall c: Cell :: c in s <==> InGrid(n, c) by {
      forall c: Cell | InGrid(n, c) ensures c in s { assert c == Cell(c.x, c.y); }
    }
    s
  }

  /** The position of a cell in row-major order. */
  function CellIndex(n: nat, c: Cell): (k: nat)
    requires InGrid(n, c)
    ensures k < n * n
  {
    MulLess(c.y, n, n);
    c.y * n + c.x
  }

  lemma CellIndexInjective(n: nat, c: Cell, d: Cell)
    requires InGrid(n, c) && InGrid(n, d) && CellIndex(n, c) == CellIndex(n, d)
    ensures c == d
  {
    DivModUnique(CellIndex(n, c), n, c.y, c.x);
    DivModUnique(CellIndex(n, d), n, d.y, d.x);
  }

  function BufferLen(n: nat): nat { (n * n + 7) / 8 + 1 }

  /** The side length stored in a symbol. */
  function SizeOf(q: seq<byte>): nat
    requires |q| >= 1
  {
    ValueOf(q[0])
  }

  predicate BitAt(q: seq<byte>, k: nat)
    requires k / 8 + 1 < |q|
  {
    BitOf(q[k / 8 + 1], k % 8)
  }

  predicate HoldsGrid(q: seq<byte>, n: nat) { n >= 1 && BufferLen(n) <= |q| && SizeOf(q) == n }

  /** The black modules. */
  ghost function Black(q: seq<byte>, n: nat): set<Cell>
    requires HoldsGrid(q, n)
  {
    set c | c in Cells(n) && BitAt(q, CellIndex(n, c))
  }

  /** Row by row, from the least significant bit of byte 1 on: two modules of the smallest symbol. */
  lemma StorageExample(q: seq<byte>)
    requires HoldsGrid(q, 21)
    ensures Cell(1, 0) in Black(q, 21) <==> BitOf(q[1], 1)
    ensures Cell(0, 1) in Black(q, 21) <==> BitOf(q[3], 5)
  {
    hide BitOf, SizeOf, HoldsGrid, Black, BitAt, CellIndex, BufferLen;
    BlackAt(q, 21, Cell(1, 0), 1);
    BlackAt(q, 21, Cell(0, 1), 21);
  }

  lemma BlackAt(q: seq<byte>, n: nat, c: Cell, k: nat)
    requires HoldsGrid(q, n) && InGrid(n, c) && k == c.y * n + c.x
    ensures k / 8 + 1 < |q| && (c in Black(q, n) <==> BitOf(q[k / 8 + 1], k % 8))
  {
    hide BitOf;
    assert CellIndex(n, c) == k;
  }

  lemma AndNotBit(x: byte, i: nat, j: nat)
    requires i < 8 && j < 8
    ensures BitOf(x & (One(i) ^ 0xFF), j) == (BitOf(x, j) && i != j)
  {
    assert (x & (One(i) ^ 0xFF)) & One(j) == (x & One(j)) & (One(i) ^ 0xFF);
    OneAndNotOne(i, j);
    OneBit(x, j);
  }

  lemma OneAndNotOne(i: nat, j: nat)
    requires i < 8 && j < 8
    ensures One(j) & (One(i) ^ 0xFF) == if i == j then 0 else One(j)
    ensures 0 & (One(i) ^ 0xFF) == 0 && One(j) != 0
  {
  }

  method GetSize(q: array<byte>, ghost n: nat) returns (qrsize: nat)
    requires HoldsGrid(q[..], n)
    ensures qrsize == n
  {
    qrsize := ValueOf(q[0]);
  }

  method GetModule(q: array<byte>, x: nat, y: nat, ghost n: nat) returns (b: bool)
    requires HoldsGrid(q[..], n) && InGrid(n, Cell(x, y))
    ensures b <==> Cell(x, y) in Black(q[..], n)
  {
    var qrsize := ValueOf(q[0]);
    ghost var c := Cell(x, y);
    assert CellIndex(qrsize, c) < qrsize * qrsize;
    var index := y * qrsize + x;
    b := BitOf(q[index / 8 + 1], index % 8);
  }

  /** Sets or clears bit k after the size byte. */
  method SetBitAt(q: array<byte>, k: nat, b: bool)
    requires k / 8 + 1 < q.Length
    modifies q
    ensures q[0] == old(q[0])
    ensures forall j: nat {:trigger BitAt(q[..], j)} | j / 8 + 1 < q.Length ::
              BitAt(q[..], j) == if j == k then b else BitAt(old(q[..]), j)
  {
    hide BitOf, One;
    var bitIndex := k % 8;
    var byteIndex := k / 8 + 1;
    ghost var was := q[byteIndex];
    if b {
      q[byteIndex] := q[byteIndex] | One(bitIndex);
    } else {
      q[byteIndex] := q[byteIndex] & (One(bitIndex) ^ 0xFF);
    }
    forall j: nat | j / 8 + 1 == byteIndex
      ensures BitAt(q[..], j) == if j == k then b else BitOf(was, j % 8)
    {
      OrBit(was, bitIndex, j % 8);
      AndNotBit(was, bitIndex, j % 8);
    }
  }

  method SetModule(q: array<byte>, x: nat, y: nat, isBlack: bool, ghost n: nat)
    requires HoldsGrid(q[..], n) && InGrid(n, Cell(x, y))
    modifies q
    ensures HoldsGrid(q[..], n)
    ensures Black(q[..], n)
         == if isBlack then old(Black(q[..], n)) + {Cell(x, y)} else old(Black(q[..], n)) - {Cell(x, y)}
  {
    hide BitAt, BitOf, One;
    var qrsize := ValueOf(q[0]);
    ghost var cell := Cell(x, y);
    assert CellIndex(qrsize, cell) < qrsize * qrsize;
    var index := y * qrsize + x;
    SetBitAt(q, index, isBlack);
    forall c | InGrid(qrsize, c) && c != cell ensures CellIndex(qrsize, c) != index {
      if CellIndex(qrsize, c) == index { CellIndexInjective(qrsize, c, cell); }
    }
  }
}
