/**
 Interleaving of blocks into the final message sequence: ISO/IEC 18004:2015, section 7.6.
 */
module Interleaving {
  import opened Sequences
  import opened Arithmetic

  // ----- the order prescribed by the standard -----

  /** Codeword j of every block that has one, in the order of the blocks. */
  function Column<T>(blocks: seq<seq<T>>, j: nat): seq<T> {
    if blocks == [] then []
    else
      var last := blocks[|blocks| - 1];
      Column(blocks[..|blocks| - 1], j) + (if j < |last| then [last[j]] else [])
  }

  /** The first m columns, one after the other. */
  function Columns<T>(blocks: seq<seq<T>>, m: nat): seq<T> {
    if m == 0 then [] else Columns(blocks, m - 1) + Column(blocks, m - 1)
  }

  // ----- the layout of the encoder -----

  /** n blocks, of which the first k have s data codewords and the others s + 1; each has ecc more. */
  datatype Layout = Layout(n: nat, s: nat, k: nat, ecc: nat) {
    predicate Valid() { 1 <= k <= n && 1 <= s }

    function Len(i: nat): nat { s + if i < k then 0 else 1 }

    /** Where block i starts in the data. */
    function Start(i: nat): nat { i * s + if i < k then 0 else i - k }

    function DataLen(): nat requires Valid() { s * n + (n - k) }

    function Raw(): nat requires Valid() { DataLen() + ecc * n }

    /** Where codeword j of block i, data first, goes in the sequence. */
    function Pos(i: nat, j: nat): (p: nat)
      requires Valid() && i < n
      ensures j < Len(i) + ecc ==> p < Raw()
    {
      assert j < s ==> j * n + i < s * n by { if j < s { Digits(j, s, n, i); } }
      var e := j - Len(i);
      assert 0 <= e < ecc ==> e * n + i < ecc * n by { if 0 <= e < ecc { Digits(e, ecc, n, i); } }
      if j < s then j * n + i else if j < Len(i) then s * n + (i - k) else DataLen() + e * n + i
    }

    function Owner(p: nat): nat
      requires Valid()
    {
      if p < s * n then p % n
      else if p < DataLen() then k + (p - s * n)
      else (p - DataLen()) % n
    }

    function Offset(p: nat): nat
      requires Valid()
    {
      if p < s * n then p / n
      else if p < DataLen() then s
      else Len((p - DataLen()) % n) + (p - DataLen()) / n
    }
  }

  /** Every codeword has its own place. */
  lemma PosInverse(L: Layout, i: nat, j: nat)
    requires L.Valid() && i < L.n && j < L.Len(i) + L.ecc
    ensures L.Owner(L.Pos(i, j)) == i && L.Offset(L.Pos(i, j)) == j
  {
    if j < L.s {
      Digits(j, L.s, L.n, i);
    } else if j >= L.Len(i) {
      Digits(j - L.Len(i), L.ecc, L.n, i);
    }
  }

  /** Every place of the sequence belongs to a codeword. */
  lemma PosOnto(L: Layout, p: nat)
    requires L.Valid() && p < L.Raw()
    ensures L.Owner(p) < L.n && L.Offset(p) < L.Len(L.Owner(p)) + L.ecc
    ensures L.Pos(L.Owner(p), L.Offset(p)) == p
  {
    if p < L.s * L.n {
      DivBound(p, L.s, L.n);
    } else if p >= L.DataLen() {
      DivBound(p - L.DataLen(), L.ecc, L.n);
    }
  }

  // ----- the layout follows the standard's order -----

  /** Column j skips the first k blocks when they are too short for it. */
  lemma {:induction false} ColumnAt<T>(blocks: seq<seq<T>>, j: nat, k: nat)
    requires forall i | 0 <= i < |blocks| :: |blocks[i]| <= j <==> i < k
    ensures |Column(blocks, j)| == if |blocks| < k then 0 else |blocks| - k
    ensures forall i | k <= i < |blocks| :: Column(blocks, j)[i - k] == blocks[i][j]
  {
    if blocks == [] {
    } else {
      var n := |blocks| - 1;
      var init := blocks[..n];
      ColumnAt(init, j, k);
      forall i | k <= i < |blocks| ensures Column(blocks, j)[i - k] == blocks[i][j] {
        if i < n { assert Column(init, j)[i - k] == init[i][j]; }
      }
    }
  }

  lemma OneMore(m: nat, n: nat)
    requires m > 0
    ensures m * n == (m - 1) * n + n
  {
  }

  lemma ColumnSize<T>(blocks: seq<seq<T>>, j: nat)
    requires forall b | b in blocks :: |b| > j
    ensures |Column(blocks, j)| == |blocks|
  {
    ColumnAt(blocks, j, 0);
  }

  lemma ColumnsGrow<T>(blocks: seq<seq<T>>, m: nat)
    requires m > 0 && forall b | b in blocks :: |b| >= m
    ensures |Columns(blocks, m)| == |Columns(blocks, m - 1)| + |blocks|
  {
    hide Column;
    ColumnSize(blocks, m - 1);
  }

  lemma Appended<T>(before: seq<T>, more: seq<T>, i: nat)
    requires i < |more|
    ensures (before + more)[|before| + i] == more[i]
  {
  }

  lemma {:induction false} ColumnsSize<T>(blocks: seq<seq<T>>, m: nat)
    requires forall b | b in blocks :: |b| >= m
    ensures |Columns(blocks, m)| == m * |blocks|
  {
    if m == 0 {
    } else {
      hide Column, Columns;
      ColumnsGrow(blocks, m);
      ColumnsSize(blocks, m - 1);
      OneMore(m, |blocks|);
    }
  }

  lemma {:induction false} ColumnsAt<T>(blocks: seq<seq<T>>, m: nat, i: nat, j: nat, p: nat)
    requires forall b | b in blocks :: |b| >= m
    requires i < |blocks| && j < m && p == j * |blocks| + i
    ensures p < |Columns(blocks, m)| && Columns(blocks, m)[p] == blocks[i][j]
  {
    hide Column;
    if j < m - 1 {
      ColumnsAt(blocks, m - 1, i, j, p);
    } else {
      ColumnsSize(blocks, m - 1);
      ColumnAt(blocks, m - 1, 0);
      assert Column(blocks, m - 1)[i - 0] == blocks[i][m - 1];
      Appended(Columns(blocks, m - 1), Column(blocks, m - 1), i);
    }
  }

  predicate BlocksShaped<T>(L: Layout, data: seq<seq<T>>, ecc: seq<seq<T>>) {
    && L.Valid() && |data| == |ecc| == L.n
    && forall i | 0 <= i < L.n :: |data[i]| == L.Len(i) && |ecc[i]| == L.ecc
  }

  /** The final message sequence: the data codewords column by column, then the error correction codewords. */
  function Message<T>(L: Layout, data: seq<seq<T>>, ecc: seq<seq<T>>): seq<T> {
    Columns(data, L.s + 1) + Columns(ecc, L.ecc)
  }

  lemma MessageSize<T>(L: Layout, data: seq<seq<T>>, ecc: seq<seq<T>>)
    requires BlocksShaped(L, data, ecc)
    ensures |Columns(data, L.s)| == L.s * L.n && |Columns(data, L.s + 1)| == L.DataLen()
    ensures |Message(L, data, ecc)| == L.Raw()
  {
    ColumnsSize(data, L.s);
    ColumnAt(data, L.s, L.k);
    ColumnsSize(ecc, L.ecc);
  }

  lemma DataAt<T>(L: Layout, data: seq<seq<T>>, i: nat, j: nat)
    requires L.Valid() && |data| == L.n && forall b | 0 <= b < L.n :: |data[b]| == L.Len(b)
    requires i < L.n && j < L.Len(i)
    ensures L.Pos(i, j) < |Columns(data, L.s + 1)| && Columns(data, L.s + 1)[L.Pos(i, j)] == data[i][j]
  {
    ColumnsSize(data, L.s);
    if j < L.s {
      ColumnsAt(data, L.s, i, j, L.Pos(i, j));
    } else {
      ColumnAt(data, L.s, L.k);
    }
  }

  lemma EccAt<T>(L: Layout, ecc: seq<seq<T>>, i: nat, e: nat, p: nat)
    requires |ecc| == L.n && forall b | 0 <= b < L.n :: |ecc[b]| == L.ecc
    requires i < L.n && e < L.ecc && p == e * L.n + i
    ensures p < |Columns(ecc, L.ecc)| && Columns(ecc, L.ecc)[p] == ecc[i][e]
  {
    ColumnsAt(ecc, L.ecc, i, e, p);
  }

  /** Codeword j of block i stands at Pos(i, j). */
  lemma MessageAt<T>(L: Layout, data: seq<seq<T>>, ecc: seq<seq<T>>, i: nat, j: nat)
    requires BlocksShaped(L, data, ecc) && i < L.n && j < L.Len(i) + L.ecc
    ensures |Message(L, data, ecc)| == L.Raw() && L.Pos(i, j) < L.Raw()
    ensures Message(L, data, ecc)[L.Pos(i, j)] == (data[i] + ecc[i])[j]
  {
    hide Columns;
    MessageSize(L, data, ecc);
    if j < L.Len(i) {
      DataAt(L, data, i, j);
    } else {
      var e := j - L.Len(i);
      var p: nat := e * L.n + i;
      EccAt(L, ecc, i, e, p);
      assert Message(L, data, ecc)[L.DataLen() + p] == Columns(ecc, L.ecc)[p];
    }
  }

  /** What a reader collects for block i. */
  function Deinterleave<T>(L: Layout, msg: seq<T>, i: nat): (block: seq<T>)
    requires L.Valid() && |msg| == L.Raw() && i < L.n
    ensures |block| == L.Len(i) + L.ecc
  {
    seq(L.Len(i) + L.ecc, j requires 0 <= j < L.Len(i) + L.ecc => msg[L.Pos(i, j)])
  }

  /** Reading the message back gives every block and its error correction codewords. */
  lemma DeinterleaveMessage<T>(L: Layout, data: seq<seq<T>>, ecc: seq<seq<T>>, i: nat)
    requires BlocksShaped(L, data, ecc) && i < L.n
    ensures |Message(L, data, ecc)| == L.Raw()
    ensures Deinterleave(L, Message(L, data, ecc), i) == data[i] + ecc[i]
  {
    MessageSize(L, data, ecc);
    forall j | 0 <= j < L.Len(i) + L.ecc
      ensures Deinterleave(L, Message(L, data, ecc), i)[j] == (data[i] + ecc[i])[j]
    {
      MessageAt(L, data, ecc, i, j);
    }
  }

  // ----- the blocks tile the data -----

  lemma StartNext(L: Layout, i: nat)
    requires L.Valid()
    ensures L.Start(i + 1) == L.Start(i) + L.Len(i)
    ensures L.Start(0) == 0 && L.Start(L.n) == L.DataLen()
  {
    assert (i + 1) * L.s == i * L.s + L.s;
  }

  lemma {:induction false} StartMonotone(L: Layout, i: nat, j: nat)
    requires L.Valid() && i <= j
    ensures L.Start(i) <= L.Start(j)
    decreases j
  {
    if i >= j {
    } else {
      StartMonotone(L, i, j - 1);
      StartNext(L, j - 1);
    }
  }

  function Block<T>(L: Layout, data: seq<T>, i: nat): (block: seq<T>)
    requires L.Valid() && |data| == L.DataLen() && i < L.n
    ensures |block| == L.Len(i)
  {
    StartNext(L, i);
    StartMonotone(L, i + 1, L.n);
    StartNext(L, L.n);
    data[L.Start(i)..L.Start(i) + L.Len(i)]
  }

  function Blocks<T>(L: Layout, data: seq<T>): (blocks: seq<seq<T>>)
    requires L.Valid() && |data| == L.DataLen()
    ensures |blocks| == L.n
  {
    seq(L.n, i requires 0 <= i < L.n => Block(L, data, i))
  }

  /** The blocks are the data, in order and without overlap. */
  lemma {:induction false} BlocksTile<T>(L: Layout, data: seq<T>, m: nat)
    requires L.Valid() && |data| == L.DataLen() && m <= L.n
    ensures L.Start(m) <= |data| && Concat(Blocks(L, data)[..m]) == data[..L.Start(m)]
  {
    StartMonotone(L, m, L.n);
    StartNext(L, L.n);
    if m == 0 {
      StartNext(L, 0);
    } else {
      BlocksTile(L, data, m - 1);
      StartNext(L, m - 1);
      assert Blocks(L, data)[..m][..m - 1] == Blocks(L, data)[..m - 1];
    }
  }
}
