/** Bytes and their bits. */
module Bytes {
  type byte = bv8

  /** The byte whose only set bit is bit i. */
  function One(i: nat): byte
    requires i < 8
  {
    if i == 0 then 1 else if i == 1 then 2 else if i == 2 then 4 else if i == 3 then 8
    else if i == 4 then 16 else if i == 5 then 32 else if i == 6 then 64 else 128
  }

  /** Bit i, counted from the least significant. */
  predicate BitOf(y: byte, i: nat)
    requires i < 8
  {
    y & One(i) != 0
  }

  /** The bits of a byte, most significant first. */
  function Bits(y: byte): (bits: seq<bool>)
    ensures |bits| == 8
    ensures forall i {:trigger bits[i]} | 0 <= i < 8 :: bits[i] == BitOf(y, 7 - i)
  {
    seq(8, i requires 0 <= i < 8 => BitOf(y, 7 - i))
  }

  /** The source writes a bit test as a shift followed by `& 1`. */
  lemma ShiftIsBit(y: byte, i: nat)
    requires i < 8
    ensures (y >> i) & 1 == if BitOf(y, i) then 1 else 0
  {
    if i == 0 {} else if i == 1 {} else if i == 2 {} else if i == 3 {}
    else if i == 4 {} else if i == 5 {} else if i == 6 {} else { assert i == 7; }
  }

  lemma AndXor(a: byte, b: byte, m: byte)
    ensures (a ^ b) & m == (a & m) ^ (b & m)
  {
  }

  lemma OneBit(a: byte, i: nat)
    requires i < 8
    ensures a & One(i) == 0 || a & One(i) == One(i)
  {
    if i == 0 {} else if i == 1 {} else if i == 2 {} else if i == 3 {}
    else if i == 4 {} else if i == 5 {} else if i == 6 {} else { assert i == 7; }
  }

  lemma BitXor(a: byte, b: byte, i: nat)
    requires i < 8
    ensures BitOf(a ^ b, i) == (BitOf(a, i) != BitOf(b, i))
  {
    AndXor(a, b, One(i));
    OneBit(a, i);
    OneBit(b, i);
  }

  function Pack(a: bool, b: bool, c: bool, d: bool, e: bool, f: bool, g: bool, h: bool): byte {
    (if a then 0x80 else 0) | (if b then 0x40 else 0) | (if c then 0x20 else 0) | (if d then 0x10 else 0) |
    (if e then 0x08 else 0) | (if f then 0x04 else 0) | (if g then 0x02 else 0) | (if h then 0x01 else 0)
  }

  /** The byte with the given bits, most significant first. */
  function PackByte(bits: seq<bool>): byte
    requires |bits| == 8
  {
    Pack(bits[0], bits[1], bits[2], bits[3], bits[4], bits[5], bits[6], bits[7])
  }

  lemma PackBits(x: byte)
    ensures PackByte(Bits(x)) == x
  {
    OneBit(x, 0); OneBit(x, 1); OneBit(x, 2); OneBit(x, 3); OneBit(x, 4); OneBit(x, 5); OneBit(x, 6); OneBit(x, 7);
    SumOfBits(x);
  }

  lemma SumOfBits(x: byte)
    ensures (x & 0x80) | (x & 0x40) | (x & 0x20) | (x & 0x10) | (x & 0x08) | (x & 0x04) | (x & 0x02) | (x & 0x01) == x
  {
  }

  lemma PackedBits(a: bool, b: bool, c: bool, d: bool, e: bool, f: bool, g: bool, h: bool)
    ensures var x := Pack(a, b, c, d, e, f, g, h);
            && (x & 0x80 != 0) == a && (x & 0x40 != 0) == b && (x & 0x20 != 0) == c && (x & 0x10 != 0) == d
            && (x & 0x08 != 0) == e && (x & 0x04 != 0) == f && (x & 0x02 != 0) == g && (x & 0x01 != 0) == h
  {
  }

  lemma BitMasks(x: byte)
    ensures BitOf(x, 7) == (x & 0x80 != 0) && BitOf(x, 6) == (x & 0x40 != 0)
    ensures BitOf(x, 5) == (x & 0x20 != 0) && BitOf(x, 4) == (x & 0x10 != 0)
    ensures BitOf(x, 3) == (x & 0x08 != 0) && BitOf(x, 2) == (x & 0x04 != 0)
    ensures BitOf(x, 1) == (x & 0x02 != 0) && BitOf(x, 0) == (x & 0x01 != 0)
  {
  }

  lemma BitsOfPacked(bits: seq<bool>)
    requires |bits| == 8
    ensures Bits(PackByte(bits)) == bits
  {
    hide Pack, BitOf, One;
    var x := PackByte(bits);
    PackedBits(bits[0], bits[1], bits[2], bits[3], bits[4], bits[5], bits[6], bits[7]);
    BitMasks(x);
  }

  /** memset(&a[lo], 0, hi - lo). */
  method Clear(a: array<byte>, lo: nat, hi: nat)
    requires lo <= hi <= a.Length
    modifies a
    ensures a[..] == old(a[..lo]) + seq(hi - lo, _ => 0 as byte) + old(a[hi..])
  {
    for k := lo to hi
      invariant forall j | 0 <= j < a.Length :: a[j] == if lo <= j < k then 0 else old(a[j])
    {
      a[k] := 0;
    }
  }
}
