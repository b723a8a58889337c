/**
 The words of the version information: ISO/IEC 18004:2015, Annex D. Their values, and that they differ in so many bits
 that three wrong ones do no harm.
 */
module VersionCode {
  import opened Capacity
  import opened FunctionPatterns

  // ----- the words -----

  /** The remainder after all twelve rounds. */
  function Remainder(data: bv32): bv32 {
    var six := VersionRound(VersionRound(VersionRound(VersionRound(VersionRound(VersionRound(data))))));
    VersionRound(VersionRound(VersionRound(VersionRound(VersionRound(VersionRound(six))))))
  }

  lemma RemainderIs(data: bv32)
    ensures VersionRemainder(data, 12) == Remainder(data)
  {
    hide VersionRound;
    assert VersionRemainder(data, 0) == data && VersionRemainder(data, 1) == VersionRound(data);
    assert VersionRemainder(data, 2) == VersionRound(VersionRound(data));
    assert VersionRemainder(data, 4) == VersionRound(VersionRound(VersionRemainder(data, 2)));
    var six := VersionRound(VersionRound(VersionRound(VersionRound(VersionRound(VersionRound(data))))));
    assert VersionRemainder(data, 6) == VersionRound(VersionRound(VersionRemainder(data, 4))) == six;
    assert VersionRemainder(data, 8) == VersionRound(VersionRound(VersionRemainder(data, 6)));
    assert VersionRemainder(data, 10) == VersionRound(VersionRound(VersionRemainder(data, 8)));
  }

  function Encoded(data: bv32): bv32 { Joined(data, Remainder(data)) }

  lemma EncodedWord(v: Version)
    ensures VersionWord(v) == Encoded(VersionBits(v))
  {
    hide VersionBits, Remainder, VersionRemainder;
    RemainderIs(VersionBits(v));
  }

  lemma SixBitsAre(f: bool, e: bool, d: bool, c: bool, b: bool, a: bool)
    ensures var x := SixBits(f, e, d, c, b, a);
            && x < 64 && (x & 32 != 0) == f && (x & 16 != 0) == e && (x & 8 != 0) == d
            && (x & 4 != 0) == c && (x & 2 != 0) == b && (x & 1 != 0) == a
  {
  }

  /** The data bits of a word are the binary digits of the version. */
  lemma BitsOfVersion(v: Version)
    ensures var x := VersionBits(v);
            && x < 64 && (x & 32 != 0) == (v / 32 % 2 == 1) && (x & 16 != 0) == (v / 16 % 2 == 1)
            && (x & 8 != 0) == (v / 8 % 2 == 1) && (x & 4 != 0) == (v / 4 % 2 == 1)
            && (x & 2 != 0) == (v / 2 % 2 == 1) && (x & 1 != 0) == (v % 2 == 1)
  {
    SixBitsAre(v / 32 % 2 == 1, v / 16 % 2 == 1, v / 8 % 2 == 1, v / 4 % 2 == 1, v / 2 % 2 == 1, v % 2 == 1);
  }

  // The words of versions 7 to 40, by the number of the version: Table D.1.

  lemma Words7To15()
    ensures Encoded(7) == 0x07C94 && Encoded(8) == 0x085BC && Encoded(9) == 0x09A99 && Encoded(10) == 0x0A4D3
    ensures Encoded(11) == 0x0BBF6 && Encoded(12) == 0x0C762 && Encoded(13) == 0x0D847 && Encoded(14) == 0x0E60D
    ensures Encoded(15) == 0x0F928
  {
  }

  lemma Words16To24()
    ensures Encoded(16) == 0x10B78 && Encoded(17) == 0x1145D && Encoded(18) == 0x12A17 && Encoded(19) == 0x13532
    ensures Encoded(20) == 0x149A6 && Encoded(21) == 0x15683 && Encoded(22) == 0x168C9 && Encoded(23) == 0x177EC
    ensures Encoded(24) == 0x18EC4
  {
  }

  lemma Words25To32()
    ensures Encoded(25) == 0x191E1 && Encoded(26) == 0x1AFAB && Encoded(27) == 0x1B08E && Encoded(28) == 0x1CC1A
    ensures Encoded(29) == 0x1D33F && Encoded(30) == 0x1ED75 && Encoded(31) == 0x1F250 && Encoded(32) == 0x209D5
  {
  }

  lemma Words33To40()
    ensures Encoded(33) == 0x216F0 && Encoded(34) == 0x228BA && Encoded(35) == 0x2379F && Encoded(36) == 0x24B0B
    ensures Encoded(37) == 0x2542E && Encoded(38) == 0x26A64 && Encoded(39) == 0x27541 && Encoded(40) == 0x28C69
  {
  }

  /** The word of version 7, the example of the standard. */
  lemma WordOf7()
    ensures VersionWord(7) == 0x07C94
  {
    hide VersionWord, Encoded;
    Words7To15();
    EncodedWord(7);
  }

  // ----- their distance -----

  function One(w: bv32, m: bv32): nat { if w & m != 0 then 1 else 0 }

  /** The number of ones among the eighteen bits of a word. */
  function Ones(w: bv32): nat {
    One(w, 0x1) + One(w, 0x2) + One(w, 0x4) + One(w, 0x8) + One(w, 0x10) + One(w, 0x20) + One(w, 0x40) + One(w, 0x80)
    + One(w, 0x100) + One(w, 0x200) + One(w, 0x400) + One(w, 0x800) + One(w, 0x1000) + One(w, 0x2000) + One(w, 0x4000)
    + One(w, 0x8000) + One(w, 0x1_0000) + One(w, 0x2_0000)
  }

  /** The number of bits in which two words differ. */
  function Differences(a: bv32, b: bv32): nat { Ones(a ^ b) }

  lemma OneTriangle(a: bv32, b: bv32, c: bv32, m: bv32)
    ensures One(a ^ b, m) <= One(a ^ c, m) + One(c ^ b, m)
  {
    assert (a ^ b) & m == ((a ^ c) & m) ^ ((c ^ b) & m);
  }

  lemma Triangle(a: bv32, b: bv32, c: bv32)
    ensures Differences(a, b) <= Differences(a, c) + Differences(c, b)
  {
    hide One;
    OneTriangle(a, b, c, 0x1); OneTriangle(a, b, c, 0x2); OneTriangle(a, b, c, 0x4); OneTriangle(a, b, c, 0x8);
    OneTriangle(a, b, c, 0x10); OneTriangle(a, b, c, 0x20); OneTriangle(a, b, c, 0x40); OneTriangle(a, b, c, 0x80);
    OneTriangle(a, b, c, 0x100); OneTriangle(a, b, c, 0x200); OneTriangle(a, b, c, 0x400);
    OneTriangle(a, b, c, 0x800); OneTriangle(a, b, c, 0x1000); OneTriangle(a, b, c, 0x2000);
    OneTriangle(a, b, c, 0x4000); OneTriangle(a, b, c, 0x8000); OneTriangle(a, b, c, 0x1_0000);
    OneTriangle(a, b, c, 0x2_0000);
  }

  function Xor(a: bv32, b: bv32): bv32 { a ^ b }

  function Doubled(rem: bv32): bv32 { rem << 1 }

  function Divided(rem: bv32): bv32 { (rem << 1) ^ 0x1F25 }

  predicate High(rem: bv32) { rem & 0x800 != 0 }

  /** A round without the multiplication. */
  lemma RoundIs(rem: bv32)
    requires rem < 4096
    ensures VersionRound(rem) == if High(rem) then Divided(rem) else Doubled(rem)
  {
    if rem & 0x800 != 0 { assert rem >> 11 == 1; } else { assert rem >> 11 == 0; }
  }

  lemma HighBit(a: bv32, b: bv32)
    ensures High(Xor(a, b)) == (High(a) != High(b))
  {
  }

  lemma NoneDivided(a: bv32, b: bv32)
    ensures Xor(Doubled(a), Doubled(b)) == Doubled(Xor(a, b))
  {
  }

  lemma BothDivided(a: bv32, b: bv32)
    ensures Xor(Divided(a), Divided(b)) == Doubled(Xor(a, b))
  {
  }

  lemma OneDivided(a: bv32, b: bv32)
    ensures Xor(Divided(a), Doubled(b)) == Divided(Xor(a, b))
  {
  }

  lemma XorCommutes(a: bv32, b: bv32)
    ensures Xor(a, b) == Xor(b, a)
  {
  }

  lemma SmallXor(a: bv32, b: bv32, n: bv32)
    requires n == 64 || n == 4096
    requires a < n && b < n
    ensures Xor(a, b) < n && (a != b ==> Xor(a, b) > 0)
  {
  }

  lemma RoundIsLinear(a: bv32, b: bv32)
    requires a < 4096 && b < 4096
    ensures Xor(VersionRound(a), VersionRound(b)) == VersionRound(Xor(a, b))
  {
    hide VersionRound, Xor, Doubled, Divided, High;
    SmallXor(a, b, 4096);
    RoundIs(a);
    RoundIs(b);
    RoundIs(Xor(a, b));
    HighBit(a, b);
    NoneDivided(a, b);
    BothDivided(a, b);
    OneDivided(a, b);
    OneDivided(b, a);
    XorCommutes(a, b);
    XorCommutes(Doubled(a), Divided(b));
  }

  lemma {:induction false} RemainderFits(data: bv32, k: nat)
    requires data < 64
    ensures VersionRemainder(data, k) < 4096
  {
    hide VersionRound;
    if k == 0 {
    } else {
      RemainderFits(data, k - 1);
      RoundFits(VersionRemainder(data, k - 1));
    }
  }

  lemma RoundFits(rem: bv32)
    requires rem < 4096
    ensures VersionRound(rem) < 4096
  {
    hide VersionRound;
    RoundIs(rem);
  }

  lemma {:induction false} RemainderIsLinear(a: bv32, b: bv32, k: nat)
    requires a < 64 && b < 64
    ensures Xor(VersionRemainder(a, k), VersionRemainder(b, k)) == VersionRemainder(Xor(a, b), k)
  {
    hide VersionRound, Xor;
    if k == 0 {
    } else {
      RemainderIsLinear(a, b, k - 1);
      RemainderFits(a, k - 1);
      RemainderFits(b, k - 1);
      RoundIsLinear(VersionRemainder(a, k - 1), VersionRemainder(b, k - 1));
    }
  }

  lemma JoinedIsLinear(a: bv32, b: bv32, r: bv32, s: bv32)
    requires r < 4096 && s < 4096
    ensures ((a << 12) | r) ^ ((b << 12) | s) == ((a ^ b) << 12) | (r ^ s)
  {
  }

  lemma EncodedIsLinear(a: bv32, b: bv32)
    requires a < 64 && b < 64
    ensures Differences(Encoded(a), Encoded(b)) == Ones(Encoded(Xor(a, b)))
  {
    hide Remainder, VersionRemainder, Ones;
    RemainderIs(a);
    RemainderIs(b);
    RemainderIs(a ^ b);
    RemainderIsLinear(a, b, 12);
    RemainderFits(a, 12);
    RemainderFits(b, 12);
    JoinedIsLinear(a, b, Remainder(a), Remainder(b));
  }

  lemma WeightsLow(data: bv32)
    requires 0 < data < 32
    ensures Ones(Encoded(data)) >= 8
  {
  }

  lemma WeightsHigh(data: bv32)
    requires 32 <= data < 64
    ensures Ones(Encoded(data)) >= 8
  {
  }

  /** Data other than zero give words with at least eight ones. */
  lemma Weights(data: bv32)
    requires 0 < data < 64
    ensures Ones(Encoded(data)) >= 8
  {
    hide Ones, Encoded;
    if data < 32 { WeightsLow(data); } else { WeightsHigh(data); }
  }

  lemma Halves(v: nat)
    ensures v / 4 == v / 2 / 2 && v / 8 == v / 4 / 2 && v / 16 == v / 8 / 2 && v / 32 == v / 16 / 2
  {
  }

  lemma BinaryDigits(v: nat)
    requires v < 64
    ensures v == 32 * (v / 32 % 2) + 16 * (v / 16 % 2) + 8 * (v / 8 % 2) + 4 * (v / 4 % 2) + 2 * (v / 2 % 2) + v % 2
  {
    Halves(v);
  }

  lemma SameBits(v: Version, w: Version)
    requires v / 32 % 2 == w / 32 % 2 && v / 16 % 2 == w / 16 % 2 && v / 8 % 2 == w / 8 % 2
    requires v / 4 % 2 == w / 4 % 2 && v / 2 % 2 == w / 2 % 2 && v % 2 == w % 2
    ensures v == w
  {
    BinaryDigits(v);
    BinaryDigits(w);
  }

  lemma BitsDiffer(v: Version, w: Version)
    requires v != w
    ensures VersionBits(v) != VersionBits(w) && VersionBits(v) < 64 && VersionBits(w) < 64
  {
    hide VersionBits;
    BitsOfVersion(v);
    BitsOfVersion(w);
    if VersionBits(v) == VersionBits(w) { SameBits(v, w); }
  }

  /** Different versions have words that differ in at least eight of the eighteen bits. */
  lemma VersionDistance(v: Version, w: Version)
    requires v != w
    ensures Differences(VersionWord(v), VersionWord(w)) >= 8
  {
    hide VersionBits, VersionWord, Differences, Xor, Ones, Encoded;
    var a, b := VersionBits(v), VersionBits(w);
    BitsDiffer(v, w);
    SmallXor(a, b, 64);
    EncodedIsLinear(a, b);
    Weights(Xor(a, b));
    EncodedWord(v);
    EncodedWord(w);
  }

  /** A word of which at most three bits are read wrongly still names one version. */
  lemma VersionCorrectable(seen: bv32, v: Version, w: Version)
    requires Differences(VersionWord(v), seen) <= 3 && Differences(seen, VersionWord(w)) <= 3
    ensures v == w
  {
    hide VersionWord, Differences;
    Triangle(VersionWord(v), VersionWord(w), seen);
    if v != w { VersionDistance(v, w); }
  }
}
