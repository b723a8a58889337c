/**
 The words of the format information: ISO/IEC 18004:2015, Annex C. Their values, and that they differ in so many bits
 that three wrong ones do no harm.
 */
module FormatCode {
  import opened Capacity
  import opened Masking
  import opened FormatInformation

  // ----- the words -----

  /** The remainder after all ten rounds. */
  function Remainder(data: bv16): bv16 {
    var five := DivisionRound(DivisionRound(DivisionRound(DivisionRound(DivisionRound(data)))));
    DivisionRound(DivisionRound(DivisionRound(DivisionRound(DivisionRound(five)))))
  }

  lemma RemainderIs(data: bv16)
    ensures FormatRemainder(data, 10) == Remainder(data)
  {
    hide DivisionRound;
    assert FormatRemainder(data, 1) == DivisionRound(data) && FormatRemainder(data, 0) == data;
    var five := DivisionRound(DivisionRound(DivisionRound(DivisionRound(DivisionRound(data)))));
    assert FormatRemainder(data, 3) == DivisionRound(DivisionRound(FormatRemainder(data, 1)));
    assert FormatRemainder(data, 5) == DivisionRound(DivisionRound(FormatRemainder(data, 3))) == five;
    assert FormatRemainder(data, 7) == DivisionRound(DivisionRound(FormatRemainder(data, 5)));
    assert FormatRemainder(data, 9) == DivisionRound(DivisionRound(FormatRemainder(data, 7)));
  }

  /** The words for the eight masks at each level: Table C.1. */
  const WORDS_LOW: seq<bv16> := [0x77C4, 0x72F3, 0x7DAA, 0x789D, 0x662F, 0x6318, 0x6C41, 0x6976]
  const WORDS_MEDIUM: seq<bv16> := [0x5412, 0x5125, 0x5E7C, 0x5B4B, 0x45F9, 0x40CE, 0x4F97, 0x4AA0]
  const WORDS_QUARTILE: seq<bv16> := [0x355F, 0x3068, 0x3F31, 0x3A06, 0x24B4, 0x2183, 0x2EDA, 0x2BED]
  const WORDS_HIGH: seq<bv16> := [0x1689, 0x13BE, 0x1CE7, 0x19D0, 0x0762, 0x0255, 0x0D0C, 0x083B]

  /** Data and remainder, before the fixed pattern is applied. */
  function Encoded(data: bv16): bv16 { (data << 10) | Remainder(data) }

  lemma EncodedWord(e: Ecc, mask: Mask)
    ensures FormatWord(e, mask) == Encoded(FormatData(e, mask)) ^ 0x5412
  {
    hide FormatData, Remainder, FormatRemainder;
    RemainderIs(FormatData(e, mask));
  }

  /** Every word, by level and mask. */
  lemma FormatWords(mask: Mask)
    ensures FormatWord(LOW, mask) == WORDS_LOW[mask] && FormatWord(MEDIUM, mask) == WORDS_MEDIUM[mask]
    ensures FormatWord(QUARTILE, mask) == WORDS_QUARTILE[mask] && FormatWord(HIGH, mask) == WORDS_HIGH[mask]
  {
    hide FormatWord, FormatRemainder;
    EncodedWord(LOW, mask);
    EncodedWord(MEDIUM, mask);
    EncodedWord(QUARTILE, mask);
    EncodedWord(HIGH, mask);
  }

  // ----- their distance -----

  function One(w: bv16, m: bv16): nat { if w & m != 0 then 1 else 0 }

  /** The number of ones among the fifteen bits of a word. */
  function Ones(w: bv16): nat {
    One(w, 0x1) + One(w, 0x2) + One(w, 0x4) + One(w, 0x8) + One(w, 0x10) + One(w, 0x20) + One(w, 0x40) + One(w, 0x80)
    + One(w, 0x100) + One(w, 0x200) + One(w, 0x400) + One(w, 0x800) + One(w, 0x1000) + One(w, 0x2000) + One(w, 0x4000)
  }

  /** The number of bits in which two words differ. */
  function Differences(a: bv16, b: bv16): nat { Ones(a ^ b) }

  lemma OneTriangle(a: bv16, b: bv16, c: bv16, m: bv16)
    ensures One(a ^ b, m) <= One(a ^ c, m) + One(c ^ b, m)
  {
    assert (a ^ b) & m == ((a ^ c) & m) ^ ((c ^ b) & m);
  }

  lemma Triangle(a: bv16, b: bv16, c: bv16)
    ensures Differences(a, b) <= Differences(a, c) + Differences(c, b)
  {
    hide One;
    OneTriangle(a, b, c, 0x1); OneTriangle(a, b, c, 0x2); OneTriangle(a, b, c, 0x4); OneTriangle(a, b, c, 0x8);
    OneTriangle(a, b, c, 0x10); OneTriangle(a, b, c, 0x20); OneTriangle(a, b, c, 0x40); OneTriangle(a, b, c, 0x80);
    OneTriangle(a, b, c, 0x100); OneTriangle(a, b, c, 0x200); OneTriangle(a, b, c, 0x400);
    OneTriangle(a, b, c, 0x800); OneTriangle(a, b, c, 0x1000); OneTriangle(a, b, c, 0x2000);
    OneTriangle(a, b, c, 0x4000);
  }

  function Xor(a: bv16, b: bv16): bv16 { a ^ b }

  function Shifted(rem: bv16): bv16 { rem << 1 }

  function Divided(rem: bv16): bv16 { (rem << 1) ^ 0x537 }

  predicate High(rem: bv16) { rem & 0x200 != 0 }

  /** A round without the multiplication. */
  lemma RoundIs(rem: bv16)
    requires rem < 1024
    ensures DivisionRound(rem) == if High(rem) then Divided(rem) else Shifted(rem)
  {
    if rem & 0x200 != 0 { assert rem >> 9 == 1; } else { assert rem >> 9 == 0; }
  }

  lemma HighBit(a: bv16, b: bv16)
    ensures High(Xor(a, b)) == (High(a) != High(b))
  {
  }

  lemma NoneDivided(a: bv16, b: bv16)
    ensures Xor(Shifted(a), Shifted(b)) == Shifted(Xor(a, b))
  {
  }

  lemma BothDivided(a: bv16, b: bv16)
    ensures Xor(Divided(a), Divided(b)) == Shifted(Xor(a, b))
  {
  }

  lemma OneDivided(a: bv16, b: bv16)
    ensures Xor(Divided(a), Shifted(b)) == Divided(Xor(a, b))
  {
  }

  lemma XorCommutes(a: bv16, b: bv16)
    ensures Xor(a, b) == Xor(b, a)
  {
  }

  lemma SmallXor(a: bv16, b: bv16, n: bv16)
    requires n == 32 || n == 1024
    requires a < n && b < n
    ensures Xor(a, b) < n && (a != b ==> Xor(a, b) > 0)
  {
  }

  lemma RoundIsLinear(a: bv16, b: bv16)
    requires a < 1024 && b < 1024
    ensures Xor(DivisionRound(a), DivisionRound(b)) == DivisionRound(Xor(a, b))
  {
    hide DivisionRound, Xor, Shifted, Divided, High;
    SmallXor(a, b, 1024);
    RoundIs(a);
    RoundIs(b);
    RoundIs(Xor(a, b));
    HighBit(a, b);
    NoneDivided(a, b);
    BothDivided(a, b);
    OneDivided(a, b);
    OneDivided(b, a);
    XorCommutes(a, b);
    XorCommutes(Shifted(a), Divided(b));
  }

  lemma {:induction false} RemainderIsLinear(a: bv16, b: bv16, k: nat)
    requires a < 32 && b < 32
    ensures Xor(FormatRemainder(a, k), FormatRemainder(b, k)) == FormatRemainder(Xor(a, b), k)
  {
    hide DivisionRound, Xor;
    if k == 0 {
    } else {
      RemainderIsLinear(a, b, k - 1);
      RemainderFits(a, k - 1);
      RemainderFits(b, k - 1);
      RoundIsLinear(FormatRemainder(a, k - 1), FormatRemainder(b, k - 1));
    }
  }

  lemma JoinedIsLinear(a: bv16, b: bv16, r: bv16, s: bv16)
    requires r < 1024 && s < 1024
    ensures ((a << 10) | r) ^ ((b << 10) | s) == ((a ^ b) << 10) | (r ^ s)
  {
  }

  lemma EncodedIsLinear(a: bv16, b: bv16)
    requires a < 32 && b < 32
    ensures Encoded(a) ^ Encoded(b) == Encoded(a ^ b)
  {
    hide Remainder, FormatRemainder;
    RemainderIs(a);
    RemainderIs(b);
    RemainderIs(a ^ b);
    RemainderIsLinear(a, b, 10);
    RemainderFits(a, 10);
    RemainderFits(b, 10);
    JoinedIsLinear(a, b, Remainder(a), Remainder(b));
  }

  /** Data other than zero give words with at least seven ones. */
  lemma Weights(data: bv16)
    requires 0 < data < 32
    ensures Ones(Encoded(data)) >= 7
  {
  }

  lemma SamePattern(x: bv16, y: bv16)
    ensures (x ^ 0x5412) ^ (y ^ 0x5412) == x ^ y
  {
  }

  /** Different levels or masks have words that differ in at least seven of the fifteen bits. */
  lemma FormatDistance(e: Ecc, mask: Mask, e': Ecc, mask': Mask)
    requires e != e' || mask != mask'
    ensures Differences(FormatWord(e, mask), FormatWord(e', mask')) >= 7
  {
    hide FormatData, FormatWord, Remainder, Ones, Encoded;
    var a, b := FormatData(e, mask), FormatData(e', mask');
    WordData(e, mask);
    WordData(e', mask');
    if a == b { FormatDataInjective(e, mask, e', mask'); }
    SmallXor(a, b, 32);
    EncodedIsLinear(a, b);
    Weights(a ^ b);
    EncodedWord(e, mask);
    EncodedWord(e', mask');
    SamePattern(Encoded(a), Encoded(b));
  }

  /** A word of which at most three bits are read wrongly still names one level and one mask. */
  lemma FormatCorrectable(seen: bv16, e: Ecc, mask: Mask, e': Ecc, mask': Mask)
    requires Differences(FormatWord(e, mask), seen) <= 3 && Differences(seen, FormatWord(e', mask')) <= 3
    ensures e == e' && mask == mask'
  {
    hide FormatWord, Differences;
    Triangle(FormatWord(e, mask), FormatWord(e', mask'), seen);
    if e != e' || mask != mask' { FormatDistance(e, mask, e', mask'); }
  }
}
