/**
 Numeric and alphanumeric mode: ISO/IEC 18004:2015, sections 7.4.3 and 7.4.4.
 */
module TextModes {
  import opened Characters
  import opened BitBuffer

  const INT16_MAX := 32767

  // ----- numeric mode -----

  predicate IsNumeric(s: string) { forall c | c in s :: IsDigit(c) }

  /** The decimal value of a string of digits. */
  function DecimalValue(s: string): nat
    requires IsNumeric(s)
  {
    if s == "" then 0 else 10 * DecimalValue(s[..|s| - 1]) + DigitValue(s[|s| - 1])
  }

  /** The n digits of a number. */
  function DecimalDigits(v: nat, n: nat): (s: string)
    ensures |s| == n && IsNumeric(s)
  {
    if n == 0 then "" else DecimalDigits(v / 10, n - 1) + [DigitChar(v % 10)]
  }

  lemma {:induction false} DecimalRoundTrip(s: string)
    requires IsNumeric(s)
    ensures DecimalDigits(DecimalValue(s), |s|) == s
  {
    if s == "" {
    } else {
      var m, c := s[..|s| - 1], s[|s| - 1];
      DecimalRoundTrip(m);
      assert DecimalValue(s) / 10 == DecimalValue(m) && DecimalValue(s) % 10 == DigitValue(c);
      assert s == m + [c];
    }
  }

  lemma {:induction false} DecimalBound(s: string)
    requires IsNumeric(s) && |s| <= 3
    ensures DecimalValue(s) < Pow2(3 * |s| + if |s| == 0 then 0 else 1)
    ensures |s| <= 1 ==> DecimalValue(s) < 10
    ensures |s| <= 2 ==> DecimalValue(s) < 100
    ensures DecimalValue(s) < 1000
  {
    Pow2Values();
    if s == "" {
    } else {
      DecimalBound(s[..|s| - 1]);
    }
  }

  lemma Pow2Values()
    ensures Pow2(0) == 1 && Pow2(4) == 16 && Pow2(6) == 64 && Pow2(7) == 128 && Pow2(8) == 256
    ensures Pow2(10) == 1024 && Pow2(11) == 2048 && Pow2(14) == 16384 && Pow2(16) == 65536
  {
    assert Pow2(1) == 2; assert Pow2(2) == 4; assert Pow2(3) == 8; assert Pow2(5) == 32; assert Pow2(9) == 512;
    assert Pow2(12) == 4096; assert Pow2(13) == 8192; assert Pow2(15) == 32768;
  }

  /** The number of bits for n digits, n at most 3. */
  function GroupBits(n: nat): nat { if n == 0 then 0 else 3 * n + 1 }

  /** Three digits in ten bits; one or two remaining digits in four or seven. */
  function NumericBits(s: string): seq<bool>
    requires IsNumeric(s)
  {
    if |s| <= 3 then ToBits(DecimalValue(s), GroupBits(|s|))
    else ToBits(DecimalValue(s[..3]), 10) + NumericBits(s[3..])
  }

  /** The n digits encoded by the bits. */
  function DecodeNumeric(bits: seq<bool>, n: nat): string {
    if n <= 3 then DecimalDigits(FromBits(bits), n)
    else if |bits| < 10 then ""
    else DecimalDigits(FromBits(bits[..10]), 3) + DecodeNumeric(bits[10..], n - 3)
  }

  lemma {:induction false} NumericRoundTrip(s: string)
    requires IsNumeric(s)
    ensures DecodeNumeric(NumericBits(s), |s|) == s
  {
    hide Pow2, ToBits, FromBits, DecimalValue, DecimalDigits;
    Pow2Values();
    if |s| <= 3 {
      DecimalBound(s);
      FromToBits(DecimalValue(s), GroupBits(|s|));
      DecimalRoundTrip(s);
    } else {
      DecimalBound(s[..3]);
      FromToBits(DecimalValue(s[..3]), 10);
      DecimalRoundTrip(s[..3]);
      NumericRoundTrip(s[3..]);
      var bits := NumericBits(s);
      assert bits[..10] == ToBits(DecimalValue(s[..3]), 10) && bits[10..] == NumericBits(s[3..]);
    }
  }

  /** ceil(10 n / 3) bits. */
  lemma {:induction false} NumericLength(s: string)
    requires IsNumeric(s)
    ensures |NumericBits(s)| == (|s| * 10 + 2) / 3
  {
    if |s| <= 3 {
    } else {
      NumericLength(s[3..]);
    }
  }

  // ----- alphanumeric mode -----

  const ALPHANUMERIC_CHARSET: string := "0123456789" + "ABCDEFGHIJKLMNOPQRSTUVWXYZ" + " $%*+-./:"

  /** strchr(s, c) - s, or the length of s if c does not occur. */
  function IndexOf(s: string, c: char): (i: nat)
    ensures i <= |s| && (i < |s| ==> s[i] == c)
    ensures i < |s| <==> c in s
  {
    if s == "" || s[0] == c then 0 else 1 + IndexOf(s[1..], c)
  }

  predicate IsAlphanumeric(s: string) { forall c | c in s :: c in ALPHANUMERIC_CHARSET }

  function CharValue(c: char): (d: nat)
    requires c in ALPHANUMERIC_CHARSET
    ensures d < 45 && ALPHANUMERIC_CHARSET[d] == c
  {
    IndexOf(ALPHANUMERIC_CHARSET, c)
  }

  lemma CharsetDigits(d: nat)
    requires d < 10
    ensures ALPHANUMERIC_CHARSET[d] as int == '0' as int + d
  {
  }

  lemma CharsetLetters(d: nat)
    requires 10 <= d < 36
    ensures ALPHANUMERIC_CHARSET[d] as int == 'A' as int + d - 10
  {
  }

  lemma CharsetOthers(d: nat)
    requires 36 <= d < 45
    ensures ALPHANUMERIC_CHARSET[d] == " $%*+-./:"[d - 36]
    ensures !IsDigit(ALPHANUMERIC_CHARSET[d]) && !('A' <= ALPHANUMERIC_CHARSET[d] <= 'Z')
  {
  }

  /** Digits have their own value, letters follow from 10 on, and the other nine characters come last. */
  lemma CharValues(c: char)
    requires c in ALPHANUMERIC_CHARSET
    ensures IsDigit(c) ==> CharValue(c) == c as int - '0' as int
    ensures 'A' <= c <= 'Z' ==> CharValue(c) == c as int - 'A' as int + 10
    ensures !IsDigit(c) && !('A' <= c <= 'Z') ==> CharValue(c) >= 36 && c == " $%*+-./:"[CharValue(c) - 36]
  {
    hide IndexOf, ALPHANUMERIC_CHARSET;
    var d := CharValue(c);
    assert ALPHANUMERIC_CHARSET[d] == c;
    if d < 10 {
      CharsetDigits(d);
      assert IsDigit(c);
    } else if d < 36 {
      CharsetLetters(d);
      assert 'A' <= c <= 'Z';
    } else {
      CharsetOthers(d);
    }
  }

  /** The value of a string in base 45. */
  function Base45Value(s: string): nat
    requires IsAlphanumeric(s)
  {
    if s == "" then 0 else 45 * Base45Value(s[..|s| - 1]) + CharValue(s[|s| - 1])
  }

  function Base45Chars(v: nat, n: nat): (s: string)
    ensures |s| == n
  {
    if n == 0 then "" else Base45Chars(v / 45, n - 1) + [ALPHANUMERIC_CHARSET[v % 45]]
  }

  lemma {:induction false} Base45RoundTrip(s: string)
    requires IsAlphanumeric(s)
    ensures Base45Chars(Base45Value(s), |s|) == s
  {
    hide IndexOf, ALPHANUMERIC_CHARSET;
    if s == "" {
    } else {
      var m, c := s[..|s| - 1], s[|s| - 1];
      Base45RoundTrip(m);
      assert Base45Value(s) / 45 == Base45Value(m) && Base45Value(s) % 45 == CharValue(c);
      assert s == m + [c];
    }
  }

  function PairBits(n: nat): nat { if n == 0 then 0 else 5 * n + 1 }

  lemma {:induction false} Base45Bound(s: string)
    requires IsAlphanumeric(s) && |s| <= 2
    ensures Base45Value(s) < Pow2(PairBits(|s|))
    ensures |s| == 0 ==> Base45Value(s) == 0
    ensures |s| <= 1 ==> Base45Value(s) < 45
  {
    hide ALPHANUMERIC_CHARSET, IndexOf;
    Pow2Values();
    if s == "" {
    } else {
      Base45Bound(s[..|s| - 1]);
    }
  }

  /** Two characters in eleven bits; one remaining character in six. */
  function AlphanumericBits(s: string): seq<bool>
    requires IsAlphanumeric(s)
  {
    if |s| <= 2 then ToBits(Base45Value(s), PairBits(|s|))
    else ToBits(Base45Value(s[..2]), 11) + AlphanumericBits(s[2..])
  }

  function DecodeAlphanumeric(bits: seq<bool>, n: nat): string {
    if n <= 2 then Base45Chars(FromBits(bits), n)
    else if |bits| < 11 then ""
    else Base45Chars(FromBits(bits[..11]), 2) + DecodeAlphanumeric(bits[11..], n - 2)
  }

  lemma {:induction false} AlphanumericRoundTrip(s: string)
    requires IsAlphanumeric(s)
    ensures DecodeAlphanumeric(AlphanumericBits(s), |s|) == s
  {
    hide ALPHANUMERIC_CHARSET, IndexOf, CharValue, Base45Value, Base45Chars, Pow2, FromBits, ToBits;
    if |s| <= 2 {
      Base45Bound(s);
      FromToBits(Base45Value(s), PairBits(|s|));
      Base45RoundTrip(s);
    } else {
      Base45Bound(s[..2]);
      FromToBits(Base45Value(s[..2]), 11);
      Base45RoundTrip(s[..2]);
      AlphanumericRoundTrip(s[2..]);
      var bits := AlphanumericBits(s);
      assert bits[..11] == ToBits(Base45Value(s[..2]), 11) && bits[11..] == AlphanumericBits(s[2..]);
    }
  }

  /** ceil(11 n / 2) bits. */
  lemma {:induction false} AlphanumericLength(s: string)
    requires IsAlphanumeric(s)
    ensures |AlphanumericBits(s)| == (|s| * 11 + 1) / 2
  {
    if |s| <= 2 {
    } else {
      AlphanumericLength(s[2..]);
    }
  }
}
