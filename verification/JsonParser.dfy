/**
 A parser for JSON texts without white space and escapes (RFC 8259, sections 2 to 7), and
 the round trip: what the generator writes for a document parses to that document.
 */
module JsonParser {
  import opened Characters
  import opened Options
  import opened JsonCalls
  import opened JsonText

  // ----- numbers -----

  predicate NumberChar(c: char) { IsDigit(c) || c == '-' || c == '+' || c == '.' || c == 'e' || c == 'E' }

  /** How many number characters the text begins with. */
  function Span(s: string): (n: nat)
    ensures n <= |s|
  {
    if s == "" || !NumberChar(s[0]) then 0 else 1 + Span(s[1..])
  }

  function NatValue(s: string): nat
    requires AllDigits(s)
  {
    if s == "" then 0 else NatValue(s[..|s| - 1]) * 10 + DigitValue(s[|s| - 1])
  }

  function ParseNumber(t: string): Option<Json> {
    if IntToken(t) then
      var v := NatValue(Unsigned(t));
      Some(Int(if t[0] == '-' then 0 - v else v))
    else if FloatToken(t) then Some(Float(t))
    else None
  }

  /** The text does not go on with a number character. */
  predicate NumberEnds(rest: string) { rest == "" || !NumberChar(rest[0]) }

  lemma {:induction false} SpanOf(t: string, rest: string)
    requires (forall i | 0 <= i < |t| :: NumberChar(t[i])) && NumberEnds(rest)
    ensures Span(t + rest) == |t|
  {
    hide NumberChar;
    if t == "" {
      assert t + rest == rest;
    } else {
      assert (t + rest)[1..] == t[1..] + rest;
      SpanOf(t[1..], rest);
    }
  }

  lemma {:induction false} NatTextIsToken(n: nat)
    ensures NatToken(NatText(n)) && NatValue(NatText(n)) == n
    ensures NatText(n)[0] == '0' ==> n == 0
  {
    var s := NatText(n);
    if n < 10 {
      assert s[..0] == "";
    } else {
      NatTextIsToken(n / 10);
      assert s[..|s| - 1] == NatText(n / 10);
    }
  }

  lemma TokenStart(s: string)
    requires NatToken(s)
    ensures s != "" && IsDigit(s[0])
  {
  }

  lemma IntTextIsToken(i: int)
    ensures IntToken(IntText(i)) && ParseNumber(IntText(i)) == Some(Int(i))
  {
    hide NatText, NatToken, NatValue;
    var n: nat := if i < 0 then -i else i;
    NatTextIsToken(n);
    TokenStart(NatText(n));
    if i < 0 {
      assert IntText(i)[1..] == NatText(n);
    }
  }

  lemma FloatIsToken(t: string)
    requires FloatToken(t)
    ensures !IntToken(t) && t != "" && (IsDigit(t[0]) || t[0] == '-') && forall i | 0 <= i < |t| :: NumberChar(t[i])
  {
    var u := Unsigned(t);
    var k :| 0 < k < |u| - 1 && u[k] == '.' && NatToken(u[..k]) && AllDigits(u[k + 1..]);
    assert !IsDigit(u[k]);
    assert u[0] == u[..k][0];
    forall i | 0 <= i < |u| ensures NumberChar(u[i]) {
      if i < k { assert u[i] == u[..k][i]; }
      if i > k { assert u[i] == u[k + 1..][i - k - 1]; }
    }
    if t[0] == '-' {
      forall i | 0 < i < |t| ensures NumberChar(t[i]) { assert t[i] == u[i - 1]; }
    }
  }

  lemma ParseFloat(t: string)
    requires FloatToken(t)
    ensures ParseNumber(t) == Some(Float(t))
  {
    hide FloatToken, IntToken;
    FloatIsToken(t);
  }

  lemma IntChars(t: string)
    requires IntToken(t)
    ensures t != "" && (IsDigit(t[0]) || t[0] == '-') && forall i | 0 <= i < |t| :: NumberChar(t[i])
  {
    var u := Unsigned(t);
    assert forall i | 0 <= i < |u| :: IsDigit(u[i]);
    if t[0] == '-' {
      forall i | 0 < i < |t| ensures NumberChar(t[i]) { assert t[i] == u[i - 1]; }
    }
  }

  /** What snprintf leaves is the whole text exactly if the text is shorter than the local buffer. */
  lemma SnprintfWhole(s: string, size: nat)
    requires size >= 1
    ensures Snprintf(s, size) == s <==> |s| < size
  {
    if |s| >= size { assert |Snprintf(s, size)| == size - 1; }
  }

  lemma PointAt(t: string, k: nat)
    requires var u := Unsigned(t);
             0 < k < |u| - 1 && u[k] == '.' && NatToken(u[..k]) && AllDigits(u[k + 1..])
    ensures FloatToken(t)
  {
  }

  lemma FractionToken(whole: string, fraction: string)
    requires NatToken(whole) && AllDigits(fraction) && fraction != ""
    ensures FloatToken(whole + "." + fraction) && FloatToken("-" + (whole + "." + fraction))
  {
    var u, k := whole + "." + fraction, |whole|;
    assert u[..k] == whole && u[k + 1..] == fraction && u[0] == whole[0];
    assert Unsigned(u) == u && ("-" + u)[1..] == u;
    PointAt(u, k);
    PointAt("-" + u, k);
  }

  predicate Sign(s: string) { s == "" || s == "-" }

  lemma SignedToken(sign: string, whole: string)
    requires Sign(sign) && NatToken(whole)
    ensures IntToken(sign + whole) && Unsigned(sign + whole) == whole
  {
    assert IsDigit(whole[0]);
    assert sign == "" ==> sign + whole == whole;
    assert sign == "-" ==> (sign + whole)[1..] == whole;
  }

  lemma DotLast(sign: string, whole: string)
    requires Sign(sign) && NatToken(whole)
    ensures ParseNumber(sign + whole + ".") == None
  {
    var t, u := sign + whole + ".", whole + ".";
    assert t == sign + u && u[0] == whole[0];
    assert Unsigned(t) == u by { if sign == "-" { assert t[1..] == u; } else { assert t == u; } }
    assert u[|whole|] == '.';
    forall k | 0 < k < |u| - 1 ensures u[k] != '.' { assert u[k] == whole[k]; }
  }

  /** What begins like a number and is none begins no document. */
  lemma NoNumber(t: string, rest: string)
    requires t != "" && (IsDigit(t[0]) || t[0] == '-') && (forall i | 0 <= i < |t| :: NumberChar(t[i]))
    requires ParseNumber(t) == None && NumberEnds(rest)
    ensures ParseValue(t + rest) == None
  {
    hide ParseNumber, NumberChar, Span, NumberEnds;
    SpanOf(t, rest);
    assert (t + rest)[0] == t[0] && (t + rest)[..|t|] == t;
  }

  lemma CutAtPoint(sign: string, whole: string, rest: string)
    requires Sign(sign) && NatToken(whole) && NumberEnds(rest)
    ensures var t := sign + whole + "."; ParseValue(t + rest) == None && !FloatToken(t)
  {
    hide ParseNumber, ParseValue, FloatToken, NatToken, NumberChar, Unsigned, NumberEnds;
    var t := sign + whole + ".";
    DotLast(sign, whole);
    SignedToken(sign, whole);
    IntChars(sign + whole);
    assert NumberChar('.') by { PointIsNumberChar(); }
    forall i | 0 <= i < |t| ensures NumberChar(t[i]) { if i < |t| - 1 { assert t[i] == (sign + whole)[i]; } }
    assert t[0] == (sign + whole)[0];
    NoNumber(t, rest);
    if FloatToken(t) { ParseFloat(t); assert false; }
  }

  lemma PointIsNumberChar()
    ensures NumberChar('.')
  {
  }

  /**
   What is written for a number with a fraction, after the cut to 29 characters. With up to 27 characters before the
   point it is a number with a fraction, which has lost no digit before the point; with 28 it ends with the point, so
   that no document begins there; with more it is a whole number, which has lost everything from the 30th character on.
   */
  lemma CutFloat(sign: string, whole: string, fraction: string, rest: string)
    requires Sign(sign) && NatToken(whole) && AllDigits(fraction) && fraction != "" && NumberEnds(rest)
    ensures var printed := sign + whole + "." + fraction;
            var written := Snprintf(printed, MAX_FLOAT_IN_STR);
            var n := |sign| + |whole|;
            && (FloatToken(written) <==> n <= 27)
            && (n <= 27 ==> sign + whole + "." <= written <= printed)
            && (n == 28 ==> written == sign + whole + "." && ParseValue(written + rest) == None)
            && (n >= 29 ==> written == (sign + whole)[..29] && IntToken(written))
  {
    hide FloatToken, IntToken, ParseNumber, ParseValue, NumberEnds;
    var head, n := sign + whole, |sign| + |whole|;
    var written := Snprintf(head + "." + fraction, MAX_FLOAT_IN_STR);
    if n <= 27 {
      var m := if |fraction| <= 28 - n then |fraction| else 28 - n;
      assert written == head + "." + fraction[..m];
      FractionToken(whole, fraction[..m]);
      assert written == sign + (whole + "." + fraction[..m]);
      assert sign == "" ==> written == whole + "." + fraction[..m];
    } else if n == 28 {
      assert written == head + ".";
      CutAtPoint(sign, whole, rest);
    } else {
      var kept := whole[..29 - |sign|];
      assert written == head[..29] && head[..29] == sign + kept;
      SignedToken(sign, kept);
      if FloatToken(written) { FloatIsToken(written); assert false; }
    }
  }

  const LARGE := "499999994242077376867467264"

  /** The float nearest to -5e26 has 27 digits before the point, and what is written for it is no document. */
  lemma CutFloatInstance(rest: string)
    requires NumberEnds(rest)
    ensures var written := Snprintf("-" + LARGE + "." + "00000", MAX_FLOAT_IN_STR);
            written == "-" + LARGE + "." && ParseValue(written + rest) == None
  {
    hide ParseValue, FloatToken, IntToken, Snprintf, NumberEnds;
    CutFloat("-", LARGE, "00000", rest);
  }

  /** What "%.*f" prints for no number and for the infinities is written whole, and no document begins with it. */
  lemma NotANumber(printed: string, rest: string)
    requires printed in ["nan", "-nan", "inf", "-inf"]
    ensures Snprintf(printed, MAX_FLOAT_IN_STR) == printed && ParseValue(printed + rest) == None
  {
    var s := printed + rest;
    assert s[0] == printed[0] && s[1] == printed[1];
    if s[0] == '-' {
      assert Span(s[1..]) == 0;
      assert s[..1] == "-";
    }
  }

  // ----- strings -----

  /** The length of the text before the first quotation mark, or all of it. */
  function BeforeQuote(s: string): (n: nat)
    ensures n <= |s|
  {
    if s == "" || s[0] == '"' then 0 else 1 + BeforeQuote(s[1..])
  }

  /** A string, with the text after it. */
  function ParseString(s: string): (r: Option<(string, string)>)
    ensures r.Some? ==> |r.value.1| < |s|
  {
    if s == "" || s[0] != '"' then None
    else
      var n := BeforeQuote(s[1..]);
      if n == |s| - 1 || !PlainString(s[1..1 + n]) then None else Some((s[1..1 + n], s[n + 2..]))
  }

  lemma {:induction false} BeforeQuoteOf(v: string, rest: string)
    requires PlainString(v)
    ensures BeforeQuote(v + ("\"" + rest)) == |v|
  {
    if v == "" {
      assert v + ("\"" + rest) == "\"" + rest;
    } else {
      assert (v + ("\"" + rest))[1..] == v[1..] + ("\"" + rest);
      BeforeQuoteOf(v[1..], rest);
    }
  }

  lemma ParseQuoted(v: string, rest: string)
    requires PlainString(v)
    ensures ParseString(Quoted(v) + rest) == Some((v, rest))
  {
    hide PlainString, BeforeQuote;
    var s := Quoted(v) + rest;
    BeforeQuoteOf(v, rest);
    assert s[1..] == v + ("\"" + rest);
    assert s[1..1 + |v|] == v;
    assert s[|v| + 2..] == rest;
  }

  // ----- documents -----

  function ParseLiteral(s: string, word: string, j: Json): (r: Option<(Json, string)>)
    requires word != ""
    ensures r.Some? ==> |r.value.1| < |s|
  {
    if word <= s then Some((j, s[|word|..])) else None
  }

  /** A document, with the text after it. */
  function ParseValue(s: string): (r: Option<(Json, string)>)
    ensures r.Some? ==> |r.value.1| < |s|
    decreases |s|, 0
  {
    if s == "" then None
    else if s[0] == 'n' then ParseLiteral(s, "null", Null)
    else if s[0] == 't' then ParseLiteral(s, "true", Bool(true))
    else if s[0] == 'f' then ParseLiteral(s, "false", Bool(false))
    else if s[0] == '"' then
      var r := ParseString(s);
      if r.None? then None else Some((String(r.value.0), r.value.1))
    else if s[0] == '[' then
      if |s| > 1 && s[1] == ']' then Some((Array([]), s[2..]))
      else
        var r := ParseElements(s[1..]);
        if r.None? then None else Some((Array(r.value.0), r.value.1))
    else if s[0] == '{' then
      if |s| > 1 && s[1] == '}' then Some((Object([]), s[2..]))
      else
        var r := ParseMembers(s[1..]);
        if r.None? then None else Some((Object(r.value.0), r.value.1))
    else
      var r := ParseNumber(s[..Span(s)]);
      if Span(s) == 0 || r.None? then None else Some((r.value, s[Span(s)..]))
  }

  /** One or more elements, and the closing bracket. */
  function ParseElements(s: string): (r: Option<(seq<Json>, string)>)
    ensures r.Some? ==> |r.value.1| < |s|
    decreases |s|, 1
  {
    var first := ParseValue(s);
    if first.None? || first.value.1 == "" then None
    else if first.value.1[0] == ']' then Some(([first.value.0], first.value.1[1..]))
    else if first.value.1[0] != ',' then None
    else
      var more := ParseElements(first.value.1[1..]);
      if more.None? then None else Some(([first.value.0] + more.value.0, more.value.1))
  }

  function ParseMember(s: string): (r: Option<(Member, string)>)
    ensures r.Some? ==> |r.value.1| < |s|
    decreases |s|, 1
  {
    var name := ParseString(s);
    if name.None? || name.value.1 == "" || name.value.1[0] != ':' then None
    else
      var value := ParseValue(name.value.1[1..]);
      if value.None? then None else Some((Member(name.value.0, value.value.0), value.value.1))
  }

  /** One or more members, and the closing brace. */
  function ParseMembers(s: string): (r: Option<(seq<Member>, string)>)
    ensures r.Some? ==> |r.value.1| < |s|
    decreases |s|, 2
  {
    var first := ParseMember(s);
    if first.None? || first.value.1 == "" then None
    else if first.value.1[0] == '}' then Some(([first.value.0], first.value.1[1..]))
    else if first.value.1[0] != ',' then None
    else
      var more := ParseMembers(first.value.1[1..]);
      if more.None? then None else Some(([first.value.0] + more.value.0, more.value.1))
  }

  // ----- the round trip -----

  lemma ParseNumberText(t: string, rest: string, j: Json)
    requires t != "" && (IsDigit(t[0]) || t[0] == '-') && (forall i | 0 <= i < |t| :: NumberChar(t[i]))
    requires ParseNumber(t) == Some(j) && NumberEnds(rest)
    ensures ParseValue(t + rest) == Some((j, rest))
  {
    hide ParseNumber, NumberChar, Span;
    SpanOf(t, rest);
    assert (t + rest)[..|t|] == t;
    assert (t + rest)[|t|..] == rest;
    assert (t + rest)[0] == t[0];
  }

  lemma ParseArray(s: string, body: string, rest: string, es: seq<Json>)
    requires s == "[" + body + "]" + rest
    requires es == [] ==> body == ""
    requires es != [] ==> body != "" && body[0] != ']' && ParseElements(body + ("]" + rest)) == Some((es, rest))
    ensures ParseValue(s) == Some((Array(es), rest))
  {
    hide ParseElements;
    assert s[1..] == body + ("]" + rest);
    assert s[0] == '[';
    if es == [] {
      assert s[2..] == rest;
    } else {
      assert s[1] == body[0];
    }
  }

  lemma ParseObject(s: string, body: string, rest: string, ms: seq<Member>)
    requires s == "{" + body + "}" + rest
    requires ms == [] ==> body == ""
    requires ms != [] ==> body != "" && body[0] != '}' && ParseMembers(body + ("}" + rest)) == Some((ms, rest))
    ensures ParseValue(s) == Some((Object(ms), rest))
  {
    hide ParseMembers;
    assert s[1..] == body + ("}" + rest);
    assert s[0] == '{';
    if ms == [] {
      assert s[2..] == rest;
    } else {
      assert s[1] == body[0];
    }
  }

  lemma ParseMoreElements(s: string, head: string, j: Json, es: seq<Json>, tail: string, rest: string)
    requires s == head + tail && ParseValue(s) == Some((j, tail))
    requires (es == [] && tail == "]" + rest)
          || (es != [] && tail != "" && tail[0] == ',' && ParseElements(tail[1..]) == Some((es, rest)))
    ensures ParseElements(s) == Some(([j] + es, rest))
  {
    hide ParseValue;
    if es == [] { assert tail[1..] == rest && [j] + es == [j]; }
  }

  lemma ParseMoreMembers(s: string, head: string, m: Member, ms: seq<Member>, tail: string, rest: string)
    requires s == head + tail && ParseMember(s) == Some((m, tail))
    requires (ms == [] && tail == "}" + rest)
          || (ms != [] && tail != "" && tail[0] == ',' && ParseMembers(tail[1..]) == Some((ms, rest)))
    ensures ParseMembers(s) == Some(([m] + ms, rest))
  {
    hide ParseMember;
    if ms == [] { assert tail[1..] == rest && [m] + ms == [m]; }
  }

  lemma PrintNothing()
    ensures PrintElements([]) == "" && PrintMembers([]) == ""
  {
  }

  /** A document's text begins with a character that closes nothing. */
  lemma FirstChar(j: Json)
    requires ValidJson(j)
    ensures Print(j) != "" && Print(j)[0] != ']'
  {
    hide PrintElements, PrintMembers;
    match j
    case Int(i) =>
      IntTextIsToken(i);
      IntChars(IntText(i));
    case Float(t) => FloatIsToken(t);
    case _ =>
  }

  /** The text of a document, followed by anything that is not part of a number, parses to the document. */
  lemma {:induction false} ParsePrint(j: Json, rest: string)
    requires ValidJson(j) && NumberEnds(rest)
    ensures ParseValue(Print(j) + rest) == Some((j, rest))
    decreases j, 0
  {
    hide ParseValue, ParseNumber, ParseElements, ParseMembers, PrintElements, PrintMembers, IntText, NumberChar,
      FloatToken, IntToken, PlainString, NumberEnds;
    match j
    case Int(i) =>
      IntTextIsToken(i);
      IntChars(IntText(i));
      ParseNumberText(IntText(i), rest, j);
    case Float(t) =>
      FloatIsToken(t);
      ParseFloat(t);
      ParseNumberText(t, rest, j);
    case Array(es) =>
      PrintNothing();
      if es != [] { ParsePrintElements(es, rest); }
      ParseArray(Print(j) + rest, PrintElements(es), rest, es);
    case Object(ms) =>
      PrintNothing();
      if ms != [] { ParsePrintMembers(ms, rest); }
      ParseObject(Print(j) + rest, PrintMembers(ms), rest, ms);
    case _ => ParseScalar(j, rest);
  }

  lemma ParseScalar(j: Json, rest: string)
    requires j.Null? || j.Bool? || (j.String? && PlainString(j.s))
    ensures ParseValue(Print(j) + rest) == Some((j, rest))
  {
    hide ParseString, PlainString;
    var s := Print(j) + rest;
    assert s[|Print(j)|..] == rest;
    assert s[..|Print(j)|] == Print(j);
    assert s[0] == Print(j)[0];
    if j.String? { ParseQuoted(j.s, rest); }
  }

  lemma MoreElements(es: seq<Json>)
    requires es != []
    ensures PrintMoreElements(es) == "," + PrintElements(es)
  {
    Assoc(",", Print(es[0]), PrintMoreElements(es[1..]));
  }

  /** What follows the first element. */
  lemma ElementsTail(es: seq<Json>, rest: string) returns (tail: string)
    requires es != []
    ensures PrintElements(es) + ("]" + rest) == Print(es[0]) + tail
    ensures Print(es[0]) <= PrintElements(es)
    ensures tail == if |es| == 1 then "]" + rest else "," + (PrintElements(es[1..]) + ("]" + rest))
  {
    hide Print;
    var more := PrintMoreElements(es[1..]);
    tail := more + ("]" + rest);
    Assoc(Print(es[0]), more, "]" + rest);
    if |es| > 1 {
      MoreElements(es[1..]);
      Assoc(",", PrintElements(es[1..]), "]" + rest);
    } else {
      assert more == "";
    }
  }

  lemma {:induction false} ParsePrintElements(es: seq<Json>, rest: string)
    requires es != [] && forall i | 0 <= i < |es| :: ValidJson(es[i])
    ensures PrintElements(es) != "" && PrintElements(es)[0] != ']'
    ensures ParseElements(PrintElements(es) + ("]" + rest)) == Some((es, rest))
    decreases es, 1
  {
    hide ParseValue, ParseElements, Print, ValidJson, PrintElements, PrintMoreElements;
    var tail := ElementsTail(es, rest);
    FirstChar(es[0]);
    assert [es[0]] + es[1..] == es;
    if |es| > 1 { ParsePrintElements(es[1..], rest); }
    ParsePrint(es[0], tail);
    ParseMoreElements(PrintElements(es) + ("]" + rest), Print(es[0]), es[0], es[1..], tail, rest);
  }

  lemma MoreMembers(ms: seq<Member>)
    requires ms != []
    ensures PrintMoreMembers(ms) == "," + PrintMembers(ms)
  {
    Assoc(",", PrintMember(ms[0]), PrintMoreMembers(ms[1..]));
  }

  /** What follows the first member. */
  lemma MembersTail(ms: seq<Member>, rest: string) returns (tail: string)
    requires ms != []
    ensures PrintMembers(ms) + ("}" + rest) == PrintMember(ms[0]) + tail
    ensures PrintMember(ms[0]) <= PrintMembers(ms)
    ensures tail == if |ms| == 1 then "}" + rest else "," + (PrintMembers(ms[1..]) + ("}" + rest))
  {
    hide PrintMember;
    var more := PrintMoreMembers(ms[1..]);
    tail := more + ("}" + rest);
    Assoc(PrintMember(ms[0]), more, "}" + rest);
    if |ms| > 1 {
      MoreMembers(ms[1..]);
      Assoc(",", PrintMembers(ms[1..]), "}" + rest);
    } else {
      assert more == "";
    }
  }

  lemma MemberStart(m: Member)
    ensures PrintMember(m) != "" && PrintMember(m)[0] == '"'
  {
    hide Print;
  }

  lemma {:induction false} ParsePrintMember(m: Member, rest: string)
    requires PlainString(m.name) && ValidJson(m.value) && NumberEnds(rest)
    ensures ParseMember(PrintMember(m) + rest) == Some((m, rest))
    decreases m, 0
  {
    hide ParseValue, ParseString, Print, ValidJson, Quoted, PlainString, NumberEnds;
    var after := ":" + (Print(m.value) + rest);
    assert PrintMember(m) + rest == Quoted(m.name) + after;
    assert after[0] == ':';
    ParseQuoted(m.name, after);
    assert after[1..] == Print(m.value) + rest;
    ParsePrint(m.value, rest);
  }

  lemma {:induction false} ParsePrintMembers(ms: seq<Member>, rest: string)
    requires ms != [] && forall i | 0 <= i < |ms| :: PlainString(ms[i].name) && ValidJson(ms[i].value)
    ensures PrintMembers(ms) != "" && PrintMembers(ms)[0] != '}'
    ensures ParseMembers(PrintMembers(ms) + ("}" + rest)) == Some((ms, rest))
    decreases ms, 1
  {
    hide ParseMember, ParseMembers, Print, ValidJson, PlainString, PrintMember, PrintMembers, PrintMoreMembers;
    var tail := MembersTail(ms, rest);
    MemberStart(ms[0]);
    assert [ms[0]] + ms[1..] == ms;
    if |ms| > 1 { ParsePrintMembers(ms[1..], rest); }
    ParsePrintMember(ms[0], tail);
    ParseMoreMembers(PrintMembers(ms) + ("}" + rest), PrintMember(ms[0]), ms[0], ms[1..], tail, rest);
  }
}
