/**
 Which sequences of calls write a document, and that they do: every way to write a string, a number, an array or an
 object, as an element of an array or as a member of an object.
 */
module JsonWriting {
  import opened Options
  import opened JsonCalls
  import opened JsonText

  /** An element has no name, a member has one. */
  type Name = Option<string>

  function Label(name: Name): string { if name.Some? then NameText(name) else "" }

  // ----- the sequences of calls that write a document -----

  /** The call begins an element, or a member of that name. */
  predicate Starts(c: Call, name: Name) {
    if name.Some? then c.Name().Some? && Chars(c.Name().value) == name.value else c.Name().None? && c.Begins()
  }

  /** The call alone writes the value; an array or object may be given as its text. */
  predicate IsWhole(c: Call, j: Json) {
    match j
    case Null => c.ObjSetNull? || c.ArrSetNull?
    case Bool(b) => (c.ObjSetBool? || c.ArrSetBool?) && c.b == b
    case Int(i) => (c.ObjSetInt? || c.ArrSetInt?) && c.i == i
    case Float(t) =>
      (c.ObjSetFloat? || c.ArrSetFloat?) && Snprintf(c.printed, MAX_FLOAT_IN_STR) == t && '\0' !in c.printed
    case String(s) => (c.ObjSetString? || c.ArrSetString?) && Chars(c.val) == s
    case Array(_) => c.PushArrayStr? && Chars(c.str) == Print(j)
    case Object(_) => c.PushObjectStr? && Chars(c.str) == Print(j)
  }

  /** The calls add the string piece by piece. */
  predicate AddPieces(calls: seq<Call>, s: string)
    decreases |calls|
  {
    if calls == [] then s == ""
    else
      calls[0].AddToLongString? && Chars(calls[0].val) <= s && AddPieces(calls[1..], s[|Chars(calls[0].val)|..])
  }

  /** A long string: started, continued any number of times, and ended. */
  predicate IsLongString(calls: seq<Call>, s: string) {
    && |calls| >= 2 && (calls[0].ObjStartLongString? || calls[0].ArrStartLongString?)
    && calls[|calls| - 1] == EndLongString
    && Chars(calls[0].val) <= s && AddPieces(calls[1..|calls| - 1], s[|Chars(calls[0].val)|..])
  }

  /** The calls write the document, as an element or as the member of that name. */
  ghost predicate Writes(name: Name, calls: seq<Call>, j: Json)
    decreases j, 1
  {
    && calls != [] && Starts(calls[0], name)
    && match j
       case String(s) => (|calls| == 1 && IsWhole(calls[0], j)) || IsLongString(calls, s)
       case Array(es) =>
         || (|calls| == 1 && IsWhole(calls[0], j))
         || (&& |calls| >= 2 && (calls[0].StartArray? || calls[0].PushArray?)
             && (calls[|calls| - 1].EndArray? || calls[|calls| - 1].PopArray?)
             && WritesElements(calls[1..|calls| - 1], es))
       case Object(ms) =>
         || (|calls| == 1 && IsWhole(calls[0], j))
         || (&& |calls| >= 2 && (calls[0].StartObject? || calls[0].PushObject?)
             && (calls[|calls| - 1].EndObject? || calls[|calls| - 1].PopObject?)
             && WritesMembers(calls[1..|calls| - 1], ms))
       case _ => |calls| == 1 && IsWhole(calls[0], j)
  }

  ghost predicate WritesElements(calls: seq<Call>, es: seq<Json>)
    decreases es, 0
  {
    if es == [] then calls == []
    else
      exists k: nat :: k <= |calls| && Writes(None, calls[..k], es[0]) && WritesElements(calls[k..], es[1..])
  }

  ghost predicate WritesMembers(calls: seq<Call>, ms: seq<Member>)
    decreases ms, 0
  {
    if ms == [] then calls == []
    else
      exists k: nat :: k <= |calls| && Writes(Some(ms[0].name), calls[..k], ms[0].value)
                       && WritesMembers(calls[k..], ms[1..])
  }

  // ----- every document can be written -----

  /** The obvious calls for a document. */
  function CallsFor(name: Name, j: Json): seq<Call>
    decreases j, 1
  {
    var member, n := name.Some?, name;
    match j
    case Null => [if member then ObjSetNull(n) else ArrSetNull]
    case Bool(b) => [if member then ObjSetBool(n, b) else ArrSetBool(b)]
    case Int(i) => [if member then ObjSetInt(n, i) else ArrSetInt(i)]
    case Float(t) => [if member then ObjSetFloat(n, t) else ArrSetFloat(t)]
    case String(s) => [if member then ObjSetString(n, Some(s)) else ArrSetString(Some(s))]
    case Array(es) => [if member then PushArray(n) else StartArray] + CallsForElements(es) + [EndArray]
    case Object(ms) => [if member then PushObject(n) else StartObject] + CallsForMembers(ms) + [EndObject]
  }

  function CallsForElements(es: seq<Json>): seq<Call>
    decreases es, 0
  {
    if es == [] then [] else CallsFor(None, es[0]) + CallsForElements(es[1..])
  }

  function CallsForMembers(ms: seq<Member>): seq<Call>
    decreases ms, 0
  {
    if ms == [] then [] else CallsFor(Some(ms[0].name), ms[0].value) + CallsForMembers(ms[1..])
  }

  lemma FloatHasNoNul(t: string)
    requires FloatToken(t)
    ensures '\0' !in t && t != ""
  {
    var u := Unsigned(t);
    var k :| 0 < k < |u| - 1 && u[k] == '.' && NatToken(u[..k]) && AllDigits(u[k + 1..]);
    forall i | 0 <= i < |u| ensures u[i] != '\0' {
      if i < k { assert u[i] == u[..k][i]; }
      if i > k { assert u[i] == u[k + 1..][i - k - 1]; }
    }
    if t[0] == '-' {
      forall i | 0 < i < |t| ensures t[i] != '\0' { assert t[i] == u[i - 1]; }
    }
  }

  lemma {:induction false} CallsForWrite(name: Name, j: Json)
    requires ValidJson(j)
    ensures Writes(name, CallsFor(name, j), j)
    decreases j, 1
  {
    hide FloatToken, PlainString, WritesElements, WritesMembers, CallsForElements, CallsForMembers;
    var calls := CallsFor(name, j);
    match j
    case Array(es) =>
      CallsForElementsWrite(es);
      assert calls[1..|calls| - 1] == CallsForElements(es);
    case Object(ms) =>
      CallsForMembersWrite(ms);
      assert calls[1..|calls| - 1] == CallsForMembers(ms);
    case Float(t) => FloatHasNoNul(t);
    case _ =>
  }

  lemma {:induction false} CallsForElementsWrite(es: seq<Json>)
    requires forall i | 0 <= i < |es| :: ValidJson(es[i])
    ensures WritesElements(CallsForElements(es), es)
    decreases es, 0
  {
    if es == [] {
    } else {
      hide ValidJson, Writes, CallsFor;
      var first, calls := CallsFor(None, es[0]), CallsForElements(es);
      CallsForWrite(None, es[0]);
      CallsForElementsWrite(es[1..]);
      assert calls[..|first|] == first && calls[|first|..] == CallsForElements(es[1..]);
    }
  }

  lemma {:induction false} CallsForMembersWrite(ms: seq<Member>)
    requires forall i | 0 <= i < |ms| :: PlainString(ms[i].name) && ValidJson(ms[i].value)
    ensures WritesMembers(CallsForMembers(ms), ms)
    decreases ms, 0
  {
    if ms == [] {
    } else {
      hide ValidJson, PlainString, Writes, CallsFor;
      var first, calls := CallsFor(Some(ms[0].name), ms[0].value), CallsForMembers(ms);
      CallsForWrite(Some(ms[0].name), ms[0].value);
      CallsForMembersWrite(ms[1..]);
      assert calls[..|first|] == first && calls[|first|..] == CallsForMembers(ms[1..]);
    }
  }

  // ----- the calls write the text -----

  lemma StepStart(s: State, c: Call, name: Name)
    requires Starts(c, name)
    ensures Step(s, c) == State(s.text + CommaText(s.comma) + (Label(name) + c.Body()), c.CommaAfter(s.comma))
  {
    hide Call.Text, Call.Body, CommaText;
    if name.Some? {
      MemberText(c, s.comma, s.text);
      Assoc(s.text + CommaText(s.comma), NameText(c.Name().value), c.Body());
    } else {
      ElementText(c, s.comma, s.text);
      assert "" + c.Body() == c.Body();
    }
  }

  lemma StepPlain(s: State, c: Call)
    requires !c.Begins() && c.Name().None?
    ensures Step(s, c) == State(s.text + c.Body(), c.CommaAfter(s.comma))
  {
    PlainText(c, s.comma, s.text);
  }

  /** What opens, what is inside, and what closes. */
  lemma RunBracket(s: State, open: Call, inner: seq<Call>, close: Call, prefix: string, body: string)
    requires !close.Begins() && close.Name().None? && !close.AddToLongString?
    requires close.EndLongString? ==> Run(Step(s, open), inner).comma
    requires Step(s, open).text == s.text + CommaText(s.comma) + prefix
    requires Run(Step(s, open), inner).text == Step(s, open).text + body
    ensures Run(s, [open] + inner + [close])
         == State(s.text + CommaText(s.comma) + (prefix + body + close.Body()), true)
  {
    hide Step, Run, Call.Text, CommaText, Call.Body;
    RunConcat(s, [open] + inner, [close]);
    RunConcat(s, [open], inner);
    RunOne(s, open);
    RunOne(Run(s, [open] + inner), close);
    StepPlain(Run(s, [open] + inner), close);
    var head := s.text + CommaText(s.comma);
    Assoc(head, prefix, body);
    Assoc(head, prefix + body, close.Body());
  }

  lemma Rejoined(was: string, v: string, t: string)
    requires v <= t
    ensures was + v + t[|v|..] == was + t
  {
    assert v + t[|v|..] == t;
  }

  lemma StepPiece(s: State, c: Call)
    requires c.AddToLongString?
    ensures Step(s, c) == State(s.text + Chars(c.val), s.comma)
  {
    hide Step;
    StepPlain(s, c);
  }

  lemma {:induction false} RunPieces(s: State, calls: seq<Call>, t: string)
    requires AddPieces(calls, t)
    ensures Run(s, calls) == State(s.text + t, s.comma)
    decreases |calls|
  {
    if calls == [] {
      assert s.text + "" == s.text;
    } else {
      hide Run, Step, Call.Text, Call.Body, Call.CommaAfter;
      var v := Chars(calls[0].val);
      RunCons(s, calls);
      StepPiece(s, calls[0]);
      RunPieces(Step(s, calls[0]), calls[1..], t[|v|..]);
      Rejoined(s.text, v, t);
    }
  }

  lemma Split(calls: seq<Call>)
    requires |calls| >= 2
    ensures calls == [calls[0]] + calls[1..|calls| - 1] + [calls[|calls| - 1]]
  {
  }

  lemma Prefixed(n: string, o: string, body: string, c: string)
    ensures n + o + body + c == n + (o + body + c)
  {
  }

  lemma RunWhole(s: State, name: Name, c: Call, j: Json)
    requires Starts(c, name) && IsWhole(c, j)
    ensures Run(s, [c]) == State(s.text + CommaText(s.comma) + (Label(name) + Print(j)), true)
  {
    hide Run, Step, CommaText, Label, PrintElements, PrintMembers, BoolText, IntText, Snprintf, Call.Text, Starts;
    RunOne(s, c);
    StepStart(s, c, name);
  }

  lemma QuotedPieces(n: string, v: string, rest: string)
    ensures n + ("\"" + v) + rest + "\"" == n + Quoted(v + rest)
  {
  }

  lemma RunLongString(s: State, name: Name, calls: seq<Call>, t: string)
    requires calls != [] && Starts(calls[0], name) && IsLongString(calls, t)
    ensures Run(s, calls) == State(s.text + CommaText(s.comma) + (Label(name) + Print(String(t))), true)
  {
    hide Run, Step, CommaText, Label, AddPieces, Call.Text, Starts, Quoted;
    var n, v := |calls| - 1, Chars(calls[0].val);
    Split(calls);
    StepStart(s, calls[0], name);
    RunPieces(Step(s, calls[0]), calls[1..n], t[|v|..]);
    RunBracket(s, calls[0], calls[1..n], calls[n], Label(name) + ("\"" + v), t[|v|..]);
    QuotedPieces(Label(name), v, t[|v|..]);
    assert v + t[|v|..] == t;
  }

  lemma RunSeq(s: State, a: seq<Call>, b: seq<Call>, x: string, y: string)
    requires Run(s, a) == State(s.text + CommaText(s.comma) + x, true)
    requires Run(Run(s, a), b).text == Run(s, a).text + y
    ensures Run(s, a + b).text == s.text + (CommaText(s.comma) + x + y)
  {
    hide Run, CommaText;
    RunConcat(s, a, b);
    Assoc(s.text, CommaText(s.comma), x);
    Assoc(s.text, CommaText(s.comma) + x, y);
  }

  lemma NoComma(x: string, y: string)
    ensures CommaText(false) + x + y == x + y
  {
  }

  /** However a document is written, the text that is added is the comma that is due, the name and the text of it. */
  lemma {:induction false} RunWrites(s: State, name: Name, calls: seq<Call>, j: Json)
    requires Writes(name, calls, j)
    ensures Run(s, calls) == State(s.text + CommaText(s.comma) + (Label(name) + Print(j)), true)
    decreases j, 1
  {
    hide Run, CommaText, Label, Step, PrintElements, PrintMembers, WritesElements, WritesMembers, Call.Text, Starts,
      IsWhole, IsLongString, AddPieces;
    var n := |calls| - 1;
    if |calls| == 1 {
      assert calls == [calls[0]];
      LongStringIsLong(calls, j);
      RunWhole(s, name, calls[0], j);
    } else if j.String? {
      RunLongString(s, name, calls, j.s);
    } else {
      Split(calls);
      StepStart(s, calls[0], name);
      if j.Array? {
        RunElements(Step(s, calls[0]), calls[1..n], j.elements);
        RunBracket(s, calls[0], calls[1..n], calls[n], Label(name) + "[", PrintElements(j.elements));
        Prefixed(Label(name), "[", PrintElements(j.elements), "]");
      } else {
        RunMembers(Step(s, calls[0]), calls[1..n], j.members);
        RunBracket(s, calls[0], calls[1..n], calls[n], Label(name) + "{", PrintMembers(j.members));
        Prefixed(Label(name), "{", PrintMembers(j.members), "}");
      }
    }
  }

  lemma LongStringIsLong(calls: seq<Call>, j: Json)
    requires |calls| == 1
    ensures j.String? ==> !IsLongString(calls, j.s)
  {
  }

  lemma {:induction false} RunElements(s: State, calls: seq<Call>, es: seq<Json>)
    requires WritesElements(calls, es)
    ensures Run(s, calls).text == s.text + if s.comma then PrintMoreElements(es) else PrintElements(es)
    decreases es, 0
  {
    if es == [] {
    } else {
      hide Run, Print, Writes;
      var k: nat :| k <= |calls| && Writes(None, calls[..k], es[0]) && WritesElements(calls[k..], es[1..]);
      assert calls == calls[..k] + calls[k..];
      RunWrites(s, None, calls[..k], es[0]);
      assert "" + Print(es[0]) == Print(es[0]);
      RunElements(Run(s, calls[..k]), calls[k..], es[1..]);
      RunSeq(s, calls[..k], calls[k..], Print(es[0]), PrintMoreElements(es[1..]));
      NoComma(Print(es[0]), PrintMoreElements(es[1..]));
    }
  }

  lemma {:induction false} RunMembers(s: State, calls: seq<Call>, ms: seq<Member>)
    requires WritesMembers(calls, ms)
    ensures Run(s, calls).text == s.text + if s.comma then PrintMoreMembers(ms) else PrintMembers(ms)
    decreases ms, 0
  {
    if ms == [] {
    } else {
      hide Run, Print, Writes, NameText;
      var name := Some(ms[0].name);
      var k: nat :| k <= |calls| && Writes(name, calls[..k], ms[0].value) && WritesMembers(calls[k..], ms[1..]);
      assert calls == calls[..k] + calls[k..];
      RunWrites(s, name, calls[..k], ms[0].value);
      RunMembers(Run(s, calls[..k]), calls[k..], ms[1..]);
      RunSeq(s, calls[..k], calls[k..], PrintMember(ms[0]), PrintMoreMembers(ms[1..]));
      NoComma(PrintMember(ms[0]), PrintMoreMembers(ms[1..]));
    }
  }
}
