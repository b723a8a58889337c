/**
 The calls of the JSON generator and the text that each of them adds.
 */
module JsonCalls {
  import opened Characters
  import opened Options

  /** A string argument; None is the null pointer, which adds nothing. */
  type CString = Option<string>

  function Chars(s: CString): string { if s.Some? then s.value else "" }

  datatype Call =
    | StartObject | EndObject | StartArray | EndArray
    | PushObject(name: CString) | PopObject | PushArray(name: CString) | PopArray
    | PushObjectStr(name: CString, str: CString) | PushArrayStr(name: CString, str: CString)
    | ObjSetBool(name: CString, b: bool) | ArrSetBool(b: bool)
    | ObjSetInt(name: CString, i: int) | ArrSetInt(i: int)
    | ObjSetFloat(name: CString, printed: string) | ArrSetFloat(printed: string)
    | ObjSetString(name: CString, val: CString) | ArrSetString(val: CString)
    | ObjStartLongString(name: CString, val: CString) | ArrStartLongString(val: CString)
    | AddToLongString(val: CString) | EndLongString
    | ObjSetNull(name: CString) | ArrSetNull
  {
    /** The name of the member that the call begins, if it begins one. */
    function Name(): Option<CString> {
      match this
      case PushObject(n) => Some(n) case PushArray(n) => Some(n)
      case PushObjectStr(n, _) => Some(n) case PushArrayStr(n, _) => Some(n)
      case ObjSetBool(n, _) => Some(n) case ObjSetInt(n, _) => Some(n) case ObjSetFloat(n, _) => Some(n)
      case ObjSetString(n, _) => Some(n) case ObjStartLongString(n, _) => Some(n) case ObjSetNull(n) => Some(n)
      case _ => None
    }

    /** The call begins an element or a member, so that a comma may be due. */
    predicate Begins() {
      match this
      case EndObject => false case EndArray => false case PopObject => false case PopArray => false
      case AddToLongString(_) => false case EndLongString => false
      case _ => true
    }

    /** The call opens a container. */
    predicate Opens() { StartObject? || StartArray? || PushObject? || PushArray? }

    /** The call closes a container. */
    predicate Closes() { EndObject? || EndArray? || PopObject? || PopArray? }

    /** What the call writes after the comma and the name. */
    function Body(): string {
      match this
      case StartObject => "{" case PushObject(_) => "{"
      case StartArray => "[" case PushArray(_) => "["
      case EndObject => "}" case PopObject => "}"
      case EndArray => "]" case PopArray => "]"
      case PushObjectStr(_, s) => Chars(s) case PushArrayStr(_, s) => Chars(s)
      case ObjSetBool(_, b) => BoolText(b) case ArrSetBool(b) => BoolText(b)
      case ObjSetInt(_, i) => IntText(i) case ArrSetInt(i) => IntText(i)
      case ObjSetFloat(_, t) => Snprintf(t, MAX_FLOAT_IN_STR) case ArrSetFloat(t) => Snprintf(t, MAX_FLOAT_IN_STR)
      case ObjSetString(_, v) => Quoted(Chars(v)) case ArrSetString(v) => Quoted(Chars(v))
      case ObjStartLongString(_, v) => "\"" + Chars(v) case ArrStartLongString(v) => "\"" + Chars(v)
      case AddToLongString(v) => Chars(v) case EndLongString => "\""
      case ObjSetNull(_) => "null" case ArrSetNull => "null"
    }

    /** All that the call writes, given whether a comma is due. */
    function Text(comma: bool): string {
      (if Begins() then CommaText(comma) else "") + (if Name().Some? then NameText(Name().value) else "") + Body()
    }

    /** Whether a comma is due after the call. */
    predicate CommaAfter(comma: bool) {
      if Opens() then false else if AddToLongString? || EndLongString? then comma else true
    }

    /** The call adds nothing at all. */
    predicate Silent() { AddToLongString? && Chars(val) == "" }

    /** The last string that the call adds is empty, so that its result says nothing. */
    predicate EndsEmpty() {
      match this
      case PushObjectStr(_, s) => Chars(s) == "" case PushArrayStr(_, s) => Chars(s) == ""
      case ObjStartLongString(_, v) => Chars(v) == "" case ArrStartLongString(v) => Chars(v) == ""
      case AddToLongString(v) => Chars(v) == ""
      case ObjSetFloat(_, t) => t == "" case ArrSetFloat(t) => t == ""
      case _ => false
    }
  }

  function CommaText(comma: bool): string { if comma then "," else "" }

  function NameText(name: CString): string { Quoted(Chars(name)) + ":" }

  /** A call that begins a member writes the comma, the name and the rest one after the other. */
  lemma MemberText(c: Call, comma: bool, was: string)
    requires c.Begins() && c.Name().Some?
    ensures was + CommaText(comma) + NameText(c.Name().value) + c.Body() == was + c.Text(comma)
  {
  }

  /** A call that begins an element writes the comma and the rest. */
  lemma ElementText(c: Call, comma: bool, was: string)
    requires c.Begins() && c.Name().None?
    ensures was + CommaText(comma) + c.Body() == was + c.Text(comma)
  {
  }

  /** The other calls write their own text only. */
  lemma PlainText(c: Call, comma: bool, was: string)
    requires !c.Begins() && c.Name().None?
    ensures was + c.Body() == was + c.Text(comma)
  {
  }

  function Quoted(s: string): string { "\"" + s + "\"" }

  function BoolText(b: bool): string { if b then "true" else "false" }

  function NatText(n: nat): (s: string)
    ensures |s| >= 1
  {
    if n < 10 then [DigitChar(n)] else NatText(n / 10) + [DigitChar(n % 10)]
  }

  /** "%d" */
  function IntText(i: int): string { if i < 0 then "-" + NatText(-i) else NatText(i) }

  const MAX_INT_IN_STR := 24
  const MAX_FLOAT_IN_STR := 30

  /** What snprintf leaves in a local buffer. */
  function Snprintf(s: string, size: nat): string
    requires size >= 1
  {
    if |s| < size then s else s[..size - 1]
  }

  lemma {:induction false} NatTextLength(n: nat, digits: nat, bound: nat)
    requires n < bound && PowerOfTen(digits) == bound && digits >= 1
    ensures |NatText(n)| <= digits
  {
    if n < 10 {
    } else {
      NatTextLength(n / 10, digits - 1, bound / 10);
    }
  }

  function PowerOfTen(k: nat): nat { if k == 0 then 1 else 10 * PowerOfTen(k - 1) }

  /** Every 32-bit number fits into the local buffer. */
  lemma IntTextFits(i: int)
    requires -0x8000_0000 <= i < 0x8000_0000
    ensures |IntText(i)| <= 11 && Snprintf(IntText(i), MAX_INT_IN_STR) == IntText(i)
  {
    assert PowerOfTen(10) == 10_000_000_000 by { assert PowerOfTen(5) == 100_000; }
    NatTextLength(if i < 0 then -i else i, 10, 10_000_000_000);
  }

  // ----- sequences of calls -----

  /** The state of the generator that matters for what it writes next. */
  datatype State = State(text: string, comma: bool)

  function Step(s: State, c: Call): State { State(s.text + c.Text(s.comma), c.CommaAfter(s.comma)) }

  function Run(s: State, calls: seq<Call>): State {
    if calls == [] then s else Step(Run(s, calls[..|calls| - 1]), calls[|calls| - 1])
  }

  const START := State("", false)

  lemma {:induction false} RunConcat(s: State, a: seq<Call>, b: seq<Call>)
    ensures Run(s, a + b) == Run(Run(s, a), b)
  {
    hide Step;
    if b == [] {
      assert a + b == a;
    } else {
      RunConcat(s, a, b[..|b| - 1]);
      assert (a + b)[..|a + b| - 1] == a + b[..|b| - 1];
    }
  }

  lemma RunOne(s: State, c: Call)
    ensures Run(s, [c]) == Step(s, c)
  {
    assert [c][..0] == [];
  }

  // ----- one flag instead of a stack -----

  /** For every open container, innermost last, whether it has a member yet; the first entry is for the document. */
  type Stack = s: seq<bool> | |s| >= 1 witness [false]

  predicate Balanced(stack: Stack, c: Call) { c.Closes() ==> |stack| >= 2 }

  function StackStep(stack: Stack, c: Call): Stack
    requires Balanced(stack, c)
  {
    var n := |stack| - 1;
    if c.Opens() then stack[n := true] + [false]
    else if c.Closes() then stack[..n]
    else if c.Begins() then stack[n := true]
    else stack
  }

  /** The calls never close more containers than are open. */
  predicate BalancedRun(stack: Stack, calls: seq<Call>)
    decreases |calls|
  {
    calls == [] || (Balanced(stack, calls[0]) && BalancedRun(StackStep(stack, calls[0]), calls[1..]))
  }

  function StackRun(stack: Stack, calls: seq<Call>): Stack
    requires BalancedRun(stack, calls)
    decreases |calls|
  {
    if calls == [] then stack else StackRun(StackStep(stack, calls[0]), calls[1..])
  }

  lemma RunCons(s: State, calls: seq<Call>)
    requires calls != []
    ensures Run(s, calls) == Run(Step(s, calls[0]), calls[1..])
  {
    hide Step, Run;
    RunConcat(s, [calls[0]], calls[1..]);
    RunOne(s, calls[0]);
    assert [calls[0]] + calls[1..] == calls;
  }

  /** Every container around the innermost one has a member: the one that is being written. */
  predicate OuterHaveMembers(stack: Stack) { forall i | 0 <= i < |stack| - 1 :: stack[i] }

  lemma CommaStep(stack: Stack, c: Call)
    requires Balanced(stack, c) && OuterHaveMembers(stack)
    ensures var next := StackStep(stack, c);
            c.CommaAfter(stack[|stack| - 1]) == next[|next| - 1] && OuterHaveMembers(next)
  {
  }

  /** After any balanced run, the flag says whether the innermost open container has a member, at any depth. */
  lemma {:induction false} CommaIsTopOfStack(s: State, stack: Stack, calls: seq<Call>)
    requires BalancedRun(stack, calls) && OuterHaveMembers(stack) && s.comma == stack[|stack| - 1]
    ensures var end := StackRun(stack, calls); Run(s, calls).comma == end[|end| - 1]
    decreases |calls|
  {
    hide Call.Text, Call.CommaAfter, Call.Opens, Call.Closes, Call.Begins, StackStep;
    if calls == [] {
    } else {
      RunCons(s, calls);
      CommaStep(stack, calls[0]);
      CommaIsTopOfStack(Step(s, calls[0]), StackStep(stack, calls[0]), calls[1..]);
    }
  }
}
