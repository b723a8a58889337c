/**
 Writing a whole document with the generator, in any of the ways there are: the calls are well nested and clean, and
 the buffer ends up with a text that parses to the document.
 */
module JsonDocument {
  import opened Sequences
  import opened Options
  import opened JsonCalls
  import opened JsonGenerator
  import opened JsonSession
  import opened JsonText
  import opened JsonWriting
  import opened JsonParser

  // ----- the calls are well nested -----

  lemma {:induction false} BalancedConcat(stack: Stack, a: seq<Call>, b: seq<Call>)
    requires BalancedRun(stack, a) && BalancedRun(StackRun(stack, a), b)
    ensures BalancedRun(stack, a + b) && StackRun(stack, a + b) == StackRun(StackRun(stack, a), b)
    decreases |a|
  {
    hide StackStep, Balanced;
    if a == [] {
      assert a + b == b;
    } else {
      assert (a + b)[1..] == a[1..] + b;
      BalancedConcat(StackStep(stack, a[0]), a[1..], b);
    }
  }

  lemma BalancedOne(stack: Stack, c: Call)
    requires Balanced(stack, c)
    ensures BalancedRun(stack, [c]) && StackRun(stack, [c]) == StackStep(stack, c)
  {
    hide StackStep, Balanced;
    assert [c][1..] == [];
  }

  /** The innermost open container has got a member. */
  function Marked(stack: Stack): Stack { stack[|stack| - 1 := true] }

  lemma BalancedBracket(stack: Stack, open: Call, inner: seq<Call>, close: Call)
    requires open.Opens() && close.Closes()
    requires BalancedRun(Marked(stack) + [false], inner)
    requires var inside := StackRun(Marked(stack) + [false], inner);
             inside == Marked(stack) + [false] || inside == Marked(Marked(stack) + [false])
    ensures BalancedRun(stack, [open] + inner + [close])
    ensures StackRun(stack, [open] + inner + [close]) == Marked(stack)
  {
    hide BalancedRun, StackRun;
    BalancedOne(stack, open);
    BalancedConcat(stack, [open], inner);
    var inside := StackRun(Marked(stack) + [false], inner);
    assert inside[..|inside| - 1] == Marked(stack);
    BalancedOne(inside, close);
    BalancedConcat(stack, [open] + inner, [close]);
  }

  lemma {:induction false} BalancedPieces(stack: Stack, calls: seq<Call>, t: string)
    requires AddPieces(calls, t)
    ensures BalancedRun(stack, calls) && StackRun(stack, calls) == stack
    decreases |calls|
  {
    if calls == [] {
    } else {
      BalancedPieces(stack, calls[1..], t[|Chars(calls[0].val)|..]);
    }
  }

  lemma BalancedLongString(stack: Stack, name: Name, calls: seq<Call>, t: string)
    requires calls != [] && Starts(calls[0], name) && IsLongString(calls, t)
    ensures BalancedRun(stack, calls) && StackRun(stack, calls) == Marked(stack)
  {
    hide BalancedRun, StackRun, AddPieces, Starts;
    var n := |calls| - 1;
    Split(calls);
    BalancedOne(stack, calls[0]);
    BalancedPieces(Marked(stack), calls[1..n], t[|Chars(calls[0].val)|..]);
    BalancedConcat(stack, [calls[0]], calls[1..n]);
    BalancedOne(Marked(stack), calls[n]);
    BalancedConcat(stack, [calls[0]] + calls[1..n], [calls[n]]);
  }

  lemma BalancedWhole(stack: Stack, c: Call, j: Json)
    requires IsWhole(c, j)
    ensures BalancedRun(stack, [c]) && StackRun(stack, [c]) == Marked(stack)
  {
    hide BalancedRun, StackRun, Print, Snprintf;
    BalancedOne(stack, c);
  }

  /** However a document is written, the calls are well nested. */
  lemma {:induction false} BalancedWrites(stack: Stack, name: Name, calls: seq<Call>, j: Json)
    requires Writes(name, calls, j)
    ensures BalancedRun(stack, calls) && StackRun(stack, calls) == Marked(stack)
    decreases j, 1
  {
    hide BalancedRun, StackRun, WritesElements, WritesMembers, Starts, IsWhole, IsLongString;
    var n := |calls| - 1;
    if |calls| == 1 {
      assert calls == [calls[0]];
      LongStringIsLong(calls, j);
      BalancedWhole(stack, calls[0], j);
    } else if j.String? {
      BalancedLongString(stack, name, calls, j.s);
    } else {
      Split(calls);
      if j.Array? {
        BalancedElements(Marked(stack) + [false], calls[1..n], j.elements);
      } else {
        BalancedMembers(Marked(stack) + [false], calls[1..n], j.members);
      }
      BalancedBracket(stack, calls[0], calls[1..n], calls[n]);
    }
  }

  lemma {:induction false} BalancedElements(stack: Stack, calls: seq<Call>, es: seq<Json>)
    requires WritesElements(calls, es)
    ensures BalancedRun(stack, calls)
    ensures StackRun(stack, calls) == if es == [] then stack else Marked(stack)
    decreases es, 0
  {
    if es == [] {
    } else {
      hide BalancedRun, StackRun, Writes;
      var k: nat :| k <= |calls| && Writes(None, calls[..k], es[0]) && WritesElements(calls[k..], es[1..]);
      assert calls == calls[..k] + calls[k..];
      BalancedWrites(stack, None, calls[..k], es[0]);
      BalancedElements(Marked(stack), calls[k..], es[1..]);
      BalancedConcat(stack, calls[..k], calls[k..]);
    }
  }

  lemma {:induction false} BalancedMembers(stack: Stack, calls: seq<Call>, ms: seq<Member>)
    requires WritesMembers(calls, ms)
    ensures BalancedRun(stack, calls)
    ensures StackRun(stack, calls) == if ms == [] then stack else Marked(stack)
    decreases ms, 0
  {
    if ms == [] {
    } else {
      hide BalancedRun, StackRun, Writes;
      var name := Some(ms[0].name);
      var k: nat :| k <= |calls| && Writes(name, calls[..k], ms[0].value) && WritesMembers(calls[k..], ms[1..]);
      assert calls == calls[..k] + calls[k..];
      BalancedWrites(stack, name, calls[..k], ms[0].value);
      BalancedMembers(Marked(stack), calls[k..], ms[1..]);
      BalancedConcat(stack, calls[..k], calls[k..]);
    }
  }

  // ----- the calls are clean -----

  predicate AllClean(calls: seq<Call>) { forall c | c in calls :: Clean(c) }

  lemma PlainIsClean(s: string)
    requires PlainString(s)
    ensures NUL !in s
  {
  }

  /** The text of a document has no NUL. */
  lemma {:induction false} PrintIsClean(j: Json)
    requires ValidJson(j)
    ensures NUL !in Print(j)
    decreases j, 1
  {
    hide PlainString, FloatToken, PrintElements, PrintMembers, IntText;
    match j
    case Int(i) => IntTextClean(i);
    case Float(t) => FloatHasNoNul(t);
    case String(s) => PlainIsClean(s);
    case Array(es) => PrintElementsClean(es);
    case Object(ms) => PrintMembersClean(ms);
    case _ =>
  }

  lemma {:induction false} PrintElementsClean(es: seq<Json>)
    requires forall i | 0 <= i < |es| :: ValidJson(es[i])
    ensures NUL !in PrintElements(es) && NUL !in PrintMoreElements(es)
    decreases es, 0
  {
    if es == [] {
    } else {
      hide ValidJson, Print;
      PrintIsClean(es[0]);
      PrintElementsClean(es[1..]);
    }
  }

  lemma {:induction false} PrintMembersClean(ms: seq<Member>)
    requires forall i | 0 <= i < |ms| :: PlainString(ms[i].name) && ValidJson(ms[i].value)
    ensures NUL !in PrintMembers(ms) && NUL !in PrintMoreMembers(ms)
    decreases ms, 0
  {
    if ms == [] {
    } else {
      hide ValidJson, PlainString, Print;
      PlainIsClean(ms[0].name);
      PrintIsClean(ms[0].value);
      PrintMembersClean(ms[1..]);
    }
  }

  predicate CleanName(name: Name) { name.Some? ==> NUL !in name.value }

  lemma CleanWhole(name: Name, c: Call, j: Json)
    requires Starts(c, name) && IsWhole(c, j) && ValidJson(j) && CleanName(name)
    ensures Clean(c)
  {
    hide PlainString, FloatToken, Print, PrintElements, PrintMembers;
    PrintIsClean(j);
    match j
    case Float(t) => FloatHasNoNul(t);
    case String(s) => PlainIsClean(s);
    case _ =>
  }

  lemma {:induction false} CleanPieces(calls: seq<Call>, t: string)
    requires AddPieces(calls, t) && NUL !in t
    ensures AllClean(calls)
    decreases |calls|
  {
    if calls == [] {
    } else {
      CleanPieces(calls[1..], t[|Chars(calls[0].val)|..]);
    }
  }

  lemma CleanLongString(name: Name, calls: seq<Call>, t: string)
    requires calls != [] && Starts(calls[0], name) && IsLongString(calls, t) && NUL !in t && CleanName(name)
    ensures AllClean(calls)
  {
    hide AddPieces;
    Split(calls);
    CleanPieces(calls[1..|calls| - 1], t[|Chars(calls[0].val)|..]);
  }

  lemma {:induction false} CleanWrites(name: Name, calls: seq<Call>, j: Json)
    requires Writes(name, calls, j) && ValidJson(j) && CleanName(name)
    ensures AllClean(calls)
    decreases j, 1
  {
    hide PlainString, FloatToken, WritesElements, WritesMembers, IsWhole, IsLongString;
    var n := |calls| - 1;
    if |calls| == 1 {
      LongStringIsLong(calls, j);
      CleanWhole(name, calls[0], j);
    } else if j.String? {
      PlainIsClean(j.s);
      CleanLongString(name, calls, j.s);
    } else {
      Split(calls);
      if j.Array? {
        CleanElements(calls[1..n], j.elements);
      } else {
        CleanMembers(calls[1..n], j.members);
      }
    }
  }

  lemma {:induction false} CleanElements(calls: seq<Call>, es: seq<Json>)
    requires WritesElements(calls, es) && forall i | 0 <= i < |es| :: ValidJson(es[i])
    ensures AllClean(calls)
    decreases es, 0
  {
    if es == [] {
    } else {
      hide ValidJson, Clean, Writes;
      var k: nat :| k <= |calls| && Writes(None, calls[..k], es[0]) && WritesElements(calls[k..], es[1..]);
      assert calls == calls[..k] + calls[k..];
      CleanWrites(None, calls[..k], es[0]);
      CleanElements(calls[k..], es[1..]);
    }
  }

  lemma {:induction false} CleanMembers(calls: seq<Call>, ms: seq<Member>)
    requires WritesMembers(calls, ms)
    requires forall i | 0 <= i < |ms| :: PlainString(ms[i].name) && ValidJson(ms[i].value)
    ensures AllClean(calls)
    decreases ms, 0
  {
    if ms == [] {
    } else {
      hide ValidJson, Clean, Writes, PlainString;
      var name := Some(ms[0].name);
      var k: nat :| k <= |calls| && Writes(name, calls[..k], ms[0].value) && WritesMembers(calls[k..], ms[1..]);
      assert calls == calls[..k] + calls[k..];
      PlainIsClean(ms[0].name);
      CleanWrites(name, calls[..k], ms[0].value);
      CleanMembers(calls[k..], ms[1..]);
    }
  }

  // ----- writing a document -----

  /** What any calls for a document write is its text, and parses to that document with nothing left over. */
  lemma DocumentRoundTrip(calls: seq<Call>, j: Json)
    requires Writes(None, calls, j) && ValidJson(j)
    ensures Run(START, calls).text == Print(j)
    ensures ParseValue(Run(START, calls).text) == Some((j, ""))
  {
    hide Run, ParseValue, Print, Writes, ValidJson;
    RunWrites(START, None, calls, j);
    ParsePrint(j, "");
    assert "" + Print(j) == Print(j) && Print(j) + "" == Print(j);
  }

  /** No calls write two documents. */
  lemma OneDocument(calls: seq<Call>, j: Json, j': Json)
    requires Writes(None, calls, j) && Writes(None, calls, j') && ValidJson(j) && ValidJson(j')
    ensures j == j'
  {
    hide Run, ParseValue, Print, Writes, ValidJson;
    DocumentRoundTrip(calls, j);
    DocumentRoundTrip(calls, j');
  }

  /** Measures and then writes a document: the buffer, read as a C string, parses to exactly that document. */
  method WriteDocument(calls: seq<Call>, ghost j: Json) returns (buf: array<char>, results: seq<int>)
    requires Writes(None, calls, j) && ValidJson(j)
    ensures fresh(buf) && buf.Length == |Print(j)| + 1
    ensures |results| == |calls| && forall r | r in results :: r == 0
    ensures CStringIn(buf[..]) == Print(j) && ParseValue(CStringIn(buf[..])) == Some((j, ""))
  {
    hide Run, ParseValue, Print, Writes, ValidJson, Clean, CStringIn;
    CleanWrites(None, calls, j);
    DocumentRoundTrip(calls, j);
    buf, results := MeasureThenWrite(calls);
  }

  /**
   Writes a document through a buffer of any size from two bytes on, which is handed to the flush function whenever it
   is full: every call succeeds, and what the flush function receives parses, joined together, to exactly that document.
   */
  method FlushDocument(buf: array<char>, bufSize: int, calls: seq<Call>, ghost j: Json)
      returns (results: seq<int>, len: int, ghost received: seq<string>)
    requires 2 <= bufSize <= buf.Length
    requires Writes(None, calls, j) && ValidJson(j)
    modifies buf
    ensures |results| == |calls| && forall r | r in results :: r == 0
    ensures len == |Print(j)| + 1
    ensures Concat(received) == Print(j) && ParseValue(Concat(received)) == Some((j, ""))
    ensures received != [] && forall c | c in received[..|received| - 1] :: |c| == bufSize - 1
  {
    hide Run, ParseValue, Print, Writes, ValidJson, Clean, CStringIn;
    CleanWrites(None, calls, j);
    DocumentRoundTrip(calls, j);
    results, len, received := Session(buf, bufSize, true, calls);
    forall i | 0 <= i < |calls| ensures results[i] == 0 { ResultsAt(None, calls, i); }
  }
}
