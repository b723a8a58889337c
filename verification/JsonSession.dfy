/**
 Whole runs of the JSON generator, from json_gen_str_start to json_gen_str_end.
 */
module JsonSession {
  import opened Arithmetic
  import opened Sequences
  import opened Options
  import opened JsonCalls
  import opened JsonGenerator

  /** No argument contains a NUL, integers have 32 bits, and what is printed for a float is not empty. */
  predicate Clean(c: Call) {
    match c
    case PushObject(n) => NUL !in Chars(n) case PushArray(n) => NUL !in Chars(n)
    case PushObjectStr(n, s) => NUL !in Chars(n) && NUL !in Chars(s)
    case PushArrayStr(n, s) => NUL !in Chars(n) && NUL !in Chars(s)
    case ObjSetBool(n, _) => NUL !in Chars(n)
    case ObjSetInt(n, i) => NUL !in Chars(n) && -0x8000_0000 <= i < 0x8000_0000
    case ArrSetInt(i) => -0x8000_0000 <= i < 0x8000_0000
    case ObjSetFloat(n, t) => NUL !in Chars(n) && NUL !in t && t != "" case ArrSetFloat(t) => NUL !in t && t != ""
    case ObjSetString(n, v) => NUL !in Chars(n) && NUL !in Chars(v) case ArrSetString(v) => NUL !in Chars(v)
    case ObjStartLongString(n, v) => NUL !in Chars(n) && NUL !in Chars(v) case ArrStartLongString(v) => NUL !in Chars(v)
    case AddToLongString(v) => NUL !in Chars(v)
    case ObjSetNull(n) => NUL !in Chars(n)
    case _ => true
  }

  method Perform(g: Generator, c: Call) returns (r: int)
    requires g.Valid() && Clean(c) && (c.Silent() || g.FlushMakesRoom())
    modifies g`freePos, g`totalLen, g`flushed, g`text, g`commaReq, g.buf
    ensures g.Performed(c, r)
  {
    hide Call.Text, Generator.Valid;
    match c
    case StartObject => r := g.StartObject();
    case EndObject => r := g.EndObject();
    case StartArray => r := g.StartArray();
    case EndArray => r := g.EndArray();
    case PushObject(n) => r := g.PushObject(n);
    case PopObject => r := g.PopObject();
    case PushArray(n) => r := g.PushArray(n);
    case PopArray => r := g.PopArray();
    case PushObjectStr(n, s) => r := g.PushObjectStr(n, s);
    case PushArrayStr(n, s) => r := g.PushArrayStr(n, s);
    case ObjSetBool(n, b) => r := g.ObjSetBool(n, b);
    case ArrSetBool(b) => r := g.ArrSetBool(b);
    case ObjSetInt(n, i) => r := g.ObjSetInt(n, i);
    case ArrSetInt(i) => r := g.ArrSetInt(i);
    case ObjSetFloat(n, t) => r := g.ObjSetFloat(n, t);
    case ArrSetFloat(t) => r := g.ArrSetFloat(t);
    case ObjSetString(n, v) => r := g.ObjSetString(n, v);
    case ArrSetString(v) => r := g.ArrSetString(v);
    case ObjStartLongString(n, v) => r := g.ObjStartLongString(n, v);
    case ArrStartLongString(v) => r := g.ArrStartLongString(v);
    case AddToLongString(v) => r := g.AddToLongString(v);
    case EndLongString => r := g.EndLongString();
    case ObjSetNull(n) => r := g.ObjSetNull(n);
    case ArrSetNull => r := g.ArrSetNull();
  }

  // ----- the results of a run -----

  /** How many characters a run can hold; None if it is flushed or only measured. */
  type Room = Option<nat>

  predicate Exceeds(text: string, room: Room) { room.Some? && |text| > room.value }

  /** The results of the calls of a run. */
  function Results(room: Room, calls: seq<Call>): (results: seq<int>)
    ensures |results| == |calls|
  {
    if calls == [] then []
    else
      var last := calls[|calls| - 1];
      Results(room, calls[..|calls| - 1])
      + [if !last.EndsEmpty() && Exceeds(Run(START, calls).text, room) then -1 else 0]
  }

  lemma {:induction false} ResultsAt(room: Room, calls: seq<Call>, i: nat)
    requires i < |calls|
    ensures Results(room, calls)[i] == if !calls[i].EndsEmpty()
        && Exceeds(Run(START, calls[..i + 1]).text, room) then -1 else 0
  {
    hide Call.EndsEmpty;
    if i == |calls| - 1 {
      assert calls[..i + 1] == calls;
    } else {
      ResultsAt(room, calls[..|calls| - 1], i);
      assert calls[..|calls| - 1][..i + 1] == calls[..i + 1];
    }
  }

  /** The text only grows. */
  lemma TextGrows(calls: seq<Call>, i: nat)
    requires i <= |calls|
    ensures Run(START, calls[..i]).text <= Run(START, calls).text
  {
    hide Call.Text, Run, Step;
    RunConcat(START, calls[..i], calls[i..]);
    assert calls[..i] + calls[i..] == calls;
    RunExtends(Run(START, calls[..i]), calls[i..]);
  }

  lemma {:induction false} RunExtends(s: State, calls: seq<Call>)
    ensures s.text <= Run(s, calls).text
  {
    hide Call.Text;
    if calls == [] {
    } else {
      RunExtends(s, calls[..|calls| - 1]);
    }
  }

  /** Once the room is exceeded, every later call that ends with something reports it. */
  lemma FailureSticks(room: Room, calls: seq<Call>, i: nat, j: nat)
    requires i <= j < |calls| && Results(room, calls)[i] == -1 && !calls[j].EndsEmpty()
    ensures Results(room, calls)[j] == -1
  {
    hide Call.EndsEmpty, Results, Run;
    ResultsAt(room, calls, i);
    ResultsAt(room, calls, j);
    TextGrows(calls[..j + 1], i + 1);
    assert calls[..j + 1][..i + 1] == calls[..i + 1];
  }

  /** An empty string added last hides that the text before it was cut off. */
  lemma EmptyStringHidesFailure()
    ensures Results(Some(0), [Call.StartObject, AddToLongString(Some(""))]) == [-1, 0]
  {
    var calls := [Call.StartObject, AddToLongString(Some(""))];
    assert calls[..1] == [Call.StartObject] && calls[..0] == [];
    ResultsAt(Some(0), calls, 0);
    ResultsAt(Some(0), calls, 1);
    RunOne(START, Call.StartObject);
  }

  /** It is enough to look at the result of the last closing bracket. */
  lemma LastResultDecides(room: Room, calls: seq<Call>)
    requires calls != [] && calls[|calls| - 1].Closes()
    ensures var results := Results(room, calls);
            (results[|calls| - 1] == 0) <==> !Exceeds(Run(START, calls).text, room)
    ensures var results := Results(room, calls);
            results[|calls| - 1] == 0 ==> forall i | 0 <= i < |calls| :: results[i] == 0
  {
    hide Results, Run;
    var n := |calls| - 1;
    ResultsAt(room, calls, n);
    assert calls[..n + 1] == calls;
    forall i | 0 <= i < |calls| && Results(room, calls)[n] == 0 ensures Results(room, calls)[i] == 0 {
      ResultsAt(room, calls, i);
      if Results(room, calls)[i] == -1 { FailureSticks(room, calls, i, n); }
    }
  }

  // ----- sessions -----

  function RoomOf(hasBuf: bool, bufSize: int, hasFlush: bool): Room
    requires hasBuf ==> bufSize >= 1
  {
    if hasBuf && !hasFlush then Some(bufSize - 1) else None
  }

  /**
   One run. Whatever the mode, the length returned is that of the text, with one for the NUL; the flush function
   receives the whole text, in chunks that fill the buffer except for the last; without it, the buffer holds as much
   of the text as fits.
   */
  method Session(buf: array?<char>, bufSize: int, hasFlush: bool, calls: seq<Call>)
      returns (results: seq<int>, len: int, ghost received: seq<string>)
    requires buf != null ==> 1 <= bufSize <= buf.Length
    requires buf != null && hasFlush ==> bufSize >= 2 || forall c | c in calls :: c.Silent()
    requires forall c | c in calls :: Clean(c)
    modifies buf
    ensures results == Results(RoomOf(buf != null, bufSize, hasFlush), calls)
    ensures len == |Run(START, calls).text| + 1
    ensures buf != null && hasFlush ==>
              && Concat(received) == Run(START, calls).text && |received| >= 1
              && forall c | c in received[..|received| - 1] :: |c| == bufSize - 1
    ensures buf != null && !hasFlush ==>
              CStringIn(buf[..]) == Run(START, calls).text[..Min(|Run(START, calls).text|, bufSize - 1)]
  {
    hide Call.Text, Call.CommaAfter, Call.EndsEmpty, Generator.Contents, Call.Begins, Call.Opens, Call.Body, Call.Name,
      Call.Silent, Clean, Concat, CStringIn;
    var g := new Generator.StrStart(buf, bufSize, hasFlush);
    ghost var room := RoomOf(buf != null, bufSize, hasFlush);
    results := [];
    for i := 0 to |calls|
      invariant g.Valid() && g.buf == buf && g.bufSize == bufSize && g.hasFlush == hasFlush && fresh(g)
      invariant State(g.text, g.commaReq) == Run(START, calls[..i])
      invariant results == Results(room, calls[..i])
    {
      var r := Perform(g, calls[i]);
      assert calls[..i + 1][..i] == calls[..i];
      results := results + [r];
    }
    assert calls[..|calls|] == calls;
    len := g.StrEnd();
    received := g.received;
  }

  /** Measuring first, and then writing into a buffer of just that size, always succeeds and writes everything. */
  method MeasureThenWrite(calls: seq<Call>) returns (buf: array<char>, results: seq<int>)
    requires forall c | c in calls :: Clean(c)
    ensures fresh(buf) && buf.Length == |Run(START, calls).text| + 1
    ensures forall r | r in results :: r == 0
    ensures |results| == |calls|
    ensures CStringIn(buf[..]) == Run(START, calls).text
  {
    hide Run, Clean;
    ghost var received;
    var len;
    results, len, received := Session(null, 0, false, calls);
    buf := new char[len];
    results, len, received := Session(buf, len, false, calls);
    forall i | 0 <= i < |calls| ensures results[i] == 0 {
      ResultsAt(Some(buf.Length - 1), calls, i);
      TextGrows(calls, i + 1);
    }
  }
}
