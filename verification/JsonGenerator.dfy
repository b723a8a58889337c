/**
 The JSON generator: a fixed buffer that is flushed when full, truncated when there is
 no flush function, and only measured when there is no buffer.
 */
module JsonGenerator {
  import opened FlushLoop
  import opened Arithmetic
  import opened Sequences
  import opened Options
  import opened JsonCalls

  const NUL: char := '\0'

  /** The string that a C function sees at the start of a buffer: everything before the first NUL. */
  function CStringIn(buf: seq<char>): string {
    if buf == [] || buf[0] == NUL then "" else [buf[0]] + CStringIn(buf[1..])
  }

  lemma {:induction false} CStringBeforeNul(buf: seq<char>, k: nat)
    requires k < |buf| && buf[k] == NUL && NUL !in buf[..k]
    ensures CStringIn(buf) == buf[..k]
  {
    if k == 0 {
    } else {
      assert buf[0] == buf[..k][0];
      assert buf[1..][..k - 1] == buf[..k][1..];
      CStringBeforeNul(buf[1..], k - 1);
    }
  }

  /** memmove(&buf[at], &src[from], n) */
  method CopyChars(buf: array<char>, at: nat, src: string, from: nat, n: nat)
    requires at + n <= buf.Length && from + n <= |src|
    modifies buf
    ensures buf[..] == old(buf[..at]) + src[from..from + n] + old(buf[at + n..])
  {
    for i := 0 to n
      invariant forall k | 0 <= k < buf.Length :: buf[k] == if at <= k < at + i then src[from + k - at] else old(buf[k])
    {
      buf[at + i] := src[from + i];
    }
  }

  class Generator {
    var buf: array?<char>
    var bufSize: int
    var hasFlush: bool
    var freePos: nat
    var totalLen: nat
    var commaReq: bool

    /** What the flush function has received so far, and everything that was added. */
    ghost var flushed: seq<string>
    ghost var text: string

    /** What the flush function had received when the last string was ended. */
    ghost var received: seq<string>

    ghost predicate Valid()
      reads `buf, `bufSize, `hasFlush, `freePos, `totalLen, `flushed, `text, buf
    {
      && totalLen == |text| && NUL !in text
      && (if buf == null then flushed == [] else InBounds() && Contents(text))
    }

    ghost predicate InBounds()
      requires buf != null
      reads `buf, `bufSize, `hasFlush, `freePos
    {
      1 <= bufSize <= buf.Length && freePos <= bufSize - 1
    }

    /**
     With a flush function, the chunks flushed and the buffer make up the target, and every chunk filled the buffer.
     Without one, the buffer holds the longest prefix of the target for which it has room.
     */
    ghost predicate Contents(target: string)
      requires buf != null && InBounds()
      reads `buf, `bufSize, `hasFlush, `freePos, `flushed, buf
    {
      if hasFlush then
        Concat(flushed) + buf[..freePos] == target && forall c | c in flushed :: |c| == bufSize - 1
      else
        flushed == [] && freePos == Min(|target|, bufSize - 1) && buf[..freePos] == target[..freePos]
    }

    /** The text does not fit. */
    ghost predicate Overflow()
      reads `buf, `bufSize, `hasFlush, `text
    {
      buf != null && !hasFlush && |text| > bufSize - 1
    }

    /** Flushing makes room, so that the copy loop ends. */
    ghost predicate FlushMakesRoom()
      reads `buf, `bufSize, `hasFlush
    {
      buf != null && hasFlush ==> bufSize >= 2
    }

    /** json_gen_str_start */
    constructor StrStart(buf: array?<char>, bufSize: int, hasFlush: bool)
      requires buf != null ==> 1 <= bufSize <= buf.Length
      ensures Valid() && text == "" && flushed == [] && !commaReq
      ensures this.buf == buf && this.bufSize == bufSize && this.hasFlush == hasFlush
    {
      this.buf, this.bufSize, this.hasFlush := buf, bufSize, hasFlush;
      freePos, totalLen, commaReq := 0, 0, false;
      flushed, text := [], "";
    }

    /** The buffer never holds a NUL before its end. */
    lemma NoNul(target: string)
      requires buf != null && InBounds() && Contents(target) && NUL !in target
      ensures NUL !in buf[..freePos]
    {
      if hasFlush {
        forall k | 0 <= k < freePos ensures buf[k] != NUL {
          assert (Concat(flushed) + buf[..freePos])[|Concat(flushed)| + k] == buf[k];
        }
      }
    }

    /** The buffer is full: hands it to the flush function, as the C string that it is, and starts over. */
    method Flush(ghost target: string)
      requires buf != null && InBounds() && hasFlush && Contents(target) && NUL !in target
      requires freePos == bufSize - 1
      modifies this`flushed, this`freePos, buf
      ensures flushed == old(flushed) + [old(buf[..freePos])] && freePos == 0
      ensures InBounds() && Contents(target)
    {
      NoNul(target);
      ghost var chunk := buf[..freePos];
      buf[freePos] := NUL;
      CStringBeforeNul(buf[..], freePos);
      assert buf[..][..freePos] == chunk;
      ConcatSnoc(flushed, chunk);
      flushed := flushed + [CStringIn(buf[..])];
      freePos := 0;
      assert buf[..0] == [];
    }

    /** Copies a part for which there is room. */
    method CopyPart(src: string, from: nat, n: nat, ghost target: string)
      requires buf != null && InBounds() && Contents(target)
      requires from + n <= |src| && n <= bufSize - freePos - 1
      modifies this`freePos, buf
      ensures InBounds() && freePos == old(freePos) + n && Contents(target + src[from..from + n])
      ensures !hasFlush && n > 0 ==> |target + src[from..from + n]| <= bufSize - 1
      ensures !hasFlush && freePos == bufSize - 1 ==> |target + src[from..from + n]| >= bufSize - 1
    {
      CopyChars(buf, freePos, src, from, n);
      freePos := freePos + n;
      assert buf[..freePos] == old(buf[..freePos]) + src[from..from + n];
    }

    /** Once the buffer is full, nothing added later changes what it must hold. */
    lemma FullBuffer(target: string, more: string)
      requires buf != null && InBounds() && Contents(target) && !hasFlush && freePos == bufSize - 1
      ensures Contents(target + more)
    {
      assert (target + more)[..freePos] == target[..freePos];
    }

    method Terminate(ghost target: string)
      requires buf != null && InBounds() && Contents(target)
      modifies buf
      ensures InBounds() && Contents(target) && buf[freePos] == NUL
    {
      ghost var chunk := buf[..freePos];
      buf[freePos] := NUL;
      assert buf[..freePos] == chunk;
    }

    /**
     The loop of json_gen_add_to_str: writes the string, after what was added before. When it flushes, it takes the
     number of rounds that the sizes say.
     */
    method WriteOut(s: string, ghost before: string) returns (r: int, ghost rounds: nat)
      requires buf != null && InBounds() && Contents(before) && NUL !in before && NUL !in s
      requires s != "" ==> FlushMakesRoom()
      modifies this`freePos, this`flushed, buf
      ensures InBounds() && Contents(before + s)
      ensures r == if s != "" && !hasFlush && |before + s| > bufSize - 1 then -1 else 0
      ensures hasFlush ==> Ends(bufSize, old(freePos), |s|, rounds)
    {
      hide Contents, Continues, Ends;
      var cur, len := 0, |s|;
      rounds := 0;
      ghost var start := freePos;
      ContinuesStart(bufSize, start, |s|);
      assert before + s[..0] == before;
      while true
        invariant 0 <= cur <= |s| && len == |s| - cur
        invariant InBounds() && Contents(before + s[..cur])
        invariant !hasFlush ==> cur == 0
        invariant Continues(bufSize, start, |s|, freePos, len, rounds)
        decreases len, freePos
      {
        var lenRemaining := bufSize - freePos - 1;
        var copyLen := if lenRemaining > len then len else lenRemaining;
        ghost var target := before + s[..cur];
        ContinuesRound(bufSize, start, |s|, freePos, len, rounds);
        rounds := rounds + 1;
        CopyPart(s, cur, copyLen, target);
        assert target + s[cur..cur + copyLen] == before + s[..cur + copyLen];
        cur, len := cur + copyLen, len - copyLen;
        if len != 0 {
          assert before + s[..cur] + s[cur..] == before + s;
          if !hasFlush {
            FullBuffer(before + s[..cur], s[cur..]);
            Terminate(before + s);
            return -1, rounds;
          }
          Flush(before + s[..cur]);
        } else {
          assert s[..cur] == s;
          break;
        }
      }
      return 0, rounds;
    }

    /** json_gen_add_to_str */
    method AddToStr(str: CString) returns (r: int)
      requires Valid() && NUL !in Chars(str)
      requires Chars(str) != "" ==> FlushMakesRoom()
      modifies this`freePos, this`totalLen, this`flushed, this`text, buf
      ensures Valid()
      ensures text == old(text) + Chars(str)
      ensures r == if Chars(str) != "" && Overflow() then -1 else 0
    {
      if str.None? {
        return 0;
      }
      totalLen := totalLen + |str.value|;
      ghost var before := text;
      text := text + str.value;
      if buf == null {
        return 0;
      }
      ghost var rounds;
      r, rounds := WriteOut(str.value, before);
    }

    /** json_gen_str_end: terminates and flushes what is left, and forgets the buffer. */
    method StrEnd() returns (len: int)
      requires Valid()
      modifies this, buf
      ensures len == |old(text)| + 1
      ensures Valid() && buf == null && text == ""
      ensures old(buf) != null && old(hasFlush) ==>
                && Concat(received) == old(text) && |received| == |old(flushed)| + 1
                && forall c | c in received[..|received| - 1] :: |c| == old(bufSize) - 1
      ensures old(buf) != null && !old(hasFlush) ==>
                CStringIn(old(buf)[..]) == old(text)[..Min(|old(text)|, old(bufSize) - 1)]
    {
      len := totalLen + 1;
      received := flushed;
      if buf != null {
        NoNul(text);
        ghost var chunk := buf[..freePos];
        buf[freePos] := NUL;
        CStringBeforeNul(buf[..], freePos);
        assert buf[..][..freePos] == chunk;
        if hasFlush {
          ConcatSnoc(flushed, chunk);
          received := flushed + [CStringIn(buf[..])];
          assert received[..|received| - 1] == flushed;
        }
      }
      buf, bufSize, hasFlush, freePos, totalLen, commaReq := null, 0, false, 0, 0, false;
      flushed, text := [], "";
    }

    // ----- the calls -----

    /** The call has written its text and left the flag and the result that the calls' description says. */
    twostate predicate Performed(c: Call, r: int)
      reads this, buf
    {
      && Valid()
      && text == old(text) + c.Text(old(commaReq))
      && commaReq == c.CommaAfter(old(commaReq))
      && r == if !c.EndsEmpty() && Overflow() then -1 else 0
    }

    method HandleComma()
      requires Valid() && FlushMakesRoom()
      modifies `freePos, `totalLen, `flushed, `text, buf
      ensures Valid() && text == old(text) + CommaText(commaReq)
    {
      if commaReq {
        var _ := AddToStr(Some(","));
      }
    }

    method HandleName(name: CString) returns (r: int)
      requires Valid() && FlushMakesRoom() && NUL !in Chars(name)
      modifies `freePos, `totalLen, `flushed, `text, buf
      ensures Valid() && text == old(text) + NameText(name) && r == if Overflow() then -1 else 0
    {
      hide Valid, Overflow;
      ghost var was := text;
      r := AddToStr(Some("\""));
      r := AddToStr(name);
      r := AddToStr(Some("\":"));
      assert was + "\"" + Chars(name) + "\":" == was + NameText(name);
    }

    method StartObject() returns (r: int)
      requires Valid() && FlushMakesRoom()
      modifies `freePos, `totalLen, `flushed, `text, `commaReq, buf
      ensures Performed(Call.StartObject, r)
    {
      hide Call.Text, CommaText, NameText, Quoted, BoolText, IntText, Valid, Overflow;
      ElementText(Call.StartObject, commaReq, text);
      HandleComma();
      commaReq := false;
      r := AddToStr(Some("{"));
    }

    method EndObject() returns (r: int)
      requires Valid() && FlushMakesRoom()
      modifies `freePos, `totalLen, `flushed, `text, `commaReq, buf
      ensures Performed(Call.EndObject, r)
    {
      hide Call.Text, CommaText, NameText, Quoted, BoolText, IntText, Valid, Overflow;
      PlainText(Call.EndObject, commaReq, text);
      commaReq := true;
      r := AddToStr(Some("}"));
    }

    method StartArray() returns (r: int)
      requires Valid() && FlushMakesRoom()
      modifies `freePos, `totalLen, `flushed, `text, `commaReq, buf
      ensures Performed(Call.StartArray, r)
    {
      hide Call.Text, CommaText, NameText, Quoted, BoolText, IntText, Valid, Overflow;
      ElementText(Call.StartArray, commaReq, text);
      HandleComma();
      commaReq := false;
      r := AddToStr(Some("["));
    }

    method EndArray() returns (r: int)
      requires Valid() && FlushMakesRoom()
      modifies `freePos, `totalLen, `flushed, `text, `commaReq, buf
      ensures Performed(Call.EndArray, r)
    {
      hide Call.Text, CommaText, NameText, Quoted, BoolText, IntText, Valid, Overflow;
      PlainText(Call.EndArray, commaReq, text);
      commaReq := true;
      r := AddToStr(Some("]"));
    }

    method PushObject(name: CString) returns (r: int)
      requires Valid() && FlushMakesRoom() && NUL !in Chars(name)
      modifies `freePos, `totalLen, `flushed, `text, `commaReq, buf
      ensures Performed(Call.PushObject(name), r)
    {
      hide Call.Text, CommaText, NameText, Quoted, BoolText, IntText, Valid, Overflow;
      MemberText(Call.PushObject(name), commaReq, text);
      HandleComma();
      r := HandleName(name);
      commaReq := false;
      r := AddToStr(Some("{"));
    }

    method PopObject() returns (r: int)
      requires Valid() && FlushMakesRoom()
      modifies `freePos, `totalLen, `flushed, `text, `commaReq, buf
      ensures Performed(Call.PopObject, r)
    {
      hide Call.Text, CommaText, NameText, Quoted, BoolText, IntText, Valid, Overflow;
      PlainText(Call.PopObject, commaReq, text);
      commaReq := true;
      r := AddToStr(Some("}"));
    }

    method PushObjectStr(name: CString, str: CString) returns (r: int)
      requires Valid() && FlushMakesRoom() && NUL !in Chars(name) && NUL !in Chars(str)
      modifies `freePos, `totalLen, `flushed, `text, `commaReq, buf
      ensures Performed(Call.PushObjectStr(name, str), r)
    {
      hide Call.Text, CommaText, NameText, Quoted, BoolText, IntText, Valid, Overflow;
      MemberText(Call.PushObjectStr(name, str), commaReq, text);
      HandleComma();
      r := HandleName(name);
      commaReq := true;
      r := AddToStr(str);
    }

    method PushArray(name: CString) returns (r: int)
      requires Valid() && FlushMakesRoom() && NUL !in Chars(name)
      modifies `freePos, `totalLen, `flushed, `text, `commaReq, buf
      ensures Performed(Call.PushArray(name), r)
    {
      hide Call.Text, CommaText, NameText, Quoted, BoolText, IntText, Valid, Overflow;
      MemberText(Call.PushArray(name), commaReq, text);
      HandleComma();
      r := HandleName(name);
      commaReq := false;
      r := AddToStr(Some("["));
    }

    method PopArray() returns (r: int)
      requires Valid() && FlushMakesRoom()
      modifies `freePos, `totalLen, `flushed, `text, `commaReq, buf
      ensures Performed(Call.PopArray, r)
    {
      hide Call.Text, CommaText, NameText, Quoted, BoolText, IntText, Valid, Overflow;
      PlainText(Call.PopArray, commaReq, text);
      commaReq := true;
      r := AddToStr(Some("]"));
    }

    method PushArrayStr(name: CString, str: CString) returns (r: int)
      requires Valid() && FlushMakesRoom() && NUL !in Chars(name) && NUL !in Chars(str)
      modifies `freePos, `totalLen, `flushed, `text, `commaReq, buf
      ensures Performed(Call.PushArrayStr(name, str), r)
    {
      hide Call.Text, CommaText, NameText, Quoted, BoolText, IntText, Valid, Overflow;
      MemberText(Call.PushArrayStr(name, str), commaReq, text);
      HandleComma();
      r := HandleName(name);
      commaReq := true;
      r := AddToStr(str);
    }

    method SetBool(val: bool) returns (r: int)
      requires Valid() && FlushMakesRoom()
      modifies `freePos, `totalLen, `flushed, `text, `commaReq, buf
      ensures Valid() && text == old(text) + BoolText(val) && commaReq
      ensures r == if Overflow() then -1 else 0
    {
      commaReq := true;
      if val {
        r := AddToStr(Some("true"));
      } else {
        r := AddToStr(Some("false"));
      }
    }

    method ObjSetBool(name: CString, val: bool) returns (r: int)
      requires Valid() && FlushMakesRoom() && NUL !in Chars(name)
      modifies `freePos, `totalLen, `flushed, `text, `commaReq, buf
      ensures Performed(Call.ObjSetBool(name, val), r)
    {
      hide Call.Text, CommaText, NameText, Quoted, BoolText, IntText, Valid, Overflow;
      MemberText(Call.ObjSetBool(name, val), commaReq, text);
      HandleComma();
      r := HandleName(name);
      r := SetBool(val);
    }

    method ArrSetBool(val: bool) returns (r: int)
      requires Valid() && FlushMakesRoom()
      modifies `freePos, `totalLen, `flushed, `text, `commaReq, buf
      ensures Performed(Call.ArrSetBool(val), r)
    {
      hide Call.Text, CommaText, NameText, Quoted, BoolText, IntText, Valid, Overflow;
      ElementText(Call.ArrSetBool(val), commaReq, text);
      HandleComma();
      r := SetBool(val);
    }

    /** "%d"; the digits of a 32-bit number fit into the local buffer of the source. */
    method SetInt(val: int) returns (r: int)
      requires Valid() && FlushMakesRoom() && -0x8000_0000 <= val < 0x8000_0000
      modifies `freePos, `totalLen, `flushed, `text, `commaReq, buf
      ensures Valid() && text == old(text) + IntText(val) && commaReq
      ensures r == if Overflow() then -1 else 0
    {
      IntTextClean(val);
      IntTextFits(val);
      commaReq := true;
      var str := Snprintf(IntText(val), MAX_INT_IN_STR);
      r := AddToStr(Some(str));
    }

    method ObjSetInt(name: CString, val: int) returns (r: int)
      requires Valid() && FlushMakesRoom() && NUL !in Chars(name) && -0x8000_0000 <= val < 0x8000_0000
      modifies `freePos, `totalLen, `flushed, `text, `commaReq, buf
      ensures Performed(Call.ObjSetInt(name, val), r)
    {
      hide Call.Text, CommaText, NameText, Quoted, BoolText, IntText, Valid, Overflow;
      MemberText(Call.ObjSetInt(name, val), commaReq, text);
      HandleComma();
      r := HandleName(name);
      r := SetInt(val);
    }

    method ArrSetInt(val: int) returns (r: int)
      requires Valid() && FlushMakesRoom() && -0x8000_0000 <= val < 0x8000_0000
      modifies `freePos, `totalLen, `flushed, `text, `commaReq, buf
      ensures Performed(Call.ArrSetInt(val), r)
    {
      hide Call.Text, CommaText, NameText, Quoted, BoolText, IntText, Valid, Overflow;
      ElementText(Call.ArrSetInt(val), commaReq, text);
      HandleComma();
      r := SetInt(val);
    }

    /** "%.*f"; what it prints is cut to the size of the local buffer of the source. */
    method SetFloat(printed: string) returns (r: int)
      requires Valid() && FlushMakesRoom() && NUL !in printed
      modifies `freePos, `totalLen, `flushed, `text, `commaReq, buf
      ensures Valid() && text == old(text) + Snprintf(printed, MAX_FLOAT_IN_STR) && commaReq
      ensures r == if printed != "" && Overflow() then -1 else 0
    {
      commaReq := true;
      var str := Snprintf(printed, MAX_FLOAT_IN_STR);
      r := AddToStr(Some(str));
    }

    method ObjSetFloat(name: CString, printed: string) returns (r: int)
      requires Valid() && FlushMakesRoom() && NUL !in Chars(name) && NUL !in printed
      modifies `freePos, `totalLen, `flushed, `text, `commaReq, buf
      ensures Performed(Call.ObjSetFloat(name, printed), r)
    {
      hide Call.Text, CommaText, NameText, Quoted, BoolText, IntText, Snprintf, Valid, Overflow;
      MemberText(Call.ObjSetFloat(name, printed), commaReq, text);
      HandleComma();
      r := HandleName(name);
      r := SetFloat(printed);
    }

    method ArrSetFloat(printed: string) returns (r: int)
      requires Valid() && FlushMakesRoom() && NUL !in printed
      modifies `freePos, `totalLen, `flushed, `text, `commaReq, buf
      ensures Performed(Call.ArrSetFloat(printed), r)
    {
      hide Call.Text, CommaText, NameText, Quoted, BoolText, IntText, Snprintf, Valid, Overflow;
      ElementText(Call.ArrSetFloat(printed), commaReq, text);
      HandleComma();
      r := SetFloat(printed);
    }

    method SetString(val: CString) returns (r: int)
      requires Valid() && FlushMakesRoom() && NUL !in Chars(val)
      modifies `freePos, `totalLen, `flushed, `text, `commaReq, buf
      ensures Valid() && text == old(text) + Quoted(Chars(val)) && commaReq
      ensures r == if Overflow() then -1 else 0
    {
      hide Valid, Overflow;
      ghost var was := text;
      commaReq := true;
      r := AddToStr(Some("\""));
      r := AddToStr(val);
      r := AddToStr(Some("\""));
      assert was + "\"" + Chars(val) + "\"" == was + Quoted(Chars(val));
    }

    method ObjSetString(name: CString, val: CString) returns (r: int)
      requires Valid() && FlushMakesRoom() && NUL !in Chars(name) && NUL !in Chars(val)
      modifies `freePos, `totalLen, `flushed, `text, `commaReq, buf
      ensures Performed(Call.ObjSetString(name, val), r)
    {
      hide Call.Text, CommaText, NameText, Quoted, BoolText, IntText, Valid, Overflow;
      MemberText(Call.ObjSetString(name, val), commaReq, text);
      HandleComma();
      r := HandleName(name);
      r := SetString(val);
    }

    method ArrSetString(val: CString) returns (r: int)
      requires Valid() && FlushMakesRoom() && NUL !in Chars(val)
      modifies `freePos, `totalLen, `flushed, `text, `commaReq, buf
      ensures Performed(Call.ArrSetString(val), r)
    {
      hide Call.Text, CommaText, NameText, Quoted, BoolText, IntText, Valid, Overflow;
      ElementText(Call.ArrSetString(val), commaReq, text);
      HandleComma();
      r := SetString(val);
    }

    method SetLongString(val: CString) returns (r: int)
      requires Valid() && FlushMakesRoom() && NUL !in Chars(val)
      modifies `freePos, `totalLen, `flushed, `text, `commaReq, buf
      ensures Valid() && text == old(text) + "\"" + Chars(val) && commaReq
      ensures r == if Chars(val) != "" && Overflow() then -1 else 0
    {
      commaReq := true;
      r := AddToStr(Some("\""));
      r := AddToStr(val);
    }

    method ObjStartLongString(name: CString, val: CString) returns (r: int)
      requires Valid() && FlushMakesRoom() && NUL !in Chars(name) && NUL !in Chars(val)
      modifies `freePos, `totalLen, `flushed, `text, `commaReq, buf
      ensures Performed(Call.ObjStartLongString(name, val), r)
    {
      hide Call.Text, CommaText, NameText, Quoted, BoolText, IntText, Valid, Overflow;
      MemberText(Call.ObjStartLongString(name, val), commaReq, text);
      HandleComma();
      r := HandleName(name);
      r := SetLongString(val);
    }

    method ArrStartLongString(val: CString) returns (r: int)
      requires Valid() && FlushMakesRoom() && NUL !in Chars(val)
      modifies `freePos, `totalLen, `flushed, `text, `commaReq, buf
      ensures Performed(Call.ArrStartLongString(val), r)
    {
      hide Call.Text, CommaText, NameText, Quoted, BoolText, IntText, Valid, Overflow;
      ElementText(Call.ArrStartLongString(val), commaReq, text);
      HandleComma();
      r := SetLongString(val);
    }

    method AddToLongString(val: CString) returns (r: int)
      requires Valid() && NUL !in Chars(val)
      requires Chars(val) != "" ==> FlushMakesRoom()
      modifies `freePos, `totalLen, `flushed, `text, `commaReq, buf
      ensures Performed(Call.AddToLongString(val), r)
    {
      hide Call.Text, CommaText, NameText, Quoted, BoolText, IntText, Valid, Overflow;
      PlainText(Call.AddToLongString(val), commaReq, text);
      r := AddToStr(val);
    }

    method EndLongString() returns (r: int)
      requires Valid() && FlushMakesRoom()
      modifies `freePos, `totalLen, `flushed, `text, `commaReq, buf
      ensures Performed(Call.EndLongString, r)
    {
      hide Call.Text, CommaText, NameText, Quoted, BoolText, IntText, Valid, Overflow;
      PlainText(Call.EndLongString, commaReq, text);
      r := AddToStr(Some("\""));
    }

    method SetNull() returns (r: int)
      requires Valid() && FlushMakesRoom()
      modifies `freePos, `totalLen, `flushed, `text, `commaReq, buf
      ensures Valid() && text == old(text) + "null" && commaReq
      ensures r == if Overflow() then -1 else 0
    {
      commaReq := true;
      r := AddToStr(Some("null"));
    }

    method ObjSetNull(name: CString) returns (r: int)
      requires Valid() && FlushMakesRoom() && NUL !in Chars(name)
      modifies `freePos, `totalLen, `flushed, `text, `commaReq, buf
      ensures Performed(Call.ObjSetNull(name), r)
    {
      hide Call.Text, CommaText, NameText, Quoted, BoolText, IntText, Valid, Overflow;
      MemberText(Call.ObjSetNull(name), commaReq, text);
      HandleComma();
      r := HandleName(name);
      r := SetNull();
    }

    method ArrSetNull() returns (r: int)
      requires Valid() && FlushMakesRoom()
      modifies `freePos, `totalLen, `flushed, `text, `commaReq, buf
      ensures Performed(Call.ArrSetNull, r)
    {
      hide Call.Text, CommaText, NameText, Quoted, BoolText, IntText, Valid, Overflow;
      ElementText(Call.ArrSetNull, commaReq, text);
      HandleComma();
      r := SetNull();
    }
  }

  lemma {:induction false} NatTextClean(n: nat)
    ensures NUL !in NatText(n)
  {
    if n < 10 {
    } else {
      NatTextClean(n / 10);
    }
  }

  lemma IntTextClean(i: int)
    ensures NUL !in IntText(i) && IntText(i) != ""
  {
    NatTextClean(if i < 0 then -i else i);
  }
}
