/**
 The dispatcher: one request in, one reply out.
 */
module CommandHandler {
  import opened Sequences
  import opened Options
  import opened Tlv
  import opened TlvBuffer
  import opened CommandRegistry
  import opened CommandProtocol

  /** The registered handlers: what they do is given, and the calls they get are recorded. */
  class Handlers {
    const run: Behaviour
    ghost var calls: seq<Invocation>

    constructor (run: Behaviour)
      ensures this.run == run && calls == []
    {
      this.run, calls := run, [];
    }

    method Call(invocation: Invocation) returns (outcome: Outcome)
      modifies `calls
      ensures outcome == run(invocation) && calls == old(calls) + [invocation]
    {
      calls := calls + [invocation];
      outcome := run(invocation);
    }
  }

  /** Adds a value for which there is room. */
  method Put(tlv: TlvData, kind: Octet, v: seq<Octet>)
    requires tlv.Valid() && tlv.bufptr != null && Fits(|v|, tlv.bufsize - tlv.curlen)
    modifies tlv`curlen, tlv.bufptr
    ensures tlv.Valid() && tlv.curlen == old(tlv.curlen) + Size(|v|)
    ensures tlv.Written() == old(tlv.Written()) + EncodeValue(kind, v)
  {
    hide EncodeValue;
    var r := tlv.AddTlv(kind, |v|, Some(v));
  }

  /** esp_rmaker_cmd_prepare_response */
  method PrepareResponse(ctx: Context, status: Octet, response: seq<Octet>)
      returns (output: array<Octet>, outputLen: nat)
    requires ReplyFits(Reply(ctx.reqId, status, ctx.cmd, response))
    ensures fresh(output) && outputLen <= output.Length == |response| + ALLOWANCE
    ensures output[..outputLen] == ReplyBytes(Reply(ctx.reqId, status, ctx.cmd, response))
  {
    hide EncodeValue, Size, ReplyBytes;
    ghost var reply := Reply(ctx.reqId, status, ctx.cmd, response);
    ReplySize(reply);
    ReplyParts(reply);
    SmallSizes();
    var publishSize := |response| + ALLOWANCE;
    var publishData := new Octet[publishSize](_ => 0);
    var tlv := new TlvData.Init(publishData, publishSize);
    ghost var id := if ctx.reqId == [] then [] else EncodeValue(REQ_ID, ctx.reqId);
    if |ctx.reqId| != 0 {
      Put(tlv, REQ_ID, ctx.reqId);
    }
    assert tlv.Written() == id;
    Put(tlv, STATUS, [status]);
    Put(tlv, CMD, PutU16(ctx.cmd));
    ghost var head := id + EncodeValue(STATUS, [status]) + EncodeValue(CMD, PutU16(ctx.cmd));
    assert tlv.Written() == head;
    if |response| != 0 {
      Put(tlv, DATA, response);
    } else {
      assert head + [] == head;
    }
    output, outputLen := publishData, tlv.curlen;
  }

  /** esp_rmaker_cmd_prepare_empty_response: exactly fills its six bytes. */
  method PrepareEmptyResponse() returns (output: array<Octet>, outputLen: nat)
    ensures fresh(output) && outputLen == output.Length == 6
    ensures output[..outputLen] == EncodeAll([Record(REQ_ID, []), Record(CMD, [0, 0])]) == [1, 0, 5, 2, 0, 0]
  {
    hide EncodeAll;
    var publishData := new Octet[6](_ => 0);
    var tlv := new TlvData.Init(publishData, 6);
    var r := tlv.AddTlv(REQ_ID, 0, None);
    Put(tlv, CMD, PutU16(0));
    output, outputLen := publishData, tlv.curlen;
    EncodeAround([], Record(REQ_ID, []), [Record(CMD, [0, 0])]);
    EncodeOne(Record(CMD, [0, 0]));
    EncodeNothing();
    OneRecord(REQ_ID, []);
    OneRecord(CMD, [0, 0]);
    assert [] + [Record(REQ_ID, [])] + [Record(CMD, [0, 0])] == [Record(REQ_ID, []), Record(CMD, [0, 0])];
  }

  /** A read into a zeroed destination that is smaller than a full record. */
  method ReadFixed(input: array?<Octet>, inputLen: nat, kind: Octet, n: nat) returns (val: array<Octet>)
    requires input != null ==> inputLen <= input.Length
    requires n < 255 && Read(Input(input, inputLen), kind) != Cut
    ensures fresh(val) && val[..] == Fixed(Input(input, inputLen), kind, n)
  {
    hide Read;
    val := new Octet[n](_ => 0);
    assert val[..] == Repeat<Octet>(0, n);
    var r := GetValueFromTlv(input, inputLen, kind, val, n);
    if r >= 0 { assert Repeat<Octet>(0, n)[r..] == Repeat<Octet>(0, n - r); }
  }

  /** What the source demands of the input: the headers it looks at are complete, and the identifier ends. */
  ghost predicate Readable(input: seq<Octet>, m: Commands) {
    && Read(input, REQ_ID) != Cut && Read(input, USER_ROLE) != Cut && Read(input, CMD) != Cut && Terminated(input)
    && (Invoked(m, ContextOf(input), []).Some? ==> Read(input, DATA) != Cut)
  }

  /** The mandatory fields of the request. */
  method ReadContext(input: array?<Octet>, inputLen: nat) returns (ctx: Context)
    requires input != null ==> inputLen <= input.Length
    requires var s := Input(input, inputLen);
             Read(s, REQ_ID) != Cut && Read(s, USER_ROLE) != Cut && Read(s, CMD) != Cut && Terminated(s)
    ensures ctx == ContextOf(Input(input, inputLen))
  {
    hide Read, UntilZero;
    var idBuf := ReadFixed(input, inputLen, REQ_ID, REQ_ID_LEN);
    var roleBuf := ReadFixed(input, inputLen, USER_ROLE, 1);
    var cmdBuf := ReadFixed(input, inputLen, CMD, 2);
    assert roleBuf[..][0] == roleBuf[0];
    ctx := Context(GetU16(cmdBuf[..]), UntilZero(idBuf[..]), roleBuf[0]);
  }

  /** esp_rmaker_cmd_response_handler */
  method ResponseHandler(registry: Registry, handlers: Handlers, input: array?<Octet>, inputLen: nat)
      returns (output: array<Octet>, outputLen: nat)
    requires registry.Valid()
    requires input != null ==> inputLen <= input.Length
    requires var s := Input(input, inputLen);
             && Readable(s, registry.commands)
             && ReplyFits(ReplyTo(registry.commands, handlers.run, ContextOf(s), Field(s, DATA)))
    modifies handlers`calls
    ensures fresh(output) && outputLen <= output.Length
    ensures var s := old(Input(input, inputLen));
            output[..outputLen] == ReplyBytes(ReplyTo(registry.commands, handlers.run, ContextOf(s), Field(s, DATA)))
    ensures var s := old(Input(input, inputLen));
            var invoked := Invoked(registry.commands, ContextOf(s), Field(s, DATA));
            handlers.calls == old(handlers.calls) + if invoked.Some? then [invoked.value] else []
  {
    hide Read, ReplyBytes, Permits, ContextOf, Fixed;
    ghost var s := Input(input, inputLen);
    var ctx := ReadContext(input, inputLen);
    if |ctx.reqId| == 0 || ctx.userRole == 0 || ctx.cmd == 0 {
      output, outputLen := PrepareResponse(ctx, CMD_INVALID, []);
      return;
    }
    var info := registry.GetCmdInfo(ctx.cmd);
    if info.Some? {
      if Permits(info.value.access, ctx.userRole) {
        var dataSize, data := ReadAll(input, inputLen, DATA);
        var received := if dataSize > 0 then data[..] else [];
        assert received == Field(s, DATA);
        var outcome := handlers.Call(Invocation(info.value.handler, received, ctx, info.value.priv));
        if outcome.ok {
          output, outputLen := PrepareResponse(ctx, SUCCESS, outcome.response);
        } else {
          output, outputLen := PrepareResponse(ctx, FAILED, []);
        }
        return;
      }
      output, outputLen := PrepareResponse(ctx, AUTH_FAIL, []);
      return;
    }
    output, outputLen := PrepareResponse(ctx, NOT_FOUND, []);
  }

  // ----- requests -----

  const REQUEST_ROOM := 200

  /** In a room of at most 200 bytes, the check of add_tlv is exact. */
  lemma Checked(len: nat, room: int)
    requires room <= REQUEST_ROOM
    ensures RoomCheck(len, room) <==> Fits(len, room)
  {
  }

  /** The records that still fit when they are added one after the other, the others being left out. */
  function Filled(records: seq<Record>): (s: seq<Octet>)
    ensures |s| <= REQUEST_ROOM
  {
    if records == [] then []
    else
      var s, r := Filled(records[..|records| - 1]), records[|records| - 1];
      EncodedSize(r.kind, r.value);
      Checked(|r.value|, REQUEST_ROOM - |s|);
      if RoomCheck(|r.value|, REQUEST_ROOM - |s|) then s + EncodeValue(r.kind, r.value) else s
  }

  /** Records that fit together are all there. */
  lemma {:induction false} FilledWhole(records: seq<Record>)
    requires |EncodeAll(records)| <= 200
    ensures Filled(records) == EncodeAll(records)
  {
    hide EncodeValue, EncodeAll, Size;
    if records == [] {
      EncodeNothing();
    } else {
      var init, r := records[..|records| - 1], records[|records| - 1];
      assert records == init + [r];
      EncodeAllConcat(init, [r]);
      EncodeOne(r);
      EncodedSize(r.kind, r.value);
      FilledWhole(init);
      Checked(|r.value|, REQUEST_ROOM - |EncodeAll(init)|);
    }
  }

  /** Adds one record to a small buffer if there is room. */
  method TryPut(tlv: TlvData, r: Record, ghost done: seq<Record>)
    requires tlv.Valid() && tlv.bufptr != null && tlv.bufsize == REQUEST_ROOM && tlv.Written() == Filled(done)
    modifies tlv`curlen, tlv.bufptr
    ensures tlv.Valid() && tlv.Written() == Filled(done + [r])
  {
    hide EncodeValue, Size, RoomCheck;
    Checked(|r.value|, tlv.bufsize - tlv.curlen);
    assert (done + [r])[..|done|] == done;
    var _ := tlv.AddTlv(r.kind, |r.value|, Some(r.value));
  }

  /**
   esp_rmaker_cmd_resp_test_send, up to the call that sends. Never writes past its buffer, whatever it is given; a
   record for which there is no room is left out.
   */
  method BuildRequest(q: Request) returns (cmdData: array<Octet>, len: nat)
    ensures fresh(cmdData) && len <= cmdData.Length == 200
    ensures cmdData[..len] == Filled(RequestRecords(q))
  {
    hide Filled;
    cmdData := new Octet[REQUEST_ROOM](_ => 0);
    var tlv := new TlvData.Init(cmdData, REQUEST_ROOM);
    ghost var done: seq<Record> := [];
    NothingFilled();
    if q.reqId.Some? {
      TryPut(tlv, Record(REQ_ID, q.reqId.value), done);
      done := done + [Record(REQ_ID, q.reqId.value)];
    }
    TryPut(tlv, Record(USER_ROLE, [q.role]), done);
    done := done + [Record(USER_ROLE, [q.role])];
    TryPut(tlv, Record(CMD, PutU16(q.cmd)), done);
    done := done + [Record(CMD, PutU16(q.cmd))];
    if |q.data| != 0 {
      TryPut(tlv, Record(DATA, q.data), done);
      done := done + [Record(DATA, q.data)];
    }
    assert done == RequestRecords(q);
    len := tlv.curlen;
  }

  lemma NothingFilled()
    ensures Filled([]) == []
  {
  }

  /**
   A request goes through the dispatcher and comes back as the reply it deserves; the handler, if one is called, gets
   exactly the request's data.
   */
  method Exchange(registry: Registry, handlers: Handlers, q: Request) returns (reply: Option<Reply>)
    requires registry.Valid()
    requires IdEnds(q) && |RequestBytes(q)| <= 200
    requires forall i :: |handlers.run(i).response| <= 30 * 255
    modifies handlers`calls
    ensures reply == Some(ReplyTo(registry.commands, handlers.run, Context(q.cmd, SeenId(q), q.role), q.data))
    ensures var invoked := Invoked(registry.commands, Context(q.cmd, SeenId(q), q.role), q.data);
            && reply.Some? && Deserved(registry.commands, handlers.run, q, reply.value, invoked)
            && handlers.calls == old(handlers.calls) + if invoked.Some? then [invoked.value] else []
  {
    hide Read, ReplyBytes, ContextOf, ReplyFits, Permits, Terminated, Field, Filled, SeenId, RequestRecords,
      Deserved;
    var cmdData, len := BuildRequest(q);
    FilledWhole(RequestRecords(q));
    assert Input(cmdData, len) == RequestBytes(q);
    RequestFields(q);
    RequestContext(q);
    FixedId(q);
    ghost var expected := ReplyTo(registry.commands, handlers.run, Context(q.cmd, SeenId(q), q.role), q.data);
    ThirtyRecords(expected);
    var output, outputLen := ResponseHandler(registry, handlers, cmdData, len);
    ReplyRoundTrip(expected);
    reply := DecodeReply(output[..outputLen]);
    DeservedReply(registry.commands, handlers.run, q);
  }
}
