/**
 Requests and replies, on the wire and as values, and what the reply to a request is.
 */
module CommandProtocol {
  import opened Sequences
  import opened Options
  import opened Bytes
  import opened BitBuffer
  import opened Tlv
  import opened CommandRegistry

  const REQ_ID: Octet := 1
  const USER_ROLE: Octet := 2
  const STATUS: Octet := 3
  const CMD: Octet := 5
  const DATA: Octet := 6

  const SUCCESS: Octet := 0
  const FAILED: Octet := 1
  const CMD_INVALID: Octet := 2
  const AUTH_FAIL: Octet := 3
  const NOT_FOUND: Octet := 4

  const REQ_ID_LEN := 32

  // ----- what the dispatcher reads from a request -----

  datatype Context = Context(cmd: Word, reqId: seq<Octet>, userRole: Octet)
  {
    predicate Complete() { reqId != [] && userRole != 0 && cmd != 0 }
  }

  /** A destination of n zero bytes after a read into it. */
  function Fixed(input: seq<Octet>, kind: Octet, n: nat): (s: seq<Octet>)
    ensures |s| == n
  {
    match Read(input, kind)
    case Value(v) => if |v| <= n then v + Repeat<Octet>(0, n - |v|) else Repeat<Octet>(0, n)
    case _ => Repeat<Octet>(0, n)
  }

  /** What strlen sees: everything before the first zero. */
  function UntilZero(s: seq<Octet>): (t: seq<Octet>)
    ensures |t| <= |s|
  {
    if s == [] || s[0] == 0 then [] else [s[0]] + UntilZero(s[1..])
  }

  function ContextOf(input: seq<Octet>): Context {
    Context(GetU16(Fixed(input, CMD, 2)), UntilZero(Fixed(input, REQ_ID, REQ_ID_LEN)), Fixed(input, USER_ROLE, 1)[0])
  }

  /** The value of a field that may be absent. */
  function Field(input: seq<Octet>, kind: Octet): seq<Octet> {
    match Read(input, kind)
    case Value(v) => v
    case _ => []
  }

  // ----- handlers -----

  datatype Outcome = Outcome(ok: bool, response: seq<Octet>)

  datatype Invocation = Invocation(handler: int, data: seq<Octet>, ctx: Context, priv: int)

  /** What the handlers do, which is not known here. */
  type Behaviour = Invocation -> Outcome

  // ----- the reply -----

  datatype Reply = Reply(reqId: seq<Octet>, status: Octet, cmd: Word, data: seq<Octet>)

  /** access & user_role */
  predicate Permits(access: Octet, role: Octet) { ByteOf(access) & ByteOf(role) != 0 }

  /** Flag i is set in a mask. */
  predicate HasFlag(mask: Octet, i: nat) { mask / Pow2(i) % 2 == 1 }

  lemma FlagOfByte(mask: Octet, i: nat)
    requires i < 8
    ensures BitOf(ByteOf(mask), i) == HasFlag(mask, i)
  {
    hide PackByte, BitOf, ToBits, ShiftRight, Pow2;
    BitsOfPacked(ToBits(mask, 8));
    assert Bits(ByteOf(mask))[7 - i] == BitOf(ByteOf(mask), i);
    ToBitsAt(mask, 8, i);
    ShiftIsDivision(mask, i);
  }

  lemma CommonFlag(a: byte, b: byte)
    ensures a & b != 0 <==> exists i :: 0 <= i < 8 && BitOf(a, i) && BitOf(b, i)
  {
    hide BitOf;
    BitMasks(a);
    BitMasks(b);
    OneOfEight(a, b);
    forall i | 0 <= i < 8 && BitOf(a, i) && BitOf(b, i) ensures a & b != 0 {
      if i == 0 {} else if i == 1 {} else if i == 2 {} else if i == 3 {}
      else if i == 4 {} else if i == 5 {} else if i == 6 {} else { assert i == 7; }
    }
  }

  lemma OneOfEight(a: byte, b: byte)
    ensures a & b != 0 <==>
      || (a & 0x80 != 0 && b & 0x80 != 0) || (a & 0x40 != 0 && b & 0x40 != 0) || (a & 0x20 != 0 && b & 0x20 != 0)
      || (a & 0x10 != 0 && b & 0x10 != 0) || (a & 0x08 != 0 && b & 0x08 != 0) || (a & 0x04 != 0 && b & 0x04 != 0)
      || (a & 0x02 != 0 && b & 0x02 != 0) || (a & 0x01 != 0 && b & 0x01 != 0)
  {
  }

  /** Access is granted exactly if a flag is set in both masks. */
  lemma PermitsCommonFlag(access: Octet, role: Octet)
    ensures Permits(access, role) <==> exists i :: 0 <= i < 8 && HasFlag(access, i) && HasFlag(role, i)
  {
    hide HasFlag, ByteOf, BitOf;
    CommonFlag(ByteOf(access), ByteOf(role));
    forall i | 0 <= i < 8 ensures BitOf(ByteOf(access), i) == HasFlag(access, i) { FlagOfByte(access, i); }
    forall i | 0 <= i < 8 ensures BitOf(ByteOf(role), i) == HasFlag(role, i) { FlagOfByte(role, i); }
  }

  const SUPER_ADMIN: Octet := 1
  const PRIMARY_USER: Octet := 2
  const SECONDARY_USER: Octet := 4

  /** Each role is let in by its own flag only. */
  lemma RolesApart(access: Octet)
    ensures Permits(access, SUPER_ADMIN) <==> access % 2 == 1
    ensures Permits(access, PRIMARY_USER) <==> access / 2 % 2 == 1
    ensures Permits(access, SECONDARY_USER) <==> access / 4 % 2 == 1
  {
    hide Permits;
    OneFlag(access, 0, 1);
    OneFlag(access, 1, 2);
    OneFlag(access, 2, 4);
  }

  lemma OneFlag(access: Octet, i: nat, role: Octet)
    requires i < 3 && role == Pow2(i)
    ensures Permits(access, role) <==> access / role % 2 == 1
  {
    hide Permits;
    PermitsCommonFlag(access, role);
    forall j | 0 <= j < 8 ensures HasFlag(role, j) <==> j == i { FlagOfPower(i, j); }
    assert HasFlag(access, i) <==> access / role % 2 == 1;
  }

  lemma FlagOfPower(i: nat, j: nat)
    requires i < 3 && j < 8
    ensures Pow2(i) <= 4 && (HasFlag(Pow2(i), j) <==> j == i)
  {
    assert Pow2(0) == 1 && Pow2(1) == 2 && Pow2(2) == 4 && Pow2(3) == 8;
    if j > 2 { assert Pow2(j) >= 8 by { Grows(3, j); } }
  }

  lemma {:induction false} Grows(i: nat, j: nat)
    requires i <= j
    ensures Pow2(i) <= Pow2(j)
    decreases j
  {
    if i < j { Grows(i, j - 1); }
  }

  /** A command for the primary user does not let the secondary user in. */
  lemma RoleRefused()
    ensures !Permits(2, 4) && Permits(6, 4)
  {
    RolesApart(2);
    RolesApart(6);
  }

  /** The handler call that a request with this context and data leads to, if any. */
  function Invoked(m: Commands, ctx: Context, data: seq<Octet>): Option<Invocation> {
    if ctx.Complete() && ctx.cmd in m && Permits(m[ctx.cmd].access, ctx.userRole) then
      Some(Invocation(m[ctx.cmd].handler, data, ctx, m[ctx.cmd].priv))
    else None
  }

  function StatusOf(m: Commands, run: Behaviour, ctx: Context, data: seq<Octet>): Octet {
    if !ctx.Complete() then CMD_INVALID
    else if ctx.cmd !in m then NOT_FOUND
    else if !Permits(m[ctx.cmd].access, ctx.userRole) then AUTH_FAIL
    else if run(Invocation(m[ctx.cmd].handler, data, ctx, m[ctx.cmd].priv)).ok then SUCCESS
    else FAILED
  }

  /** The reply to a request with this context and data. */
  function ReplyTo(m: Commands, run: Behaviour, ctx: Context, data: seq<Octet>): Reply {
    var invoked := Invoked(m, ctx, data);
    Reply(
      ctx.reqId, StatusOf(m, run, ctx, data), ctx.cmd,
      if invoked.Some? && run(invoked.value).ok then run(invoked.value).response else [])
  }

  function ReplyRecords(r: Reply): seq<Record> {
    (if r.reqId == [] then [] else [Record(REQ_ID, r.reqId)])
    + [Record(STATUS, [r.status])] + [Record(CMD, PutU16(r.cmd))]
    + (if r.data == [] then [] else [Record(DATA, r.data)])
  }

  function ReplyBytes(r: Reply): seq<Octet> { EncodeAll(ReplyRecords(r)) }

  /** What the receiver of a reply makes of it. */
  function DecodeReply(s: seq<Octet>): Option<Reply> {
    var status, cmd := Field(s, STATUS), Field(s, CMD);
    if |status| != 1 || |cmd| != 2 then None
    else Some(Reply(Field(s, REQ_ID), status[0], GetU16(cmd), Field(s, DATA)))
  }

  lemma FieldPresent(records: seq<Record>, i: nat)
    requires DistinctKinds(records) && i < |records|
    ensures Field(EncodeAll(records), records[i].kind) == records[i].value
  {
    ReadDistinct(records, i);
  }

  lemma FieldAbsent(records: seq<Record>, kind: Octet)
    requires NoneOf(records, kind)
    ensures Field(EncodeAll(records), kind) == []
  {
    ReadMissing(records, kind);
  }

  /** A reply is understood as it was meant, whatever the lengths of its parts. */
  lemma ReplyRoundTrip(r: Reply)
    ensures DecodeReply(ReplyBytes(r)) == Some(r)
  {
    hide Field, EncodeAll, Read;
    var records := ReplyRecords(r);
    var k := if r.reqId == [] then 0 else 1;
    FieldPresent(records, k);
    FieldPresent(records, k + 1);
    if k == 0 { FieldAbsent(records, REQ_ID); } else { FieldPresent(records, 0); }
    if r.data == [] { FieldAbsent(records, DATA); } else { FieldPresent(records, k + 2); }
  }

  // ----- requests -----

  /** A request; the identifier may be absent. */
  datatype Request = Request(reqId: Option<seq<Octet>>, role: Octet, cmd: Word, data: seq<Octet>)

  function RequestRecords(q: Request): seq<Record> {
    (if q.reqId.None? then [] else [Record(REQ_ID, q.reqId.value)])
    + [Record(USER_ROLE, [q.role])] + [Record(CMD, PutU16(q.cmd))]
    + (if q.data == [] then [] else [Record(DATA, q.data)])
  }

  function RequestBytes(q: Request): seq<Octet> { EncodeAll(RequestRecords(q)) }

  /** The identifier that the dispatcher gets to see. */
  function SeenId(q: Request): seq<Octet> {
    if q.reqId.None? || |q.reqId.value| > REQ_ID_LEN then [] else UntilZero(q.reqId.value)
  }

  /** The identifier ends within the dispatcher's buffer for it. */
  predicate IdEnds(q: Request) { q.reqId.Some? && |q.reqId.value| == REQ_ID_LEN ==> 0 in q.reqId.value }

  lemma {:induction false} UntilZeroOf(v: seq<Octet>, n: nat)
    requires n > 0 || 0 in v
    ensures UntilZero(v + Repeat<Octet>(0, n)) == UntilZero(v)
  {
    var s := v + Repeat<Octet>(0, n);
    if v == [] {
      assert s == Repeat<Octet>(0, n);
    } else if v[0] == 0 {
      assert s[0] == 0;
    } else {
      assert s[1..] == v[1..] + Repeat<Octet>(0, n);
      UntilZeroOf(v[1..], n);
    }
  }

  lemma {:induction false} UntilZeroWhole(v: seq<Octet>)
    ensures if 0 in v then |UntilZero(v)| < |v| else UntilZero(v) == v
  {
    if v == [] || v[0] == 0 {
    } else {
      UntilZeroWhole(v[1..]);
    }
  }

  /** The fields of a request. */
  lemma RequestFields(q: Request)
    ensures var s := RequestBytes(q);
            && Read(s, REQ_ID) == (if q.reqId.None? then Missing else Value(q.reqId.value))
            && Read(s, USER_ROLE) == Value([q.role])
            && Read(s, CMD) == Value(PutU16(q.cmd)) && Field(s, DATA) == q.data && Read(s, DATA) != Cut
  {
    hide EncodeAll, Read;
    var records := RequestRecords(q);
    var k := if q.reqId.None? then 0 else 1;
    if k == 0 { ReadMissing(records, REQ_ID); } else { ReadDistinct(records, 0); }
    ReadDistinct(records, k);
    ReadDistinct(records, k + 1);
    if q.data == [] { ReadMissing(records, DATA); } else { ReadDistinct(records, k + 2); }
  }

  /** The identifier is terminated after it was read, so that its length can be taken. */
  predicate Terminated(input: seq<Octet>) { 0 in Fixed(input, REQ_ID, REQ_ID_LEN) }

  lemma FixedRole(q: Request)
    ensures Fixed(RequestBytes(q), USER_ROLE, 1)[0] == q.role && GetU16(Fixed(RequestBytes(q), CMD, 2)) == q.cmd
  {
    hide Read, RequestBytes;
    RequestFields(q);
    U16RoundTrip(q.cmd);
    assert PutU16(q.cmd) + Repeat<Octet>(0, 0) == PutU16(q.cmd);
  }

  lemma FixedId(q: Request)
    ensures Terminated(RequestBytes(q)) <==> IdEnds(q)
    ensures IdEnds(q) ==> UntilZero(Fixed(RequestBytes(q), REQ_ID, REQ_ID_LEN)) == SeenId(q)
    ensures IdEnds(q) ==> |SeenId(q)| < REQ_ID_LEN
  {
    hide Read, RequestBytes, UntilZero;
    RequestFields(q);
    if q.reqId.None? || |q.reqId.value| > REQ_ID_LEN {
      UntilZeroOf([], REQ_ID_LEN);
      UntilZeroWhole([]);
      assert [] + Repeat<Octet>(0, REQ_ID_LEN) == Repeat<Octet>(0, REQ_ID_LEN);
      assert Repeat<Octet>(0, REQ_ID_LEN)[0] == 0;
    } else {
      var id, n := q.reqId.value, REQ_ID_LEN - |q.reqId.value|;
      if IdEnds(q) {
        UntilZeroOf(id, n);
        UntilZeroWhole(id);
      }
      if n > 0 { assert (id + Repeat<Octet>(0, n))[|id|] == 0; }
    }
  }

  /** The dispatcher reads exactly the context of a request whose identifier ends. */
  lemma RequestContext(q: Request)
    requires IdEnds(q)
    ensures ContextOf(RequestBytes(q)) == Context(q.cmd, SeenId(q), q.role) && Terminated(RequestBytes(q))
  {
    hide RequestBytes, UntilZero, Fixed, SeenId;
    FixedRole(q);
    FixedId(q);
  }

  /** An identifier of up to 31 bytes without zeros is seen as it is. */
  lemma ShortIdentifier(q: Request)
    requires q.reqId.Some? && 0 !in q.reqId.value && |q.reqId.value| < REQ_ID_LEN
    ensures IdEnds(q) && SeenId(q) == q.reqId.value
  {
    UntilZeroWhole(q.reqId.value);
  }

  /**
   After reading, the identifier has no end exactly if it has 32 bytes, none of them zero. A longer one reads as empty,
   and the request is refused as invalid.
   */
  lemma IdentifierLimit(m: Commands, run: Behaviour, q: Request)
    ensures Terminated(RequestBytes(q)) <==> IdEnds(q)
    ensures q.reqId.Some? && |q.reqId.value| > REQ_ID_LEN ==>
              var s := RequestBytes(q);
              && ReplyTo(m, run, ContextOf(s), Field(s, DATA)).reqId == []
              && ReplyTo(m, run, ContextOf(s), Field(s, DATA)).status == CMD_INVALID
              && Invoked(m, ContextOf(s), Field(s, DATA)) == None
  {
    hide RequestBytes, ContextOf, Field, Permits;
    FixedId(q);
    if IdEnds(q) { RequestContext(q); }
  }

  /** With an identifier of 32 bytes that are not zero, the length of what was read cannot be taken. */
  lemma IdentifierInstance(id: seq<Octet>, role: Octet, cmd: Word, data: seq<Octet>)
    requires |id| == 32 && 0 !in id
    ensures !Terminated(RequestBytes(Request(Some(id), role, cmd, data)))
  {
    hide RequestBytes, Terminated;
    FixedId(Request(Some(id), role, cmd, data));
  }

  /**
   What a request deserves: a reply that carries the identifier and the command, the status that the registry, the
   access mask and the handler dictate, and the handler's response; and a handler call exactly if the command is
   registered for the role, with exactly the data of the request.
   */
  predicate Deserved(m: Commands, run: Behaviour, q: Request, reply: Reply, invoked: Option<Invocation>) {
    var valid := SeenId(q) != [] && q.role != 0 && q.cmd != 0;
    var permitted :=
      valid && q.cmd in m && exists i :: 0 <= i < 8 && HasFlag(m[q.cmd].access, i) && HasFlag(q.role, i);
    && reply.reqId == SeenId(q) && reply.cmd == q.cmd
    && (reply.status == 2 <==> !valid)
    && (reply.status == 4 <==> valid && q.cmd !in m)
    && (reply.status == 3 <==> valid && q.cmd in m && !permitted)
    && (permitted ==>
          var context := Context(q.cmd, SeenId(q), q.role);
          var invocation := Invocation(m[q.cmd].handler, q.data, context, m[q.cmd].priv);
          && invoked == Some(invocation)
          && reply.status == (if run(invocation).ok then 0 else 1)
          && reply.data == if run(invocation).ok then run(invocation).response else [])
    && (!permitted ==> invoked == None && reply.data == [])
  }

  lemma DeservedReply(m: Commands, run: Behaviour, q: Request)
    ensures var context := Context(q.cmd, SeenId(q), q.role);
            Deserved(m, run, q, ReplyTo(m, run, context, q.data), Invoked(m, context, q.data))
  {
    hide Permits, HasFlag, SeenId;
    if q.cmd in m { PermitsCommonFlag(m[q.cmd].access, q.role); }
  }

  /** Every request whose identifier ends gets what it deserves. */
  lemma Dispatch(m: Commands, run: Behaviour, q: Request)
    requires IdEnds(q)
    ensures var s := RequestBytes(q);
            var reply := DecodeReply(ReplyBytes(ReplyTo(m, run, ContextOf(s), Field(s, DATA))));
            && reply.Some? && Deserved(m, run, q, reply.value, Invoked(m, ContextOf(s), Field(s, DATA)))
  {
    hide Read, RequestBytes, ReplyBytes, DecodeReply, ContextOf, Field, SeenId, Deserved, ReplyTo, Invoked;
    RequestContext(q);
    RequestFields(q);
    var s := RequestBytes(q);
    assert Field(s, DATA) == q.data;
    ReplyRoundTrip(ReplyTo(m, run, ContextOf(s), Field(s, DATA)));
    DeservedReply(m, run, q);
  }

  // ----- on the wire -----

  /** The bytes of a value that needs one record. */
  lemma OneRecord(kind: Octet, v: seq<Octet>)
    requires |v| <= 255
    ensures EncodeValue(kind, v) == [kind, |v|] + v
  {
  }

  /** A reply, byte by byte: identifier, status, command with its low byte first, data. */
  lemma ReplyOnWire(r: Reply)
    requires |r.reqId| <= 255 && |r.data| <= 255
    ensures ReplyBytes(r)
         == (if r.reqId == [] then [] else [1, |r.reqId|] + r.reqId)
            + [3, 1, r.status, 5, 2, r.cmd % 256, r.cmd / 256]
            + if r.data == [] then [] else [6, |r.data|] + r.data
  {
    hide EncodeValue, ReplyBytes;
    ReplyParts(r);
    OneRecord(1, r.reqId);
    OneRecord(3, [r.status]);
    OneRecord(5, PutU16(r.cmd));
    OneRecord(6, r.data);
  }

  /** A request, byte by byte: identifier, role, command with its low byte first, data. */
  lemma RequestOnWire(q: Request)
    requires (q.reqId.Some? ==> |q.reqId.value| <= 255) && |q.data| <= 255
    ensures RequestBytes(q)
         == (if q.reqId.None? then [] else [1, |q.reqId.value|] + q.reqId.value)
            + [2, 1, q.role, 5, 2, q.cmd % 256, q.cmd / 256]
            + if q.data == [] then [] else [6, |q.data|] + q.data
  {
    hide EncodeValue, EncodeAll;
    var id := if q.reqId.None? then [] else [Record(1, q.reqId.value)];
    var role, cmd := Record(2, [q.role]), Record(5, PutU16(q.cmd));
    var data := if q.data == [] then [] else [Record(6, q.data)];
    EncodeAllConcat(id + [role] + [cmd], data);
    EncodeAllConcat(id + [role], [cmd]);
    EncodeAllConcat(id, [role]);
    EncodeOne(role);
    EncodeOne(cmd);
    EncodeNothing();
    OneRecord(2, [q.role]);
    OneRecord(5, PutU16(q.cmd));
    if q.reqId.Some? { EncodeOne(id[0]); OneRecord(1, q.reqId.value); }
    if q.data != [] { EncodeOne(data[0]); OneRecord(6, q.data); }
  }

  // ----- the size of a reply -----

  /** The parts of a reply, in the order in which they are written. */
  lemma ReplyParts(r: Reply)
    ensures ReplyBytes(r)
         == (if r.reqId == [] then [] else EncodeValue(REQ_ID, r.reqId)) + EncodeValue(STATUS, [r.status])
            + EncodeValue(CMD, PutU16(r.cmd)) + if r.data == [] then [] else EncodeValue(DATA, r.data)
  {
    hide EncodeAll, EncodeValue;
    var id := if r.reqId == [] then [] else [Record(REQ_ID, r.reqId)];
    var data := if r.data == [] then [] else [Record(DATA, r.data)];
    var status, cmd := Record(STATUS, [r.status]), Record(CMD, PutU16(r.cmd));
    EncodeAllConcat(id + [status] + [cmd], data);
    EncodeAllConcat(id + [status], [cmd]);
    EncodeAllConcat(id, [status]);
    EncodeOne(status);
    EncodeOne(cmd);
    EncodeNothing();
    if r.reqId != [] { EncodeOne(id[0]); }
    if r.data != [] { EncodeOne(data[0]); }
  }

  /** What identifier, status and command take. */
  function HeadSize(r: Reply): nat { (if r.reqId == [] then 0 else Size(|r.reqId|)) + 7 }

  lemma ReplySize(r: Reply)
    ensures |ReplyBytes(r)| == HeadSize(r) + if r.data == [] then 0 else Size(|r.data|)
  {
    hide ReplyBytes, EncodeValue;
    ReplyParts(r);
    EncodedSize(REQ_ID, r.reqId);
    EncodedSize(STATUS, [r.status]);
    EncodedSize(CMD, PutU16(r.cmd));
    EncodedSize(DATA, r.data);
  }

  /** The buffer of a reply has 100 bytes more than the data. */
  const ALLOWANCE := 100

  predicate ReplyFits(r: Reply) { |ReplyBytes(r)| <= |r.data| + ALLOWANCE }

  /** For every reply: it fits exactly if the allowance covers the head and the headers of the data. */
  lemma AllowanceExact(r: Reply)
    ensures ReplyFits(r) <==> HeadSize(r) + (if r.data == [] then 0 else 2 * Headers(|r.data|)) <= ALLOWANCE
  {
    hide ReplyBytes;
    ReplySize(r);
  }

  /** Thirty records of data fit beside every identifier, and no more beside the longest. */
  lemma ThirtyRecords(r: Reply)
    requires |r.reqId| < REQ_ID_LEN
    ensures |r.data| <= 30 * 255 ==> ReplyFits(r)
    ensures |r.reqId| == REQ_ID_LEN - 1 ==> (ReplyFits(r) <==> |r.data| <= 30 * 255)
  {
    hide ReplyFits;
    AllowanceExact(r);
  }

  /** The room that is left for the data when the head has been written. */
  function DataRoom(r: Reply): int { |r.data| + ALLOWANCE - HeadSize(r) }

  /** The head always fits, and the check before the data always passes, whether or not the data fits. */
  lemma OversizedPassesCheck(r: Reply)
    requires |r.reqId| < REQ_ID_LEN
    ensures HeadSize(r) <= ALLOWANCE && RoomCheck(|r.data|, DataRoom(r))
    ensures r.data != [] ==> (ReplyFits(r) <==> Fits(|r.data|, DataRoom(r)))
  {
    hide ReplyBytes;
    ReplySize(r);
  }

  /** With an identifier of 31 bytes, 7651 bytes of data pass the check and take two bytes more than there are. */
  lemma OversizedInstance(r: Reply)
    requires |r.reqId| == 31 && |r.data| == 7651
    ensures RoomCheck(|r.data|, DataRoom(r)) && !Fits(|r.data|, DataRoom(r))
    ensures |ReplyBytes(r)| == |r.data| + ALLOWANCE + 2
  {
    hide ReplyBytes;
    ReplySize(r);
  }
}
