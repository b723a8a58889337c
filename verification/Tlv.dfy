/**
 Type-length-value records of at most 255 bytes each: how a value is split over records and
 how a reader puts it together again.
 */
module Tlv {
  type Octet = b: int | 0 <= b < 256 witness 0

  datatype Record = Record(kind: Octet, value: seq<Octet>)

  // ----- writing -----

  /** One record: type, length, value. */
  function Encode(kind: Octet, v: seq<Octet>): (s: seq<Octet>)
    requires |v| <= 255
    ensures |s| == 2 + |v|
  {
    [kind, |v|] + v
  }

  /** A value of any length: records of 255 bytes, and the rest; at least one record, and none after a full last one. */
  function EncodeValue(kind: Octet, v: seq<Octet>): seq<Octet> {
    if |v| <= 255 then Encode(kind, v) else Encode(kind, v[..255]) + EncodeValue(kind, v[255..])
  }

  function EncodeAll(records: seq<Record>): seq<Octet> {
    if records == [] then [] else EncodeValue(records[0].kind, records[0].value) + EncodeAll(records[1..])
  }

  /** The number of records that a value of this length takes. */
  function Headers(len: nat): nat { if len == 0 then 1 else (len + 254) / 255 }

  /** The number of bytes that a value of this length takes. */
  function Size(len: nat): nat { len + 2 * Headers(len) }

  lemma {:induction false} EncodedSize(kind: Octet, v: seq<Octet>)
    ensures |EncodeValue(kind, v)| == Size(|v|)
  {
    if |v| <= 255 {
    } else {
      EncodedSize(kind, v[255..]);
      assert (|v| + 254) / 255 == 1 + (|v| - 255 + 254) / 255;
    }
  }

  lemma SmallSizes()
    ensures Size(1) == 3 && Size(2) == 4
  {
  }

  lemma EncodeNothing()
    ensures EncodeAll([]) == []
  {
  }

  lemma {:induction false} EncodeAllConcat(a: seq<Record>, b: seq<Record>)
    ensures EncodeAll(a + b) == EncodeAll(a) + EncodeAll(b)
  {
    hide EncodeValue;
    if a == [] {
      assert a + b == b;
    } else {
      assert (a + b)[1..] == a[1..] + b;
      EncodeAllConcat(a[1..], b);
    }
  }

  lemma EncodeOne(r: Record)
    ensures EncodeAll([r]) == EncodeValue(r.kind, r.value)
  {
    hide EncodeValue;
    assert [r][1..] == [];
  }

  /** The writer's check before it writes: the value and one header fit. */
  predicate RoomCheck(len: nat, room: int) { len + 2 <= room }

  predicate Fits(len: nat, room: int) { Size(len) <= room }

  /** The check is enough, whatever the room, exactly for values of at most 255 bytes. */
  lemma RoomCheckSound(len: nat)
    ensures (forall room :: RoomCheck(len, room) ==> Fits(len, room)) <==> len <= 255
  {
    assert RoomCheck(len, len + 2);
  }

  /** A value of 256 bytes passes the check in a room of 258 bytes, but takes 260. */
  lemma RoomCheckFails()
    ensures RoomCheck(256, 258) && !Fits(256, 258) && Size(256) == 260
  {
  }

  // ----- reading -----

  /** What a reader finds. Cut: the header of a record that it has to look at goes past the end. */
  datatype Scanned = Cut | Missing | Value(v: seq<Octet>)
  {
    function Prepend(p: seq<Octet>): Scanned { if Value? then Value(p + v) else this }
  }

  /**
   The value of a type: the first record of that type, and as long as the records are full, the records of that type
   directly after it. `found` says whether a full record came directly before.
   */
  function Scan(s: seq<Octet>, kind: Octet, found: bool): Scanned {
    if s == [] then if found then Value([]) else Missing
    else if s[0] != kind && found then Value([])
    else if |s| == 1 then Cut
    else
      var len: int := s[1];
      if s[0] != kind then
        if |s| <= 2 + len then Missing else Scan(s[2 + len..], kind, false)
      else if |s| < 2 + len then Missing
      else if len < 255 then Value(s[2..2 + len])
      else Scan(s[257..], kind, true).Prepend(s[2..257])
  }

  function Read(s: seq<Octet>, kind: Octet): Scanned { Scan(s, kind, false) }

  lemma ScanNothing(kind: Octet)
    ensures Read([], kind) == Missing && Scan([], kind, true) == Value([])
  {
  }

  lemma PrependTwice(r: Scanned, p: seq<Octet>, q: seq<Octet>)
    ensures r.Prepend(q).Prepend(p) == r.Prepend(p + q)
  {
    if r.Value? { assert p + (q + r.v) == p + q + r.v; }
  }

  /** A value that fills its last record does not show where it ends. */
  predicate OpenEnded(len: nat) { len > 0 && len % 255 == 0 }

  /** A single record at the start of the text. */
  lemma ScanRecord(kind: Octet, v: seq<Octet>, rest: seq<Octet>, found: bool)
    requires |v| <= 255
    ensures Scan(Encode(kind, v) + rest, kind, found)
        == if |v| < 255 then Value(v) else Scan(rest, kind, true).Prepend(v)
  {
    var s := Encode(kind, v) + rest;
    assert s[0] == kind && s[1] == |v|;
    assert s[2..2 + |v|] == v;
    if |v| == 255 { assert s[257..] == rest; }
  }

  lemma ScanOther(kind: Octet, other: Octet, v: seq<Octet>, rest: seq<Octet>)
    requires |v| <= 255 && other != kind
    ensures Scan(Encode(other, v) + rest, kind, false) == Scan(rest, kind, false)
  {
    var s := Encode(other, v) + rest;
    assert s[0] == other && s[1] == |v|;
    assert s[2 + |v|..] == rest;
  }

  /** The records that a value is split over are put together again. */
  lemma {:induction false} ScanValue(kind: Octet, v: seq<Octet>, rest: seq<Octet>, found: bool)
    ensures Scan(EncodeValue(kind, v) + rest, kind, found)
         == if OpenEnded(|v|) then Scan(rest, kind, true).Prepend(v) else Value(v)
    decreases |v|
  {
    hide Scan, Encode;
    if |v| <= 255 {
      ScanRecord(kind, v, rest, found);
    } else {
      var more := EncodeValue(kind, v[255..]) + rest;
      assert EncodeValue(kind, v) + rest == Encode(kind, v[..255]) + more;
      ScanRecord(kind, v[..255], more, found);
      ScanValue(kind, v[255..], rest, true);
      PrependTwice(Scan(rest, kind, true), v[..255], v[255..]);
      assert v[..255] + v[255..] == v;
    }
  }

  lemma {:induction false} ScanOtherValue(kind: Octet, other: Octet, v: seq<Octet>, rest: seq<Octet>)
    requires other != kind
    ensures Scan(EncodeValue(other, v) + rest, kind, false) == Scan(rest, kind, false)
    decreases |v|
  {
    hide Scan, Encode;
    if |v| <= 255 {
      ScanOther(kind, other, v, rest);
    } else {
      var more := EncodeValue(other, v[255..]) + rest;
      assert EncodeValue(other, v) + rest == Encode(other, v[..255]) + more;
      ScanOther(kind, other, v[..255], more);
      ScanOtherValue(kind, other, v[255..], rest);
    }
  }

  predicate NoneOf(records: seq<Record>, kind: Octet) { forall r | r in records :: r.kind != kind }

  lemma {:induction false} ScanSkips(records: seq<Record>, kind: Octet, rest: seq<Octet>)
    requires NoneOf(records, kind)
    ensures Read(EncodeAll(records) + rest, kind) == Read(rest, kind)
  {
    hide Scan, EncodeValue;
    if records == [] {
      assert EncodeAll(records) + rest == rest;
    } else {
      var r := records[0];
      var more := EncodeAll(records[1..]) + rest;
      assert EncodeAll(records) + rest == EncodeValue(r.kind, r.value) + more;
      ScanOtherValue(kind, r.kind, r.value, more);
      ScanSkips(records[1..], kind, rest);
    }
  }

  /** What follows a value begins with a record of another type, or there is nothing. */
  predicate OtherNext(after: seq<Octet>, kind: Octet) { after == [] || after[0] != kind }

  /** Write, then read: the identity for a value of any length, after records of other types. */
  lemma WriteThenRead(before: seq<Record>, kind: Octet, v: seq<Octet>, after: seq<Octet>)
    requires NoneOf(before, kind)
    requires OtherNext(after, kind) || !OpenEnded(|v|)
    ensures Read(EncodeAll(before) + EncodeValue(kind, v) + after, kind) == Value(v)
  {
    hide EncodeValue, EncodeAll, NoneOf;
    var all := EncodeValue(kind, v) + after;
    assert EncodeAll(before) + EncodeValue(kind, v) + after == EncodeAll(before) + all;
    ScanSkips(before, kind, all);
    ScanValue(kind, v, after, false);
    if OpenEnded(|v|) { assert v + [] == v; }
  }

  lemma FirstByte(records: seq<Record>)
    requires records != []
    ensures EncodeAll(records) != [] && EncodeAll(records)[0] == records[0].kind
  {
  }

  /** The record does not change what is read for a value before it that fills its last record. */
  predicate Harmless(r: Record, kind: Octet) { r.kind != kind || r.value == [] }

  /** After a full record, reading adds nothing exactly if what comes next is harmless. */
  lemma ScanAfterFull(after: seq<Record>, kind: Octet)
    ensures Scan(EncodeAll(after), kind, true) == Value([]) <==> after == [] || Harmless(after[0], kind)
  {
    if after == [] {
      ScanNothing(kind);
    } else {
      FirstByte(after);
      if after[0].kind == kind {
        hide Scan, EncodeValue;
        ScanValue(kind, after[0].value, EncodeAll(after[1..]), true);
      }
    }
  }

  /**
   Between other records, a value is read back exactly if it does not fill its last record, or nothing follows it, or
   what follows has another type or is empty.
   */
  lemma ReadBack(before: seq<Record>, kind: Octet, v: seq<Octet>, after: seq<Record>)
    requires NoneOf(before, kind)
    ensures Read(EncodeAll(before) + EncodeValue(kind, v) + EncodeAll(after), kind) == Value(v)
        <==> !OpenEnded(|v|) || after == [] || Harmless(after[0], kind)
  {
    hide EncodeValue, EncodeAll, NoneOf, Scan;
    var rest := EncodeAll(after);
    assert EncodeAll(before) + EncodeValue(kind, v) + rest == EncodeAll(before) + (EncodeValue(kind, v) + rest);
    ScanSkips(before, kind, EncodeValue(kind, v) + rest);
    ScanValue(kind, v, rest, false);
    ScanAfterFull(after, kind);
    PrependNothing(Scan(rest, kind, true), v);
  }

  lemma PrependNothing(r: Scanned, p: seq<Octet>)
    ensures r.Prepend(p) == Value(p) <==> r == Value([])
  {
    assert p + [] == p;
    if r.Value? { assert |p + r.v| == |p| + |r.v|; }
  }

  /** A value of 255 bytes, and one of the same type after it: what is read are both together. */
  lemma SameTypeInstance(kind: Octet, v: seq<Octet>, w: seq<Octet>)
    requires |v| == 255 && |w| == 1
    ensures Read(EncodeValue(kind, v) + EncodeValue(kind, w), kind) == Value(v + w) != Value(v)
  {
    hide EncodeValue, Scan;
    ScanValue(kind, v, EncodeValue(kind, w), false);
    assert EncodeValue(kind, w) + [] == EncodeValue(kind, w);
    ScanValue(kind, w, [], true);
    assert |v + w| == 256;
  }

  predicate DistinctKinds(records: seq<Record>) {
    forall i, j | 0 <= i < j < |records| :: records[i].kind != records[j].kind
  }

  lemma EncodeAround(before: seq<Record>, r: Record, after: seq<Record>)
    ensures EncodeAll(before + [r] + after) == EncodeAll(before) + EncodeValue(r.kind, r.value) + EncodeAll(after)
  {
    hide EncodeValue, EncodeAll;
    EncodeAllConcat(before + [r], after);
    EncodeAllConcat(before, [r]);
    EncodeOne(r);
  }

  /** In a message whose records have different types, every value is read back. */
  lemma ReadDistinct(records: seq<Record>, i: nat)
    requires DistinctKinds(records) && i < |records|
    ensures Read(EncodeAll(records), records[i].kind) == Value(records[i].value)
  {
    hide EncodeValue, EncodeAll, Read;
    var before, r, after := records[..i], records[i], records[i + 1..];
    assert records == before + [r] + after;
    EncodeAround(before, r, after);
    if after == [] {
      EncodeNothing();
    } else {
      assert after[0] == records[i + 1];
      FirstByte(after);
    }
    WriteThenRead(before, r.kind, r.value, EncodeAll(after));
  }

  /** A type that no record has is missing. */
  lemma ReadMissing(records: seq<Record>, kind: Octet)
    requires NoneOf(records, kind)
    ensures Read(EncodeAll(records), kind) == Missing
  {
    ScanSkips(records, kind, []);
    assert EncodeAll(records) + [] == EncodeAll(records);
  }

  // ----- 16-bit numbers -----

  type Word = w: int | 0 <= w < 0x1_0000 witness 0

  /** put_u16_le */
  function PutU16(w: Word): seq<Octet> { [w % 256, w / 256] }

  /** get_u16_le */
  function GetU16(s: seq<Octet>): Word
    requires |s| == 2
  {
    s[0] as int + 256 * s[1] as int
  }

  lemma U16RoundTrip(w: Word)
    ensures GetU16(PutU16(w)) == w
  {
  }
}
