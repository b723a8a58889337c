/**
 The writer and the two scanners of type-length-value records, on buffers.
 */
module TlvBuffer {
  import opened Options
  import opened Tlv

  /** The buffer with some bytes replaced. */
  function Splice(s: seq<Octet>, at: nat, v: seq<Octet>): (r: seq<Octet>)
    requires at + |v| <= |s|
    ensures |r| == |s|
  {
    s[..at] + v + s[at + |v|..]
  }

  lemma SpliceOne(s: seq<Octet>, at: nat, b: Octet)
    requires at < |s|
    ensures s[at := b] == Splice(s, at, [b])
  {
  }

  lemma SpliceTwice(s: seq<Octet>, at: nat, v: seq<Octet>, w: seq<Octet>)
    requires at + |v| + |w| <= |s|
    ensures Splice(Splice(s, at, v), at + |v|, w) == Splice(s, at, v + w)
  {
    var t := Splice(s, at, v);
    assert t[..at + |v|] == s[..at] + v;
    assert t[at + |v| + |w|..] == s[at + |v + w|..];
  }

  lemma SplicePrefix(s: seq<Octet>, at: nat, v: seq<Octet>)
    requires at + |v| <= |s|
    ensures Splice(s, at, v)[..at + |v|] == s[..at] + v
  {
  }

  lemma SpliceNothing(s: seq<Octet>, at: nat)
    requires at <= |s|
    ensures Splice(s, at, []) == s
  {
  }

  /** memcpy(&dst[at], src, |src|) */
  method Memcpy(dst: array<Octet>, at: nat, src: seq<Octet>)
    requires at + |src| <= dst.Length
    modifies dst
    ensures dst[..] == Splice(old(dst[..]), at, src)
  {
    for i := 0 to |src|
      invariant forall k | 0 <= k < dst.Length :: dst[k] == if at <= k < at + i then src[k - at] else old(dst[k])
    {
      dst[at + i] := src[i];
    }
  }

  /** A value that may be absent: None is the null pointer. */
  function Get(val: Option<seq<Octet>>): seq<Octet> { if val.Some? then val.value else [] }

  /** esp_rmaker_tlv_data_t */
  class TlvData {
    var bufptr: array?<Octet>
    var bufsize: int
    var curlen: int

    ghost predicate Valid()
      reads this
    {
      bufptr != null ==> 0 <= curlen <= bufsize <= bufptr.Length
    }

    /** What has been written. */
    ghost function Written(): seq<Octet>
      requires Valid()
      reads this, bufptr
    {
      if bufptr == null then [] else bufptr[..curlen]
    }

    /** esp_rmaker_tlv_data_init */
    constructor Init(buf: array?<Octet>, bufSize: int)
      requires buf != null ==> 0 <= bufSize <= buf.Length
      ensures Valid() && Written() == [] && bufptr == buf && bufsize == bufSize && curlen == 0
    {
      bufptr, bufsize, curlen := buf, bufSize, 0;
    }

    /** One record. */
    method PutRecord(kind: Octet, v: seq<Octet>)
      requires Valid() && bufptr != null && |v| <= 255 && 2 + |v| <= bufsize - curlen
      modifies `curlen, bufptr
      ensures Valid() && curlen == old(curlen) + 2 + |v|
      ensures bufptr[..] == Splice(old(bufptr[..]), old(curlen), Encode(kind, v))
    {
      hide Splice;
      var n: Octet := |v|;
      ghost var at, was: seq<Octet> := curlen, bufptr[..];
      bufptr[curlen] := kind;
      curlen := curlen + 1;
      bufptr[curlen] := n;
      curlen := curlen + 1;
      assert bufptr[..] == was[at := kind][at + 1 := n];
      SpliceOne(was, at, kind);
      SpliceOne(was[at := kind], at + 1, n);
      SpliceTwice(was, at, [kind], [n]);
      assert [kind] + [n] == [kind, n];
      Memcpy(bufptr, curlen, v);
      SpliceTwice(was, at, [kind, n], v);
      curlen := curlen + |v|;
    }

    /** The loop of esp_rmaker_add_tlv: one record after the other, at least one. */
    method PutValue(kind: Octet, val: seq<Octet>)
      requires Valid() && bufptr != null && Fits(|val|, bufsize - curlen)
      modifies `curlen, bufptr
      ensures Valid() && curlen == old(curlen) + Size(|val|) && |EncodeValue(kind, val)| == Size(|val|)
      ensures bufptr[..] == Splice(old(bufptr[..]), old(curlen), EncodeValue(kind, val))
    {
      hide EncodeValue, Size, Splice;
      var rest := val;
      ghost var start, was, done := curlen, bufptr[..], [];
      EncodedSize(kind, rest);
      SpliceNothing(was, start);
      while true
        invariant Valid() && curlen == start + |done|
        invariant bufptr[..] == Splice(was, start, done)
        invariant done + EncodeValue(kind, rest) == EncodeValue(kind, val)
        invariant |EncodeValue(kind, rest)| == Size(|rest|) <= bufsize - curlen
        decreases |rest|
      {
        var tmp := if |rest| > 255 then rest[..255] else rest;
        SplitOff(kind, rest, |tmp|);
        assert rest[..|tmp|] == tmp;
        assert done + (Encode(kind, tmp) + EncodeMore(kind, rest[|tmp|..]))
            == done + Encode(kind, tmp) + EncodeMore(kind, rest[|tmp|..]);
        PutRecord(kind, tmp);
        SpliceTwice(was, start, done, Encode(kind, tmp));
        done := done + Encode(kind, tmp);
        rest := rest[|tmp|..];
        if rest == [] {
          assert done + [] == done;
          break;
        }
        EncodedSize(kind, rest);
      }
    }

    /** What add_tlv checks before it writes. */
    ghost predicate Accepts(len: nat, val: Option<seq<Octet>>)
      reads this
    {
      bufptr != null && RoomCheck(len, bufsize - curlen) && (len > 0 ==> val.Some?)
    }

    /**
     esp_rmaker_add_tlv. The check counts one header only, so that for a longer value the caller has to make sure
     that the whole value fits.
     */
    method AddTlv(kind: Octet, len: nat, val: Option<seq<Octet>>) returns (r: int)
      requires Valid() && (val.Some? ==> len == |val.value|)
      requires Accepts(len, val) ==> Fits(len, bufsize - curlen)
      modifies `curlen, bufptr
      ensures Valid()
      ensures r == if old(Accepts(len, val)) then Size(len) else -1
      ensures r == -1 ==> curlen == old(curlen) && (bufptr != null ==> bufptr[..] == old(bufptr[..]))
      ensures r != -1 ==> bufptr != null && curlen == old(curlen) + r && |EncodeValue(kind, Get(val))| == r
      ensures r != -1 ==> bufptr[..] == Splice(old(bufptr[..]), old(curlen), EncodeValue(kind, Get(val)))
      ensures Written() == old(Written()) + if r != -1 then EncodeValue(kind, Get(val)) else []
    {
      hide EncodeValue, Size, Splice;
      if bufptr == null || len + 2 > bufsize - curlen {
        return -1;
      }
      if len > 0 && val.None? {
        return -1;
      }
      var origLen := curlen;
      ghost var was := bufptr[..];
      PutValue(kind, Get(val));
      SplicePrefix(was, origLen, EncodeValue(kind, Get(val)));
      assert was[..origLen] == old(Written());
      assert bufptr[..][..curlen] == Written();
      return curlen - origLen;
    }
  }

  /** What the loop still writes after a record. */
  function EncodeMore(kind: Octet, rest: seq<Octet>): seq<Octet> { if rest == [] then [] else EncodeValue(kind, rest) }

  /** The first record of a value, and what is left. */
  lemma SplitOff(kind: Octet, v: seq<Octet>, n: nat)
    requires n == if |v| > 255 then 255 else |v|
    ensures Size(|v|) == 2 + n + if |v| > n then Size(|v| - n) else 0
    ensures EncodeValue(kind, v) == Encode(kind, v[..n]) + EncodeMore(kind, v[n..])
  {
    if |v| > 255 {
      assert (|v| + 254) / 255 == 1 + (|v| - 255 + 254) / 255;
    } else {
      assert v[..n] == v;
    }
  }

  // ----- scanning -----

  /** The first bytes of a buffer that a reader is given. */
  ghost function Input(buf: array?<Octet>, buflen: int): seq<Octet>
    requires buf != null ==> buflen <= buf.Length
    reads buf
  {
    if buf == null || buflen <= 0 then [] else buf[..buflen]
  }

  /** What a scan finds at a position. */
  lemma ScanAt(s: seq<Octet>, at: nat, kind: Octet, found: bool)
    requires at < |s|
    ensures Scan(s[at..], kind, found)
         == if s[at] != kind && found then Value([])
            else if at + 1 == |s| then Cut
            else
              var len: int := s[at + 1];
              if s[at] != kind then
                if |s| - at <= 2 + len then Missing else Scan(s[at + 2 + len..], kind, false)
              else if |s| - at < 2 + len then Missing
              else if len < 255 then Value(s[at + 2..at + 2 + len])
              else Scan(s[at + 257..], kind, true).Prepend(s[at + 2..at + 257])
  {
    var t := s[at..];
    assert t[0] == s[at];
    if at + 1 < |s| {
      var len: int := s[at + 1];
      assert t[1] == len;
      if |t| >= 2 + len {
        assert t[2 + len..] == s[at + 2 + len..];
        assert t[2..2 + len] == s[at + 2..at + 2 + len];
      }
    }
  }

  /** The state of a scan: what has been collected, and what is still to be read. */
  ghost predicate Scanning(s: seq<Octet>, kind: Octet, left: int, at: nat, found: bool, acc: seq<Octet>) {
    && (left >= 0 ==> at + left == |s| && Read(s, kind) == Scan(s[at..], kind, found).Prepend(acc))
    && (left < 0 ==> !found && Read(s, kind) == Missing)
    && found == (|acc| >= 255) && (acc == [] <==> !found)
  }

  lemma ScanStarts(s: seq<Octet>, kind: Octet, buflen: int)
    requires |s| == if buflen < 0 then 0 else buflen
    ensures Scanning(s, kind, buflen, 0, false, [])
  {
    assert s[0..] == s;
    if Read(s, kind).Value? { assert [] + Read(s, kind).v == Read(s, kind).v; }
  }

  /** The scan is over: nothing is left, or a value that fills its records is followed by another type. */
  lemma ScanEnds(s: seq<Octet>, kind: Octet, left: int, at: nat, found: bool, acc: seq<Octet>)
    requires Scanning(s, kind, left, at, found, acc)
    requires left <= 0 || (s[at] != kind && found)
    ensures Read(s, kind) == if found then Value(acc) else Missing
  {
    if left > 0 { ScanAt(s, at, kind, found); }
    assert acc + [] == acc;
  }

  /** The header of the next record is complete. */
  lemma HeaderComplete(s: seq<Octet>, kind: Octet, left: int, at: nat, found: bool, acc: seq<Octet>)
    requires Scanning(s, kind, left, at, found, acc) && left > 0 && Read(s, kind) != Cut
    requires s[at] == kind || !found
    ensures left >= 2
  {
    ScanAt(s, at, kind, found);
  }

  /** A record of another type is skipped. */
  lemma ScanSkip(s: seq<Octet>, kind: Octet, left: int, at: nat, acc: seq<Octet>)
    requires Scanning(s, kind, left, at, false, acc) && left >= 2 && s[at] != kind
    ensures Scanning(s, kind, left - (2 + s[at + 1] as int), at + 2 + s[at + 1] as int, false, acc)
  {
    ScanAt(s, at, kind, false);
    var next := at + 2 + s[at + 1] as int;
    if next == |s| { assert s[next..] == []; }
  }

  /** A record of the type: cut short, the last one, or full. */
  lemma ScanMatch(s: seq<Octet>, kind: Octet, left: int, at: nat, found: bool, acc: seq<Octet>)
    requires Scanning(s, kind, left, at, found, acc) && left >= 2 && s[at] == kind
    ensures var len: int := s[at + 1];
            && (left - len < 2 ==> Read(s, kind) == Missing)
            && (left - len >= 2 ==>
                  && (Read(s, kind).Value? ==> |Read(s, kind).v| >= |acc| + len)
                  && (len < 255 ==> Read(s, kind) == Value(acc + s[at + 2..at + 2 + len]))
                  && (len == 255 ==> Scanning(s, kind, left - 257, at + 257, true, acc + s[at + 2..at + 257])))
  {
    hide Scan;
    ScanAt(s, at, kind, found);
    if s[at + 1] == 255 && left >= 257 {
      PrependTwice(Scan(s[at + 257..], kind, true), acc, s[at + 2..at + 257]);
    }
  }

  function LengthFound(r: Scanned): int { if r.Value? then |r.v| else -1 }

  /** esp_rmaker_get_tlv_length */
  method GetTlvLength(buf: array?<Octet>, buflen: int, kind: Octet) returns (r: int)
    requires buf != null ==> buflen <= buf.Length
    requires Read(Input(buf, buflen), kind) != Cut
    ensures r == LengthFound(Read(Input(buf, buflen), kind))
  {
    hide Scanning, Read;
    if buf == null {
      ScanNothing(kind);
      return -1;
    }
    ghost var s, acc: seq<Octet> := Input(buf, buflen), [];
    var left, curlen: nat, valLen, found := buflen, 0, 0, false;
    ScanStarts(s, kind, buflen);
    while left > 0
      invariant left > 0 ==> left + curlen == |s|
      invariant Scanning(s, kind, left, curlen, found, acc)
      invariant valLen == |acc|
      decreases left
    {
      if buf[curlen] == kind || !found { HeaderComplete(s, kind, left, curlen, found, acc); }
      if buf[curlen] == kind {
        var len: int := buf[curlen + 1];
        ScanMatch(s, kind, left, curlen, found, acc);
        if left - len < 2 {
          return -1;
        }
        valLen := valLen + len;
        acc := acc + s[curlen + 2..curlen + 2 + len];
        if len < 255 {
          return valLen;
        } else {
          found := true;
        }
      } else if found {
        ScanEnds(s, kind, left, curlen, found, acc);
        return valLen;
      } else {
        ScanSkip(s, kind, left, curlen, acc);
      }
      left, curlen := left - (2 + buf[curlen + 1] as int), curlen + 2 + buf[curlen + 1] as int;
    }
    ScanEnds(s, kind, left, curlen, found, acc);
    if found {
      return valLen;
    }
    return -1;
  }

  /** Whether the value that is found fits into a destination. */
  function LengthRead(r: Scanned, valSize: int): int { if r.Value? && |r.v| <= valSize then |r.v| else -1 }

  /** esp_rmaker_get_value_from_tlv */
  method GetValueFromTlv(buf: array?<Octet>, buflen: int, kind: Octet, val: array?<Octet>, valSize: int)
      returns (r: int)
    requires buf != null ==> buflen <= buf.Length && buf != val
    requires val != null ==> valSize <= val.Length
    requires Read(Input(buf, buflen), kind) != Cut
    modifies val
    ensures r == if val == null then -1 else LengthRead(Read(Input(buf, buflen), kind), valSize)
    ensures r >= 0 ==> val != null && val[..] == Splice(old(val[..]), 0, Read(Input(buf, buflen), kind).v)
    ensures r < 0 && val != null && valSize < 255 ==> val[..] == old(val[..])
  {
    hide Scanning, Read, Splice;
    if buf == null || val == null {
      ScanNothing(kind);
      return -1;
    }
    ghost var s, was, acc: seq<Octet> := Input(buf, buflen), val[..], [];
    var left, curlen: nat, valLen, room, found := buflen, 0, 0, valSize, false;
    ScanStarts(s, kind, buflen);
    SpliceNothing(was, 0);
    while left > 0
      invariant left > 0 ==> left + curlen == |s|
      invariant Scanning(s, kind, left, curlen, found, acc)
      invariant valLen == |acc| <= val.Length && room == valSize - valLen && (found ==> room >= 0)
      invariant found <==> |acc| >= 255
      invariant acc == [] <==> !found
      invariant val[..] == Splice(was, 0, acc)
      decreases left
    {
      if buf[curlen] == kind || !found { HeaderComplete(s, kind, left, curlen, found, acc); }
      if buf[curlen] == kind {
        var len: int := buf[curlen + 1];
        ScanMatch(s, kind, left, curlen, found, acc);
        if room < len || left - len < 2 {
          return -1;
        }
        ghost var chunk := s[curlen + 2..curlen + 2 + len];
        assert buf[curlen + 2..curlen + 2 + len] == chunk;
        Memcpy(val, valLen, buf[curlen + 2..curlen + 2 + len]);
        SpliceTwice(was, 0, acc, chunk);
        acc := acc + chunk;
        valLen := valLen + len;
        room := room - len;
        if len < 255 {
          return valLen;
        } else {
          found := true;
        }
      } else if found {
        ScanEnds(s, kind, left, curlen, found, acc);
        return valLen;
      } else {
        ScanSkip(s, kind, left, curlen, acc);
      }
      left, curlen := left - (2 + buf[curlen + 1] as int), curlen + 2 + buf[curlen + 1] as int;
    }
    ScanEnds(s, kind, left, curlen, found, acc);
    if found {
      return valLen;
    }
    return -1;
  }

  /** The scanners agree: a destination of the length that the first announces takes exactly the value. */
  method ReadAll(buf: array?<Octet>, buflen: int, kind: Octet) returns (len: int, val: array?<Octet>)
    requires buf != null ==> buflen <= buf.Length
    requires Read(Input(buf, buflen), kind) != Cut
    ensures len == LengthFound(Read(Input(buf, buflen), kind))
    ensures len >= 0 ==> val != null && fresh(val) && val[..] == Read(Input(buf, buflen), kind).v
  {
    hide Scan;
    val := null;
    len := GetTlvLength(buf, buflen, kind);
    if len >= 0 {
      val := new Octet[len](_ => 0);
      var r := GetValueFromTlv(buf, buflen, kind, val, len);
    }
  }

  /** Whatever the destination: the value is refused exactly if there is none or it does not fit. */
  lemma ScannersAgree(r: Scanned, valSize: int)
    ensures LengthRead(r, valSize) == -1 <==> LengthFound(r) == -1 || LengthFound(r) > valSize
    ensures LengthRead(r, valSize) != -1 ==> LengthRead(r, valSize) == LengthFound(r)
  {
  }

  /** Both scanners on the same input: -1 from the first means -1 from the second. */
  method ScanBoth(buf: array?<Octet>, buflen: int, kind: Octet, val: array<Octet>, valSize: int)
      returns (len: int, r: int)
    requires buf != null ==> buflen <= buf.Length && buf != val
    requires valSize <= val.Length && Read(Input(buf, buflen), kind) != Cut
    modifies val
    ensures r == -1 <==> len == -1 || len > valSize
    ensures r != -1 ==> r == len
  {
    hide Scan;
    len := GetTlvLength(buf, buflen, kind);
    r := GetValueFromTlv(buf, buflen, kind, val, valSize);
    ScannersAgree(Read(Input(buf, buflen), kind), valSize);
  }
}
