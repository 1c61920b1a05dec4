/**
 The receiving side of an object stream, transport/recv.go: the iterator that
 parses one header at a time, the reader of one object, and the handler that
 counts per session. The request body is a byte sequence that answers every read
 in full while bytes are left; the callback reads each object to its end, in
 pieces of any size.
 */
module Recv {
  import opened Wrappers
  import opened Wire
  import Send

  /** What one step of the iterator finds; a panic is an index out of range. */
  datatype Next =
    | Finished
    | LengthTooBig
    | BadChecksum
    | Nothing
    | Panics
    | Last(lastSession: I64, lastLength: nat)
    | Object(hdr: Header, sessid: I64, hlen: nat)

  /** The contents of a new header buffer. */
  const ZEROS: seq<Byte> := seq(MAX_HEADER_SIZE, _ => 0)

  datatype Step = Step(next: Next, buf: seq<Byte>, rest: seq<Byte>)

  function Over(buf: seq<Byte>, s: seq<Byte>): (r: seq<Byte>)
    requires |s| <= |buf|
    ensures |r| == |buf|
  {
    s + buf[|s|..]
  }

  /** The length word at the front of the buffer, as the signed number the program reads. */
  function LengthOf(buf: seq<Byte>): I64
    requires |buf| >= 16
  {
    Signed(Get64(buf[0..8]))
  }

  predicate LengthIntact(buf: seq<Byte>)
    requires |buf| >= 16
  {
    Get64(buf[8..16]) == HashWord(Unsigned(LengthOf(buf)))
  }

  function Parsed(buf: seq<Byte>, hlen: nat): Next {
    match ExtHeader(buf)
    case None => Panics
    case Some((hdr, sessid)) =>
      if hdr.IsLast() then Last(sessid, hlen + 16) else Object(hdr, sessid, hlen + 16)
  }

  /** One step over the bytes that are left, with whatever the header buffer holds. */
  function NextOf(buf: seq<Byte>, data: seq<Byte>): (s: Step)
    requires |buf| == MAX_HEADER_SIZE
    ensures |s.buf| == MAX_HEADER_SIZE
    ensures |s.rest| < |data| || s.next == Finished
  {
    hide LengthOf, LengthIntact, Parsed;
    if |data| < 16 then
      Step(Finished, Over(buf, data), [])
    else
      var buf1, data1 := Over(buf, data[..16]), data[16..];
      var hlen := LengthOf(buf1);
      if hlen > |buf| then
        Step(LengthTooBig, buf1, data1)
      else if !LengthIntact(buf1) then
        Step(BadChecksum, buf1, data1)
      else if hlen < 0 then
        Step(Panics, buf1, data1)
      else
        var n := Min(hlen, |data1|);
        var buf2 := Over(buf1, data1[..n]);
        Step(if n == 0 then Nothing else Parsed(buf2, hlen), buf2, data1[n..])
  }

  /** The request body. */
  class Body {
    var rest: seq<Byte>

    constructor (data: seq<Byte>)
      ensures rest == data
    {
      rest := data;
    }

    /** Reads into the first `len` bytes of `b`. */
    method Read(b: array<Byte>, len: nat) returns (n: nat, eof: bool)
      requires len <= b.Length
      modifies this, b
      ensures n == Min(len, |old(rest)|)
      ensures b[..] == Over(old(b[..]), old(rest)[..n]) && rest == old(rest)[n..]
      ensures n < len ==> eof
      ensures eof ==> rest == []
    {
      n := Min(len, |rest|);
      forall i | 0 <= i < n {
        b[i] := rest[i];
      }
      rest := rest[n..];
      eof := *;
      if n < len {
        eof := true;
      } else if rest != [] {
        eof := false;
      }
    }
  }

  class Iterator {
    const body: Body
    const headerBuf: array<Byte>

    constructor (body: Body)
      ensures this.body == body && fresh(headerBuf) && headerBuf[..] == ZEROS
    {
      this.body := body;
      headerBuf := new Byte[MAX_HEADER_SIZE](_ => 0);
      new;
      assert headerBuf[..] == ZEROS;
    }

    method Next() returns (next: Next, eof: bool)
      requires headerBuf.Length == MAX_HEADER_SIZE
      modifies body, headerBuf
      ensures Step(next, headerBuf[..], body.rest) == NextOf(old(headerBuf[..]), old(body.rest))
      ensures eof ==> body.rest == []
    {
      hide HashWord, Get64, ExtHeader, LengthOf, LengthIntact, Parsed;
      var n;
      n, eof := body.Read(headerBuf, 16);
      if n < 16 {
        return Finished, eof;
      }
      var hlen := LengthOf(headerBuf[..]);
      if hlen > headerBuf.Length {
        return LengthTooBig, false;
      }
      if !LengthIntact(headerBuf[..]) {
        return BadChecksum, false;
      }
      if hlen < 0 {
        return Panics, false;
      }
      n, eof := body.Read(headerBuf, hlen);
      if n == 0 {
        return Nothing, eof;
      }
      next := Parsed(headerBuf[..], hlen);
    }
  }

  /** The reader that the callback gets. */
  class ObjReader {
    const body: Body
    const hdr: Header
    var off: nat

    constructor (body: Body, hdr: Header)
      ensures this.body == body && this.hdr == hdr && off == 0
    {
      this.body, this.hdr, off := body, hdr, 0;
    }

    /** A negative size panics; otherwise reads stop at the end of the object or of the body. */
    method Read(b: array<Byte>) returns (n: nat, eof: bool, panics: bool)
      requires off <= hdr.dsize || hdr.dsize < 0 == off
      modifies this, body, b
      ensures panics <==> hdr.dsize < 0
      ensures panics ==> n == 0 && body.rest == old(body.rest) && off == old(off)
      ensures !panics ==>
        && n == Min(Min(hdr.dsize - old(off), b.Length), |old(body.rest)|)
        && b[..n] == old(body.rest)[..n] && body.rest == old(body.rest)[n..]
        && off == old(off) + n
        && (off == hdr.dsize ==> eof) && (eof ==> off == hdr.dsize || body.rest == [])
        && (!eof ==> n == Min(hdr.dsize - old(off), b.Length))
    {
      var rem := hdr.dsize - off;
      if rem < 0 {
        return 0, false, true;
      }
      n, eof := body.Read(b, Min(rem, b.Length));
      panics := false;
      off := off + n;
      if !eof && off >= hdr.dsize {
        eof := true;
      }
    }
  }

  // ---- what the iterator makes of what the sender wrote

  lemma PrefixRead(buf: seq<Byte>, hlen: nat)
    requires |buf| >= 16 && hlen <= MAX_HEADER_SIZE && buf[..16] == Prefix(hlen)
    ensures LengthOf(buf) == hlen && LengthIntact(buf)
  {
    hide Put64, Get64, HashWord;
    assert buf[0..8] == buf[..16][..8] == Put64(hlen);
    assert buf[8..16] == buf[..16][8..] == Put64(HashWord(hlen));
    WordOnWire(hlen);
    WordOnWire(HashWord(hlen));
  }

  /** A written header is read back whatever the buffer held and whatever follows. */
  lemma NextDecodes(buf: seq<Byte>, h: Header, sessid: I64, tail: seq<Byte>)
    requires |buf| == MAX_HEADER_SIZE && h.Fits()
    ensures
      var s := NextOf(buf, Encode(h, sessid) + tail);
      && s.rest == tail
      && s.next == if h.IsLast() then Last(sessid, |Encode(h, sessid)|) else Object(h, sessid, |Encode(h, sessid)|)
  {
    hide LengthOf, LengthIntact, Prefix, Wire.Body, ExtHeader;
    var body := Wire.Body(h, sessid);
    var data := Encode(h, sessid) + tail;
    assert data == Prefix(|body|) + (body + tail);
    var buf1 := Over(buf, data[..16]);
    assert buf1[..16] == data[..16] == Prefix(|body|);
    PrefixRead(buf1, |body|);
    assert data[16..] == body + tail;
    var buf2 := Over(buf1, (body + tail)[..|body|]);
    assert buf2[0..|body|] == body;
    HeaderFound(buf2, h, sessid);
    assert (body + tail)[|body|..] == tail;
  }

  /** What each outcome means for the bytes that are left. */
  lemma NextExactly(buf: seq<Byte>, data: seq<Byte>)
    requires |buf| == MAX_HEADER_SIZE
    ensures
      var next := NextOf(buf, data).next;
      && (next == Finished <==> |data| < 16)
      && (|data| >= 16 ==>
           var length, checksum := Signed(Get64(data[..8])), Get64(data[8..16]);
           && (next == LengthTooBig <==> length > 1024)
           && (next == BadChecksum <==> length <= 1024 && checksum != HashWord(Get64(data[..8])))
           && (next == Nothing <==>
                0 <= length <= 1024 && checksum == HashWord(Get64(data[..8])) && (length == 0 || |data| == 16)))
  {
    hide Put64, Get64, HashWord, ExtHeader;
    if |data| >= 16 {
      var buf1 := Over(buf, data[..16]);
      assert buf1[0..8] == data[..8] && buf1[8..16] == data[8..16];
      assert Unsigned(Signed(Get64(data[..8]))) == Get64(data[..8]);
    }
  }

  /** A length word damaged on the way never gets past its checksum. */
  lemma DamagedLength(buf: seq<Byte>, hlen: U64, word: U64, tail: seq<Byte>)
    requires |buf| == MAX_HEADER_SIZE && word != hlen
    ensures NextOf(buf, Put64(word) + Put64(HashWord(hlen)) + tail).next in {LengthTooBig, BadChecksum}
  {
    hide Put64, Get64, HashWord, Parsed;
    var data := Put64(word) + Put64(HashWord(hlen)) + tail;
    var buf1 := Over(buf, data[..16]);
    assert buf1[0..8] == Put64(word) && buf1[8..16] == Put64(HashWord(hlen));
    WordOnWire(word);
    WordOnWire(HashWord(hlen));
    HashWordInjective(word, hlen);
  }

  // ---- the handler

  datatype Outcome = Running | AtEnd | Broken | Panicked

  /** What a handler has delivered to its callback and counted per session, and which sessions have ended. */
  datatype Log = Log(delivered: seq<(Header, seq<Byte>)>, sessions: map<I64, Send.Stats>, closed: set<I64>,
                     outcome: Outcome) {
    function Of(sessid: I64): Send.Stats {
      if sessid in sessions then sessions[sessid] else Send.Stats(0, 0, 0)
    }

    /** Header bytes are counted when the header is read; session 0 is not counted. */
    function Header(sessid: I64, hlen: nat): Log {
      if sessid == 0 then this
      else this.(sessions := sessions[sessid := Of(sessid).(offset := Of(sessid).offset + hlen)])
    }

    /** A session ends: the counters of those that ended long ago are dropped, even its own if it had ended before. */
    function Ended(sessid: I64, expired: set<I64>): Log {
      if sessid == 0 then this
      else this.(sessions := sessions - (closed * expired), closed := closed - expired + {sessid})
    }

    /** The callback has read the object; without a session there are no counters to update, which panics. */
    function Object(hdr: Wire.Header, data: seq<Byte>, sessid: I64): Log
      requires hdr.dsize >= 0
    {
      var log := this.(delivered := delivered + [(hdr, data)]);
      if sessid == 0 then log.(outcome := Panicked)
      else
        var s := Of(sessid);
        log.(sessions := sessions[sessid := Send.Stats(s.num + 1, s.size + hdr.dsize, s.offset + hdr.dsize)])
    }
  }

  /** Everything a handler does with the rest of a request body; `expired` are the sessions that ended over a minute ago. */
  function ReceiveOf(buf: seq<Byte>, data: seq<Byte>, log: Log, expired: set<I64>): Log
    requires |buf| == MAX_HEADER_SIZE
    decreases |data|
  {
    hide NextOf;
    var s := NextOf(buf, data);
    match s.next
    case Finished => log.(outcome := AtEnd)
    case LengthTooBig => log.(outcome := Broken)
    case BadChecksum => log.(outcome := Broken)
    case Panics => log.(outcome := Panicked)
    case Nothing => ReceiveOf(s.buf, s.rest, log, expired)
    case Last(sessid, hlen) => log.Header(sessid, hlen).Ended(sessid, expired).(outcome := AtEnd)
    case Object(hdr, sessid, hlen) =>
      if hdr.dsize < 0 then log.Header(sessid, hlen).(outcome := Panicked)
      else
        var n := Min(hdr.dsize, |s.rest|);
        var log' := log.Header(sessid, hlen).Object(hdr, s.rest[..n], sessid);
        if log'.outcome == Panicked then log' else ReceiveOf(s.buf, s.rest[n..], log', expired)
  }

  /** The callback: reads the object to its end, each time into a buffer of its choice. */
  method Drain(o: ObjReader) returns (data: seq<Byte>)
    requires o.off == 0 && o.hdr.dsize >= 0
    modifies o, o.body
    ensures var n := Min(o.hdr.dsize, |old(o.body.rest)|);
      data == old(o.body.rest)[..n] && o.body.rest == old(o.body.rest)[n..]
  {
    ghost var was := o.body.rest;
    data := [];
    var eof := false;
    while !eof
      invariant 0 <= o.off <= |was| && o.off <= o.hdr.dsize
      invariant data == was[..o.off] && o.body.rest == was[o.off..]
      invariant eof ==> o.off == o.hdr.dsize || o.body.rest == []
      invariant !eof ==> o.off == 0 || o.off < o.hdr.dsize
      decreases !eof, o.hdr.dsize - o.off
    {
      var size: nat :| size > 0;
      var b := new Byte[size](_ => 0);
      ghost var off := o.off;
      var n, panics;
      n, eof, panics := o.Read(b);
      assert was[off..][..n] == was[off..off + n];
      data := data + b[..n];
    }
  }

  class Handler {
    var log: Log

    constructor ()
      ensures log == Log([], map[], {}, Running)
    {
      log := Log([], map[], {}, Running);
    }

    /** Serves one request; the counters of earlier requests of the same session go on. */
    method Receive(body: Body, expired: set<I64>)
      modifies this, body
      ensures log == ReceiveOf(ZEROS, old(body.rest), old(log).(outcome := Running), expired)
    {
      hide NextOf;
      log := log.(outcome := Running);
      var it := new Iterator(body);
      ghost var result := ReceiveOf(it.headerBuf[..], body.rest, log, expired);
      while log.outcome == Running
        invariant fresh(it) && fresh(it.headerBuf) && it.body == body
        invariant it.headerBuf.Length == MAX_HEADER_SIZE
        invariant if log.outcome == Running then ReceiveOf(it.headerBuf[..], body.rest, log, expired) == result else log == result
        decreases log.outcome == Running, |body.rest|
      {
        var next, eof := it.Next();
        match next {
          case Finished => log := log.(outcome := AtEnd);
          case LengthTooBig => log := log.(outcome := Broken);
          case BadChecksum => log := log.(outcome := Broken);
          case Panics => log := log.(outcome := Panicked);
          case Nothing =>
            if eof {
              log := log.(outcome := AtEnd);
            }
          case Last(sessid, hlen) =>
            log := log.Header(sessid, hlen).Ended(sessid, expired).(outcome := AtEnd);
          case Object(hdr, sessid, hlen) =>
            log := log.Header(sessid, hlen);
            if hdr.dsize < 0 {
              log := log.(outcome := Panicked);
            } else {
              var o := new ObjReader(body, hdr);
              var data := Drain(o);
              log := log.Object(hdr, data, sessid);
            }
        }
      }
    }
  }
}
