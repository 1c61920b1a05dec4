/**
 The sending side of an object stream, transport/send.go. The HTTP client pulls
 the bytes with Read, into buffers of any size; each call resumes the header or
 the data of the current object where the previous one stopped. A reader is its
 content; how many bytes each of its reads yields, and whether the last of them
 also reports the end, is left open. The idle timer and the stop channel are
 the outcome `quiet`.
 */
module Send {
  import opened Wrappers
  import opened Wire

  /** An object and its reader; None is the nil reader. */
  datatype Obj = Obj(hdr: Header, reader: Option<seq<Byte>>)

  datatype Stats = Stats(num: nat, size: nat, offset: nat)

  const EMPTY: Header := Header([], [], [], 0)
  const MARKER: Obj := Obj(Header([], [], [], LAST_MARKER), None)

  /** The header fits and the reader yields as many bytes as the header says. */
  predicate Sendable(o: Obj) {
    o.hdr.Fits() && !o.hdr.IsLast() && o.reader.Some? && |o.reader.value| == o.hdr.dsize
  }

  predicate AllSendable(objs: seq<Obj>) {
    forall i :: 0 <= i < |objs| ==> Sendable(objs[i])
  }

  /** Objects to send, and possibly the end marker behind them. */
  predicate Posting(objs: seq<Obj>) {
    objs != [] ==> AllSendable(objs[..|objs| - 1]) && (Sendable(objs[|objs| - 1]) || objs[|objs| - 1] == MARKER)
  }

  function Frame(o: Obj, sessid: I64): seq<Byte>
    requires Sendable(o)
  {
    Encode(o.hdr, sessid) + o.reader.value
  }

  function Frames(objs: seq<Obj>, sessid: I64): seq<Byte>
    requires AllSendable(objs)
  {
    if objs == [] then [] else Frames(objs[..|objs| - 1], sessid) + Frame(objs[|objs| - 1], sessid)
  }

  function End(sessid: I64): (r: seq<Byte>)
    ensures |r| == 56
  {
    Encode(MARKER.hdr, sessid)
  }

  function TotalSize(objs: seq<Obj>): nat
    requires AllSendable(objs)
  {
    if objs == [] then 0 else TotalSize(objs[..|objs| - 1]) + |objs[|objs| - 1].reader.value|
  }

  lemma OneMoreFrame(objs: seq<Obj>, o: Obj, sessid: I64)
    requires AllSendable(objs) && Sendable(o)
    ensures AllSendable(objs + [o])
    ensures Frames(objs + [o], sessid) == Frames(objs, sessid) + Encode(o.hdr, sessid) + o.reader.value
    ensures TotalSize(objs + [o]) == TotalSize(objs) + |o.reader.value|
  {
    hide Sendable, Encode;
    assert (objs + [o])[..|objs|] == objs;
  }

  /** Where the sender stands inside the current object. */
  datatype Sendoff = Sendoff(obj: Obj, off: nat, dod: nat)

  const IDLE: Sendoff := Sendoff(Obj(EMPTY, None), 0, 0)

  /** The object is either not begun, or inside its header, or (`dod` set) inside its data. */
  ghost predicate Current(so: Sendoff, header: seq<Byte>, sessid: I64) {
    if so.obj == MARKER then
      if so.dod == 0 then so.off < 56 else so.off == 0 && so.dod == 56
    else if so.obj.reader.None? then
      so == IDLE
    else
      && Sendable(so.obj) && header == Encode(so.obj.hdr, sessid)
      && if so.dod == 0 then so.off < |header| else so.dod == |header| && so.off <= |so.obj.reader.value|
  }

  /** The bytes of the current object that are out already. */
  ghost function Part(so: Sendoff, sessid: I64): seq<Byte>
    requires exists header :: Current(so, header, sessid)
  {
    if so.obj == MARKER then
      if so.dod == 0 then End(sessid)[..so.off] else End(sessid)
    else if so.obj.reader.None? then []
    else if so.dod == 0 then Encode(so.obj.hdr, sessid)[..so.off]
    else Encode(so.obj.hdr, sessid) + so.obj.reader.value[..so.off]
  }

  ghost predicate Sound(so: Sendoff, header: seq<Byte>, sessid: I64, stats: Stats, done: seq<Obj>, out: seq<Byte>) {
    && Current(so, header, sessid) && AllSendable(done)
    && out == Frames(done, sessid) + Part(so, sessid)
    && stats == Stats(|done|, TotalSize(done), |Frames(done, sessid)| + so.dod)
  }

  ghost predicate InHeader(so: Sendoff, header: seq<Byte>, sessid: I64) {
    && (Sendable(so.obj) || so.obj == MARKER) && so.dod == 0
    && header == Encode(so.obj.hdr, sessid) && so.off < |header|
  }

  // ---- the steps, one lemma each

  lemma BeginSound(so: Sendoff, header: seq<Byte>, sessid: I64, stats: Stats, done: seq<Obj>, out: seq<Byte>,
                   o: Obj, header': seq<Byte>)
    requires Sound(so, header, sessid, stats, done, out) && so == IDLE
    requires (Sendable(o) || o == MARKER) && header' == Encode(o.hdr, sessid)
    ensures Sound(Sendoff(o, 0, 0), header', sessid, stats, done, out)
  {
    hide Encode, AllSendable, Frames;
  }

  lemma HeaderSound(so: Sendoff, header: seq<Byte>, sessid: I64, stats: Stats, done: seq<Obj>, out: seq<Byte>, n: nat)
    requires Sound(so, header, sessid, stats, done, out) && InHeader(so, header, sessid)
    requires so.off + n <= |header|
    ensures so.off + n < |header| ==>
              Sound(so.(off := so.off + n), header, sessid, stats, done, out + header[so.off..so.off + n])
    ensures so.off + n == |header| ==>
              Sound(so.(off := 0, dod := |header|), header, sessid, stats.(offset := stats.offset + |header|), done,
                    out + header[so.off..so.off + n])
  {
    hide Encode, AllSendable, Frames, TotalSize;
  }

  lemma DataSound(so: Sendoff, header: seq<Byte>, sessid: I64, stats: Stats, done: seq<Obj>, out: seq<Byte>, n: nat)
    requires Sound(so, header, sessid, stats, done, out) && so.obj.reader.Some? && so.dod != 0
    requires so.off + n <= |so.obj.reader.value|
    ensures Sound(so.(off := so.off + n), header, sessid, stats, done,
                  out + so.obj.reader.value[so.off..so.off + n])
  {
    hide Sendable, Encode, AllSendable, Frames, TotalSize;
    var data := so.obj.reader.value;
    assert data[..so.off] + data[so.off..so.off + n] == data[..so.off + n];
  }

  lemma DoneSound(so: Sendoff, header: seq<Byte>, sessid: I64, stats: Stats, done: seq<Obj>, out: seq<Byte>)
    requires Sound(so, header, sessid, stats, done, out) && so.obj.reader.Some? && so.dod != 0
    requires so.off == |so.obj.reader.value|
    ensures Sound(IDLE, header, sessid, Stats(stats.num + 1, stats.size + so.off, stats.offset + so.off),
                  done + [so.obj], out)
  {
    hide Sendable, Encode, AllSendable, Frames, TotalSize;
    OneMoreFrame(done, so.obj, sessid);
  }

  class Stream {
    const sessid: I64
    const maxheader: array<Byte>
    var hlen: nat
    var work: seq<Obj>
    var sendoff: Sendoff
    var stats: Stats
    ghost var done: seq<Obj>
    ghost var out: seq<Byte>

    ghost predicate Valid()
      reads this, maxheader
    {
      && maxheader.Length == MAX_HEADER_SIZE && hlen <= MAX_HEADER_SIZE && sessid != 0
      && Posting(work) && (sendoff.obj == MARKER ==> work == [])
      && Sound(sendoff, maxheader[..hlen], sessid, stats, done, out)
    }

    constructor (sessid: I64)
      requires sessid != 0
      ensures Valid() && fresh(maxheader) && this.sessid == sessid
      ensures work == [] && done == [] && out == [] && sendoff == IDLE && stats == Stats(0, 0, 0)
    {
      this.sessid := sessid;
      maxheader := new Byte[MAX_HEADER_SIZE](_ => 0);
      hlen, work, sendoff, stats := 0, [], IDLE, Stats(0, 0, 0);
      done, out := [], [];
    }

    /** Everything given to Send and Fin so far. */
    ghost function Posted(): seq<Obj>
      reads this
    {
      done + (if sendoff == IDLE then [] else [sendoff.obj]) + work
    }

    /** The end marker is out, whole. */
    predicate Ended()
      reads this
    {
      sendoff.obj == MARKER && sendoff.dod != 0
    }

    /** The end marker was begun and will never be finished. */
    predicate Cut()
      reads this
    {
      sendoff.obj == MARKER && sendoff.dod == 0
    }

    method Send(hdr: Header, data: seq<Byte>)
      requires Valid() && Sendable(Obj(hdr, Some(data)))
      requires AllSendable(work) && sendoff.obj != MARKER
      modifies this`work
      ensures Valid() && Posted() == old(Posted()) + [Obj(hdr, Some(data))] && AllSendable(work)
    {
      hide Sound, Sendable;
      work := work + [Obj(hdr, Some(data))];
      assert work[..|work| - 1] == old(work);
    }

    method Fin()
      requires Valid() && AllSendable(work) && sendoff.obj != MARKER
      modifies this`work
      ensures Valid() && Posted() == old(Posted()) + [MARKER]
    {
      hide Sound, Sendable;
      work := work + [MARKER];
      assert work[..|work| - 1] == old(work);
    }

    /** Resumes the header; the end of the marker's header is the end of the stream. */
    method SendHdr(b: array<Byte>) returns (n: nat, eof: bool)
      requires Valid() && InHeader(sendoff, maxheader[..hlen], sessid) && b != maxheader
      modifies this`sendoff, this`stats, this`out, b
      ensures n <= b.Length && old(sendoff.off) + n <= hlen
      ensures n == b.Length || old(sendoff.off) + n == hlen
      ensures sendoff.obj == old(sendoff.obj) && (sendoff.dod != 0 <==> old(sendoff.off) + n == hlen)
      ensures out == old(out) + b[..n]
      ensures eof <==> Ended()
      ensures Valid()
    {
      hide Sound, Encode, Posting;
      var header, off := maxheader[..hlen], sendoff.off;
      n := Min(b.Length, |header| - off);
      HeaderSound(sendoff, header, sessid, stats, done, out, n);
      forall i | 0 <= i < n {
        b[i] := header[off + i];
      }
      assert b[..n] == header[off..off + n];
      assert maxheader[..hlen] == header;
      out := out + b[..n];
      sendoff := sendoff.(off := sendoff.off + n);
      eof := false;
      if sendoff.off >= hlen {
        stats := stats.(offset := stats.offset + sendoff.off);
        sendoff := sendoff.(dod := sendoff.off, off := 0);
        eof := sendoff.obj.hdr.IsLast();
      }
    }

    /** Accounts for the finished object and forgets it. */
    method EoObj()
      requires Valid() && sendoff.obj.reader.Some? && sendoff.dod != 0
      requires sendoff.off == |sendoff.obj.reader.value|
      modifies this`sendoff, this`stats, this`done
      ensures Valid() && sendoff == IDLE && done == old(done) + [old(sendoff.obj)]
    {
      hide Sound, Posting;
      DoneSound(sendoff, maxheader[..hlen], sessid, stats, done, out);
      stats := Stats(stats.num + 1, stats.size + sendoff.off, stats.offset + sendoff.off);
      done := done + [sendoff.obj];
      sendoff := IDLE;
    }

    /**
     One read of the object's reader: any part of what is left, the end being reported no
     earlier than it is reached. An eager reader yields something if it can.
     */
    method ReadReader(b: array<Byte>, eager: bool) returns (n: nat, eof: bool)
      requires sendoff.obj.reader.Some? && sendoff.off <= |sendoff.obj.reader.value|
      modifies b
      ensures sendoff.off + n <= |sendoff.obj.reader.value| && n <= b.Length
      ensures b[..n] == sendoff.obj.reader.value[sendoff.off..sendoff.off + n]
      ensures eof ==> sendoff.off + n == |sendoff.obj.reader.value|
      ensures eager && b.Length > 0 && sendoff.off < |sendoff.obj.reader.value| ==> n > 0
    {
      var data, off := sendoff.obj.reader.value, sendoff.off;
      var most := Min(b.Length, |data| - off);
      var least := if eager then Min(1, most) else 0;
      n :| least <= n <= most;
      forall i | 0 <= i < n {
        b[i] := data[off + i];
      }
      assert b[..n] == data[off..off + n];
      eof := *;
      if off + n < |data| {
        eof := false;
      }
    }

    method SendData(b: array<Byte>, eager: bool) returns (n: nat)
      requires Valid() && sendoff.obj.reader.Some? && sendoff.dod != 0 && b != maxheader
      modifies this`sendoff, this`stats, this`done, this`out, b
      ensures Valid() && n <= b.Length && out == old(out) + b[..n]
      ensures Posted() == old(Posted()) && old(done) <= done
      ensures sendoff == IDLE || sendoff.obj == old(sendoff.obj)
      ensures eager && b.Length > 0 ==> n > 0 || |done| > old(|done|)
    {
      hide Sound, Posting, Sendable, Current;
      SoundInData(sendoff, maxheader[..hlen], sessid, stats, done, out);
      var eof;
      n, eof := ReadReader(b, eager);
      DataSound(sendoff, maxheader[..hlen], sessid, stats, done, out, n);
      out := out + b[..n];
      sendoff := sendoff.(off := sendoff.off + n);
      if eof || sendoff.off >= sendoff.obj.hdr.dsize {
        EoObj();
      }
    }

    /** Takes the next object from the queue and lays out its header. */
    method Begin()
      requires Valid() && sendoff == IDLE && work != []
      modifies this`sendoff, this`work, this`hlen, maxheader
      ensures Valid() && Posted() == old(Posted())
      ensures InHeader(sendoff, maxheader[..hlen], sessid) && sendoff == Sendoff(old(work[0]), 0, 0)
    {
      hide Sound, Encode;
      PostingHead(work);
      var o := work[0];
      ghost var header := maxheader[..hlen];
      hlen := InsHeader(maxheader, o.hdr, sessid);
      BeginSound(sendoff, header, sessid, stats, done, out, o, maxheader[..hlen]);
      work := work[1..];
      sendoff := Sendoff(o, 0, 0);
    }

    /**
     The reader handed to the HTTP client. Every byte it returns is the next byte of
     the frames of the posted objects. It reports the end either between objects
     (`quiet`, nothing was read) or with the whole end marker out. The end marker is
     finished exactly when the read that takes it from the queue has room for all of
     it; when it has not, the rest of it is never sent. With an eager reader, a read that
     has work to do makes progress.
     */
    method Read(b: array<Byte>, quiet: bool, eager: bool) returns (n: nat, eof: bool)
      requires Valid() && b != maxheader
      modifies this, maxheader, b
      ensures Valid() && Posted() == old(Posted()) && old(done) <= done
      ensures n <= b.Length && out == old(out) + b[..n]
      ensures eof ==> Ended() || (n == 0 && (sendoff == IDLE || Cut()))
      ensures Ended() ==> eof
      ensures old(Ended() || Cut()) ==> n == 0 && eof && sendoff == old(sendoff)
      ensures !old(Ended() || Cut()) ==>
        (Ended() || Cut() <==> !quiet && old(sendoff == IDLE && work == [MARKER]))
        && (Ended() ==> n == 56) && (Cut() ==> n == b.Length < 56)
      ensures eager && !quiet && b.Length > 0 && !old(Ended() || Cut()) && old(sendoff != IDLE || work != []) ==>
        n > 0 || |done| > old(|done|)
    {
      hide Sound, Encode, Posting;
      SoundMeansCurrent(sendoff, maxheader[..hlen], sessid, stats, done, out);
      if sendoff.obj.reader.Some? {
        if sendoff.dod != 0 {
          n := SendData(b, eager);
          eof := false;
        } else {
          n, eof := SendHdr(b);
        }
      } else if work == [] || quiet {
        n, eof := 0, true;
      } else {
        PostingHead(work);
        Begin();
        n, eof := SendHdr(b);
      }
    }
  }

  lemma PostingHead(work: seq<Obj>)
    requires Posting(work) && work != []
    ensures work[0].hdr.Fits() && (Sendable(work[0]) || work[0] == MARKER)
    ensures work[0] == MARKER <==> work == [MARKER]
    ensures Posting(work[1..])
  {
    var n := |work| - 1;
    if n > 0 {
      assert work[0] == work[..n][0] && Sendable(work[..n][0]);
      assert work[1..][..n - 1] == work[..n][1..];
    }
  }

  lemma SoundMeansCurrent(so: Sendoff, header: seq<Byte>, sessid: I64, stats: Stats, done: seq<Obj>, out: seq<Byte>)
    requires Sound(so, header, sessid, stats, done, out)
    ensures Current(so, header, sessid)
  {}

  lemma SoundInData(so: Sendoff, header: seq<Byte>, sessid: I64, stats: Stats, done: seq<Obj>, out: seq<Byte>)
    requires Sound(so, header, sessid, stats, done, out) && so.obj.reader.Some? && so.dod != 0
    ensures so.off <= |so.obj.reader.value| == so.obj.hdr.dsize
  {}
}
