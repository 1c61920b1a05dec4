/**
 The two ends of an object stream together: what the sender's reads return, in
 buffers of any sizes, is the frames of the posted objects and nothing else, and
 a handler that is given those bytes delivers the same headers and the same data
 and ends with the sender's counters.
 */
module Transfer {
  import opened Wrappers
  import opened Wire
  import opened Send
  import opened Recv

  // ---- the sender's output as a whole

  /** The bytes of everything posted; what is not sendable is the end marker, in the last place. */
  function StreamOf(posted: seq<Obj>, sessid: I64): seq<Byte>
    requires Posting(posted)
  {
    if AllSendable(posted) then Frames(posted, sessid) else Frames(posted[..|posted| - 1], sessid) + End(sessid)
  }

  lemma {:induction false} FramesConcat(a: seq<Obj>, b: seq<Obj>, sessid: I64)
    requires AllSendable(a) && AllSendable(b)
    ensures AllSendable(a + b) && Frames(a + b, sessid) == Frames(a, sessid) + Frames(b, sessid)
  {
    hide Sendable, Frame;
    if b == [] {
      assert a + b == a;
    } else {
      var n := |b| - 1;
      FramesConcat(a, b[..n], sessid);
      assert (a + b)[..|a| + n] == a + b[..n];
    }
  }

  lemma StreamOfObjects(objs: seq<Obj>, sessid: I64)
    requires AllSendable(objs)
    ensures Posting(objs) && StreamOf(objs, sessid) == Frames(objs, sessid)
    ensures Posting(objs + [MARKER]) && StreamOf(objs + [MARKER], sessid) == Frames(objs, sessid) + End(sessid)
  {
    hide Frames, Encode;
    var posted := objs + [MARKER];
    assert posted[..|objs|] == objs && posted[|objs|] == MARKER && !Sendable(posted[|objs|]);
  }

  lemma PostingSplit(work: seq<Obj>) returns (objs: seq<Obj>, marked: bool)
    requires Posting(work)
    ensures AllSendable(objs) && work == if marked then objs + [MARKER] else objs
  {
    hide Sendable;
    if work != [] && work[|work| - 1] == MARKER {
      objs, marked := work[..|work| - 1], true;
    } else {
      objs, marked := work, false;
    }
  }

  lemma StreamStarts(a: seq<Obj>, work: seq<Obj>, sessid: I64)
    requires AllSendable(a) && Posting(work)
    ensures Posting(a + work) && Frames(a, sessid) <= StreamOf(a + work, sessid)
  {
    hide Sendable, Frames, StreamOf, Encode, AllSendable, Posting;
    var objs, marked := PostingSplit(work);
    FramesConcat(a, objs, sessid);
    StreamOfObjects(a + objs, sessid);
    assert marked ==> a + work == a + objs + [MARKER];
  }

  /** At every moment the sender's output is a prefix of the bytes of what was posted. */
  lemma OutIsPrefix(s: Stream)
    requires s.Valid()
    ensures Posting(s.Posted()) && s.out <= StreamOf(s.Posted(), s.sessid)
    ensures s.Ended() ==> s.out == StreamOf(s.Posted(), s.sessid)
  {
    hide Sendable, Frames, StreamOf, Encode, Posting;
    var o := s.sendoff.obj;
    if o == MARKER {
      StreamOfObjects(s.done, s.sessid);
      assert s.Posted() == s.done + [MARKER];
    } else if s.sendoff == IDLE {
      StreamStarts(s.done, s.work, s.sessid);
      assert s.Posted() == s.done + s.work;
    } else {
      OneMoreFrame(s.done, o, s.sessid);
      StreamStarts(s.done + [o], s.work, s.sessid);
    }
  }

  // ---- the receiver on whole frames

  /** What delivering these objects adds to a log. */
  function Delivered(log: Log, objs: seq<Obj>, sessid: I64): Log
    requires AllSendable(objs)
  {
    if objs == [] then log
    else
      var o := objs[|objs| - 1];
      Delivered(log, objs[..|objs| - 1], sessid).Header(sessid, |Encode(o.hdr, sessid)|).Object(o.hdr, o.reader.value, sessid)
  }

  /** One frame is one delivery, whatever the header buffer held. */
  lemma FrameReceived(buf: seq<Byte>, o: Obj, sessid: I64, tail: seq<Byte>, log: Log, expired: set<I64>) returns (buf': seq<Byte>)
    requires |buf| == MAX_HEADER_SIZE && Sendable(o) && sessid != 0 && log.outcome == Running
    ensures |buf'| == MAX_HEADER_SIZE
    ensures
      ReceiveOf(buf, Frame(o, sessid) + tail, log, expired)
      == ReceiveOf(buf', tail, log.Header(sessid, |Encode(o.hdr, sessid)|).Object(o.hdr, o.reader.value, sessid), expired)
  {
    hide NextOf, Encode;
    var rest := o.reader.value + tail;
    assert Frame(o, sessid) + tail == Encode(o.hdr, sessid) + rest;
    NextDecodes(buf, o.hdr, sessid, rest);
    buf' := NextOf(buf, Encode(o.hdr, sessid) + rest).buf;
    assert rest[..o.hdr.dsize] == o.reader.value && rest[o.hdr.dsize..] == tail;
  }

  lemma {:induction false} FramesReceived(buf: seq<Byte>, objs: seq<Obj>, sessid: I64, tail: seq<Byte>, log: Log,
                                          expired: set<I64>)
      returns (buf': seq<Byte>)
    requires |buf| == MAX_HEADER_SIZE && AllSendable(objs) && sessid != 0 && log.outcome == Running
    ensures |buf'| == MAX_HEADER_SIZE && Delivered(log, objs, sessid).outcome == Running
    ensures ReceiveOf(buf, Frames(objs, sessid) + tail, log, expired)
         == ReceiveOf(buf', tail, Delivered(log, objs, sessid), expired)
  {
    hide NextOf, Encode, ReceiveOf, Frame, Sendable;
    if objs == [] {
      assert Frames(objs, sessid) + tail == tail;
      buf' := buf;
    } else {
      var n := |objs| - 1;
      assert Sendable(objs[n]);
      var frame := Frame(objs[n], sessid);
      var buf1 := FramesReceived(buf, objs[..n], sessid, frame + tail, log, expired);
      assert Frames(objs, sessid) + tail == Frames(objs[..n], sessid) + (frame + tail);
      buf' := FrameReceived(buf1, objs[n], sessid, tail, Delivered(log, objs[..n], sessid), expired);
    }
  }

  function Pairs(objs: seq<Obj>): (r: seq<(Header, seq<Byte>)>)
    requires AllSendable(objs)
    ensures |r| == |objs|
  {
    seq(|objs|, i requires 0 <= i < |objs| => (objs[i].hdr, objs[i].reader.value))
  }

  function Plus(a: Stats, b: Stats): Stats {
    Stats(a.num + b.num, a.size + b.size, a.offset + b.offset)
  }

  lemma OneCounted(log: Log, o: Obj, sessid: I64, hlen: nat)
    requires Sendable(o) && sessid != 0 && log.outcome == Running
    ensures
      var r := log.Header(sessid, hlen).Object(o.hdr, o.reader.value, sessid);
      && r.outcome == Running && r.closed == log.closed && r.delivered == log.delivered + [(o.hdr, o.reader.value)]
      && r.Of(sessid) == Plus(log.Of(sessid), Stats(1, |o.reader.value|, hlen + |o.reader.value|))
      && r.sessions == log.sessions[sessid := r.Of(sessid)]
  {}

  lemma OneMorePair(objs: seq<Obj>)
    requires AllSendable(objs) && objs != []
    ensures
      var n := |objs| - 1;
      Sendable(objs[n]) && Pairs(objs) == Pairs(objs[..n]) + [(objs[n].hdr, objs[n].reader.value)]
  {}

  /** The counters after a delivery are the sender's counters on top of what was there. */
  lemma {:induction false} DeliveredCounts(log: Log, objs: seq<Obj>, sessid: I64)
    requires AllSendable(objs) && sessid != 0 && log.outcome == Running
    ensures
      var r := Delivered(log, objs, sessid);
      && r.outcome == Running && r.closed == log.closed && r.delivered == log.delivered + Pairs(objs)
      && r.Of(sessid) == Plus(log.Of(sessid), Stats(|objs|, TotalSize(objs), |Frames(objs, sessid)|))
      && r.sessions == if objs == [] then log.sessions else log.sessions[sessid := r.Of(sessid)]
  {
    hide Encode, Log.Header, Log.Object, Log.Of, Pairs, Sendable;
    if objs != [] {
      var n := |objs| - 1;
      DeliveredCounts(log, objs[..n], sessid);
      OneMorePair(objs);
      OneCounted(Delivered(log, objs[..n], sessid), objs[n], sessid, |Encode(objs[n].hdr, sessid)|);
    } else {
      assert |Pairs(objs)| == 0;
    }
  }

  /** What is left of the counters when session `sessid` ends. */
  function AfterEnd(sessions: map<I64, Stats>, closed: set<I64>, sessid: I64, stats: Stats, expired: set<I64>): map<I64, Stats> {
    sessions[sessid := stats] - (closed * expired)
  }

  /** The ended session keeps its counters, unless it had ended before and long ago; so does every other session. */
  lemma CountersKept(sessions: map<I64, Stats>, closed: set<I64>, sessid: I64, stats: Stats, expired: set<I64>, id: I64)
    ensures
      var r := AfterEnd(sessions, closed, sessid, stats, expired);
      && (id in r <==> (id == sessid || id in sessions) && !(id in closed && id in expired))
      && (id in r ==> r[id] == if id == sessid then stats else sessions[id])
  {}

  /**
   A finished stream is received as it was sent: the same headers with the same data
   in the same order, and the session's counters equal to the sender's, on top of what was
   there. Then the counters of sessions that ended long ago are dropped.
   */
  lemma StreamReceived(objs: seq<Obj>, sessid: I64, log: Log, expired: set<I64>)
    requires AllSendable(objs) && sessid != 0 && log.outcome == Running
    ensures
      ReceiveOf(ZEROS, Frames(objs, sessid) + End(sessid), log, expired)
      == Log(log.delivered + Pairs(objs),
             AfterEnd(log.sessions, log.closed, sessid,
                      Plus(log.Of(sessid), Stats(|objs|, TotalSize(objs), |Frames(objs, sessid) + End(sessid)|)), expired),
             log.closed - expired + {sessid}, AtEnd)
  {
    hide NextOf, Encode, Frames, TotalSize, Delivered, Pairs;
    var buf := FramesReceived(ZEROS, objs, sessid, End(sessid), log, expired);
    DeliveredCounts(log, objs, sessid);
    NextDecodes(buf, MARKER.hdr, sessid, []);
    assert End(sessid) + [] == End(sessid);
  }

  /** Without a session the first object is delivered, and then the handler panics. */
  lemma NoSessionPanics(buf: seq<Byte>, o: Obj, tail: seq<Byte>, log: Log, expired: set<I64>)
    requires |buf| == MAX_HEADER_SIZE && Sendable(o) && log.outcome == Running
    ensures ReceiveOf(buf, Frame(o, 0) + tail, log, expired)
         == log.(delivered := log.delivered + [(o.hdr, o.reader.value)], outcome := Panicked)
  {
    hide NextOf, Encode;
    var rest := o.reader.value + tail;
    assert Frame(o, 0) + tail == Encode(o.hdr, 0) + rest;
    NextDecodes(buf, o.hdr, 0, rest);
    assert rest[..o.hdr.dsize] == o.reader.value;
  }

  /** A stream that went quiet between objects: the request ends there and the next one carries on. */
  lemma PauseReceived(objs: seq<Obj>, sessid: I64, log: Log, expired: set<I64>)
    requires AllSendable(objs) && sessid != 0 && log.outcome == Running
    ensures ReceiveOf(ZEROS, Frames(objs, sessid), log, expired) == Delivered(log, objs, sessid).(outcome := AtEnd)
  {
    hide Encode, Frames, TotalSize, Delivered;
    var buf := FramesReceived(ZEROS, objs, sessid, [], log, expired);
    assert Frames(objs, sessid) + [] == Frames(objs, sessid);
  }

  // ---- a whole transfer, over any number of requests

  lemma {:induction false} DeliveredTwice(log: Log, a: seq<Obj>, b: seq<Obj>, sessid: I64)
    requires AllSendable(a) && AllSendable(b)
    ensures AllSendable(a + b) && Delivered(Delivered(log, a, sessid), b, sessid) == Delivered(log, a + b, sessid)
  {
    hide Sendable, Encode, Log.Header, Log.Object;
    if b == [] {
      assert a + b == a;
    } else {
      var n := |b| - 1;
      DeliveredTwice(log, a, b[..n], sessid);
      assert (a + b)[..|a| + n] == a + b[..n];
      assert Sendable(b[n]);
    }
  }

  /** The objects from `base` on went out in the request that pauses here. */
  lemma PauseRelayed(log: Log, done: seq<Obj>, base: nat, sessid: I64, request: seq<Byte>, expired: set<I64>)
    requires AllSendable(done) && base <= |done| && sessid != 0 && log.outcome == Running
    requires Frames(done, sessid) == Frames(done[..base], sessid) + request
    ensures Delivered(log, done[..base], sessid).outcome == Running
    ensures ReceiveOf(ZEROS, request, Delivered(log, done[..base], sessid), expired)
         == Delivered(log, done, sessid).(outcome := AtEnd)
  {
    hide Sendable, Encode, Frames, Delivered, ReceiveOf;
    var a, b := done[..base], done[base..];
    assert done == a + b;
    FramesConcat(a, b, sessid);
    assert request == Frames(b, sessid) by { Cancel(Frames(a, sessid), request, Frames(b, sessid)); }
    DeliveredCounts(log, a, sessid);
    DeliveredTwice(log, a, b, sessid);
    PauseReceived(b, sessid, Delivered(log, a, sessid), expired);
  }

  lemma Cancel(a: seq<Byte>, b: seq<Byte>, c: seq<Byte>)
    requires a + b == a + c
    ensures b == c
  {
    assert b == (a + b)[|a|..] && c == (a + c)[|a|..];
  }

  /** The handler has delivered the objects and counted what the sender counted, on top of what it knew of the session. */
  ghost predicate Complete(log0: Log, log: Log, done: seq<Obj>, sessid: I64, stats: Stats, expired: set<I64>) {
    AllSendable(done)
    && log == Log(log0.delivered + Pairs(done),
                  AfterEnd(log0.sessions, log0.closed, sessid, Plus(log0.Of(sessid), stats), expired),
                  log0.closed - expired + {sessid}, AtEnd)
  }

  /** The same for the request that ends with the end marker. */
  lemma EndRelayed(log: Log, done: seq<Obj>, base: nat, sessid: I64, request: seq<Byte>, expired: set<I64>)
    requires AllSendable(done) && base <= |done| && sessid != 0 && log.outcome == Running
    requires Frames(done, sessid) + End(sessid) == Frames(done[..base], sessid) + request
    ensures Delivered(log, done[..base], sessid).outcome == Running
    ensures Complete(log, ReceiveOf(ZEROS, request, Delivered(log, done[..base], sessid), expired), done, sessid,
                     Stats(|done|, TotalSize(done), |Frames(done, sessid)| + 56), expired)
  {
    hide Sendable, Encode, Frames, Delivered, ReceiveOf, Pairs, TotalSize, Log.Of;
    var a, b := done[..base], done[base..];
    assert done == a + b;
    FramesConcat(a, b, sessid);
    Cancel(Frames(a, sessid), request, Frames(b, sessid) + End(sessid));
    var log1 := Delivered(log, a, sessid);
    DeliveredCounts(log, a, sessid);
    DeliveredTwice(log, a, b, sessid);
    DeliveredCounts(log1, b, sessid);
    DeliveredCounts(log, done, sessid);
    StreamReceived(b, sessid, log1, expired);
  }

  /** Between two reads: the first `base` objects are delivered, the rest of the output is in the open request. */
  ghost predicate Relaying(log0: Log, log: Log, done: seq<Obj>, out: seq<Byte>, sessid: I64, base: nat, request: seq<Byte>) {
    && AllSendable(done) && base <= |done|
    && out == Frames(done[..base], sessid) + request
    && log.(outcome := Running) == Delivered(log0, done[..base], sessid)
  }

  lemma RelayRead(log0: Log, log: Log, done: seq<Obj>, out: seq<Byte>, sessid: I64, base: nat, request: seq<Byte>,
                  done': seq<Obj>, chunk: seq<Byte>)
    requires Relaying(log0, log, done, out, sessid, base, request) && AllSendable(done') && done <= done'
    ensures Relaying(log0, log, done', out + chunk, sessid, base, request + chunk)
  {
    hide AllSendable, Frames, Delivered;
    assert done'[..base] == done[..base];
  }

  lemma RelayPause(log0: Log, log: Log, done: seq<Obj>, out: seq<Byte>, sessid: I64, base: nat, request: seq<Byte>,
                   expired: set<I64>)
    requires Relaying(log0, log, done, out, sessid, base, request) && sessid != 0 && log0.outcome == Running
    requires out == Frames(done, sessid)
    ensures Relaying(log0, ReceiveOf(ZEROS, request, log.(outcome := Running), expired), done, out, sessid, |done|, [])
  {
    hide AllSendable, Frames, Delivered, ReceiveOf;
    PauseRelayed(log0, done, base, sessid, request, expired);
    DeliveredCounts(log0, done, sessid);
    assert done[..|done|] == done;
  }

  lemma RelayEnd(log0: Log, log: Log, done: seq<Obj>, out: seq<Byte>, sessid: I64, base: nat, request: seq<Byte>,
                 expired: set<I64>)
    requires Relaying(log0, log, done, out, sessid, base, request) && sessid != 0 && log0.outcome == Running
    requires out == Frames(done, sessid) + End(sessid)
    ensures Complete(log0, ReceiveOf(ZEROS, request, log.(outcome := Running), expired), done, sessid,
                     Stats(|done|, TotalSize(done), |Frames(done, sessid)| + 56), expired)
  {
    hide AllSendable, Frames, Delivered, ReceiveOf, Pairs, TotalSize, Encode, Complete;
    EndRelayed(log0, done, base, sessid, request, expired);
  }

  /** What the sender's invariant says at the two places where a request can end. */
  lemma AtRequestEnd(so: Sendoff, header: seq<Byte>, sessid: I64, stats: Stats, done: seq<Obj>, out: seq<Byte>)
    requires Sound(so, header, sessid, stats, done, out)
    ensures AllSendable(done)
    ensures so == IDLE ==> out == Frames(done, sessid)
    ensures so.obj == MARKER && so.dod != 0 ==>
      out == Frames(done, sessid) + End(sessid)
      && stats == Stats(|done|, TotalSize(done), |Frames(done, sessid)| + 56)
  {
    hide AllSendable, Frames, TotalSize, Encode;
  }

  /** The end marker is posted. */
  ghost predicate Marked(posted: seq<Obj>) {
    posted != [] && posted[|posted| - 1] == MARKER
  }

  /** A bound on the number of reads that make progress. */
  function Work(posted: seq<Obj>, sessid: I64): nat
    requires Posting(posted)
  {
    |StreamOf(posted, sessid)| + |posted|
  }

  /** While the marker is not out there is work to do. */
  lemma WorkIsLeft(s: Stream)
    requires s.Valid() && Marked(s.Posted()) && !s.Ended() && !s.Cut()
    ensures s.sendoff != IDLE || s.work != []
    ensures Posting(s.Posted()) && |s.out| + |s.done| < Work(s.Posted(), s.sessid)
  {
    hide Frames, StreamOf, Encode, Posting;
    OutIsPrefix(s);
    assert s.sendoff == IDLE && s.work == [] ==> s.Posted() == s.done;
    assert AllSendable(s.done) && !Sendable(MARKER);
  }

  /**
   Reads the stream with one buffer per entry of `sizes`, each with room for the end
   marker, and serves every finished request. When the end is reached, the handler
   has delivered exactly the posted objects and has counted what the sender counted,
   on top of what it knew of the session. The end is reached if the marker is posted,
   readers are eager, the stream is not interrupted (`lively`) and there are enough reads.
   */
  method Transmit(s: Stream, h: Handler, sizes: seq<nat>, expired: set<I64>, lively: bool)
    requires s.Valid() && s.done == [] && s.out == [] && s.sendoff == IDLE
    requires forall i :: 0 <= i < |sizes| ==> sizes[i] >= 56
    modifies s, s.maxheader, h
    ensures s.Valid() && s.Posted() == old(s.Posted()) && !s.Cut()
    ensures s.Ended() ==>
      Complete(old(h.log), h.log, s.done, s.sessid, s.stats, expired) && s.Posted() == s.done + [MARKER]
    ensures lively && Marked(old(s.Posted())) && Posting(old(s.Posted())) && |sizes| >= Work(old(s.Posted()), s.sessid) ==>
      s.Ended()
  {
    hide Sound, Sendable, Relaying, Encode, Frames, ReceiveOf, Pairs, TotalSize, Posting, Log.Of;
    ghost var log0 := h.log.(outcome := Running);
    ghost var base: nat := 0;
    var request: seq<Byte> := [];
    var i := 0;
    RelayStart(log0, h.log, s.out, s.sessid);
    while i < |sizes| && !s.Ended()
      invariant 0 <= i <= |sizes| && s.Valid() && s.Posted() == old(s.Posted()) && !s.Cut()
      invariant !s.Ended() ==> Relaying(log0, h.log, s.done, s.out, s.sessid, base, request)
      invariant s.Ended() ==> Complete(log0, h.log, s.done, s.sessid, s.stats, expired)
      invariant lively && Marked(old(s.Posted())) && !s.Ended() ==> |s.out| + |s.done| >= i
    {
      var b := new Byte[sizes[i]](_ => 0);
      var quiet := *;
      if lively {
        quiet := false;
      }
      if Marked(s.Posted()) {
        WorkIsLeft(s);
      }
      ghost var done, out := s.done, s.out;
      var n, eof := s.Read(b, quiet, lively);
      AtRequestEnd(s.sendoff, s.maxheader[..s.hlen], s.sessid, s.stats, s.done, s.out);
      RelayRead(log0, h.log, done, out, s.sessid, base, request, s.done, b[..n]);
      request := request + b[..n];
      if eof {
        ghost var log := h.log;
        var body := new Body(request);
        h.Receive(body, expired);
        if s.Ended() {
          RelayEnd(log0, log, s.done, s.out, s.sessid, base, request, expired);
        } else {
          RelayPause(log0, log, s.done, s.out, s.sessid, base, request, expired);
          base := |s.done|;
        }
        request := [];
      }
      i := i + 1;
    }
    if !s.Ended() && Marked(s.Posted()) {
      WorkIsLeft(s);
    }
    if s.Ended() {
      assert s.Posted() == s.done + [MARKER];
      SameCounters(log0, old(h.log), s.sessid);
    }
  }

  lemma SameCounters(log0: Log, log: Log, sessid: I64)
    requires log0 == log.(outcome := Running)
    ensures log0.Of(sessid) == log.Of(sessid)
  {}

  lemma RelayStart(log0: Log, log: Log, out: seq<Byte>, sessid: I64)
    requires log0 == log.(outcome := Running) && out == []
    ensures Relaying(log0, log, [], out, sessid, 0, [])
  {}
}
