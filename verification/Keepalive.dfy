/**
 The keepalive timeout of a daemon, dfc/keepalive.go, computed after section 2 of
 RFC 6298; over the reals, in nanoseconds.
 */
module Keepalive {
  const SECOND: real := 1000000000.0

  datatype TimeoutStats = TimeoutStats(srtt: real, rttvar: real, timeout: real)

  function AbsOf(x: real): real {
    if x < 0.0 then -x else x
  }

  function MinOf(a: real, b: real): real {
    if a < b then a else b
  }

  /** The smoothed round-trip time and its variation after one more sample. */
  function Sampled(ts: TimeoutStats, next: real): TimeoutStats {
    ts.(rttvar := 0.75 * ts.rttvar + 0.25 * AbsOf(ts.srtt - next),
        srtt := 0.875 * ts.srtt + 0.125 * next)
  }

  function Unclamped(ts: TimeoutStats): real {
    ts.srtt + 4.0 * ts.rttvar
  }

  predicate InRange(timeout: real, maxKeepalive: real) {
    SECOND <= timeout && (timeout <= SECOND || timeout <= maxKeepalive)
  }

  function InitialStats(maxKeepalive: real): TimeoutStats {
    TimeoutStats(maxKeepalive, maxKeepalive / 2.0, maxKeepalive)
  }

  class Keepalive {
    const maxKeepalive: real
    var stats: map<string, TimeoutStats>

    /** Every timeout is in range, except possibly those that no sample has touched. */
    ghost predicate Valid()
      reads this
    {
      forall sid | sid in stats ::
        InRange(stats[sid].timeout, maxKeepalive) || stats[sid] == InitialStats(maxKeepalive)
    }

    constructor (maxKeepalive: real)
      ensures Valid() && this.maxKeepalive == maxKeepalive && stats == map[]
    {
      this.maxKeepalive, stats := maxKeepalive, map[];
    }

    method TimeoutStatsForDaemon(sid: string) returns (ts: TimeoutStats)
      requires Valid()
      modifies this
      ensures Valid() && sid in stats && stats[sid] == ts
      ensures stats == if sid in old(stats) then old(stats) else old(stats)[sid := InitialStats(maxKeepalive)]
    {
      if sid in stats {
        return stats[sid];
      }
      ts := InitialStats(maxKeepalive);
      stats := stats[sid := ts];
    }

    /** The timeout after a sample is the clamped estimate, and in range whatever the sample and the history. */
    method UpdateTimeoutForDaemon(sid: string, t: real) returns (timeout: real)
      requires Valid()
      modifies this
      ensures Valid() && InRange(timeout, maxKeepalive)
      ensures
        var was := if sid in old(stats) then old(stats)[sid] else InitialStats(maxKeepalive);
        && stats == old(stats)[sid := Sampled(was, t).(timeout := timeout)]
        && (InRange(Unclamped(Sampled(was, t)), maxKeepalive) ==> timeout == Unclamped(Sampled(was, t)))
        && (SECOND <= maxKeepalive <= Unclamped(Sampled(was, t)) ==> timeout == maxKeepalive)
        && (Unclamped(Sampled(was, t)) <= SECOND || maxKeepalive <= SECOND ==> timeout == SECOND)
    {
      var ts := TimeoutStatsForDaemon(sid);
      ts := Sampled(ts, t);
      timeout := MinOf(maxKeepalive, Unclamped(ts));
      if timeout < SECOND {
        timeout := SECOND;
      }
      stats := stats[sid := ts.(timeout := timeout)];
    }
  }

  /** Before the first sample the timeout is in range exactly when the configured maximum is at least a second. */
  lemma InitialTimeout(maxKeepalive: real)
    ensures InRange(InitialStats(maxKeepalive).timeout, maxKeepalive) <==> maxKeepalive >= SECOND
  {}

  /**
   The first sample of a daemon, whatever it is, does not bring the timeout down: the estimate
   starts at the configured maximum, with half of it as variation.
   */
  lemma FirstSample(maxKeepalive: real, t: real)
    requires maxKeepalive >= 0.0 && t >= 0.0
    ensures
      var r := Sampled(InitialStats(maxKeepalive), t);
      && r.srtt == 0.875 * maxKeepalive + 0.125 * t
      && r.rttvar == 0.375 * maxKeepalive + 0.25 * AbsOf(maxKeepalive - t)
      && Unclamped(r) >= maxKeepalive
  {}

  // ---- equal samples

  /** `a` times the n-th power of `q`. */
  function Decay(q: real, n: nat, a: real): real {
    if n == 0 then a else q * Decay(q, n - 1, a)
  }

  /** After n samples equal to c. */
  function AfterEqual(ts: TimeoutStats, c: real, n: nat): TimeoutStats {
    if n == 0 then ts else Sampled(AfterEqual(ts, c, n - 1), c)
  }

  lemma {:induction false} DecaySign(q: real, n: nat, a: real)
    requires q == 0.875
    ensures AbsOf(Decay(q, n, a)) == Decay(q, n, AbsOf(a)) >= 0.0
    ensures a >= 0.0 ==> Decay(q, n, a) >= 0.0
    ensures a <= 0.0 ==> Decay(q, n, a) <= 0.0
  {
    if n > 0 {
      DecaySign(q, n - 1, a);
    }
  }

  /** The exact estimates: the error shrinks by 7/8 each time, the variation follows it. */
  lemma {:induction false} EqualSamples(ts: TimeoutStats, c: real, n: nat)
    ensures
      var r, d := AfterEqual(ts, c, n), ts.srtt - c;
      && r.srtt == c + Decay(0.875, n, d)
      && r.rttvar == Decay(0.75, n, ts.rttvar) + 2.0 * (Decay(0.875, n, AbsOf(d)) - Decay(0.75, n, AbsOf(d)))
  {
    if n > 0 {
      EqualSamples(ts, c, n - 1);
      DecaySign(0.875, n - 1, ts.srtt - c);
    }
  }

  lemma {:induction false} DecayPositive(q: real, n: nat, a: real)
    requires q == 0.75 && a >= 0.0
    ensures Decay(q, n, a) >= 0.0
  {
    if n > 0 {
      DecayPositive(q, n - 1, a);
    }
  }

  /** The estimate settles at c from above: what exceeds it vanishes geometrically. */
  lemma EqualSamplesBound(ts: TimeoutStats, c: real, n: nat)
    ensures Unclamped(AfterEqual(ts, c, n))
         <= c + 9.0 * Decay(0.875, n, AbsOf(ts.srtt - c)) + 4.0 * Decay(0.75, n, ts.rttvar)
  {
    hide Decay, AfterEqual;
    var d := ts.srtt - c;
    var a, b, p, v := Decay(0.875, n, d), Decay(0.875, n, AbsOf(d)), Decay(0.75, n, AbsOf(d)), Decay(0.75, n, ts.rttvar);
    EqualSamples(ts, c, n);
    DecaySign(0.875, n, d);
    DecayPositive(0.75, n, AbsOf(d));
    assert a <= b && p >= 0.0;
    var r := AfterEqual(ts, c, n);
    assert Unclamped(r) == c + a + 4.0 * (v + 2.0 * (b - p));
    assert Unclamped(r) <= c + 9.0 * b + 4.0 * v;
  }
}
