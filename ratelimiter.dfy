/** The per-IP sliding-window rate limiter with a penalty box.

    Each IP address has a record: the instants of its recent requests, in
    arrival order, and an instant until which it is timed out.  A request
    from an IP in the penalty box is refused and changes nothing.  Any
    other request first drops the instants at or before `now - interval`
    from the front of the window, then joins the window; when the window
    then holds more than `maxRequests` instants the IP is timed out for
    `penalty` and the request is refused (it stays in the window).

    Instants and durations are integer nanoseconds, an instant counted from
    the Unix epoch; Go's `time.Time` wall clock and its monotonic reading
    are not modelled, nor is overflow of `time.Add`.
 */
module RateLimiter {

  const Millisecond: int := 1_000_000
  const Second: int := 1_000_000_000

  /** Go's zero `time.Time` (1 January of year 1, UTC): the `TimeOutUntil`
      of a record that was never timed out. */
  const ZeroTime: int := -62_135_596_800_000_000_000

  /** A record's contents as a value. */
  datatype RecordState = RecordState(requests: seq<int>, timeOutUntil: int)

  /** The record `getOrCreateRecord` creates for an unseen IP. */
  const EmptyRecord: RecordState := RecordState([], ZeroTime)

  /** The outcome of one request: whether it is allowed, and the record
      afterwards. */
  datatype Verdict = Verdict(ok: bool, record: RecordState)

  /** The index of the first instant strictly after `minStart`, or `|ts|`
      when there is none. */
  function FirstAfter(ts: seq<int>, minStart: int): (i: nat)
    ensures i <= |ts|
    ensures forall j :: 0 <= j < i ==> ts[j] <= minStart
    ensures i < |ts| ==> ts[i] > minStart
  {
    if |ts| == 0 || ts[0] > minStart then 0 else 1 + FirstAfter(ts[1..], minStart)
  }

  /** The window `removeStaleRequests` leaves: everything from the first
      instant after `minStart` on, or nothing. */
  function Trimmed(ts: seq<int>, minStart: int): seq<int>
  {
    ts[FirstAfter(ts, minStart)..]
  }

  /** The trimmed window is a suffix of the old one that starts after
      `minStart`, and every instant cut off is at or before `minStart`. */
  lemma TrimmedIsRecentSuffix(ts: seq<int>, minStart: int)
    ensures var r := Trimmed(ts, minStart);
      && |r| <= |ts| && r == ts[|ts| - |r|..]
      && (|r| > 0 ==> r[0] > minStart)
      && forall j :: 0 <= j < |ts| - |r| ==> ts[j] <= minStart
  {
  }

  /** A window whose every instant is at or before `minStart` is emptied. */
  lemma {:induction false} TrimmedAllStale(ts: seq<int>, minStart: int)
    requires forall j :: 0 <= j < |ts| ==> ts[j] <= minStart
    ensures Trimmed(ts, minStart) == []
  {
    if |ts| > 0 {
      TrimmedAllStale(ts[1..], minStart);
    }
  }

  /** The instants after `minStart`, in order. */
  function After(ts: seq<int>, minStart: int): (r: seq<int>)
    ensures |r| <= |ts|
    ensures forall j :: 0 <= j < |r| ==> r[j] > minStart
  {
    if |ts| == 0 then []
    else (if ts[0] > minStart then [ts[0]] else []) + After(ts[1..], minStart)
  }

  predicate Sorted(ts: seq<int>)
  {
    forall i, j :: 0 <= i < j < |ts| ==> ts[i] <= ts[j]
  }

  /** Filtering keeps a list whose every instant is after `minStart`. */
  lemma {:induction false} AfterKeepsAll(ts: seq<int>, minStart: int)
    requires forall j :: 0 <= j < |ts| ==> ts[j] > minStart
    ensures After(ts, minStart) == ts
  {
    if |ts| > 0 {
      AfterKeepsAll(ts[1..], minStart);
    }
  }

  /** On a window in arrival order, cutting at the first recent instant is
      the same as keeping exactly the recent instants. */
  lemma {:induction false} TrimmedIsAfter(ts: seq<int>, minStart: int)
    requires Sorted(ts)
    ensures Trimmed(ts, minStart) == After(ts, minStart)
  {
    if |ts| > 0 {
      if ts[0] > minStart {
        AfterKeepsAll(ts, minStart);
      } else {
        TrimmedIsAfter(ts[1..], minStart);
        assert ts[1..][FirstAfter(ts[1..], minStart)..] == ts[FirstAfter(ts, minStart)..];
      }
    }
  }

  /** One request from an IP whose record is `r`, as `IsOk` handles it. */
  function Admit(maxRequests: int, interval: int, penalty: int, r: RecordState, now: int): Verdict
  {
    if r.timeOutUntil > now then Verdict(false, r)
    else
      var requests := Trimmed(r.requests, now - interval) + [now];
      if |requests| > maxRequests then Verdict(false, RecordState(requests, now + penalty))
      else Verdict(true, RecordState(requests, r.timeOutUntil))
  }

  /** What one request does: a timed-out IP is refused and its record is
      left as it was; otherwise the window, cut to the recent instants,
      grows by `now`, and the request is allowed exactly when the window
      then holds at most `maxRequests` instants; a refusal times the IP out
      until `now + penalty`, an allowed request keeps the old time-out. */
  lemma AdmitOutcome(maxRequests: int, interval: int, penalty: int, r: RecordState, now: int)
    ensures var v := Admit(maxRequests, interval, penalty, r, now);
      && (v.ok <==> r.timeOutUntil <= now && |Trimmed(r.requests, now - interval)| < maxRequests)
      && (r.timeOutUntil > now ==> v.record == r)
      && (r.timeOutUntil <= now ==>
            0 < |v.record.requests| <= |r.requests| + 1 && v.record.requests[|v.record.requests| - 1] == now)
      && (r.timeOutUntil <= now && !v.ok ==>
            v.record.timeOutUntil == now + penalty && |v.record.requests| > maxRequests)
      && (v.ok ==> v.record.timeOutUntil == r.timeOutUntil && |v.record.requests| <= maxRequests)
  {
  }

  /** A request from a timed-out IP is refused and changes nothing. */
  lemma AdmitInPenaltyBox(maxRequests: int, interval: int, penalty: int, r: RecordState, now: int)
    requires r.timeOutUntil > now
    ensures Admit(maxRequests, interval, penalty, r, now) == Verdict(false, r)
  {
  }

  /** A request whose window holds only recent instants, fewer than
      `maxRequests` of them, is allowed and joins the window. */
  lemma AdmitWithinLimit(maxRequests: int, interval: int, penalty: int, r: RecordState, now: int)
    requires r.timeOutUntil <= now && |r.requests| < maxRequests
    requires forall j :: 0 <= j < |r.requests| ==> r.requests[j] > now - interval
    ensures Admit(maxRequests, interval, penalty, r, now)
            == Verdict(true, RecordState(r.requests + [now], r.timeOutUntil))
  {
    assert FirstAfter(r.requests, now - interval) == 0 by {
      if |r.requests| > 0 {
        assert r.requests[0] > now - interval;
      }
    }
  }

  /** A request whose window already holds `maxRequests` recent instants
      is refused, joins the window and times the IP out. */
  lemma AdmitOverLimit(maxRequests: int, interval: int, penalty: int, r: RecordState, now: int)
    requires r.timeOutUntil <= now && |r.requests| >= maxRequests
    requires forall j :: 0 <= j < |r.requests| ==> r.requests[j] > now - interval
    ensures Admit(maxRequests, interval, penalty, r, now)
            == Verdict(false, RecordState(r.requests + [now], now + penalty))
  {
    assert FirstAfter(r.requests, now - interval) == 0 by {
      if |r.requests| > 0 {
        assert r.requests[0] > now - interval;
      }
    }
  }

  /** A request after every instant of the window has gone stale starts
      a fresh window. */
  lemma AdmitAfterQuiet(maxRequests: int, interval: int, penalty: int, r: RecordState, now: int)
    requires r.timeOutUntil <= now && 1 <= maxRequests
    requires forall j :: 0 <= j < |r.requests| ==> r.requests[j] <= now - interval
    ensures Admit(maxRequests, interval, penalty, r, now)
            == Verdict(true, RecordState([now], r.timeOutUntil))
  {
    TrimmedAllStale(r.requests, now - interval);
  }

  /** When requests arrive in time order, a request is allowed exactly
      when the IP is not timed out and fewer than `maxRequests` of its
      earlier requests fall in the last `interval` before `now`. */
  lemma AdmitCountsRecentRequests(maxRequests: int, interval: int, penalty: int, r: RecordState, now: int)
    requires Sorted(r.requests) && forall j :: 0 <= j < |r.requests| ==> r.requests[j] <= now
    ensures Admit(maxRequests, interval, penalty, r, now).ok <==>
              r.timeOutUntil <= now && |After(r.requests, now - interval)| < maxRequests
  {
    TrimmedIsAfter(r.requests, now - interval);
  }

  /** When requests arrive in time order, the window stays in time order. */
  lemma AdmitKeepsWindowSorted(maxRequests: int, interval: int, penalty: int, r: RecordState, now: int)
    requires Sorted(r.requests) && forall j :: 0 <= j < |r.requests| ==> r.requests[j] <= now
    ensures Sorted(Admit(maxRequests, interval, penalty, r, now).record.requests)
  {
    if r.timeOutUntil <= now {
      TrimmedSortedAppend(r.requests, now - interval, now);
    }
  }

  /** Cutting a sorted window and adding an instant no earlier than any of
      its own keeps it sorted. */
  lemma TrimmedSortedAppend(ts: seq<int>, minStart: int, now: int)
    requires Sorted(ts) && forall j :: 0 <= j < |ts| ==> ts[j] <= now
    ensures Sorted(Trimmed(ts, minStart) + [now])
  {
    TrimmedIsRecentSuffix(ts, minStart);
    var t := Trimmed(ts, minStart);
    var d := |ts| - |t|;
    assert forall j :: 0 <= j < |t| ==> t[j] == ts[d + j];
    var u := t + [now];
    forall i, j | 0 <= i < j < |u| ensures u[i] <= u[j] {
      if j < |t| {
        assert u[i] == ts[d + i] && u[j] == ts[d + j];
      } else {
        assert u[i] == ts[d + i];
      }
    }
  }

  /** `IpRateLimiterRecord`. */
  class IpRateLimiterRecord {
    var requestsInInterval: seq<int>
    var timeOutUntil: int

    constructor ()
      ensures requestsInInterval == [] && timeOutUntil == ZeroTime
    {
      requestsInInterval := [];
      timeOutUntil := ZeroTime;
    }

    function State(): RecordState
      reads this
    {
      RecordState(requestsInInterval, timeOutUntil)
    }

    /** `inPenaltyBox`: timed out strictly after `now`. */
    predicate InPenaltyBox(now: int)
      reads this
    {
      timeOutUntil > now
    }

    /** `removeStaleRequests`: find the first instant after
        `now - interval` and keep the window from there on, or empty it. */
    method RemoveStaleRequests(interval: int, now: int)
      modifies this
      ensures requestsInInterval == Trimmed(old(requestsInInterval), now - interval)
      ensures timeOutUntil == old(timeOutUntil)
    {
      var minStartTime := now - interval;
      var firstGoodIndex := -1;
      var i := 0;
      while i < |requestsInInterval|
        invariant 0 <= i <= |requestsInInterval|
        invariant forall j :: 0 <= j < i ==> requestsInInterval[j] <= minStartTime
      {
        if requestsInInterval[i] > minStartTime {
          firstGoodIndex := i;
          break;
        }
        i := i + 1;
      }
      if firstGoodIndex == -1 {
        requestsInInterval := [];
      } else {
        requestsInInterval := requestsInInterval[firstGoodIndex..];
      }
    }

    /** `appendRequest`: drop the stale instants, then add `now`. */
    method AppendRequest(interval: int, now: int)
      modifies this
      ensures requestsInInterval == Trimmed(old(requestsInInterval), now - interval) + [now]
      ensures timeOutUntil == old(timeOutUntil)
    {
      RemoveStaleRequests(interval, now);
      requestsInInterval := requestsInInterval + [now];
    }

    /** `timeOut`: in the penalty box until `until`. */
    method TimeOut(until: int)
      modifies this
      ensures timeOutUntil == until
      ensures requestsInInterval == old(requestsInInterval)
    {
      timeOutUntil := until;
    }
  }

  /** `IpRateLimiter`: the settings and one record per IP seen so far. */
  class IpRateLimiter {
    const maxRequests: int
    const maxRequestsInterval: int
    const timeOutPenalty: int
    var records: map<string, IpRateLimiterRecord>

    /** No two IPs share a record. */
    ghost predicate Valid()
      reads this
    {
      forall a, b :: a in records && b in records && a != b ==> records[a] != records[b]
    }

    /** The contents of `ip`'s record, or those of a fresh record for an
        IP not seen yet. */
    ghost function RecordOf(ip: string): RecordState
      reads this, records.Values
    {
      if ip in records then records[ip].State() else EmptyRecord
    }

    /** `NewRateLimiter`: the settings, and no records. */
    constructor (maxRequests: int, maxRequestsInterval: int, timeOutPenalty: int)
      ensures Valid() && records == map[]
      ensures this.maxRequests == maxRequests && this.maxRequestsInterval == maxRequestsInterval
      ensures this.timeOutPenalty == timeOutPenalty
    {
      this.maxRequests := maxRequests;
      this.maxRequestsInterval := maxRequestsInterval;
      this.timeOutPenalty := timeOutPenalty;
      records := map[];
    }

    /** `exceedsLimits`: more instants in the window than allowed. */
    predicate ExceedsLimits(record: IpRateLimiterRecord)
      reads record
    {
      |record.requestsInInterval| > maxRequests
    }

    /** `getOrCreateRecord`: the IP's record, created empty and stored on
        first sight; no other IP's entry changes. */
    method GetOrCreateRecord(ip: string) returns (record: IpRateLimiterRecord)
      requires Valid()
      modifies this
      ensures Valid()
      ensures records == old(records)[ip := record]
      ensures ip in old(records) ==> record == old(records[ip])
      ensures ip !in old(records) ==> fresh(record) && record.State() == EmptyRecord
    {
      if ip in records {
        record := records[ip];
      } else {
        record := new IpRateLimiterRecord();
        records := records[ip := record];
      }
    }

    /** `IsOk`: whether a request from `ip` at `now` is allowed.  The answer
        and the IP's new record are those of `Admit` on its old record (a
        fresh one for an unseen IP); the IP is remembered from now on, and
        every other IP keeps its record object and that record's contents. */
    method IsOk(ip: string, now: int) returns (ok: bool)
      requires Valid()
      modifies this, records.Values
      ensures Valid()
      ensures ok == Admit(maxRequests, maxRequestsInterval, timeOutPenalty, old(RecordOf(ip)), now).ok
      ensures records.Keys == old(records.Keys) + {ip}
      ensures ip in old(records) ==> records[ip] == old(records[ip])
      ensures ip !in old(records) ==> fresh(records[ip])
      ensures records[ip].State() == Admit(maxRequests, maxRequestsInterval, timeOutPenalty, old(RecordOf(ip)), now).record
      ensures forall a :: a in old(records) && a != ip ==>
                records[a] == old(records[a]) && records[a].State() == old(records[a].State())
    {
      var record := GetOrCreateRecord(ip);
      ghost var r0 := record.State();
      assert r0 == old(RecordOf(ip));
      if record.InPenaltyBox(now) {
        return false;
      }
      record.AppendRequest(maxRequestsInterval, now);
      assert record.requestsInInterval == Trimmed(r0.requests, now - maxRequestsInterval) + [now];
      if ExceedsLimits(record) {
        record.TimeOut(now + timeOutPenalty);
        ok := false;
      } else {
        ok := true;
      }
    }
  }

  /** The instant `time.Unix(sec, 0)`. */
  function Unix(sec: int): int { sec * 1_000_000_000 }

  /** The answers `IsOk` gives to requests from one IP at the instants
      `times`, in order, starting from the record `r`; requests from other
      IPs do not touch this record (see `IpRateLimiter.IsOk`). */
  function Replay(maxRequests: int, interval: int, penalty: int, r: RecordState, times: seq<int>): (answers: seq<bool>)
    ensures |answers| == |times|
    decreases |times|
  {
    if times == [] then []
    else
      var v := Admit(maxRequests, interval, penalty, r, times[0]);
      [v.ok] + Replay(maxRequests, interval, penalty, v.record, times[1..])
  }

  /** Replaying a request is `Admit` on it, then replaying the rest from
      the new record. */
  lemma ReplayStep(maxRequests: int, interval: int, penalty: int, r: RecordState, t: int, rest: seq<int>, v: Verdict)
    requires Admit(maxRequests, interval, penalty, r, t) == v
    ensures Replay(maxRequests, interval, penalty, r, [t] + rest)
            == [v.ok] + Replay(maxRequests, interval, penalty, v.record, rest)
  {
    assert ([t] + rest)[1..] == rest;
  }

  const T: int := 1744558472

  /** Three requests per two seconds, 100 ms penalty: an IP may make two
      requests at T and one at T+1, its next three at T+1 are refused, and
      another IP is allowed at T+1 and T+2. */
  lemma WindowExample()
    ensures Replay(3, 2 * Second, 100 * Millisecond, EmptyRecord,
                   [Unix(T), Unix(T), Unix(T + 1), Unix(T + 1), Unix(T + 1), Unix(T + 1)])
            == [true, true, true, false, false, false]
    ensures Replay(3, 2 * Second, 100 * Millisecond, EmptyRecord, [Unix(T + 1), Unix(T + 2)]) == [true, true]
  {
    var m, i, p := 3, 2 * Second, 100 * Millisecond;
    var a, b := Unix(T), Unix(T + 1);
    var r1 := RecordState([a], ZeroTime);
    var r2 := RecordState([a, a], ZeroTime);
    var r3 := RecordState([a, a, b], ZeroTime);
    WindowRefusals();
    AdmitWithinLimit(m, i, p, EmptyRecord, a);
    AdmitWithinLimit(m, i, p, r1, a);
    AdmitWithinLimit(m, i, p, r2, b);
    ReplayStep(m, i, p, r2, b, [b, b, b], Verdict(true, r3));
    ReplayStep(m, i, p, r1, a, [b, b, b, b], Verdict(true, r2));
    ReplayStep(m, i, p, EmptyRecord, a, [a, b, b, b, b], Verdict(true, r1));
    WindowOtherIp();
  }

  /** The window example once the IP has made its three requests: the
      fourth is refused and times it out, and so are the next two. */
  lemma WindowRefusals()
    ensures Replay(3, 2 * Second, 100 * Millisecond, RecordState([Unix(T), Unix(T), Unix(T + 1)], ZeroTime),
                   [Unix(T + 1), Unix(T + 1), Unix(T + 1)])
            == [false, false, false]
  {
    var m, i, p := 3, 2 * Second, 100 * Millisecond;
    var a, b := Unix(T), Unix(T + 1);
    var r3 := RecordState([a, a, b], ZeroTime);
    var r4 := RecordState([a, a, b, b], b + p);
    AdmitOverLimit(m, i, p, r3, b);
    AdmitInPenaltyBox(m, i, p, r4, b);
    ReplayStep(m, i, p, r4, b, [], Verdict(false, r4));
    ReplayStep(m, i, p, r4, b, [b], Verdict(false, r4));
    ReplayStep(m, i, p, r3, b, [b, b], Verdict(false, r4));
  }

  /** The window example's other IP, first seen at T+1. */
  lemma WindowOtherIp()
    ensures Replay(3, 2 * Second, 100 * Millisecond, EmptyRecord, [Unix(T + 1), Unix(T + 2)]) == [true, true]
  {
    var m, i, p := 3, 2 * Second, 100 * Millisecond;
    var b, c := Unix(T + 1), Unix(T + 2);
    var g1 := RecordState([b], ZeroTime);
    AdmitWithinLimit(m, i, p, EmptyRecord, b);
    AdmitWithinLimit(m, i, p, g1, c);
    ReplayStep(m, i, p, g1, c, [], Verdict(true, RecordState([b, c], ZeroTime)));
    ReplayStep(m, i, p, EmptyRecord, b, [c], Verdict(true, g1));
  }

  /** Two requests per second, five-second penalty: the third request at T
      is refused and times the IP out until T+5; requests at T+1, T+2 and
      T+4 are refused, and the one at T+5 is allowed because the time-out
      must lie strictly after `now`. */
  lemma PenaltyExample()
    ensures Replay(2, Second, 5 * Second, EmptyRecord,
                   [Unix(T), Unix(T), Unix(T), Unix(T + 1), Unix(T + 2), Unix(T + 4), Unix(T + 5)])
            == [true, true, false, false, false, false, true]
  {
    var m, i, p := 2, Second, 5 * Second;
    var a, b, c, d, e := Unix(T), Unix(T + 1), Unix(T + 2), Unix(T + 4), Unix(T + 5);
    var r1 := RecordState([a], ZeroTime);
    var r2 := RecordState([a, a], ZeroTime);
    var r3 := RecordState([a, a, a], e);
    PenaltyServed();
    AdmitWithinLimit(m, i, p, EmptyRecord, a);
    AdmitWithinLimit(m, i, p, r1, a);
    AdmitOverLimit(m, i, p, r2, a);
    ReplayStep(m, i, p, r2, a, [b, c, d, e], Verdict(false, r3));
    ReplayStep(m, i, p, r1, a, [a, b, c, d, e], Verdict(true, r2));
    ReplayStep(m, i, p, EmptyRecord, a, [a, a, b, c, d, e], Verdict(true, r1));
  }

  /** The penalty example once the IP is timed out until T+5: refused at
      T+1, T+2 and T+4, allowed at T+5. */
  lemma PenaltyServed()
    ensures Replay(2, Second, 5 * Second, RecordState([Unix(T), Unix(T), Unix(T)], Unix(T + 5)),
                   [Unix(T + 1), Unix(T + 2), Unix(T + 4), Unix(T + 5)])
            == [false, false, false, true]
  {
    var m, i, p := 2, Second, 5 * Second;
    var a, b, c, d, e := Unix(T), Unix(T + 1), Unix(T + 2), Unix(T + 4), Unix(T + 5);
    var r3 := RecordState([a, a, a], e);
    AdmitInPenaltyBox(m, i, p, r3, b);
    AdmitInPenaltyBox(m, i, p, r3, c);
    AdmitInPenaltyBox(m, i, p, r3, d);
    AdmitAfterQuiet(m, i, p, r3, e);
    ReplayStep(m, i, p, r3, e, [], Verdict(true, RecordState([e], e)));
    ReplayStep(m, i, p, r3, d, [e], Verdict(false, r3));
    ReplayStep(m, i, p, r3, c, [d, e], Verdict(false, r3));
    ReplayStep(m, i, p, r3, b, [c, d, e], Verdict(false, r3));
  }

}
