/** The sliding-window limiter (storage/miner/utils.py) and its guarantee over every run. */
module RateLimiter {
  datatype Request = Request(caller: string, timestamp: real)

  /** The `RateLimiter` object. The clock reading is a parameter. */
  class RateLimiter {
    const maxRequests: int
    const timeWindow: real
    var requests: seq<Request>

    constructor (maxRequests: int, timeWindow: real)
      ensures this.maxRequests == maxRequests && this.timeWindow == timeWindow && requests == []
    {
      this.maxRequests := maxRequests;
      this.timeWindow := timeWindow;
      requests := [];
    }

    /** `is_allowed`: drop what has left the window, then accept while there is room. */
    method IsAllowed(caller: string, now: real) returns (allowed: bool)
      modifies this
      ensures (requests, allowed) == Decide(maxRequests, timeWindow, old(requests), Request(caller, now))
    {
      while requests != [] && now - requests[0].timestamp > timeWindow
        invariant Trim(timeWindow, requests, now) == Trim(timeWindow, old(requests), now)
        decreases |requests|
      {
        requests := requests[1..];
      }
      if |requests| < maxRequests {
        requests := requests + [Request(caller, now)];
        return true;
      } else {
        return false;
      }
    }
  }

  /** The queue without its leading requests older than the window. */
  function Trim(window: real, requests: seq<Request>, now: real): seq<Request> {
    if requests != [] && now - requests[0].timestamp > window then Trim(window, requests[1..], now) else requests
  }

  function Decide(maxRequests: int, window: real, requests: seq<Request>, r: Request): (seq<Request>, bool) {
    var kept := Trim(window, requests, r.timestamp);
    if |kept| < maxRequests then (kept + [r], true) else (kept, false)
  }

  // ---------- Runs ----------

  /** A run: the queue and the accepted requests after a sequence of calls, oldest first. */
  datatype Run = Run(queue: seq<Request>, accepted: seq<Request>)

  function RunOf(maxRequests: int, window: real, calls: seq<Request>): Run {
    if calls == [] then Run([], [])
    else
      var n := |calls| - 1;
      var before := RunOf(maxRequests, window, calls[..n]);
      var (queue, ok) := Decide(maxRequests, window, before.queue, calls[n]);
      Run(queue, if ok then before.accepted + [calls[n]] else before.accepted)
  }

  predicate ClockNonDecreasing(calls: seq<Request>) {
    forall i, j :: 0 <= i <= j < |calls| ==> calls[i].timestamp <= calls[j].timestamp
  }

  /** The requests with a timestamp in the closed interval [from, to]. */
  function Within(requests: seq<Request>, from: real, to: real): seq<Request> {
    if requests == [] then []
    else
      var n := |requests| - 1;
      Within(requests[..n], from, to) +
      if from <= requests[n].timestamp <= to then [requests[n]] else []
  }

  predicate Sorted(requests: seq<Request>) {
    forall i, j :: 0 <= i <= j < |requests| ==> requests[i].timestamp <= requests[j].timestamp
  }

  lemma {:induction false} WithinFrom(requests: seq<Request>, from: real, to: real)
    requires forall i :: 0 <= i < |requests| ==> from <= requests[i].timestamp <= to
    ensures Within(requests, from, to) == requests
  {
    if requests != [] {
      var front, last := requests[..|requests| - 1], requests[|requests| - 1];
      WithinFrom(front, from, to);
      assert Within(requests, from, to) == front + [last];
    }
  }

  lemma {:induction false} WithinBefore(requests: seq<Request>, from: real, to: real)
    requires forall i :: 0 <= i < |requests| ==> requests[i].timestamp < from
    ensures Within(requests, from, to) == []
  {
    if requests != [] {
      WithinBefore(requests[..|requests| - 1], from, to);
    }
  }

  lemma {:induction false} WithinConcat(a: seq<Request>, b: seq<Request>, from: real, to: real)
    ensures Within(a + b, from, to) == Within(a, from, to) + Within(b, from, to)
  {
    if b == [] {
      assert a + b == a;
    } else {
      var n := |b| - 1;
      assert (a + b)[..|a| + n] == a + b[..n] && (a + b)[|a| + n] == b[n];
      WithinConcat(a, b[..n], from, to);
    }
  }

  /** Trimming a sorted queue keeps exactly what lies in the window ending now. */
  lemma {:induction false} TrimKeepsWindow(window: real, requests: seq<Request>, now: real)
    requires Sorted(requests) && AllBy(requests, now)
    ensures Trim(window, requests, now) == Within(requests, now - window, now)
    ensures Sorted(Trim(window, requests, now))
  {
    if requests != [] && now - requests[0].timestamp > window {
      var old', rest, from := requests[..1], requests[1..], now - window;
      TrimKeepsWindow(window, rest, now);
      WithinConcat(old', rest, from, now);
      WithinBefore(old', from, now);
      assert requests == old' + rest;
      assert [] + Within(rest, from, now) == Within(rest, from, now);
    } else if requests != [] {
      WithinFrom(requests, now - window, now);
    }
  }

  lemma WithinOne(r: Request, from: real, to: real)
    ensures Within([r], from, to) == if from <= r.timestamp <= to then [r] else []
  {
    assert [r][..0] == [];
  }

  predicate AllBy(requests: seq<Request>, to: real) {
    forall i :: 0 <= i < |requests| ==> requests[i].timestamp <= to
  }

  /** Looking again at an interval that starts no earlier loses nothing. */
  lemma {:induction false} WithinShrinks(requests: seq<Request>, from: real, from': real, to: real)
    requires from <= from' && AllBy(requests, to)
    ensures Within(Within(requests, from, to), from', to) == Within(requests, from', to)
  {
    if requests != [] {
      var n := |requests| - 1;
      var inner := Within(requests[..n], from, to);
      WithinShrinks(requests[..n], from, from', to);
      if from <= requests[n].timestamp {
        WithinConcat(inner, [requests[n]], from', to);
        WithinOne(requests[n], from', to);
      } else {
        assert inner + [] == inner;
      }
    }
  }

  lemma {:induction false} AcceptedAreCalls(maxRequests: int, window: real, calls: seq<Request>)
    requires ClockNonDecreasing(calls)
    ensures var accepted := RunOf(maxRequests, window, calls).accepted;
            && Sorted(accepted)
            && (calls == [] ==> accepted == [])
            && (calls != [] ==> AllBy(accepted, calls[|calls| - 1].timestamp))
  {
    if calls != [] {
      var n := |calls| - 1;
      AcceptedAreCalls(maxRequests, window, calls[..n]);
    }
  }

  lemma {:induction false} WithinLater(requests: seq<Request>, from: real, to: real, to': real)
    requires to <= to' && AllBy(requests, to)
    ensures Within(requests, from, to') == Within(requests, from, to)
  {
    if requests != [] {
      WithinLater(requests[..|requests| - 1], from, to, to');
    }
  }

  /** Looking, later on, for a later interval loses nothing either. */
  lemma WithinMoves(requests: seq<Request>, inside: seq<Request>, from: real, to: real, from': real, to': real)
    requires from <= from' && to <= to' && AllBy(requests, to)
    requires inside == Within(requests, from, to) && AllBy(inside, to)
    ensures Within(inside, from', to') == Within(requests, from', to')
  {
    WithinLater(inside, from', to, to');
    WithinShrinks(requests, from, from', to);
    WithinLater(requests, from', to, to');
  }

  /** Trimming what lay in the window ending then gives what lies in the window ending now. */
  lemma TrimmedIsWindow(window: real, accepted: seq<Request>, queue: seq<Request>, then': real, now: real)
    requires window >= 0.0 && then' <= now && Sorted(accepted) && AllBy(accepted, then')
    requires queue == Within(accepted, then' - window, then')
    ensures Trim(window, queue, now) == Within(accepted, now - window, now)
  {
    WithinSorted(accepted, then' - window, then');
    TrimKeepsWindow(window, queue, now);
    WithinMoves(accepted, queue, then' - window, then', now - window, now);
  }

  /** What a call at time `now` finds in the queue after trimming: the accepted requests of its window. */
  lemma {:induction false} CallSeesWindow(maxRequests: int, window: real, calls: seq<Request>, now: real)
    requires ClockNonDecreasing(calls) && window >= 0.0
    requires calls != [] ==> calls[|calls| - 1].timestamp <= now
    ensures var run := RunOf(maxRequests, window, calls);
            Trim(window, run.queue, now) == Within(run.accepted, now - window, now)
    decreases |calls|, 1
  {
    if calls != [] {
      var then' := calls[|calls| - 1].timestamp;
      QueueIsWindow(maxRequests, window, calls);
      AcceptedAreCalls(maxRequests, window, calls);
      var run := RunOf(maxRequests, window, calls);
      TrimmedIsWindow(window, run.accepted, run.queue, then', now);
    }
  }

  /**
   After every run the queue holds exactly the accepted requests of the window
   ending at the last call.
   */
  lemma {:induction false} QueueIsWindow(maxRequests: int, window: real, calls: seq<Request>)
    requires ClockNonDecreasing(calls) && window >= 0.0 && calls != []
    ensures var run, now := RunOf(maxRequests, window, calls), calls[|calls| - 1].timestamp;
            run.queue == Within(run.accepted, now - window, now)
    decreases |calls|, 0
  {
    var n := |calls| - 1;
    var before, now := RunOf(maxRequests, window, calls[..n]), calls[n].timestamp;
    CallSeesWindow(maxRequests, window, calls[..n], now);
    WithinAppend(before.accepted, calls[n], now - window, now);
  }

  lemma WithinAppend(requests: seq<Request>, r: Request, from: real, to: real)
    requires from <= r.timestamp <= to
    ensures Within(requests + [r], from, to) == Within(requests, from, to) + [r]
  {
    WithinConcat(requests, [r], from, to);
    WithinOne(r, from, to);
  }

  lemma {:induction false} WithinBounded(requests: seq<Request>, from: real, to: real, bound: real)
    requires AllBy(requests, bound)
    ensures AllBy(Within(requests, from, to), bound) && AllBy(Within(requests, from, to), to)
  {
    if requests != [] {
      WithinBounded(requests[..|requests| - 1], from, to, bound);
    }
  }

  lemma {:induction false} WithinSorted(requests: seq<Request>, from: real, to: real)
    requires Sorted(requests)
    ensures Sorted(Within(requests, from, to)) && AllBy(Within(requests, from, to), to)
  {
    if requests != [] {
      var n := |requests| - 1;
      WithinSorted(requests[..n], from, to);
      WithinBounded(requests[..n], from, to, requests[n].timestamp);
      WithinBounded(requests, from, to, requests[n].timestamp);
    }
  }

  /** A call is refused exactly when the window ending now already holds the maximum. */
  lemma RefusedExactly(maxRequests: nat, window: real, calls: seq<Request>, call: Request)
    requires ClockNonDecreasing(calls) && window >= 0.0
    requires calls != [] ==> calls[|calls| - 1].timestamp <= call.timestamp
    ensures var accepted := RunOf(maxRequests, window, calls).accepted;
            var inWindow := Within(accepted, call.timestamp - window, call.timestamp);
            && |inWindow| <= maxRequests
            && RunOf(maxRequests, window, calls + [call]).accepted
            == if |inWindow| == maxRequests then accepted else accepted + [call]
  {
    var before := RunOf(maxRequests, window, calls);
    assert (calls + [call])[..|calls|] == calls;
    CallSeesWindow(maxRequests, window, calls, call.timestamp);
    QueueBounded(maxRequests, window, calls);
    TrimShorter(window, before.queue, call.timestamp);
  }

  lemma {:induction false} TrimShorter(window: real, requests: seq<Request>, now: real)
    ensures |Trim(window, requests, now)| <= |requests|
  {
    if requests != [] && now - requests[0].timestamp > window {
      TrimShorter(window, requests[1..], now);
    }
  }

  lemma {:induction false} QueueBounded(maxRequests: nat, window: real, calls: seq<Request>)
    ensures |RunOf(maxRequests, window, calls).queue| <= maxRequests
  {
    if calls != [] {
      var n := |calls| - 1;
      QueueBounded(maxRequests, window, calls[..n]);
      TrimShorter(window, RunOf(maxRequests, window, calls[..n]).queue, calls[n].timestamp);
    }
  }

  lemma {:induction false} WithinNarrower(requests: seq<Request>, from: real, to: real, from': real, to': real)
    requires from' <= from && to <= to'
    ensures |Within(requests, from, to)| <= |Within(requests, from', to')|
  {
    if requests != [] {
      WithinNarrower(requests[..|requests| - 1], from, to, from', to');
    }
  }

  /**
   Safety over every run: with a clock that never goes back, any closed interval
   as long as the window holds at most `maxRequests` accepted calls.
   */
  lemma {:induction false} WindowNeverExceeded(maxRequests: nat, window: real, calls: seq<Request>, from: real)
    requires ClockNonDecreasing(calls) && window >= 0.0
    ensures |Within(RunOf(maxRequests, window, calls).accepted, from, from + window)| <= maxRequests
  {
    if calls != [] {
      var n := |calls| - 1;
      var accepted := RunOf(maxRequests, window, calls).accepted;
      var before := RunOf(maxRequests, window, calls[..n]).accepted;
      var now := calls[n].timestamp;
      WindowNeverExceeded(maxRequests, window, calls[..n], from);
      WithinConcat(before, [calls[n]], from, from + window);
      assert calls == calls[..n] + [calls[n]];
      if from <= now <= from + window {
        QueueIsWindow(maxRequests, window, calls);
        QueueBounded(maxRequests, window, calls);
        AcceptedAreCalls(maxRequests, window, calls);
        WithinLater(accepted, from, now, from + window);
        WithinNarrower(accepted, from, now, now - window, now);
      } else {
        WithinOne(calls[n], from, from + window);
        assert Within(before, from, from + window) + [] == Within(before, from, from + window);
      }
    }
  }
}
