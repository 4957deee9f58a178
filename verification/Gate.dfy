/**
 The miner's admission check (neurons/miner.py, the blacklist functions): one rate
 limiter per caller, made on first use.
 */
module Gate {
  import opened RateLimiter

  datatype Verdict = InBlacklist | InWhitelist | RateLimited | Unrecognized | Recognized
  {
    predicate Refused() {
      InBlacklist? || RateLimited? || Unrecognized?
    }
  }

  class Gate {
    const maxRequests: int
    const timeWindow: real
    var blacklist: set<string>
    var whitelist: set<string>
    var registered: set<string>
    var limiters: map<string, RateLimiter>

    constructor (maxRequests: int, timeWindow: real, blacklist: set<string>, whitelist: set<string>, registered: set<string>)
      ensures Valid() && Queues() == map[]
      ensures this.maxRequests == maxRequests && this.timeWindow == timeWindow
      ensures this.blacklist == blacklist && this.whitelist == whitelist && this.registered == registered
    {
      this.maxRequests := maxRequests;
      this.timeWindow := timeWindow;
      this.blacklist := blacklist;
      this.whitelist := whitelist;
      this.registered := registered;
      limiters := map[];
    }

    /** Every limiter has the configured limits, and no two callers share one. */
    ghost predicate Valid()
      reads this, limiters.Values
    {
      && (forall c :: c in limiters ==>
            limiters[c].maxRequests == maxRequests && limiters[c].timeWindow == timeWindow)
      && (forall c, d :: c in limiters && d in limiters && c != d ==> limiters[c] != limiters[d])
    }

    /** The queue of every caller that has one. */
    ghost function Queues(): map<string, seq<Request>>
      reads this, limiters.Values
    {
      map c | c in limiters :: limiters[c].requests
    }

    /** `store_blacklist_fn` and its siblings. */
    method Check(caller: string, now: real) returns (verdict: Verdict)
      requires Valid()
      modifies this`limiters, limiters.Values
      ensures Valid()
      ensures fresh(limiters.Values - old(limiters.Values))
      ensures (Queues(), verdict) ==
              CheckOf(maxRequests, timeWindow, blacklist, whitelist, registered, old(Queues()), Request(caller, now))
    {
      if caller in blacklist {
        return InBlacklist;
      } else if caller in whitelist {
        return InWhitelist;
      }
      if caller !in limiters {
        var limiter := new RateLimiter(maxRequests, timeWindow);
        limiters := limiters[caller := limiter];
      }
      var allowed := limiters[caller].IsAllowed(caller, now);
      assert Queues() == old(Queues())[caller := limiters[caller].requests];
      if !allowed {
        return RateLimited;
      }
      if caller !in registered {
        return Unrecognized;
      }
      return Recognized;
    }
  }

  function QueueOf(queues: map<string, seq<Request>>, caller: string): seq<Request> {
    if caller in queues then queues[caller] else []
  }

  /** What one check does to the queues, and its verdict. */
  function CheckOf(
    maxRequests: int, window: real, blacklist: set<string>, whitelist: set<string>, registered: set<string>,
    queues: map<string, seq<Request>>, call: Request): (map<string, seq<Request>>, Verdict)
  {
    if call.caller in blacklist then (queues, InBlacklist)
    else if call.caller in whitelist then (queues, InWhitelist)
    else
      var (queue, allowed) := Decide(maxRequests, window, QueueOf(queues, call.caller), call);
      (queues[call.caller := queue],
       if !allowed then RateLimited else if call.caller !in registered then Unrecognized else Recognized)
  }

  /** The queues after a run of checks from all callers. */
  function QueuesAfter(
    maxRequests: int, window: real, blacklist: set<string>, whitelist: set<string>, registered: set<string>,
    calls: seq<Request>): map<string, seq<Request>>
  {
    if calls == [] then map[]
    else
      var n := |calls| - 1;
      CheckOf(maxRequests, window, blacklist, whitelist, registered,
              QueuesAfter(maxRequests, window, blacklist, whitelist, registered, calls[..n]), calls[n]).0
  }

  /** The calls of one caller, in order. */
  function Own(calls: seq<Request>, caller: string): seq<Request> {
    if calls == [] then []
    else
      var n := |calls| - 1;
      Own(calls[..n], caller) + if calls[n].caller == caller then [calls[n]] else []
  }

  /** However the callers' requests are mixed, a limited caller's queue is that of its own requests alone. */
  lemma {:induction false} CallersIndependent(
    maxRequests: int, window: real, blacklist: set<string>, whitelist: set<string>, registered: set<string>,
    calls: seq<Request>, caller: string)
    requires caller !in blacklist && caller !in whitelist
    ensures QueueOf(QueuesAfter(maxRequests, window, blacklist, whitelist, registered, calls), caller)
         == RunOf(maxRequests, window, Own(calls, caller)).queue
  {
    if calls != [] {
      var n := |calls| - 1;
      CallersIndependent(maxRequests, window, blacklist, whitelist, registered, calls[..n], caller);
      if calls[n].caller == caller {
        var own := Own(calls[..n], caller);
        assert (own + [calls[n]])[..|own|] == own;
      } else {
        assert Own(calls, caller) == Own(calls[..n], caller);
      }
    }
  }

  lemma {:induction false} OwnInOrder(calls: seq<Request>, caller: string)
    requires ClockNonDecreasing(calls)
    ensures ClockNonDecreasing(Own(calls, caller))
    ensures if calls == [] then Own(calls, caller) == [] else AllBy(Own(calls, caller), calls[|calls| - 1].timestamp)
  {
    if calls != [] {
      var n := |calls| - 1;
      OwnInOrder(calls[..n], caller);
      if n > 0 {
        assert calls[n - 1].timestamp <= calls[n].timestamp;
      }
    }
  }

  /**
   After any mix of calls on a clock that never goes back: a limited caller is told it
   is rate limited exactly when its own accepted calls already fill the window.
   */
  lemma RateLimitedExactly(
    maxRequests: nat, window: real, blacklist: set<string>, whitelist: set<string>, registered: set<string>,
    calls: seq<Request>, call: Request)
    requires call.caller !in blacklist && call.caller !in whitelist && window >= 0.0
    requires ClockNonDecreasing(calls) && (calls != [] ==> calls[|calls| - 1].timestamp <= call.timestamp)
    ensures var queues := QueuesAfter(maxRequests, window, blacklist, whitelist, registered, calls);
            var accepted := RunOf(maxRequests, window, Own(calls, call.caller)).accepted;
            CheckOf(maxRequests, window, blacklist, whitelist, registered, queues, call).1.RateLimited? <==>
            |Within(accepted, call.timestamp - window, call.timestamp)| == maxRequests
  {
    var own := Own(calls, call.caller);
    CallersIndependent(maxRequests, window, blacklist, whitelist, registered, calls, call.caller);
    OwnInOrder(calls, call.caller);
    CallSeesWindow(maxRequests, window, own, call.timestamp);
    QueueBounded(maxRequests, window, own);
    TrimShorter(window, RunOf(maxRequests, window, own).queue, call.timestamp);
  }

  /**
   After any mix of calls: a call is turned away exactly when its caller is blacklisted, or
   is not whitelisted and has filled its window or is not registered.
   */
  lemma TurnedAwayExactly(
    maxRequests: nat, window: real, blacklist: set<string>, whitelist: set<string>, registered: set<string>,
    calls: seq<Request>, call: Request)
    requires window >= 0.0
    requires ClockNonDecreasing(calls) && (calls != [] ==> calls[|calls| - 1].timestamp <= call.timestamp)
    ensures var queues := QueuesAfter(maxRequests, window, blacklist, whitelist, registered, calls);
            var accepted := RunOf(maxRequests, window, Own(calls, call.caller)).accepted;
            CheckOf(maxRequests, window, blacklist, whitelist, registered, queues, call).1.Refused() <==>
            || call.caller in blacklist
            || (&& call.caller !in whitelist
                && (|| |Within(accepted, call.timestamp - window, call.timestamp)| == maxRequests
                    || call.caller !in registered))
  {
    if call.caller !in blacklist && call.caller !in whitelist {
      RateLimitedExactly(maxRequests, window, blacklist, whitelist, registered, calls, call);
    }
  }
}
