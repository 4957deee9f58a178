/**
 Scaling rewards by response time (storage/validator/reward.py), over exact reals. The
 logarithm of a data size and the sigmoid of a centred time are parameters.
 */
module Reward {
  import opened Arithmetic
  import opened Sequences
  import opened Wrappers

  /** One response: its process time, or `None` when there was no answer. */
  datatype Response = Response(processTime: Option<real>)

  datatype Timed = Timed(uid: Uid, time: real)

  // ---------- Sorted times ----------

  /** The slowest known time of the batch, 1 when there is none. */
  function MaxTime(responses: seq<Response>): real {
    if forall i :: 0 <= i < |responses| ==> responses[i].processTime.None? then 1.0 else MaxKnown(responses)
  }

  function MaxKnown(responses: seq<Response>): real
    requires exists i :: 0 <= i < |responses| && responses[i].processTime.Some?
  {
    var n := |responses| - 1;
    var last := responses[n].processTime;
    if forall i :: 0 <= i < n ==> responses[i].processTime.None? then last.value
    else
      var front := MaxKnown(responses[..n]);
      if last.Some? && last.value > front then last.value else front
  }

  function TimeOf(r: Response, maxTime: real): real {
    if r.processTime.Some? then r.processTime.value else maxTime
  }

  function Pairs(uids: seq<Uid>, responses: seq<Response>, maxTime: real): (r: seq<Timed>)
    requires |uids| == |responses|
    ensures |r| == |uids|
  {
    seq(|uids|, i requires 0 <= i < |uids| => Timed(uids[i], TimeOf(responses[i], maxTime)))
  }

  function InsertByTime(ts: seq<Timed>, t: Timed): (r: seq<Timed>)
    ensures |r| == |ts| + 1
  {
    if ts == [] then [t]
    else
      var n := |ts| - 1;
      if t.time < ts[n].time then InsertByTime(ts[..n], t) + [ts[n]] else ts + [t]
  }

  /** `sorted(..., key=time)`: stable. */
  function SortByTime(ts: seq<Timed>): (r: seq<Timed>)
    ensures |r| == |ts|
  {
    if ts == [] then [] else InsertByTime(SortByTime(ts[..|ts| - 1]), ts[|ts| - 1])
  }

  predicate SortedByTime(ts: seq<Timed>) {
    forall i, j :: 0 <= i <= j < |ts| ==> ts[i].time <= ts[j].time
  }

  lemma {:induction false} InsertBounded(ts: seq<Timed>, t: Timed, bound: real)
    requires t.time <= bound && forall i :: 0 <= i < |ts| ==> ts[i].time <= bound
    ensures forall i :: 0 <= i < |InsertByTime(ts, t)| ==> InsertByTime(ts, t)[i].time <= bound
  {
    if ts != [] {
      InsertBounded(ts[..|ts| - 1], t, bound);
    }
  }

  lemma {:induction false} InsertSorted(ts: seq<Timed>, t: Timed)
    requires SortedByTime(ts)
    ensures SortedByTime(InsertByTime(ts, t))
  {
    if ts != [] {
      var n := |ts| - 1;
      if t.time < ts[n].time {
        InsertSorted(ts[..n], t);
        InsertBounded(ts[..n], t, ts[n].time);
      }
    }
  }

  lemma {:induction false} InsertPermutes(ts: seq<Timed>, t: Timed)
    ensures multiset(InsertByTime(ts, t)) == multiset(ts) + multiset{t}
  {
    if ts != [] {
      var n := |ts| - 1;
      if t.time < ts[n].time {
        InsertPermutes(ts[..n], t);
        LastInMultiset(InsertByTime(ts[..n], t), ts[n]);
        LastInMultiset(ts[..n], ts[n]);
        assert ts == ts[..n] + [ts[n]];
      } else {
        LastInMultiset(ts, t);
      }
    }
  }

  lemma {:induction false} SortSorts(ts: seq<Timed>)
    ensures SortedByTime(SortByTime(ts))
  {
    if ts != [] {
      SortSorts(ts[..|ts| - 1]);
      InsertSorted(SortByTime(ts[..|ts| - 1]), ts[|ts| - 1]);
    }
  }

  lemma {:induction false} SortPermutes(ts: seq<Timed>)
    ensures multiset(SortByTime(ts)) == multiset(ts)
  {
    if ts != [] {
      var front, last := ts[..|ts| - 1], ts[|ts| - 1];
      SortPermutes(front);
      InsertPermutes(SortByTime(front), last);
      LastInMultiset(front, last);
      assert ts == front + [last];
    }
  }

  lemma LastInMultiset(front: seq<Timed>, last: Timed)
    ensures multiset(front + [last]) == multiset(front) + multiset{last}
  {
  }

  /** The sorted list is in order of time and holds the same pairs. */
  lemma SortIsPermutation(ts: seq<Timed>)
    ensures SortedByTime(SortByTime(ts)) && multiset(SortByTime(ts)) == multiset(ts)
  {
    SortSorts(ts);
    SortPermutes(ts);
  }

  /** The pairs with one time, in the order given. */
  function AtTime(ts: seq<Timed>, time: real): seq<Timed> {
    if ts == [] then []
    else AtTime(ts[..|ts| - 1], time) + if ts[|ts| - 1].time == time then [ts[|ts| - 1]] else []
  }

  lemma AtTimeAppend(ts: seq<Timed>, t: Timed, time: real)
    ensures AtTime(ts + [t], time) == AtTime(ts, time) + if t.time == time then [t] else []
  {
    assert (ts + [t])[..|ts|] == ts;
  }

  lemma {:induction false} NoneAtTime(ts: seq<Timed>, time: real)
    requires forall i :: 0 <= i < |ts| ==> ts[i].time != time
    ensures AtTime(ts, time) == []
  {
    if ts != [] {
      NoneAtTime(ts[..|ts| - 1], time);
    }
  }

  lemma {:induction false} InsertAtTime(ts: seq<Timed>, t: Timed, time: real)
    ensures AtTime(InsertByTime(ts, t), time) == AtTime(ts, time) + if t.time == time then [t] else []
  {
    if ts == [] {
      AtTimeAppend([], t, time);
      assert [] + [t] == [t];
    } else {
      var n := |ts| - 1;
      if t.time < ts[n].time {
        InsertAtTime(ts[..n], t, time);
        AtTimeAppend(InsertByTime(ts[..n], t), ts[n], time);
      } else {
        AtTimeAppend(ts, t, time);
      }
    }
  }

  /** The sort is stable: pairs with one time keep their order. */
  lemma {:induction false} SortIsStable(ts: seq<Timed>, time: real)
    ensures AtTime(SortByTime(ts), time) == AtTime(ts, time)
  {
    if ts != [] {
      SortIsStable(ts[..|ts| - 1], time);
      InsertAtTime(SortByTime(ts[..|ts| - 1]), ts[|ts| - 1], time);
    }
  }

  // ---------- Normalised times ----------

  /** The batch's shape: `log1p` of a data size, and the inverse sigmoid of a centred time for a largest time. */
  datatype Shape = Shape(log: real -> real, sigmoid: (real, real) -> real)
  {
    ghost predicate Valid() {
      && (forall size {:trigger log(size)} :: size > 0.0 ==> log(size) > 0.0)
      && (forall most, x {:trigger sigmoid(most, x)} :: most > 0.0 ==> sigmoid(most, x) > 0.0)
      && (forall most, x, y {:trigger sigmoid(most, x), sigmoid(most, y)} ::
            most > 0.0 && x < y ==> sigmoid(most, x) > sigmoid(most, y))
    }
  }

  function MaxOf(s: seq<real>): real
    requires s != []
  {
    var n := |s| - 1;
    if n == 0 then s[0]
    else
      var front := MaxOf(s[..n]);
      if s[n] > front then s[n] else front
  }

  /** NumPy's pairing of a list with one of equal length or of length one. */
  function Broadcast(sizes: seq<real>, n: nat, i: nat): real
    requires i < n && (|sizes| == n || |sizes| == 1)
  {
    if |sizes| == 1 then sizes[0] else sizes[i]
  }

  /** The i-th smallest time over the logarithm of the i-th data size. */
  function UnitTimes(shape: Shape, sorted: seq<Timed>, sizes: seq<real>): (r: seq<real>)
    requires |sizes| == |sorted| || |sizes| == 1
    requires forall i :: 0 <= i < |sizes| ==> shape.log(sizes[i]) != 0.0
    ensures |r| == |sorted|
  {
    seq(|sorted|, i requires 0 <= i < |sorted| => sorted[i].time / shape.log(Broadcast(sizes, |sorted|, i)))
  }

  /** `sigmoid_normalize` of the unit times. */
  function Normalize(shape: Shape, times: seq<real>): (r: seq<real>)
    ensures |r| == |times|
  {
    if times == [] then []
    else
      var mean := Sum(times) / |times| as real;
      seq(|times|, i requires 0 <= i < |times| => shape.sigmoid(MaxOf(times) * 2.0, times[i] - mean))
  }

  /** The dictionary from uid to normalised time: of equal uids the last wins. */
  function ByUid(sorted: seq<Timed>, normalized: seq<real>): map<Uid, real>
    requires |sorted| == |normalized|
  {
    if sorted == [] then map[]
    else
      var n := |sorted| - 1;
      ByUid(sorted[..n], normalized[..n])[sorted[n].uid := normalized[n]]
  }

  function TimeScaled(uids: seq<Uid>, rewards: seq<real>, byUid: map<Uid, real>): (r: seq<real>)
    requires |uids| == |rewards| && forall i :: 0 <= i < |uids| ==> uids[i] in byUid
    ensures |r| == |uids|
    ensures forall i :: 0 <= i < |uids| ==> r[i] == rewards[i] * byUid[uids[i]]
  {
    seq(|uids|, i requires 0 <= i < |uids| => rewards[i] * byUid[uids[i]])
  }

  function Rescaled(s: seq<real>, factor: real): (r: seq<real>)
    ensures |r| == |s|
    ensures forall i :: 0 <= i < |s| ==> r[i] == s[i] * factor
  {
    seq(|s|, i requires 0 <= i < |s| => s[i] * factor)
  }

  lemma {:induction false} SumOfShifted(s: seq<real>, shift: real)
    ensures Sum(seq(|s|, k requires 0 <= k < |s| => s[k] - shift)) == Sum(s) - |s| as real * shift
  {
    if s != [] {
      var n := |s| - 1;
      var shifted := seq(|s|, k requires 0 <= k < |s| => s[k] - shift);
      SumOfShifted(s[..n], shift);
      assert shifted[..n] == seq(n, k requires 0 <= k < n => s[..n][k] - shift);
      assert (n + 1) as real * shift == n as real * shift + shift;
    } else {
      assert 0.0 * shift == 0.0;
    }
  }

  lemma {:induction false} MaxOfReached(s: seq<real>) returns (top: nat)
    requires s != []
    ensures top < |s| && s[top] == MaxOf(s)
  {
    top := |s| - 1;
    if top > 0 && s[top] <= MaxOf(s[..top]) {
      top := MaxOfReached(s[..top]);
    }
  }

  lemma {:induction false} MaxOfBounds(s: seq<real>)
    requires s != []
    ensures forall i :: 0 <= i < |s| ==> s[i] <= MaxOf(s)
  {
    var n := |s| - 1;
    if n > 0 {
      MaxOfBounds(s[..n]);
      assert forall i :: 0 <= i < n ==> s[..n][i] == s[i];
    }
  }

  /** Times moved by one amount so that they add up to zero. */
  ghost predicate AreCentred(times: seq<real>, centred: seq<real>) {
    && |centred| == |times| && Sum(centred) == 0.0
    && forall k, l :: 0 <= k < |times| && 0 <= l < |times| ==> centred[k] - centred[l] == times[k] - times[l]
  }

  /**
   `sigmoid_normalize` is the sigmoid of the centred times, for a largest time that is
   twice a time nowhere exceeded.
   */
  lemma NormalizeExactly(shape: Shape, times: seq<real>) returns (centred: seq<real>, top: nat)
    requires times != []
    ensures AreCentred(times, centred)
    ensures top < |times| && forall k :: 0 <= k < |times| ==> times[k] <= times[top]
    ensures forall k :: 0 <= k < |times| ==> Normalize(shape, times)[k] == shape.sigmoid(times[top] * 2.0, centred[k])
  {
    var mean := Sum(times) / |times| as real;
    centred := seq(|times|, k requires 0 <= k < |times| => times[k] - mean);
    SumOfShifted(times, mean);
    assert |times| as real * mean == Sum(times);
    top := MaxOfReached(times);
    MaxOfBounds(times);
  }

  /** What brings the total back to that of the rewards before. */
  function Factor(rewards: seq<real>, scaled: seq<real>): real
    requires Sum(scaled) != 0.0
  {
    Sum(rewards) / Sum(scaled)
  }

  function Rebalanced(rewards: seq<real>, scaled: seq<real>): Result<seq<real>> {
    if Sum(scaled) == 0.0 then Err(ZeroDivisionError) else Ok(Rescaled(scaled, Factor(rewards, scaled)))
  }

  /** No logarithm that is divided by vanishes. */
  predicate SizesUsable(shape: Shape, sizes: seq<real>) {
    forall i :: 0 <= i < |sizes| ==> shape.log(sizes[i]) != 0.0
  }

  predicate LengthsFit(sizes: seq<real>, n: nat) {
    |sizes| == n || |sizes| == 1
  }

  /** The normalised time of every uid of the batch. */
  function NormalizedTimes(
    shape: Shape, uids: seq<Uid>, responses: seq<Response>, sizes: seq<real>): (byUid: map<Uid, real>)
    requires |uids| == |responses| && LengthsFit(sizes, |uids|) && SizesUsable(shape, sizes)
    ensures forall i :: 0 <= i < |uids| ==> uids[i] in byUid
  {
    var sorted := SortByTime(Pairs(uids, responses, MaxTime(responses)));
    var normalized := Normalize(shape, UnitTimes(shape, sorted, sizes));
    EveryUidTimed(uids, responses, MaxTime(responses), normalized);
    ByUid(sorted, normalized)
  }

  /** The rewards times their uid's normalised time, before the final rescaling. */
  function TimeScaledRewards(
    shape: Shape, uids: seq<Uid>, responses: seq<Response>, rewards: seq<real>, sizes: seq<real>): (r: seq<real>)
    requires |uids| == |responses| == |rewards| && LengthsFit(sizes, |uids|) && SizesUsable(shape, sizes)
    ensures |r| == |uids|
  {
    TimeScaled(uids, rewards, NormalizedTimes(shape, uids, responses, sizes))
  }

  /**
   `scale_rewards`: sizes that neither match the batch nor are a single one do not
   broadcast; a time-scaled sum of zero makes the rescaling factor no number.
   */
  function ScaleRewards(
    shape: Shape, uids: seq<Uid>, responses: seq<Response>, rewards: seq<real>, sizes: seq<real>): Result<seq<real>>
    requires |uids| == |responses| == |rewards| && SizesUsable(shape, sizes)
  {
    if uids == [] then Ok([])
    else if !LengthsFit(sizes, |uids|) then Err(ValueError)
    else
      Rebalanced(rewards, TimeScaledRewards(shape, uids, responses, rewards, sizes))
  }

  // ---------- Every uid is timed ----------

  lemma {:induction false} ByUidKeys(sorted: seq<Timed>, normalized: seq<real>, uid: Uid)
    requires |sorted| == |normalized|
    ensures uid in ByUid(sorted, normalized) <==> exists i :: 0 <= i < |sorted| && sorted[i].uid == uid
  {
    if sorted != [] {
      var n := |sorted| - 1;
      ByUidKeys(sorted[..n], normalized[..n], uid);
      if uid in ByUid(sorted, normalized) && sorted[n].uid != uid {
        var i :| 0 <= i < n && sorted[..n][i].uid == uid;
        assert sorted[i].uid == uid;
      }
      if i :| 0 <= i < |sorted| && sorted[i].uid == uid {
        if i < n {
          assert sorted[..n][i].uid == uid;
        }
      }
    }
  }

  lemma EveryUidTimed(uids: seq<Uid>, responses: seq<Response>, maxTime: real, normalized: seq<real>)
    requires |uids| == |responses| == |normalized|
    ensures forall i :: 0 <= i < |uids| ==>
              uids[i] in ByUid(SortByTime(Pairs(uids, responses, maxTime)), normalized)
  {
    var pairs := Pairs(uids, responses, maxTime);
    var sorted := SortByTime(pairs);
    SortIsPermutation(pairs);
    forall i | 0 <= i < |uids|
      ensures uids[i] in ByUid(sorted, normalized)
    {
      assert pairs[i] in multiset(pairs);
      assert pairs[i] in multiset(sorted);
      var k :| 0 <= k < |sorted| && sorted[k] == pairs[i];
      ByUidKeys(sorted, normalized, uids[i]);
    }
  }

  // ---------- Conservation ----------

  lemma RescaledPrefix(s: seq<real>, factor: real, n: nat)
    requires n <= |s|
    ensures Rescaled(s, factor)[..n] == Rescaled(s[..n], factor)
  {
    forall i | 0 <= i < n
      ensures Rescaled(s, factor)[i] == Rescaled(s[..n], factor)[i]
    {
      var x := s[i];
      assert s[..n][i] == x;
      assert Rescaled(s, factor)[i] == x * factor;
      assert Rescaled(s[..n], factor)[i] == x * factor;
    }
  }

  lemma {:induction false} SumOfRescaled(s: seq<real>, factor: real)
    ensures Sum(Rescaled(s, factor)) == Sum(s) * factor
  {
    if s != [] {
      var n := |s| - 1;
      SumOfRescaled(s[..n], factor);
      RescaledPrefix(s, factor, n);
    }
  }

  lemma QuotientTimes(a: real, b: real)
    requires b != 0.0
    ensures b * (a / b) == a
  {
  }

  /** The rewards after scaling add up to the rewards before, exactly when the time-scaled sum is not zero. */
  lemma TotalConserved(
    shape: Shape, uids: seq<Uid>, responses: seq<Response>, rewards: seq<real>, sizes: seq<real>)
    requires |uids| == |responses| == |rewards| && uids != []
    requires LengthsFit(sizes, |uids|) && SizesUsable(shape, sizes)
    ensures var r := ScaleRewards(shape, uids, responses, rewards, sizes);
            && (r.Ok? <==> Sum(TimeScaledRewards(shape, uids, responses, rewards, sizes)) != 0.0)
            && (r.Ok? ==> |r.value| == |uids| && Sum(r.value) == Sum(rewards))
  {
    RebalancedConserves(rewards, TimeScaledRewards(shape, uids, responses, rewards, sizes));
  }

  lemma RebalancedConserves(rewards: seq<real>, scaled: seq<real>)
    ensures var r := Rebalanced(rewards, scaled);
            && (r.Ok? <==> Sum(scaled) != 0.0)
            && (r.Ok? ==> |r.value| == |scaled| && Sum(r.value) == Sum(rewards))
  {
    if Sum(scaled) != 0.0 {
      SumOfRescaled(scaled, Factor(rewards, scaled));
      QuotientTimes(Sum(rewards), Sum(scaled));
    }
  }

  /** Rescaling is by one factor, and it takes the time-scaled total to the total. */
  lemma RebalancedExactly(rewards: seq<real>, scaled: seq<real>, i: nat) returns (factor: real)
    requires Sum(scaled) != 0.0 && i < |scaled|
    ensures Sum(scaled) * factor == Sum(rewards) && Rebalanced(rewards, scaled).value[i] == scaled[i] * factor
  {
    factor := Factor(rewards, scaled);
    QuotientTimes(Sum(rewards), Sum(scaled));
  }

  // ---------- Whose time meets whose size ----------

  /** The normalised times' unit times, in the order of time. */
  function SortedUnitTimes(shape: Shape, uids: seq<Uid>, responses: seq<Response>, sizes: seq<real>): (r: seq<real>)
    requires |uids| == |responses| && LengthsFit(sizes, |uids|) && SizesUsable(shape, sizes)
    ensures |r| == |uids|
  {
    UnitTimes(shape, SortByTime(Pairs(uids, responses, MaxTime(responses))), sizes)
  }

  function TimeOfUid(responses: seq<Response>, i: nat): real
    requires i < |responses|
  {
    TimeOf(responses[i], MaxTime(responses))
  }

  /** Response i comes k-th in the order of time. */
  predicate ComesAt(uids: seq<Uid>, responses: seq<Response>, i: nat, k: nat)
    requires |uids| == |responses|
  {
    && i < |uids| && k < |uids|
    && SortByTime(Pairs(uids, responses, MaxTime(responses)))[k] == Timed(uids[i], TimeOfUid(responses, i))
  }

  lemma SomewhereInOrder(uids: seq<Uid>, responses: seq<Response>, i: nat) returns (k: nat)
    requires |uids| == |responses| && i < |uids|
    ensures ComesAt(uids, responses, i, k)
  {
    var pairs := Pairs(uids, responses, MaxTime(responses));
    var sorted := SortByTime(pairs);
    SortIsPermutation(pairs);
    assert pairs[i] in multiset(pairs);
    assert pairs[i] in multiset(sorted);
    k :| 0 <= k < |sorted| && sorted[k] == pairs[i];
  }

  predicate DistinctlyTimed(ts: seq<Timed>) {
    forall a, b :: 0 <= a < b < |ts| ==> ts[a].uid != ts[b].uid
  }

  predicate Avoids(ts: seq<Timed>, uid: Uid) {
    forall a :: 0 <= a < |ts| ==> ts[a].uid != uid
  }

  lemma {:induction false} InsertAvoids(ts: seq<Timed>, t: Timed, uid: Uid)
    requires Avoids(ts, uid) && t.uid != uid
    ensures Avoids(InsertByTime(ts, t), uid)
  {
    if ts != [] {
      InsertAvoids(ts[..|ts| - 1], t, uid);
    }
  }

  lemma {:induction false} SortAvoids(ts: seq<Timed>, uid: Uid)
    requires Avoids(ts, uid)
    ensures Avoids(SortByTime(ts), uid)
  {
    if ts != [] {
      SortAvoids(ts[..|ts| - 1], uid);
      InsertAvoids(SortByTime(ts[..|ts| - 1]), ts[|ts| - 1], uid);
    }
  }

  lemma {:induction false} InsertKeepsDistinct(ts: seq<Timed>, t: Timed)
    requires DistinctlyTimed(ts) && Avoids(ts, t.uid)
    ensures DistinctlyTimed(InsertByTime(ts, t))
  {
    if ts != [] {
      var n := |ts| - 1;
      InsertKeepsDistinct(ts[..n], t);
      InsertAvoids(ts[..n], t, ts[n].uid);
    }
  }

  lemma {:induction false} SortKeepsDistinct(ts: seq<Timed>)
    requires DistinctlyTimed(ts)
    ensures DistinctlyTimed(SortByTime(ts))
  {
    if ts != [] {
      var n := |ts| - 1;
      SortKeepsDistinct(ts[..n]);
      SortAvoids(ts[..n], ts[n].uid);
      InsertKeepsDistinct(SortByTime(ts[..n]), ts[n]);
    }
  }

  lemma {:induction false} ByUidAt(sorted: seq<Timed>, normalized: seq<real>, k: nat)
    requires |sorted| == |normalized| && DistinctlyTimed(sorted) && k < |sorted|
    ensures sorted[k].uid in ByUid(sorted, normalized)
    ensures ByUid(sorted, normalized)[sorted[k].uid] == normalized[k]
  {
    var n := |sorted| - 1;
    if k < n {
      ByUidAt(sorted[..n], normalized[..n], k);
    }
  }

  /** `sigmoid_normalize` of one unit time of a batch. */
  function NormalizedAt(shape: Shape, times: seq<real>, k: nat): real
    requires k < |times|
  {
    shape.sigmoid(MaxOf(times) * 2.0, times[k] - Sum(times) / |times| as real)
  }

  /**
   In every batch of distinct uids: the time of response i, k-th in the order of time, is
   divided by the logarithm of size k; the quotient is that by its own size if and only if
   the time is zero or the two sizes have one logarithm.
   */
  lemma SizesMeetTimesExactly(
    shape: Shape, uids: seq<Uid>, responses: seq<Response>, sizes: seq<real>, i: nat, k: nat)
    requires |uids| == |responses| && LengthsFit(sizes, |uids|) && SizesUsable(shape, sizes)
    requires AllDistinct(uids) && ComesAt(uids, responses, i, k)
    ensures var times, t := SortedUnitTimes(shape, uids, responses, sizes), TimeOfUid(responses, i);
            var met, own := shape.log(Broadcast(sizes, |uids|, k)), shape.log(Broadcast(sizes, |uids|, i));
            && NormalizedTimes(shape, uids, responses, sizes)[uids[i]] == NormalizedAt(shape, times, k)
            && times[k] == t / met
            && (times[k] == t / own <==> t == 0.0 || met == own)
  {
    NormalizedTimeAt(shape, uids, responses, sizes, i, k);
    SameQuotientExactly(
      TimeOfUid(responses, i), shape.log(Broadcast(sizes, |uids|, k)), shape.log(Broadcast(sizes, |uids|, i)));
  }

  lemma NormalizedTimeAt(
    shape: Shape, uids: seq<Uid>, responses: seq<Response>, sizes: seq<real>, i: nat, k: nat)
    requires |uids| == |responses| && LengthsFit(sizes, |uids|) && SizesUsable(shape, sizes)
    requires AllDistinct(uids) && ComesAt(uids, responses, i, k)
    ensures NormalizedTimes(shape, uids, responses, sizes)[uids[i]]
         == NormalizedAt(shape, SortedUnitTimes(shape, uids, responses, sizes), k)
  {
    var sorted := SortByTime(Pairs(uids, responses, MaxTime(responses)));
    SortKeepsDistinct(Pairs(uids, responses, MaxTime(responses)));
    ByUidAt(sorted, Normalize(shape, UnitTimes(shape, sorted, sizes)), k);
  }

  lemma SameQuotientExactly(t: real, a: real, b: real)
    requires a != 0.0 && b != 0.0
    ensures t / a == t / b <==> t == 0.0 || a == b
  {
    var x, y := t / a, t / b;
    assert x * a == t && y * b == t;
    if x == y {
      assert x * (a - b) == 0.0;
    }
  }

  // ---------- Who gets more ----------

  predicate PositiveSizes(sizes: seq<real>) {
    forall i :: 0 <= i < |sizes| ==> sizes[i] > 0.0
  }

  /** A batch with positive sizes whose largest time is positive. */
  ghost predicate Regular(shape: Shape, uids: seq<Uid>, responses: seq<Response>, rewards: seq<real>, sizes: seq<real>) {
    && shape.Valid() && PositiveSizes(sizes) && SizesUsable(shape, sizes)
    && |uids| == |responses| == |rewards| && uids != [] && LengthsFit(sizes, |uids|)
    && MaxTime(responses) > 0.0
  }

  predicate NoneNegative(rewards: seq<real>) {
    forall k :: 0 <= k < |rewards| ==> rewards[k] >= 0.0
  }

  lemma {:induction false} MaxKnownReached(responses: seq<Response>) returns (p: nat)
    requires exists i :: 0 <= i < |responses| && responses[i].processTime.Some?
    ensures p < |responses| && responses[p].processTime == Some(MaxKnown(responses))
  {
    var n := |responses| - 1;
    p := n;
    if exists i :: 0 <= i < n && responses[i].processTime.Some? {
      var i :| 0 <= i < n && responses[i].processTime.Some?;
      assert responses[..n][i].processTime.Some?;
      var front := MaxKnownReached(responses[..n]);
      if responses[n].processTime.None? || responses[n].processTime.value <= MaxKnown(responses[..n]) {
        p := front;
      }
    }
  }

  lemma {:induction false} MaxKnownBounds(responses: seq<Response>)
    requires exists i :: 0 <= i < |responses| && responses[i].processTime.Some?
    ensures forall i :: 0 <= i < |responses| && responses[i].processTime.Some? ==>
              responses[i].processTime.value <= MaxKnown(responses)
  {
    var n := |responses| - 1;
    var front := responses[..n];
    if exists i :: 0 <= i < n && responses[i].processTime.Some? {
      var i :| 0 <= i < n && responses[i].processTime.Some?;
      assert front[i].processTime.Some?;
      MaxKnownBounds(front);
      forall p | 0 <= p < n && responses[p].processTime.Some?
        ensures responses[p].processTime.value <= MaxKnown(front)
      {
        assert front[p] == responses[p];
      }
    }
  }

  /** The largest time: one that was measured and is nowhere exceeded, or 1 when nobody answered. */
  lemma MaxTimeExactly(responses: seq<Response>)
    ensures (forall i :: 0 <= i < |responses| ==> responses[i].processTime.None?) ==> MaxTime(responses) == 1.0
    ensures (exists i :: 0 <= i < |responses| && responses[i].processTime.Some?) ==>
              exists i :: 0 <= i < |responses| && responses[i].processTime == Some(MaxTime(responses))
    ensures forall i :: 0 <= i < |responses| && responses[i].processTime.Some? ==>
              responses[i].processTime.value <= MaxTime(responses)
  {
    if exists i :: 0 <= i < |responses| && responses[i].processTime.Some? {
      MaxKnownBounds(responses);
      var p := MaxKnownReached(responses);
    }
  }

  lemma MaxTimeReached(responses: seq<Response>) returns (p: nat)
    requires responses != []
    ensures p < |responses| && TimeOfUid(responses, p) == MaxTime(responses)
  {
    if forall i :: 0 <= i < |responses| ==> responses[i].processTime.None? {
      p := 0;
    } else {
      p := MaxKnownReached(responses);
    }
  }

  lemma LogPositive(shape: Shape, sizes: seq<real>, n: nat, k: nat)
    requires shape.Valid() && PositiveSizes(sizes) && LengthsFit(sizes, n) && k < n
    ensures shape.log(Broadcast(sizes, n, k)) > 0.0
  {
  }

  /** The largest unit time of a regular batch is positive. */
  lemma LargestPositive(
    shape: Shape, uids: seq<Uid>, responses: seq<Response>, rewards: seq<real>, sizes: seq<real>)
    requires Regular(shape, uids, responses, rewards, sizes)
    ensures MaxOf(SortedUnitTimes(shape, uids, responses, sizes)) > 0.0
  {
    var p := MaxTimeReached(responses);
    var k := SomewhereInOrder(uids, responses, p);
    var times := SortedUnitTimes(shape, uids, responses, sizes);
    LogPositive(shape, sizes, |uids|, k);
    PositiveQuotient(MaxTime(responses), shape.log(Broadcast(sizes, |uids|, k)));
    assert times[k] == MaxTime(responses) / shape.log(Broadcast(sizes, |uids|, k));
    MaxOfBounds(times);
  }

  /** Normalised times are positive, and in the opposite order of the unit times. */
  lemma NormalizedFalls(shape: Shape, times: seq<real>, k: nat, l: nat)
    requires shape.Valid() && k < |times| && l < |times| && MaxOf(times) > 0.0
    ensures NormalizedAt(shape, times, k) > 0.0
    ensures NormalizedAt(shape, times, k) > NormalizedAt(shape, times, l) <==> times[k] < times[l]
  {
    var most, mean := MaxOf(times) * 2.0, Sum(times) / |times| as real;
    var x, y := times[k] - mean, times[l] - mean;
    assert shape.sigmoid(most, x) > 0.0 && shape.sigmoid(most, y) > 0.0;
    assert x < y ==> shape.sigmoid(most, x) > shape.sigmoid(most, y);
    assert y < x ==> shape.sigmoid(most, y) > shape.sigmoid(most, x);
  }

  predicate SameSign(a: real, b: real) {
    (a > 0.0 && b > 0.0) || (a < 0.0 && b < 0.0)
  }

  lemma QuotientSign(a: real, b: real)
    requires b != 0.0
    ensures a / b > 0.0 <==> SameSign(a, b)
    ensures a / b < 0.0 <==> SameSign(-a, b)
  {
    var q := a / b;
    assert q * b == a;
    if q > 0.0 {
      ProductSigns(q, if b > 0.0 then b else -b);
    } else if q < 0.0 {
      ProductSigns(-q, if b > 0.0 then b else -b);
    }
  }

  lemma FactorOrder(a: real, b: real, factor: real)
    ensures a * factor > b * factor <==> (factor > 0.0 && a > b) || (factor < 0.0 && a < b)
  {
    if factor > 0.0 {
      ProductOrder(b, a, factor);
    } else if factor < 0.0 {
      ProductOrder(a, b, -factor);
      assert a * -factor == -(a * factor) && b * -factor == -(b * factor);
    }
  }

  lemma RebalancedOrder(rewards: seq<real>, scaled: seq<real>, i: nat, j: nat)
    requires i < |scaled| && j < |scaled| && Sum(scaled) != 0.0
    ensures var r, R, S := Rebalanced(rewards, scaled).value, Sum(rewards), Sum(scaled);
            r[i] > r[j] <==> (SameSign(R, S) && scaled[i] > scaled[j]) || (SameSign(-R, S) && scaled[i] < scaled[j])
  {
    FactorSign(rewards, scaled);
    RescaledOrder(scaled, Factor(rewards, scaled), i, j);
  }

  lemma FactorSign(rewards: seq<real>, scaled: seq<real>)
    requires Sum(scaled) != 0.0
    ensures Factor(rewards, scaled) > 0.0 <==> SameSign(Sum(rewards), Sum(scaled))
    ensures Factor(rewards, scaled) < 0.0 <==> SameSign(-Sum(rewards), Sum(scaled))
  {
    QuotientSign(Sum(rewards), Sum(scaled));
  }

  lemma RescaledOrder(scaled: seq<real>, factor: real, i: nat, j: nat)
    requires i < |scaled| && j < |scaled|
    ensures var r := Rescaled(scaled, factor);
            r[i] > r[j] <==> (factor > 0.0 && scaled[i] > scaled[j]) || (factor < 0.0 && scaled[i] < scaled[j])
  {
    var r, x, y := Rescaled(scaled, factor), scaled[i], scaled[j];
    assert r[i] == x * factor && r[j] == y * factor;
    FactorOrder(x, y, factor);
  }

  lemma TimeScaledOrder(uids: seq<Uid>, rewards: seq<real>, byUid: map<Uid, real>, i: nat, j: nat)
    requires |uids| == |rewards| && forall k :: 0 <= k < |uids| ==> uids[k] in byUid
    requires i < |uids| && j < |uids| && rewards[i] == rewards[j] > 0.0
    ensures var scaled := TimeScaled(uids, rewards, byUid);
            scaled[i] > scaled[j] <==> byUid[uids[i]] > byUid[uids[j]]
  {
    var scaled, reward, ni, nj := TimeScaled(uids, rewards, byUid), rewards[i], byUid[uids[i]], byUid[uids[j]];
    assert scaled[i] == reward * ni && scaled[j] == reward * nj;
    ProductOrder(nj, ni, reward);
  }

  /**
   In every regular batch, negative rewards included: of two equal positive rewards one
   becomes larger than the other exactly when the total and the time-scaled total have one
   sign and its unit time is the smaller, or opposite signs and its unit time is the larger.
   */
  lemma OrderExactly(
    shape: Shape, uids: seq<Uid>, responses: seq<Response>, rewards: seq<real>, sizes: seq<real>,
    i: nat, k: nat, j: nat, l: nat)
    requires Regular(shape, uids, responses, rewards, sizes) && AllDistinct(uids)
    requires ComesAt(uids, responses, i, k) && ComesAt(uids, responses, j, l) && rewards[i] == rewards[j] > 0.0
    ensures var r := ScaleRewards(shape, uids, responses, rewards, sizes);
            var times := SortedUnitTimes(shape, uids, responses, sizes);
            var R, S := Sum(rewards), Sum(TimeScaledRewards(shape, uids, responses, rewards, sizes));
            && (r.Ok? <==> S != 0.0)
            && (r.Ok? ==> (r.value[i] > r.value[j] <==>
                             (SameSign(R, S) && times[k] < times[l]) || (SameSign(-R, S) && times[k] > times[l])))
  {
    var byUid := NormalizedTimes(shape, uids, responses, sizes);
    var times := SortedUnitTimes(shape, uids, responses, sizes);
    var scaled := TimeScaled(uids, rewards, byUid);
    SizesMeetTimesExactly(shape, uids, responses, sizes, i, k);
    SizesMeetTimesExactly(shape, uids, responses, sizes, j, l);
    LargestPositive(shape, uids, responses, rewards, sizes);
    NormalizedFalls(shape, times, k, l);
    NormalizedFalls(shape, times, l, k);
    TimeScaledOrder(uids, rewards, byUid, i, j);
    TimeScaledOrder(uids, rewards, byUid, j, i);
    if Sum(scaled) != 0.0 {
      RebalancedOrder(rewards, scaled, i, j);
    }
  }

  // ---------- When rewards can be scaled ----------

  lemma {:induction false} ByUidPositive(sorted: seq<Timed>, normalized: seq<real>)
    requires |sorted| == |normalized| && forall k :: 0 <= k < |normalized| ==> normalized[k] > 0.0
    ensures forall u :: u in ByUid(sorted, normalized) ==> ByUid(sorted, normalized)[u] > 0.0
  {
    if sorted != [] {
      ByUidPositive(sorted[..|sorted| - 1], normalized[..|sorted| - 1]);
    }
  }

  lemma NormalizedPositive(
    shape: Shape, uids: seq<Uid>, responses: seq<Response>, rewards: seq<real>, sizes: seq<real>)
    requires Regular(shape, uids, responses, rewards, sizes)
    ensures forall i :: 0 <= i < |uids| ==> NormalizedTimes(shape, uids, responses, sizes)[uids[i]] > 0.0
  {
    var sorted := SortByTime(Pairs(uids, responses, MaxTime(responses)));
    var times := SortedUnitTimes(shape, uids, responses, sizes);
    LargestPositive(shape, uids, responses, rewards, sizes);
    var normalized := Normalize(shape, times);
    forall k | 0 <= k < |times|
      ensures normalized[k] > 0.0
    {
      NormalizedFalls(shape, times, k, k);
      assert normalized[k] == NormalizedAt(shape, times, k);
    }
    ByUidPositive(sorted, normalized);
  }

  lemma TimeScaledSigns(uids: seq<Uid>, rewards: seq<real>, byUid: map<Uid, real>)
    requires |uids| == |rewards| && NoneNegative(rewards)
    requires forall k :: 0 <= k < |uids| ==> uids[k] in byUid && byUid[uids[k]] > 0.0
    ensures var scaled := TimeScaled(uids, rewards, byUid);
            forall k :: 0 <= k < |uids| ==> scaled[k] >= 0.0 && (scaled[k] > 0.0 <==> rewards[k] > 0.0)
  {
    forall k | 0 <= k < |uids|
      ensures rewards[k] * byUid[uids[k]] >= 0.0 && (rewards[k] * byUid[uids[k]] > 0.0 <==> rewards[k] > 0.0)
    {
      ProductSigns(rewards[k], byUid[uids[k]]);
    }
  }

  /**
   In every regular batch without negative rewards: the rescaling factor exists if and
   only if some reward is not zero, and then total and time-scaled total are positive.
   */
  lemma ScaledExactly(
    shape: Shape, uids: seq<Uid>, responses: seq<Response>, rewards: seq<real>, sizes: seq<real>)
    requires Regular(shape, uids, responses, rewards, sizes) && NoneNegative(rewards)
    ensures ScaleRewards(shape, uids, responses, rewards, sizes).Ok? <==>
            exists k :: 0 <= k < |rewards| && rewards[k] != 0.0
    ensures ScaleRewards(shape, uids, responses, rewards, sizes).Ok? ==>
              SameSign(Sum(rewards), Sum(TimeScaledRewards(shape, uids, responses, rewards, sizes)))
  {
    var byUid := NormalizedTimes(shape, uids, responses, sizes);
    var scaled := TimeScaled(uids, rewards, byUid);
    NormalizedPositive(shape, uids, responses, rewards, sizes);
    TimeScaledSigns(uids, rewards, byUid);
    SumNonNegative(scaled);
    SumNonNegative(rewards);
    if k :| 0 <= k < |rewards| && rewards[k] != 0.0 {
      assert scaled[k] > 0.0;
    } else {
      SumOfZeros(scaled);
    }
  }

  /** What `scale_rewards` divides a time by, for its own size. */
  function PerUnit(shape: Shape, responses: seq<Response>, sizes: seq<real>, i: nat): real
    requires i < |responses| && LengthsFit(sizes, |responses|) && SizesUsable(shape, sizes)
  {
    TimeOfUid(responses, i) / shape.log(Broadcast(sizes, |responses|, i))
  }

  /** The time of response i, k-th in the order of time, meets its own size. */
  predicate MeetsOwnSize(shape: Shape, responses: seq<Response>, sizes: seq<real>, i: nat, k: nat)
    requires i < |responses| && k < |responses| && LengthsFit(sizes, |responses|)
  {
    TimeOfUid(responses, i) == 0.0 ||
    shape.log(Broadcast(sizes, |responses|, k)) == shape.log(Broadcast(sizes, |responses|, i))
  }

  /**
   In a regular batch without negative rewards, where both times meet their own sizes: of
   two equal positive rewards the one that was faster per unit of data becomes larger, and
   only that one. Whether a time meets its own size shows in times and sizes alone.
   */
  lemma FasterPerUnitGetsMore(
    shape: Shape, uids: seq<Uid>, responses: seq<Response>, rewards: seq<real>, sizes: seq<real>,
    i: nat, k: nat, j: nat, l: nat)
    requires Regular(shape, uids, responses, rewards, sizes) && AllDistinct(uids) && NoneNegative(rewards)
    requires ComesAt(uids, responses, i, k) && ComesAt(uids, responses, j, l) && rewards[i] == rewards[j] > 0.0
    requires MeetsOwnSize(shape, responses, sizes, i, k) && MeetsOwnSize(shape, responses, sizes, j, l)
    ensures var r := ScaleRewards(shape, uids, responses, rewards, sizes);
            r.Ok? &&
            (r.value[i] > r.value[j] <==> PerUnit(shape, responses, sizes, i) < PerUnit(shape, responses, sizes, j))
  {
    SizesMeetTimesExactly(shape, uids, responses, sizes, i, k);
    SizesMeetTimesExactly(shape, uids, responses, sizes, j, l);
    OrderExactly(shape, uids, responses, rewards, sizes, i, k, j, l);
    ScaledExactly(shape, uids, responses, rewards, sizes);
  }

  predicate EqualSizes(sizes: seq<real>, size: real) {
    sizes != [] && forall i :: 0 <= i < |sizes| ==> sizes[i] == size
  }

  lemma EqualSizesMean(
    shape: Shape, uids: seq<Uid>, responses: seq<Response>, rewards: seq<real>, sizes: seq<real>, size: real,
    i: nat, k: nat, j: nat, l: nat)
    requires Regular(shape, uids, responses, rewards, sizes) && AllDistinct(uids) && EqualSizes(sizes, size)
    requires ComesAt(uids, responses, i, k) && ComesAt(uids, responses, j, l)
    ensures var times := SortedUnitTimes(shape, uids, responses, sizes);
            times[k] < times[l] <==> TimeOfUid(responses, i) < TimeOfUid(responses, j)
  {
    SizesMeetTimesExactly(shape, uids, responses, sizes, i, k);
    SizesMeetTimesExactly(shape, uids, responses, sizes, j, l);
    LogPositive(shape, sizes, |uids|, k);
    assert Broadcast(sizes, |uids|, k) == Broadcast(sizes, |uids|, l) == size;
    QuotientOrder(TimeOfUid(responses, i), TimeOfUid(responses, j), shape.log(size));
  }

  /**
   For equal data sizes and any rewards, negative ones included: of two miners with equal
   positive rewards the faster gets strictly more if and only if the total and the
   time-scaled total have one sign. Without negative rewards they always have.
   */
  lemma FasterGetsMore(
    shape: Shape, uids: seq<Uid>, responses: seq<Response>, rewards: seq<real>, sizes: seq<real>, size: real,
    i: nat, j: nat)
    requires Regular(shape, uids, responses, rewards, sizes) && AllDistinct(uids) && EqualSizes(sizes, size)
    requires i < |uids| && j < |uids| && rewards[i] == rewards[j] > 0.0
    requires TimeOfUid(responses, i) < TimeOfUid(responses, j)
    ensures var r := ScaleRewards(shape, uids, responses, rewards, sizes);
            var R, S := Sum(rewards), Sum(TimeScaledRewards(shape, uids, responses, rewards, sizes));
            && (r.Ok? <==> S != 0.0)
            && (r.Ok? ==> (r.value[i] > r.value[j] <==> SameSign(R, S)))
            && (NoneNegative(rewards) ==> r.Ok? && SameSign(R, S))
  {
    var k := SomewhereInOrder(uids, responses, i);
    var l := SomewhereInOrder(uids, responses, j);
    OrderExactly(shape, uids, responses, rewards, sizes, i, k, j, l);
    EqualSizesMean(shape, uids, responses, rewards, sizes, size, i, k, j, l);
    EqualSizesMean(shape, uids, responses, rewards, sizes, size, j, l, i, k);
    if NoneNegative(rewards) {
      ScaledExactly(shape, uids, responses, rewards, sizes);
    }
  }

  lemma FasterExactly(
    shape: Shape, uids: seq<Uid>, responses: seq<Response>, rewards: seq<real>, sizes: seq<real>, size: real,
    i: nat, j: nat)
    requires Regular(shape, uids, responses, rewards, sizes) && AllDistinct(uids) && EqualSizes(sizes, size)
    requires NoneNegative(rewards) && i < |uids| && j < |uids| && rewards[i] == rewards[j] > 0.0
    ensures var r := ScaleRewards(shape, uids, responses, rewards, sizes);
            r.Ok? && (r.value[i] > r.value[j] <==> TimeOfUid(responses, i) < TimeOfUid(responses, j))
  {
    var k := SomewhereInOrder(uids, responses, i);
    var l := SomewhereInOrder(uids, responses, j);
    OrderExactly(shape, uids, responses, rewards, sizes, i, k, j, l);
    EqualSizesMean(shape, uids, responses, rewards, sizes, size, i, k, j, l);
    ScaledExactly(shape, uids, responses, rewards, sizes);
  }

  /** Some measured time is larger. */
  predicate SomeoneSlower(responses: seq<Response>, time: real) {
    exists p :: 0 <= p < |responses| && responses[p].processTime.Some? && responses[p].processTime.value > time
  }

  /**
   For equal sizes and equal positive rewards in a batch without negative ones, by the
   measured times alone: of two miners that answered, one gets more exactly when it was
   faster; one that answered gets more than a silent one exactly when somebody was slower
   still; and a silent one never gets more than one that answered.
   */
  lemma AnswersGetMore(
    shape: Shape, uids: seq<Uid>, responses: seq<Response>, rewards: seq<real>, sizes: seq<real>, size: real,
    i: nat, j: nat)
    requires Regular(shape, uids, responses, rewards, sizes) && AllDistinct(uids) && EqualSizes(sizes, size)
    requires NoneNegative(rewards) && i < |uids| && j < |uids| && rewards[i] == rewards[j] > 0.0
    requires responses[i].processTime.Some?
    ensures ScaleRewards(shape, uids, responses, rewards, sizes).Ok?
    ensures var r, t := ScaleRewards(shape, uids, responses, rewards, sizes).value, responses[i].processTime.value;
            match responses[j].processTime
            case Some(t') => r[i] > r[j] <==> t < t'
            case None => r[i] >= r[j] && (r[i] > r[j] <==> SomeoneSlower(responses, t))
  {
    FasterExactly(shape, uids, responses, rewards, sizes, size, i, j);
    FasterExactly(shape, uids, responses, rewards, sizes, size, j, i);
    MaxTimeExactly(responses);
  }

  /** For equal data sizes, equal times and equal positive rewards give equal scaled rewards, whenever scaling works. */
  lemma EqualTimesGetEqual(
    shape: Shape, uids: seq<Uid>, responses: seq<Response>, rewards: seq<real>, sizes: seq<real>, size: real,
    i: nat, j: nat)
    requires Regular(shape, uids, responses, rewards, sizes) && AllDistinct(uids) && EqualSizes(sizes, size)
    requires i < |uids| && j < |uids| && rewards[i] == rewards[j] > 0.0
    requires TimeOfUid(responses, i) == TimeOfUid(responses, j)
    ensures var r := ScaleRewards(shape, uids, responses, rewards, sizes);
            r.Ok? ==> r.value[i] == r.value[j]
  {
    var k := SomewhereInOrder(uids, responses, i);
    var l := SomewhereInOrder(uids, responses, j);
    EqualSizesMean(shape, uids, responses, rewards, sizes, size, i, k, j, l);
    EqualSizesMean(shape, uids, responses, rewards, sizes, size, j, l, i, k);
    OrderExactly(shape, uids, responses, rewards, sizes, i, k, j, l);
    OrderExactly(shape, uids, responses, rewards, sizes, j, l, i, k);
  }

  /**
   A miner that is better per unit of data can get strictly less: here uid 0 needs 2 for
   the large size and uid 1 needs 1 for the small one, and each meets the other's size.
   */
  lemma SizesMeetWrongTimes(shape: Shape, large: real, small: real)
    requires shape.Valid() && small > 0.0 && large > 0.0 && shape.log(large) > 2.0 * shape.log(small)
    ensures var responses := [Response(Some(2.0)), Response(Some(1.0))];
            var r := ScaleRewards(shape, [0, 1], responses, [1.0, 1.0], [large, small]);
            && PerUnit(shape, responses, [large, small], 0) < PerUnit(shape, responses, [large, small], 1)
            && r.Ok? && r.value[0] < r.value[1]
  {
    var responses := [Response(Some(2.0)), Response(Some(1.0))];
    var sizes, rewards, uids := [large, small], [1.0, 1.0], [0, 1];
    var a, b := shape.log(large), shape.log(small);
    assert a > 0.0 && b > 0.0;
    assert responses[..1] == [Response(Some(2.0))] && MaxTime(responses) == 2.0;
    TwoSorted(responses, MaxTime(responses));
    SizesMeetTimesExactly(shape, uids, responses, sizes, 0, 1);
    SizesMeetTimesExactly(shape, uids, responses, sizes, 1, 0);
    assert Broadcast(sizes, 2, 0) == large && Broadcast(sizes, 2, 1) == small;
    QuotientsOrdered(a, b);
    OrderExactly(shape, uids, responses, rewards, sizes, 1, 0, 0, 1);
    ScaledExactly(shape, uids, responses, rewards, sizes);
    assert rewards[0] != 0.0;
  }

  lemma TwoSorted(responses: seq<Response>, maxTime: real)
    requires responses == [Response(Some(2.0)), Response(Some(1.0))]
    ensures SortByTime(Pairs([0, 1], responses, maxTime)) == [Timed(1, 1.0), Timed(0, 2.0)]
  {
    var first := [Timed(0, 2.0)];
    assert Pairs([0, 1], responses, maxTime) == [Timed(0, 2.0), Timed(1, 1.0)];
    assert [Timed(0, 2.0), Timed(1, 1.0)][..1] == first;
    assert first[..0] == [];
    assert SortByTime(first) == first;
    assert InsertByTime(first, Timed(1, 1.0)) == [Timed(1, 1.0)] + first;
  }

  lemma QuotientsOrdered(a: real, b: real)
    requires b > 0.0 && a > 2.0 * b
    ensures 2.0 / a < 1.0 / b && 1.0 / a < 2.0 / b
  {
    var x, y := 1.0 / a, 1.0 / b;
    assert x * a == 1.0 && y * b == 1.0;
    ProductOrder(2.0 * x, y, a * b);
    assert 2.0 * x * (a * b) == 2.0 * b;
    assert y * (a * b) == a;
    assert 2.0 / a == 2.0 * x && 2.0 / b == 2.0 * y;
  }
}
