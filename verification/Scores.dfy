/**
 Folding scaled rewards into the moving average (storage/validator/reward.py), one batch
 after another, over exact reals with an explicit not-a-number.
 */
module Scores {
  import opened Arithmetic
  import opened Reward
  import opened Sequences
  import opened Weights
  import opened Wrappers

  const ALPHA := 0.05

  function Blend(old': real, reward: real): real {
    ALPHA * reward + (1.0 - ALPHA) * old'
  }

  /** A score that is no number stays none; a reward that is no number makes the score none. */
  function BlendScore(old': Score, reward: Score): Score {
    if old'.NaN? || reward.NaN? then NaN else Num(Blend(old'.value, reward.value))
  }

  /** The rewards to scatter: numbers, or, when the rescaling factor is none, none at all. */
  function Scattering(scaled: Result<seq<real>>, n: nat): (r: seq<Score>)
    requires scaled.Ok? ==> |scaled.value| == n
    ensures |r| == n
  {
    seq(n, i requires 0 <= i < n => if scaled.Ok? then Num(scaled.value[i]) else NaN)
  }

  predicate InRange(uids: seq<Uid>, n: nat) {
    forall i :: 0 <= i < |uids| ==> uids[i] < n
  }

  /** `scatter`: the scores with those at the uids replaced, in turn. */
  function Scattered(scores: seq<Score>, uids: seq<Uid>, rewards: seq<Score>): (r: seq<Score>)
    requires |uids| == |rewards| && InRange(uids, |scores|)
    ensures |r| == |scores|
  {
    if uids == [] then scores
    else
      var n := |uids| - 1;
      Scattered(scores, uids[..n], rewards[..n])[uids[n] := rewards[n]]
  }

  function Averaged(scores: seq<Score>, scattered: seq<Score>): (r: seq<Score>)
    requires |scores| == |scattered|
    ensures |r| == |scores|
  {
    seq(|scores|, u requires 0 <= u < |scores| => BlendScore(scores[u], scattered[u]))
  }

  // ---------- One batch ----------

  datatype Batch = Batch(uids: seq<Uid>, responses: seq<Response>, rewards: seq<real>, sizes: seq<real>) {
    predicate Matched(shape: Shape) {
      |uids| == |responses| == |rewards| && SizesUsable(shape, sizes)
    }

    function Scaled(shape: Shape): Result<seq<real>>
      requires Matched(shape)
    {
      ScaleRewards(shape, uids, responses, rewards, sizes)
    }

    /** What stops `apply_reward_scores` on n scores: sizes that do not broadcast, or a uid out of range. */
    function Problem(n: nat): Option<Error> {
      if uids != [] && !LengthsFit(sizes, |uids|) then Some(ValueError)
      else if !InRange(uids, n) then Some(IndexError)
      else None
    }
  }

  function AfterBatch(shape: Shape, scores: seq<Score>, b: Batch): (r: seq<Score>)
    requires b.Matched(shape)
    ensures |r| == |scores|
  {
    if b.Problem(|scores|).Some? then scores
    else Averaged(scores, Scattered(scores, b.uids, Scattering(b.Scaled(shape), |b.uids|)))
  }

  /** The validator's `moving_averaged_scores`. */
  class MovingAverage {
    var scores: seq<Score>

    constructor (n: nat)
      ensures scores == seq(n, _ => Num(0.0))
    {
      scores := seq(n, _ => Num(0.0));
    }

    /** `apply_reward_scores` */
    method ApplyRewardScores(shape: Shape, b: Batch) returns (r: Result<()>)
      requires b.Matched(shape)
      modifies this
      ensures scores == AfterBatch(shape, old(scores), b)
      ensures r == if b.uids != [] && |b.sizes| != |b.uids| && |b.sizes| != 1 then Err(ValueError)
                   else if exists i :: 0 <= i < |b.uids| && b.uids[i] >= |old(scores)| then Err(IndexError)
                   else Ok(())
      ensures r.Err? <==> b.Problem(|old(scores)|).Some?
    {
      var scaled := ScaleRewards(shape, b.uids, b.responses, b.rewards, b.sizes);
      if b.uids != [] && !LengthsFit(b.sizes, |b.uids|) {
        return Err(ValueError);
      }
      var scattered := Scatter(scores, b.uids, Scattering(scaled, |b.uids|));
      if scattered.Err? {
        return Err(scattered.error);
      }
      scores := Averaged(scores, scattered.value);
      return Ok(());
    }
  }

  /** `scatter`, one index after another; an index out of range is refused. */
  method Scatter(scores: seq<Score>, uids: seq<Uid>, rewards: seq<Score>) returns (r: Result<seq<Score>>)
    requires |uids| == |rewards|
    ensures r == if InRange(uids, |scores|) then Ok(Scattered(scores, uids, rewards)) else Err(IndexError)
  {
    var scattered := scores;
    for i := 0 to |uids|
      invariant InRange(uids[..i], |scores|)
      invariant scattered == Scattered(scores, uids[..i], rewards[..i])
    {
      if uids[i] >= |scores| {
        return Err(IndexError);
      }
      TakeNext(uids, i);
      TakeNext(rewards, i);
      scattered := scattered[uids[i] := rewards[i]];
    }
    TakeAll(uids);
    TakeAll(rewards);
    return Ok(scattered);
  }

  // ---------- Who moves, and where ----------

  lemma {:induction false} ScatteredElsewhere(scores: seq<Score>, uids: seq<Uid>, rewards: seq<Score>, u: Uid)
    requires |uids| == |rewards| && InRange(uids, |scores|) && u < |scores| && u !in uids
    ensures Scattered(scores, uids, rewards)[u] == scores[u]
  {
    if uids != [] {
      var n := |uids| - 1;
      ScatteredElsewhere(scores, uids[..n], rewards[..n], u);
    }
  }

  lemma {:induction false} ScatteredThere(scores: seq<Score>, uids: seq<Uid>, rewards: seq<Score>, k: nat)
    requires |uids| == |rewards| && InRange(uids, |scores|)
    requires k < |uids| && forall i :: k < i < |uids| ==> uids[i] != uids[k]
    ensures Scattered(scores, uids, rewards)[uids[k]] == rewards[k]
  {
    var n := |uids| - 1;
    if k < n {
      ScatteredThere(scores, uids[..n], rewards[..n], k);
    }
  }

  /** A batch that does not ask a uid, or that is refused, leaves its score. */
  lemma UnqueriedUnchanged(shape: Shape, scores: seq<Score>, b: Batch, u: Uid)
    requires b.Matched(shape) && u < |scores| && (b.Problem(|scores|).Some? || u !in b.uids)
    ensures AfterBatch(shape, scores, b)[u] == scores[u]
  {
    if b.Problem(|scores|).None? {
      ScatteredElsewhere(scores, b.uids, Scattering(b.Scaled(shape), |b.uids|), u);
      if scores[u].Num? {
        assert Blend(scores[u].value, scores[u].value) == scores[u].value;
      }
    }
  }

  /** In a batch of distinct uids each moves by the blend with its scaled reward, which is none when scaling fails. */
  lemma QueriedBlends(shape: Shape, scores: seq<Score>, b: Batch, k: nat)
    requires b.Matched(shape) && b.Problem(|scores|).None? && k < |b.uids| && AllDistinct(b.uids)
    ensures var u := b.uids[k];
            AfterBatch(shape, scores, b)[u] ==
            BlendScore(scores[u], if b.Scaled(shape).Ok? then Num(b.Scaled(shape).value[k]) else NaN)
  {
    ScatteredThere(scores, b.uids, Scattering(b.Scaled(shape), |b.uids|), k);
  }

  // ---------- Batches without reward ----------

  lemma ZeroBatchHasNoFactor(shape: Shape, b: Batch)
    requires b.Matched(shape) && b.uids != [] && LengthsFit(b.sizes, |b.uids|)
    requires forall i :: 0 <= i < |b.rewards| ==> b.rewards[i] == 0.0
    ensures b.Scaled(shape) == Err(ZeroDivisionError)
  {
    var byUid := NormalizedTimes(shape, b.uids, b.responses, b.sizes);
    ZeroTimesAnything(b.uids, b.rewards, byUid);
    SumOfZeros(TimeScaled(b.uids, b.rewards, byUid));
  }

  lemma ZeroTimesAnything(uids: seq<Uid>, rewards: seq<real>, byUid: map<Uid, real>)
    requires |uids| == |rewards| && forall i :: 0 <= i < |uids| ==> uids[i] in byUid
    requires forall i :: 0 <= i < |rewards| ==> rewards[i] == 0.0
    ensures forall i :: 0 <= i < |uids| ==> TimeScaled(uids, rewards, byUid)[i] == 0.0
  {
  }

  /**
   A batch in which every reward is zero has no rescaling factor, whatever its times and
   sizes: the scores of its distinct uids become no number, and weigh nothing.
   */
  lemma ZeroBatchLosesScores(shape: Shape, scores: seq<Score>, b: Batch, k: nat, minimum: real)
    requires b.Matched(shape) && b.Problem(|scores|).None? && k < |b.uids| && AllDistinct(b.uids)
    requires forall i :: 0 <= i < |b.rewards| ==> b.rewards[i] == 0.0
    ensures var after := AfterBatch(shape, scores, b);
            after[b.uids[k]] == NaN && WeightsOf(after, minimum)[b.uids[k]] == 0.0
  {
    ZeroBatchHasNoFactor(shape, b);
    QueriedBlends(shape, scores, b, k);
    BadScoresWeighNothing(AfterBatch(shape, scores, b), minimum, b.uids[k]);
  }

  /**
   In a regular batch without negative rewards a score that is asked for is lost if and
   only if it was lost before or every reward of the batch is zero.
   */
  lemma ScoreLostExactly(shape: Shape, scores: seq<Score>, b: Batch, k: nat)
    requires b.Matched(shape) && b.Problem(|scores|).None? && k < |b.uids| && AllDistinct(b.uids)
    requires Regular(shape, b.uids, b.responses, b.rewards, b.sizes) && NoneNegative(b.rewards)
    ensures AfterBatch(shape, scores, b)[b.uids[k]].NaN? <==>
            scores[b.uids[k]].NaN? || forall i :: 0 <= i < |b.rewards| ==> b.rewards[i] == 0.0
  {
    QueriedBlends(shape, scores, b, k);
    ScaledExactly(shape, b.uids, b.responses, b.rewards, b.sizes);
  }

  // ---------- Runs ----------

  predicate AllMatched(shape: Shape, batches: seq<Batch>) {
    forall i :: 0 <= i < |batches| ==> batches[i].Matched(shape)
  }

  /** The scores after one batch after another. */
  function ScoresAfter(shape: Shape, scores: seq<Score>, batches: seq<Batch>): (r: seq<Score>)
    requires AllMatched(shape, batches)
    ensures |r| == |scores|
  {
    if batches == [] then scores
    else
      var n := |batches| - 1;
      AfterBatch(shape, ScoresAfter(shape, scores, batches[..n]), batches[n])
  }

  lemma BatchKeepsLost(shape: Shape, scores: seq<Score>, b: Batch, u: Uid)
    requires b.Matched(shape) && u < |scores| && scores[u].NaN?
    ensures AfterBatch(shape, scores, b)[u].NaN?
  {
  }

  /** A score that is no number is none after every run of batches. */
  lemma {:induction false} LostScoreStaysLost(shape: Shape, scores: seq<Score>, batches: seq<Batch>, u: Uid)
    requires AllMatched(shape, batches) && u < |scores| && scores[u].NaN?
    ensures ScoresAfter(shape, scores, batches)[u].NaN?
  {
    if batches != [] {
      var n := |batches| - 1;
      LostScoreStaysLost(shape, scores, batches[..n], u);
      BatchKeepsLost(shape, ScoresAfter(shape, scores, batches[..n]), batches[n], u);
    }
  }

  function Power(x: real, m: nat): real {
    if m == 0 then 1.0 else x * Power(x, m - 1)
  }

  /** The batch is applied and gives the uid this scaled reward. */
  predicate Gives(shape: Shape, b: Batch, n: nat, u: Uid, reward: real)
    requires b.Matched(shape)
  {
    && b.Problem(n).None? && AllDistinct(b.uids) && b.Scaled(shape).Ok?
    && exists k :: 0 <= k < |b.uids| && b.uids[k] == u && b.Scaled(shape).value[k] == reward
  }

  predicate Asks(b: Batch, n: nat, u: Uid) {
    b.Problem(n).None? && u in b.uids
  }

  /** In how many of the batches the uid is asked and its batch applied. */
  function TimesAsked(batches: seq<Batch>, n: nat, u: Uid): nat {
    if batches == [] then 0
    else TimesAsked(batches[..|batches| - 1], n, u) + if Asks(batches[|batches| - 1], n, u) then 1 else 0
  }

  /** The score after m blends with one reward, from a given distance to it. */
  function Approached(reward: real, distance: real, m: nat): real {
    reward + Power(0.95, m) * distance
  }

  lemma BlendApproaches(reward: real, distance: real, m: nat)
    ensures Blend(Approached(reward, distance, m), reward) == Approached(reward, distance, m + 1)
  {
    var p := Power(0.95, m);
    assert Power(0.95, m + 1) == 0.95 * p;
    BlendOf(reward, p, distance);
  }

  lemma BlendOf(reward: real, p: real, distance: real)
    ensures ALPHA * reward + (1.0 - ALPHA) * (reward + p * distance) == reward + 0.95 * p * distance
  {
    var x := p * distance;
    assert 0.95 * p * distance == 0.95 * x;
  }

  lemma GivenBlends(shape: Shape, scores: seq<Score>, b: Batch, u: Uid, reward: real)
    requires b.Matched(shape) && u < |scores| && Gives(shape, b, |scores|, u, reward)
    ensures AfterBatch(shape, scores, b)[u] == BlendScore(scores[u], Num(reward))
  {
    var k :| 0 <= k < |b.uids| && b.uids[k] == u && b.Scaled(shape).value[k] == reward;
    QueriedBlends(shape, scores, b, k);
  }

  lemma ApproachesOnce(
    shape: Shape, scores: seq<Score>, b: Batch, u: Uid, reward: real, distance: real, m: nat)
    requires b.Matched(shape) && u < |scores| && scores[u] == Num(Approached(reward, distance, m))
    requires Asks(b, |scores|, u) ==> Gives(shape, b, |scores|, u, reward)
    ensures AfterBatch(shape, scores, b)[u]
         == Num(Approached(reward, distance, if Asks(b, |scores|, u) then m + 1 else m))
  {
    if Asks(b, |scores|, u) {
      GivenBlends(shape, scores, b, u, reward);
      BlendApproaches(reward, distance, m);
    } else {
      UnqueriedUnchanged(shape, scores, b, u);
    }
  }

  /**
   Over every run of batches in which a uid is given one and the same scaled reward each
   time it is asked: after m such batches, however many others lie between, the distance
   of its score to that reward is 0.95 to the m of what it was.
   */
  lemma {:induction false} ApproachesReward(
    shape: Shape, scores: seq<Score>, batches: seq<Batch>, u: Uid, score: real, reward: real)
    requires AllMatched(shape, batches) && u < |scores| && scores[u] == Num(score)
    requires forall i :: 0 <= i < |batches| && Asks(batches[i], |scores|, u) ==>
               Gives(shape, batches[i], |scores|, u, reward)
    ensures ScoresAfter(shape, scores, batches)[u]
         == Num(Approached(reward, score - reward, TimesAsked(batches, |scores|, u)))
  {
    if batches != [] {
      var n := |batches| - 1;
      var b, before := batches[n], ScoresAfter(shape, scores, batches[..n]);
      ApproachesReward(shape, scores, batches[..n], u, score, reward);
      ApproachesOnce(shape, before, b, u, reward, score - reward, TimesAsked(batches[..n], |scores|, u));
    }
  }
}
