/**
 From moving-average scores to weights (storage/validator/weights.py, before the
 chain's own processing), over exact reals with an explicit not-a-number.
 */
module Weights {
  import opened Arithmetic
  import opened Wrappers

  datatype Score = NaN | Num(value: real)

  /** The floor below which `normalize` does not divide. */
  const FLOOR := 0.000000000001

  function Abs(x: real): real {
    if x >= 0.0 then x else -x
  }

  function AbsSum(s: seq<real>): real {
    if s == [] then 0.0 else AbsSum(s[..|s| - 1]) + Abs(s[|s| - 1])
  }

  /** `torch.nn.functional.normalize(p=1)` */
  function Normalized(s: seq<real>): seq<real> {
    var norm := if AbsSum(s) >= FLOOR then AbsSum(s) else FLOOR;
    seq(|s|, i requires 0 <= i < |s| => s[i] / norm)
  }

  function Clean(x: Score): real {
    if x.NaN? then 0.0 else x.value
  }

  // ---------- What the transformation computes ----------

  /** After cleaning: not-a-numbers and negative scores give zero, others are shifted by a negative minimum. */
  function Shifted(x: Score, minimum: real): real {
    if x.NaN? || x.value < 0.0 then 0.0
    else if minimum < 0.0 then x.value - minimum
    else x.value
  }

  predicate IsMinimum(scores: seq<Score>, minimum: real) {
    && (exists i :: 0 <= i < |scores| && Clean(scores[i]) == minimum)
    && (forall i :: 0 <= i < |scores| ==> minimum <= Clean(scores[i]))
  }

  /** `min` of the cleaned scores. */
  function MinClean(scores: seq<Score>): real
    requires scores != []
  {
    var last := Clean(scores[|scores| - 1]);
    if |scores| == 1 then last
    else
      var m := MinClean(scores[..|scores| - 1]);
      if last < m then last else m
  }

  lemma {:induction false} MinCleanIsMinimum(scores: seq<Score>)
    requires scores != []
    ensures IsMinimum(scores, MinClean(scores))
  {
    var n := |scores| - 1;
    if n > 0 {
      MinCleanIsMinimum(scores[..n]);
      var i :| 0 <= i < n && Clean(scores[..n][i]) == MinClean(scores[..n]);
      assert Clean(scores[i]) == MinClean(scores[..n]);
      assert forall j :: 0 <= j < n ==> scores[..n][j] == scores[j];
    }
    assert Clean(scores[n]) == Clean(scores[n]);
  }

  function ShiftedAll(scores: seq<Score>, minimum: real): (r: seq<real>)
    ensures |r| == |scores|
  {
    seq(|scores|, i requires 0 <= i < |scores| => Shifted(scores[i], minimum))
  }

  function WeightsOf(scores: seq<Score>, minimum: real): (w: seq<real>)
    ensures |w| == |scores|
  {
    var positive := ShiftedAll(scores, minimum);
    if Sum(positive) > 0.0 then Normalized(positive) else seq(|scores|, _ => 0.0)
  }

  /**
   The score-to-weight part of `set_weights_for_validator`: the tensor is overwritten
   at one index set after another, then normalised.
   */
  method RawWeights(scores: seq<Score>) returns (r: Result<seq<real>>)
    ensures r == if scores == [] then Err(ValueError) else Ok(WeightsOf(scores, MinClean(scores)))
  {
    if |scores| == 0 {
      return Err(ValueError);
    }
    var n := |scores|;
    var values := new real[n];
    for i := 0 to n
      invariant forall j :: 0 <= j < i ==> values[j] == Clean(scores[j])
    {
      values[i] := if scores[i].NaN? then 0.0 else scores[i].value;
    }
    var least := FindMinimum(values[..]);
    MinCleanIsMinimum(scores);
    assert least == MinClean(scores) by {
      var i :| 0 <= i < n && values[..][i] == least;
      assert Clean(scores[i]) == least;
      var j :| 0 <= j < n && Clean(scores[j]) == MinClean(scores);
      assert values[..][j] == MinClean(scores);
    }
    OverwriteNaN(values, scores, least);
    if least < 0.0 {
      Shift(values, least);
    }
    ghost var shifted := values[..];
    ZeroNegative(values, scores, least);
    var positive := values[..];
    assert positive == ShiftedAll(scores, least);
    var sumScores := Sum(positive);
    if sumScores > 0.0 {
      r := Ok(Normalized(positive));
    } else {
      r := Ok(seq(n, _ => 0.0));
    }
  }

  method FindMinimum(values: seq<real>) returns (least: real)
    requires values != []
    ensures exists i :: 0 <= i < |values| && values[i] == least
    ensures forall i :: 0 <= i < |values| ==> least <= values[i]
  {
    least := values[0];
    for i := 1 to |values|
      invariant exists j :: 0 <= j < i && values[j] == least
      invariant forall j :: 0 <= j < i ==> least <= values[j]
    {
      if values[i] < least {
        least := values[i];
      }
    }
  }

  /** Not-a-number positions take the minimum. */
  method OverwriteNaN(values: array<real>, scores: seq<Score>, least: real)
    requires values.Length == |scores|
    modifies values
    ensures forall j :: 0 <= j < |scores| ==> values[j] == if scores[j].NaN? then least else old(values[j])
  {
    for i := 0 to |scores|
      invariant forall j :: 0 <= j < |scores| ==>
                  values[j] == if j < i && scores[j].NaN? then least else old(values[j])
    {
      if scores[i].NaN? {
        values[i] := least;
      }
    }
  }

  /** Subtract the minimum everywhere. */
  method Shift(values: array<real>, least: real)
    modifies values
    ensures forall j :: 0 <= j < values.Length ==> values[j] == old(values[j]) - least
  {
    for i := 0 to values.Length
      invariant forall j :: 0 <= j < values.Length ==> values[j] == if j < i then old(values[j]) - least else old(values[j])
    {
      values[i] := values[i] - least;
    }
  }

  /** Positions whose score was negative become zero. */
  method ZeroNegative(values: array<real>, scores: seq<Score>, least: real)
    requires values.Length == |scores|
    modifies values
    ensures forall j :: 0 <= j < |scores| ==> values[j] == if Clean(scores[j]) < 0.0 then 0.0 else old(values[j])
  {
    for i := 0 to |scores|
      invariant forall j :: 0 <= j < |scores| ==>
                  values[j] == if j < i && Clean(scores[j]) < 0.0 then 0.0 else old(values[j])
    {
      if Clean(scores[i]) < 0.0 {
        values[i] := 0.0;
      }
    }
  }

  // ---------- What is promised of the weights ----------

  predicate NonNegative(s: seq<real>) {
    forall i :: 0 <= i < |s| ==> s[i] >= 0.0
  }

  lemma {:induction false} AbsSumOfNonNegative(s: seq<real>)
    requires NonNegative(s)
    ensures AbsSum(s) == Sum(s) && Sum(s) >= 0.0
    ensures forall i :: 0 <= i < |s| ==> s[i] <= Sum(s)
  {
    if s != [] {
      AbsSumOfNonNegative(s[..|s| - 1]);
      assert forall i :: 0 <= i < |s| - 1 ==> s[..|s| - 1][i] == s[i];
    }
  }

  lemma {:induction false} SumOfQuotients(s: seq<real>, d: real)
    requires d > 0.0
    ensures Sum(seq(|s|, i requires 0 <= i < |s| => s[i] / d)) == Sum(s) / d
  {
    if s == [] {
      assert 0.0 / d == 0.0;
    } else {
      var n := |s| - 1;
      var q := seq(|s|, i requires 0 <= i < |s| => s[i] / d);
      SumOfQuotients(s[..n], d);
      assert q[..n] == seq(n, i requires 0 <= i < n => s[..n][i] / d);
      assert Sum(s[..n]) / d + s[n] / d == (Sum(s[..n]) + s[n]) / d;
    }
  }

  lemma ShiftedNonNegative(scores: seq<Score>, minimum: real)
    ensures NonNegative(ShiftedAll(scores, minimum))
  {
  }

  function Norm(scores: seq<Score>, minimum: real): real {
    var total := Sum(ShiftedAll(scores, minimum));
    if total >= FLOOR then total else FLOOR
  }

  /** Each weight in closed form. */
  lemma WeightAt(scores: seq<Score>, minimum: real, i: nat)
    requires i < |scores|
    ensures Norm(scores, minimum) > 0.0
    ensures var positive := ShiftedAll(scores, minimum);
            WeightsOf(scores, minimum)[i] ==
            if Sum(positive) > 0.0 then positive[i] / Norm(scores, minimum) else 0.0
  {
    ShiftedNonNegative(scores, minimum);
    AbsSumOfNonNegative(ShiftedAll(scores, minimum));
  }

  lemma WeightsNonNegative(scores: seq<Score>, minimum: real)
    ensures NonNegative(WeightsOf(scores, minimum))
  {
    forall i | 0 <= i < |scores|
      ensures WeightsOf(scores, minimum)[i] >= 0.0
    {
      WeightAt(scores, minimum, i);
      var x := ShiftedAll(scores, minimum)[i];
      QuotientOrder(x, x, Norm(scores, minimum));
    }
  }

  lemma WeightsSum(scores: seq<Score>, minimum: real)
    ensures Norm(scores, minimum) > 0.0
    ensures var total := Sum(ShiftedAll(scores, minimum));
            Sum(WeightsOf(scores, minimum)) == if total > 0.0 then total / Norm(scores, minimum) else 0.0
  {
    var positive := ShiftedAll(scores, minimum);
    ShiftedNonNegative(scores, minimum);
    AbsSumOfNonNegative(positive);
    if Sum(positive) > 0.0 {
      SumOfQuotients(positive, Norm(scores, minimum));
    } else {
      SumOfZeros(WeightsOf(scores, minimum));
    }
  }

  /** Non-negative; the weights sum to one, or to the sum over the floor when that is smaller, or are all zero. */
  lemma WeightsAreShares(scores: seq<Score>, minimum: real)
    ensures var w, total := WeightsOf(scores, minimum), Sum(ShiftedAll(scores, minimum));
            && NonNegative(w)
            && (total >= 0.000000000001 ==> Sum(w) == 1.0)
            && (0.0 < total < 0.000000000001 ==> Sum(w) == total / 0.000000000001)
            && (total <= 0.0 ==> forall i :: 0 <= i < |w| ==> w[i] == 0.0)
  {
    WeightsNonNegative(scores, minimum);
    WeightsSum(scores, minimum);
    if Sum(ShiftedAll(scores, minimum)) >= FLOOR {
      SelfQuotient(Sum(ShiftedAll(scores, minimum)));
    }
  }

  /** Every not-a-number and every negative score weighs nothing. */
  lemma BadScoresWeighNothing(scores: seq<Score>, minimum: real, i: nat)
    requires i < |scores| && (scores[i].NaN? || scores[i].value < 0.0)
    ensures WeightsOf(scores, minimum)[i] == 0.0
  {
    WeightAt(scores, minimum, i);
    assert 0.0 / Norm(scores, minimum) == 0.0;
  }

  /** Non-negative scores keep their order, exactly, as soon as anything has weight. */
  lemma OrderPreserved(scores: seq<Score>, minimum: real, i: nat, j: nat)
    requires i < |scores| && j < |scores|
    requires scores[i].Num? && scores[j].Num? && scores[i].value >= 0.0 && scores[j].value >= 0.0
    ensures var w := WeightsOf(scores, minimum);
            && (scores[i].value <= scores[j].value ==> w[i] <= w[j])
            && (Sum(ShiftedAll(scores, minimum)) > 0.0 ==> (w[i] <= w[j] <==> scores[i].value <= scores[j].value))
  {
    WeightAt(scores, minimum, i);
    WeightAt(scores, minimum, j);
    QuotientOrder(Shifted(scores[i], minimum), Shifted(scores[j], minimum), Norm(scores, minimum));
  }

  /** A zero score weighs something exactly when some score is negative; a positive score always does. */
  lemma WhoHasWeight(scores: seq<Score>, minimum: real, i: nat)
    requires i < |scores| && IsMinimum(scores, minimum)
    ensures WeightsOf(scores, minimum)[i] > 0.0 <==>
            scores[i].Num? && (scores[i].value > 0.0 || (scores[i].value == 0.0 && minimum < 0.0))
  {
    var positive := ShiftedAll(scores, minimum);
    ShiftedNonNegative(scores, minimum);
    AbsSumOfNonNegative(positive);
    WeightAt(scores, minimum, i);
    var norm := Norm(scores, minimum);
    if positive[i] > 0.0 {
      assert positive[i] / norm > 0.0;
    } else {
      assert 0.0 / norm == 0.0;
    }
  }

  /** Two scores that are not negative share weight in the ratio of their distances to a negative minimum, or to zero. */
  lemma WeightRatio(scores: seq<Score>, minimum: real, i: nat, j: nat)
    requires i < |scores| && j < |scores|
    requires scores[i].Num? && scores[j].Num? && scores[i].value >= 0.0 && scores[j].value >= 0.0
    ensures var w, base := WeightsOf(scores, minimum), if minimum < 0.0 then minimum else 0.0;
            w[i] * (scores[j].value - base) == w[j] * (scores[i].value - base)
  {
    var base := if minimum < 0.0 then minimum else 0.0;
    var x, y, d := WeightPair(scores, minimum, i, j, scores[i].value - base, scores[j].value - base);
    CrossProduct(scores[i].value - base, scores[j].value - base, d, x, y);
  }

  lemma WeightPair(scores: seq<Score>, minimum: real, i: nat, j: nat, a: real, b: real)
    returns (x: real, y: real, d: real)
    requires i < |scores| && j < |scores| && Shifted(scores[i], minimum) == a && Shifted(scores[j], minimum) == b
    ensures d > 0.0 && x == WeightsOf(scores, minimum)[i] && y == WeightsOf(scores, minimum)[j]
    ensures (x == 0.0 && y == 0.0) || (x == a / d && y == b / d)
  {
    WeightAt(scores, minimum, i);
    WeightAt(scores, minimum, j);
    x, y, d := WeightsOf(scores, minimum)[i], WeightsOf(scores, minimum)[j], Norm(scores, minimum);
  }

  lemma CrossProduct(a: real, b: real, d: real, x: real, y: real)
    requires d > 0.0 && ((x == 0.0 && y == 0.0) || (x == a / d && y == b / d))
    ensures x * b == y * a
  {
    if x == a / d && y == b / d {
      assert x * d == a && y * d == b;
    }
  }
}
