/**
 Trust accounting (storage/validator/bonding.py): success counters, the Wilson
 score, tiers and storage limits, over exact reals.
 */
module Bonding {
  import opened Arithmetic

  // ---------- The Wilson score ----------

  const Z := 0.6744897501960817

  function Max(a: real, b: real): real {
    if a >= b then a else b
  }

  function Min(a: real, b: real): real {
    if a <= b then a else b
  }

  /** What `math.sqrt` is asked for, with success rate p over n attempts. */
  function Spread(z: real, p: real, n: real): real
    requires n > 0.0
  {
    (p * (1.0 - p) + z * z / (4.0 * n)) / n
  }

  /** The midpoint of the clamped interval, with `deviation` the square root of the spread. */
  function ClampedMidpoint(z: real, p: real, n: real, deviation: real): real
    requires n > 0.0
  {
    var denominator := 1.0 + z * z / n;
    var centre := p + z * z / (2.0 * n);
    if denominator == 0.0 then 0.0
    else
      var lower := (centre - z * deviation) / denominator;
      var upper := (centre + z * deviation) / denominator;
      (Max(0.0, lower) + Min(upper, 1.0)) / 2.0
  }

  function Radicand(successes: nat, total: nat): real
    requires total > 0
  {
    Spread(Z, successes as real / total as real, total as real)
  }

  /** `wilson_score_interval`, with the square root as a parameter. */
  function WilsonScore(sqrt: real -> real, successes: nat, total: nat): real {
    if total == 0 then 0.5
    else ClampedMidpoint(Z, successes as real / total as real, total as real, sqrt(Radicand(successes, total)))
  }

  /** The square root is right where it is asked for. */
  predicate RootsCorrect(sqrt: real -> real, successes: nat, total: nat) {
    total > 0 ==>
      var x := Radicand(successes, total);
      sqrt(x) >= 0.0 && sqrt(x) * sqrt(x) == x
  }

  function ClosedForm(successes: nat, total: nat): real {
    Shrunk(Z * Z, successes as real, total as real)
  }

  /** The success rate drawn towards one half. */
  function Shrunk(zz: real, s: real, n: real): real {
    if n + zz == 0.0 then 0.0 else (s + zz / 2.0) / (n + zz)
  }

  lemma SquaresOrder(a: real, b: real)
    requires b >= 0.0 && a * a <= b * b
    ensures a <= b
  {
    var x, y := a - b, a + b;
    assert a * a - b * b == x * y;
    if a > b {
      ProductSigns(x, y);
    }
  }

  lemma SquareNonNegative(a: real, c: real)
    requires c >= 0.0
    ensures a * a * c >= 0.0
  {
    assert a * a >= 0.0;
  }

  /** With w the scaled deviation, both ends of the interval stay between 0 and the denominator. */
  lemma ClampsNeverBite(p: real, k: real, w: real)
    requires 0.0 <= p <= 1.0 && k > 0.0 && w >= 0.0
    requires w * w == k * (p * (1.0 - p)) + k * k / 4.0
    ensures w <= p + k / 2.0 && w <= 1.0 - p + k / 2.0
  {
    var low, high := p + k / 2.0, 1.0 - p + k / 2.0;
    assert low * low == p * p + p * k + k * k / 4.0;
    assert low * low - w * w == p * p * (1.0 + k);
    SquareNonNegative(p, 1.0 + k);
    SquaresOrder(w, low);
    var q := 1.0 - p;
    assert high * high == q * q + q * k + k * k / 4.0;
    assert p == 1.0 - q;
    assert high * high - w * w == q * q * (1.0 + k);
    SquareNonNegative(q, 1.0 + k);
    SquaresOrder(w, high);
  }

  lemma ScaledDeviation(z: real, n: real, p: real, d: real)
    requires n > 0.0 && d * d == Spread(z, p, n)
    ensures var k := z * z / n;
            (z * d) * (z * d) == k * (p * (1.0 - p)) + k * k / 4.0
  {
    var k, v := z * z / n, p * (1.0 - p);
    assert z * z / (4.0 * n) == k / 4.0;
    assert (z * d) * (z * d) == z * z * (d * d);
    assert z * z * ((v + k / 4.0) / n) == k * (v + k / 4.0);
  }

  lemma QuotientInUnit(a: real, b: real)
    requires b > 0.0 && 0.0 <= a <= b
    ensures 0.0 <= a / b <= 1.0
  {
  }

  lemma SumOfQuotients(a: real, b: real, c: real)
    requires c != 0.0
    ensures (a / c + b / c) / 2.0 == ((a + b) / 2.0) / c
  {
  }

  lemma CommonFactor(a: real, b: real, n: real)
    requires b > 0.0 && n > 0.0
    ensures b * n > 0.0 && a / b == (a * n) / (b * n)
  {
    ProductSigns(b, n);
    var q := a / b;
    assert q * b == a;
    assert q * (b * n) == (q * b) * n;
    IsQuotient(q, b * n, a * n);
  }

  lemma IsQuotient(q: real, d: real, x: real)
    requires d > 0.0 && q * d == x
    ensures x / d == q
  {
  }

  lemma ScaleFraction(zz: real, s: real, n: real)
    requires n > 0.0 && zz > 0.0
    ensures 1.0 + zz / n > 0.0
    ensures (s / n + zz / n / 2.0) / (1.0 + zz / n) == Shrunk(zz, s, n)
  {
    var a, b := s / n + zz / n / 2.0, 1.0 + zz / n;
    assert zz / n > 0.0;
    assert a * n == s + zz / 2.0;
    assert b * n == n + zz;
    CommonFactor(a, b, n);
  }

  lemma RateInUnit(s: real, n: real)
    requires n > 0.0 && 0.0 <= s <= n
    ensures 0.0 <= s / n <= 1.0
  {
    QuotientInUnit(s, n);
  }

  lemma HalfQuotient(a: real, n: real)
    requires n > 0.0
    ensures a / (2.0 * n) == a / n / 2.0
  {
  }

  lemma MidpointIsShrunk(z: real, zz: real, s: real, n: real, d: real)
    requires z > 0.0 && zz == z * z && zz > 0.0 && n > 0.0 && 0.0 <= s <= n && d >= 0.0 && d * d == Spread(z, s / n, n)
    ensures ClampedMidpoint(z, s / n, n, d) == Shrunk(zz, s, n)
  {
    var p, k, w := s / n, zz / n, z * d;
    PositiveQuotient(zz, n);
    RateInUnit(s, n);
    ScaledDeviation(z, n, p, d);
    assert w >= 0.0;
    ClampsNeverBite(p, k, w);
    HalfQuotient(zz, n);
    UnclampedMidpoint(p + k / 2.0, w, 1.0 + k);
    ScaleFraction(zz, s, n);
  }

  lemma UnclampedMidpoint(centre: real, w: real, denominator: real)
    requires denominator > 0.0 && 0.0 <= w <= centre && centre + w <= denominator
    ensures (Max(0.0, (centre - w) / denominator) + Min((centre + w) / denominator, 1.0)) / 2.0 == centre / denominator
  {
    QuotientInUnit(centre - w, denominator);
    QuotientInUnit(centre + w, denominator);
    SumOfQuotients(centre - w, centre + w, denominator);
  }

  /** For 0 <= s <= n the clamps never bite and the square root cancels; the special case of no attempts fits too. */
  lemma WilsonIsClosedForm(sqrt: real -> real, successes: nat, total: nat)
    requires successes <= total && RootsCorrect(sqrt, successes, total)
    ensures WilsonScore(sqrt, successes, total) == ClosedForm(successes, total)
  {
    if total > 0 {
      ScoreIsShrunk(successes, total, sqrt(Radicand(successes, total)));
    }
  }

  lemma ScoreIsShrunk(successes: nat, total: nat, d: real)
    requires successes <= total && total > 0 && d >= 0.0 && d * d == Radicand(successes, total)
    ensures ClampedMidpoint(Z, successes as real / total as real, total as real, d) == ClosedForm(successes, total)
  {
    MidpointIsShrunk(Z, Z * Z, successes as real, total as real, d);
  }

  /** The closed form with its constant. */
  lemma ClosedFormExactly(successes: nat, total: nat)
    ensures var zz := 0.6744897501960817 * 0.6744897501960817;
            && total as real + zz > 0.0
            && ClosedForm(successes, total) == (successes as real + zz / 2.0) / (total as real + zz)
  {
  }

  lemma ShrunkInside(zz: real, s: real, n: real)
    requires zz > 0.0 && 0.0 <= s <= n
    ensures 0.0 < Shrunk(zz, s, n) < 1.0
  {
    QuotientOrder(0.0, s + zz / 2.0, n + zz);
    QuotientOrder(s + zz / 2.0, n + zz, n + zz);
    SelfQuotient(n + zz);
  }

  /** The score lies strictly between 0 and 1. */
  lemma ScoreStrictlyInside(successes: nat, total: nat)
    requires successes <= total
    ensures 0.0 < ClosedForm(successes, total) < 1.0
  {
    ShrunkInside(Z * Z, successes as real, total as real);
  }

  /** At fixed attempts, more successes give a strictly higher score. */
  lemma ScoreStrictlyIncreasing(successes: nat, more: nat, total: nat)
    requires successes < more
    ensures ClosedForm(successes, total) < ClosedForm(more, total)
  {
    QuotientOrder(successes as real + Z * Z / 2.0, more as real + Z * Z / 2.0, total as real + Z * Z);
  }

  // ---------- Tiers ----------

  datatype Tier = Bronze | Silver | Gold | Platinum | Diamond | Emerald | Ruby | SuperSaiyan

  function Rank(t: Tier): nat {
    match t
    case Bronze => 0
    case Silver => 1
    case Gold => 2
    case Platinum => 3
    case Diamond => 4
    case Emerald => 5
    case Ruby => 6
    case SuperSaiyan => 7
  }

  /** The thresholds of `compute_tier`, tried from the top. */
  function TierOf(score: real, totalSuccesses: int): Tier {
    if score >= 0.85 && totalSuccesses >= 15000 then SuperSaiyan
    else if score >= 0.8 && totalSuccesses >= 10000 then Ruby
    else if score >= 0.75 && totalSuccesses >= 7000 then Emerald
    else if score >= 0.7 && totalSuccesses >= 5000 then Diamond
    else if score >= 0.65 && totalSuccesses >= 3000 then Platinum
    else if score >= 0.6 && totalSuccesses >= 2000 then Gold
    else if score >= 0.55 && totalSuccesses >= 500 then Silver
    else Bronze
  }

  const TIB := 1024 * 1024 * 1024 * 1024
  const PIB := 1024 * TIB

  function LimitOf(t: Tier): nat {
    match t
    case SuperSaiyan => 50 * PIB
    case Ruby => 20 * PIB
    case Emerald => 10 * PIB
    case Diamond => 5 * PIB
    case Platinum => 1 * PIB
    case Gold => 200 * TIB
    case Silver => 50 * TIB
    case Bronze => 10 * TIB
  }

  /** Which tier a score and a total reach, tier by tier. */
  lemma TierExactly(score: real, total: int)
    ensures Rank(TierOf(score, total)) >= Rank(SuperSaiyan) <==> score >= 0.85 && total >= 15000
    ensures Rank(TierOf(score, total)) >= Rank(Ruby) <==> score >= 0.8 && total >= 10000
    ensures Rank(TierOf(score, total)) >= Rank(Emerald) <==> score >= 0.75 && total >= 7000
    ensures Rank(TierOf(score, total)) >= Rank(Diamond) <==> score >= 0.7 && total >= 5000
    ensures Rank(TierOf(score, total)) >= Rank(Platinum) <==> score >= 0.65 && total >= 3000
    ensures Rank(TierOf(score, total)) >= Rank(Gold) <==> score >= 0.6 && total >= 2000
    ensures Rank(TierOf(score, total)) >= Rank(Silver) <==> score >= 0.55 && total >= 500
    ensures forall t, t' :: Rank(t) == Rank(t') ==> t == t'
  {
  }

  /** The limits in tebibytes: 10, 50, 200, and from Platinum on 1, 5, 10, 20 and 50 times 1024. */
  lemma LimitsExactly()
    ensures LimitOf(Bronze) == 10 * 1099511627776 && LimitOf(Silver) == 50 * 1099511627776
    ensures LimitOf(Gold) == 200 * 1099511627776 && LimitOf(Platinum) == 1125899906842624
    ensures LimitOf(Diamond) == 5 * 1125899906842624 && LimitOf(Emerald) == 10 * 1125899906842624
    ensures LimitOf(Ruby) == 20 * 1125899906842624 && LimitOf(SuperSaiyan) == 50 * 1125899906842624
  {
  }

  /** A score at least as high and a total at least as large never lower the tier, nor the storage limit. */
  lemma TierMonotone(score: real, total: int, score': real, total': int)
    requires score <= score' && total <= total'
    ensures Rank(TierOf(score, total)) <= Rank(TierOf(score', total'))
    ensures LimitOf(TierOf(score, total)) <= LimitOf(TierOf(score', total'))
  {
  }

  // ---------- Statistics ----------

  datatype Counter = Counter(attempts: nat, successes: nat)

  datatype Stats = Stats(
    store: Counter, challenge: Counter, retrieve: Counter, totalSuccesses: nat, tier: Tier, storageLimit: nat)
  {
    function WindowSuccesses(): nat {
      store.successes + challenge.successes + retrieve.successes
    }

    function WindowAttempts(): nat {
      store.attempts + challenge.attempts + retrieve.attempts
    }
  }

  datatype Task = Store | Challenge | Retrieve | OtherTask

  const NO_COUNTS := Counter(0, 0)

  const NEW_MINER := Stats(NO_COUNTS, NO_COUNTS, NO_COUNTS, 0, Bronze, LimitOf(Bronze))

  function Counted(c: Counter, success: bool): Counter {
    Counter(c.attempts + 1, if success then c.successes + 1 else c.successes)
  }

  /** `update_statistics` on a registered miner: the counters of a known kind of task, the total in any case. */
  function Updated(s: Stats, task: Task, success: bool): Stats {
    var counted := match task
      case Store => s.(store := Counted(s.store, success))
      case Challenge => s.(challenge := Counted(s.challenge, success))
      case Retrieve => s.(retrieve := Counted(s.retrieve, success))
      case OtherTask => s;
    if success then counted.(totalSuccesses := counted.totalSuccesses + 1) else counted
  }

  /** `reset_storage_stats` */
  function ResetWindow(s: Stats): Stats {
    s.(store := NO_COUNTS, challenge := NO_COUNTS, retrieve := NO_COUNTS)
  }

  /** `compute_tier` */
  function Tiered(sqrt: real -> real, s: Stats): Stats {
    var tier := TierOf(WilsonScore(sqrt, s.WindowSuccesses(), s.WindowAttempts()), s.totalSuccesses);
    s.(tier := tier, storageLimit := LimitOf(tier))
  }

  type Table = map<string, Stats>

  class StatsDatabase {
    var stats: Table

    constructor ()
      ensures stats == map[]
    {
      stats := map[];
    }

    /** `register_miner` */
    method RegisterMiner(address: string)
      modifies this
      ensures stats == old(stats)[address := NEW_MINER]
    {
      stats := stats[address := NEW_MINER];
    }

    /** `update_statistics`: an unknown miner is registered first. */
    method UpdateStatistics(address: string, success: bool, task: Task)
      modifies this
      ensures stats == old(stats)[address :=
                Updated(if address in old(stats) then old(stats)[address] else NEW_MINER, task, success)]
    {
      if address !in stats {
        RegisterMiner(address);
      }
      var s := stats[address];
      match task {
        case Store =>
          s := s.(store := s.store.(attempts := s.store.attempts + 1));
          if success { s := s.(store := s.store.(successes := s.store.successes + 1)); }
        case Challenge =>
          s := s.(challenge := s.challenge.(attempts := s.challenge.attempts + 1));
          if success { s := s.(challenge := s.challenge.(successes := s.challenge.successes + 1)); }
        case Retrieve =>
          s := s.(retrieve := s.retrieve.(attempts := s.retrieve.attempts + 1));
          if success { s := s.(retrieve := s.retrieve.(successes := s.retrieve.successes + 1)); }
        case OtherTask =>
      }
      if success {
        s := s.(totalSuccesses := s.totalSuccesses + 1);
      }
      stats := stats[address := s];
    }

    /** `compute_tier`: an unknown miner is left alone; the limit is only written when it changes. */
    method ComputeTier(sqrt: real -> real, address: string)
      modifies this
      ensures stats == if address in old(stats) then old(stats)[address := Tiered(sqrt, old(stats)[address])]
                       else old(stats)
    {
      if address !in stats {
        return;
      }
      var s := stats[address];
      var attempts := s.challenge.attempts + s.retrieve.attempts + s.store.attempts;
      var successes := s.challenge.successes + s.retrieve.successes + s.store.successes;
      var tier := TierOf(WilsonScore(sqrt, successes, attempts), s.totalSuccesses);
      s := s.(tier := tier);
      var limit := LimitOf(tier);
      if s.storageLimit != limit {
        s := s.(storageLimit := limit);
      }
      stats := stats[address := s];
    }

    /** `rollover_storage_stats` */
    method Rollover()
      modifies this
      ensures stats == map a | a in old(stats) :: ResetWindow(old(stats)[a])
    {
      var keys := stats.Keys;
      while keys != {}
        invariant keys <= stats.Keys == old(stats).Keys
        invariant forall a :: a in stats ==>
                    stats[a] == if a in keys then old(stats)[a] else ResetWindow(old(stats)[a])
        decreases |keys|
      {
        var a :| a in keys;
        stats := stats[a := ResetWindow(stats[a])];
        keys := keys - {a};
      }
    }

    /** `compute_all_tiers`: every tier from the window just ended, then a new window. */
    method ComputeAllTiers(sqrt: real -> real)
      modifies this
      ensures stats == map a | a in old(stats) :: ResetWindow(Tiered(sqrt, old(stats)[a]))
    {
      var keys := stats.Keys;
      while keys != {}
        invariant keys <= stats.Keys == old(stats).Keys
        invariant forall a :: a in stats ==>
                    stats[a] == if a in keys then old(stats)[a] else Tiered(sqrt, old(stats)[a])
        decreases |keys|
      {
        var a :| a in keys;
        ComputeTier(sqrt, a);
        keys := keys - {a};
      }
      Rollover();
    }
  }

  // ---------- Runs ----------

  datatype Op =
    | Registering(address: string)
    | Updating(address: string, success: bool, task: Task)
    | Tiering(address: string)
    | TieringAll
    | RollingOver

  function Apply(sqrt: real -> real, t: Table, op: Op): Table {
    match op
    case Registering(a) => t[a := NEW_MINER]
    case Updating(a, success, task) => t[a := Updated(if a in t then t[a] else NEW_MINER, task, success)]
    case Tiering(a) => if a in t then t[a := Tiered(sqrt, t[a])] else t
    case TieringAll => map a | a in t :: ResetWindow(Tiered(sqrt, t[a]))
    case RollingOver => map a | a in t :: ResetWindow(t[a])
  }

  function RunOf(sqrt: real -> real, ops: seq<Op>): Table {
    if ops == [] then map[] else Apply(sqrt, RunOf(sqrt, ops[..|ops| - 1]), ops[|ops| - 1])
  }

  /** The successful updates of a miner since it was last registered. */
  function SuccessesSinceRegistration(ops: seq<Op>, address: string): nat {
    if ops == [] then 0
    else
      var op, before := ops[|ops| - 1], ops[..|ops| - 1];
      if op == Registering(address) then 0
      else SuccessesSinceRegistration(before, address) +
           if op.Updating? && op.address == address && op.success then 1 else 0
  }

  predicate Sound(s: Stats) {
    && s.store.successes <= s.store.attempts
    && s.challenge.successes <= s.challenge.attempts
    && s.retrieve.successes <= s.retrieve.attempts
    && s.WindowSuccesses() <= s.totalSuccesses
    && s.storageLimit == LimitOf(s.tier)
  }

  lemma {:induction false} UnknownMeansNoSuccess(sqrt: real -> real, ops: seq<Op>, address: string)
    requires address !in RunOf(sqrt, ops)
    ensures SuccessesSinceRegistration(ops, address) == 0
  {
    if ops != [] {
      UnknownMeansNoSuccess(sqrt, ops[..|ops| - 1], address);
    }
  }

  lemma ApplyKeepsSound(sqrt: real -> real, t: Table, op: Op, address: string)
    requires address in t ==> Sound(t[address])
    ensures address in Apply(sqrt, t, op) ==> Sound(Apply(sqrt, t, op)[address])
  {
  }

  /** What one operation does to one miner's total. */
  lemma ApplyTotal(sqrt: real -> real, t: Table, op: Op, address: string)
    ensures address in Apply(sqrt, t, op) ==>
              Apply(sqrt, t, op)[address].totalSuccesses ==
              if op == Registering(address) then 0 else
              (if address in t then t[address].totalSuccesses else 0)
              + (if op.Updating? && op.address == address && op.success then 1 else 0)
  {
  }

  /**
   After every run: no task has more successes than attempts, the total counts the
   successful updates since registration and is at least the window's sum, and the
   storage limit is that of the stored tier.
   */
  lemma {:induction false} StatisticsSound(sqrt: real -> real, ops: seq<Op>, address: string)
    requires address in RunOf(sqrt, ops)
    ensures Sound(RunOf(sqrt, ops)[address])
    ensures RunOf(sqrt, ops)[address].totalSuccesses == SuccessesSinceRegistration(ops, address)
  {
    var before := ops[..|ops| - 1];
    if address in RunOf(sqrt, before) {
      StatisticsSound(sqrt, before, address);
    } else {
      UnknownMeansNoSuccess(sqrt, before, address);
    }
    ApplyKeepsSound(sqrt, RunOf(sqrt, before), ops[|ops| - 1], address);
    ApplyTotal(sqrt, RunOf(sqrt, before), ops[|ops| - 1], address);
  }

  // ---------- What the counters count ----------

  /** What starts a new window for a miner: a rollover, with or without tiers, or its registration. */
  predicate StartsWindow(op: Op, address: string) {
    op.TieringAll? || op.RollingOver? || op == Registering(address)
  }

  /** The miner's updates of one kind of task since its window last started. */
  function Attempted(ops: seq<Op>, address: string, task: Task): nat {
    if ops == [] then 0
    else
      var op, before := ops[|ops| - 1], ops[..|ops| - 1];
      if StartsWindow(op, address) then 0
      else Attempted(before, address, task) +
           if op.Updating? && op.address == address && op.task == task then 1 else 0
  }

  /** The successful ones among them. */
  function Succeeded(ops: seq<Op>, address: string, task: Task): nat {
    if ops == [] then 0
    else
      var op, before := ops[|ops| - 1], ops[..|ops| - 1];
      if StartsWindow(op, address) then 0
      else Succeeded(before, address, task) +
           if op.Updating? && op.address == address && op.task == task && op.success then 1 else 0
  }

  lemma {:induction false} UnknownMeansNoUpdates(sqrt: real -> real, ops: seq<Op>, address: string, task: Task)
    requires address !in RunOf(sqrt, ops)
    ensures Attempted(ops, address, task) == 0 && Succeeded(ops, address, task) == 0
  {
    if ops != [] {
      UnknownMeansNoUpdates(sqrt, ops[..|ops| - 1], address, task);
    }
  }

  function CounterFor(s: Stats, task: Task): Counter
    requires !task.OtherTask?
  {
    match task
    case Store => s.store
    case Challenge => s.challenge
    case Retrieve => s.retrieve
  }

  lemma ApplyCounts(sqrt: real -> real, t: Table, op: Op, address: string, task: Task)
    requires !task.OtherTask? && address in Apply(sqrt, t, op)
    ensures var before := if address in t then CounterFor(t[address], task) else NO_COUNTS;
            var counts := op.Updating? && op.address == address && op.task == task;
            var after := CounterFor(Apply(sqrt, t, op)[address], task);
            after == if StartsWindow(op, address) then NO_COUNTS
                     else if counts then Counter(before.attempts + 1, before.successes + if op.success then 1 else 0)
                     else before
  {
  }

  /**
   After every run each counter is a count over the operations: attempts are the miner's
   updates of that kind since its window last started, successes the successful ones.
   */
  lemma {:induction false} CountersExactly(sqrt: real -> real, ops: seq<Op>, address: string, task: Task)
    requires address in RunOf(sqrt, ops) && !task.OtherTask?
    ensures CounterFor(RunOf(sqrt, ops)[address], task)
         == Counter(Attempted(ops, address, task), Succeeded(ops, address, task))
  {
    var before := ops[..|ops| - 1];
    if address in RunOf(sqrt, before) {
      CountersExactly(sqrt, before, address, task);
    } else {
      UnknownMeansNoUpdates(sqrt, before, address, task);
    }
    ApplyCounts(sqrt, RunOf(sqrt, before), ops[|ops| - 1], address, task);
  }

  function AllAttempted(ops: seq<Op>, address: string): nat {
    Attempted(ops, address, Store) + Attempted(ops, address, Challenge) + Attempted(ops, address, Retrieve)
  }

  function AllSucceeded(ops: seq<Op>, address: string): nat {
    Succeeded(ops, address, Store) + Succeeded(ops, address, Challenge) + Succeeded(ops, address, Retrieve)
  }

  /**
   After every run the tier computed is that of the closed form of two counts over the
   operations, with the successful updates since registration as the total.
   */
  lemma TierFromCounters(sqrt: real -> real, ops: seq<Op>, address: string)
    requires address in RunOf(sqrt, ops)
    requires RootsCorrect(sqrt, AllSucceeded(ops, address), AllAttempted(ops, address))
    ensures Tiered(sqrt, RunOf(sqrt, ops)[address]).tier
         == TierOf(ClosedForm(AllSucceeded(ops, address), AllAttempted(ops, address)),
                   SuccessesSinceRegistration(ops, address))
  {
    var s := RunOf(sqrt, ops)[address];
    StatisticsSound(sqrt, ops, address);
    CountersExactly(sqrt, ops, address, Store);
    CountersExactly(sqrt, ops, address, Challenge);
    CountersExactly(sqrt, ops, address, Retrieve);
    TierOfStats(sqrt, s, AllSucceeded(ops, address), AllAttempted(ops, address));
  }

  lemma TierOfStats(sqrt: real -> real, s: Stats, successes: nat, attempts: nat)
    requires successes == s.WindowSuccesses() <= attempts == s.WindowAttempts()
    requires RootsCorrect(sqrt, successes, attempts)
    ensures Tiered(sqrt, s).tier == TierOf(ClosedForm(successes, attempts), s.totalSuccesses)
  {
    WilsonIsClosedForm(sqrt, successes, attempts);
  }

  /** At fixed attempts and total, more successes never lower the tier. */
  lemma MoreSuccessesNeverLowerTier(sqrt: real -> real, successes: nat, more: nat, total: nat, lifetime: nat)
    requires successes <= more <= total
    requires RootsCorrect(sqrt, successes, total) && RootsCorrect(sqrt, more, total)
    ensures Rank(TierOf(WilsonScore(sqrt, successes, total), lifetime))
         <= Rank(TierOf(WilsonScore(sqrt, more, total), lifetime))
  {
    WilsonIsClosedForm(sqrt, successes, total);
    WilsonIsClosedForm(sqrt, more, total);
    if successes < more {
      ScoreStrictlyIncreasing(successes, more, total);
    }
    TierMonotone(ClosedForm(successes, total), lifetime, ClosedForm(more, total), lifetime);
  }

  // ---------- Idle windows ----------

  /** No task of this miner is counted; other miners, registrations and tier computations may come at will. */
  predicate IdleFor(window: seq<Op>, address: string) {
    forall i :: 0 <= i < |window| ==> !(window[i].Updating? && window[i].address == address)
  }

  predicate NothingCounted(s: Stats) {
    s.store == NO_COUNTS && s.challenge == NO_COUNTS && s.retrieve == NO_COUNTS
  }

  lemma IdleStep(sqrt: real -> real, t: Table, op: Op, address: string)
    requires address in t ==> NothingCounted(t[address])
    requires !(op.Updating? && op.address == address)
    ensures address in Apply(sqrt, t, op) ==> NothingCounted(Apply(sqrt, t, op)[address])
  {
  }

  lemma {:induction false} IdleCountersStayZero(
    sqrt: real -> real, before: seq<Op>, start: Op, window: seq<Op>, address: string)
    requires StartsWindow(start, address) && IdleFor(window, address)
    ensures var t := RunOf(sqrt, before + [start] + window);
            address in t ==> NothingCounted(t[address])
  {
    var run := before + [start] + window;
    if window == [] {
      assert run[..|run| - 1] == before && run[|run| - 1] == start;
    } else {
      var n := |window| - 1;
      assert run[..|run| - 1] == before + [start] + window[..n] && run[|run| - 1] == window[n];
      IdleCountersStayZero(sqrt, before, start, window[..n], address);
      IdleStep(sqrt, RunOf(sqrt, before + [start] + window[..n]), window[n], address);
    }
  }

  lemma TieringIdleGivesBronze(sqrt: real -> real, t: Table, tiering: Op, address: string)
    requires tiering == TieringAll || tiering == Tiering(address)
    requires address in t && NothingCounted(t[address])
    ensures var after := Apply(sqrt, t, tiering);
            address in after && after[address].tier == Bronze && after[address].storageLimit == LimitOf(Bronze)
  {
  }

  /**
   A miner that was asked nothing since its window started, whatever the others were
   asked and whatever it had before, is Bronze once tiers are computed.
   */
  lemma IdleWindowMeansBronze(
    sqrt: real -> real, before: seq<Op>, start: Op, window: seq<Op>, tiering: Op, address: string)
    requires StartsWindow(start, address) && IdleFor(window, address)
    requires tiering == TieringAll || tiering == Tiering(address)
    requires address in RunOf(sqrt, before + [start] + window)
    ensures var after := Apply(sqrt, RunOf(sqrt, before + [start] + window), tiering);
            address in after && after[address].tier == Bronze && after[address].storageLimit == LimitOf(Bronze)
  {
    IdleCountersStayZero(sqrt, before, start, window, address);
    TieringIdleGivesBronze(sqrt, RunOf(sqrt, before + [start] + window), tiering, address);
  }

  // ---------- The stored tier ----------

  /** The tier from counts over the operations. */
  function TierByCounts(sqrt: real -> real, ops: seq<Op>, address: string): Tier {
    TierOf(WilsonScore(sqrt, AllSucceeded(ops, address), AllAttempted(ops, address)),
           SuccessesSinceRegistration(ops, address))
  }

  /** Whether the miner was registered, by itself or by its first update. */
  predicate IsKnown(ops: seq<Op>, address: string) {
    exists i :: 0 <= i < |ops| && (ops[i].Registering? || ops[i].Updating?) && ops[i].address == address
  }

  /** The tier at the last computation since registration, Bronze before. */
  function LastTier(sqrt: real -> real, ops: seq<Op>, address: string): Tier {
    if ops == [] then Bronze
    else
      var op, before := ops[|ops| - 1], ops[..|ops| - 1];
      if op == Registering(address) then Bronze
      else if (op == TieringAll || op == Tiering(address)) && IsKnown(before, address)
      then TierByCounts(sqrt, before, address)
      else LastTier(sqrt, before, address)
  }

  lemma IsKnownNext(ops: seq<Op>, address: string)
    requires ops != []
    ensures var op := ops[|ops| - 1];
            IsKnown(ops, address) <==>
            IsKnown(ops[..|ops| - 1], address) || ((op.Registering? || op.Updating?) && op.address == address)
  {
    var n := |ops| - 1;
    if IsKnown(ops[..n], address) {
      var i :| 0 <= i < n && (ops[..n][i].Registering? || ops[..n][i].Updating?) && ops[..n][i].address == address;
      assert ops[i] == ops[..n][i];
    }
    if IsKnown(ops, address) {
      var i :| 0 <= i < |ops| && (ops[i].Registering? || ops[i].Updating?) && ops[i].address == address;
      assert i < n ==> ops[..n][i] == ops[i];
    }
  }

  lemma {:induction false} KnownExactly(sqrt: real -> real, ops: seq<Op>, address: string)
    ensures address in RunOf(sqrt, ops) <==> IsKnown(ops, address)
  {
    if ops != [] {
      KnownExactly(sqrt, ops[..|ops| - 1], address);
      IsKnownNext(ops, address);
    }
  }

  lemma {:induction false} UnknownIsBronze(sqrt: real -> real, ops: seq<Op>, address: string)
    requires !IsKnown(ops, address)
    ensures LastTier(sqrt, ops, address) == Bronze
  {
    if ops != [] {
      IsKnownNext(ops, address);
      UnknownIsBronze(sqrt, ops[..|ops| - 1], address);
    }
  }

  lemma TierOfCounts(sqrt: real -> real, ops: seq<Op>, address: string)
    requires address in RunOf(sqrt, ops)
    ensures Tiered(sqrt, RunOf(sqrt, ops)[address]).tier == TierByCounts(sqrt, ops, address)
  {
    CountersExactly(sqrt, ops, address, Store);
    CountersExactly(sqrt, ops, address, Challenge);
    CountersExactly(sqrt, ops, address, Retrieve);
    StatisticsSound(sqrt, ops, address);
  }

  lemma ApplyTier(sqrt: real -> real, t: Table, op: Op, address: string)
    requires address in Apply(sqrt, t, op)
    ensures Apply(sqrt, t, op)[address].tier ==
            if op == Registering(address) then Bronze
            else if address !in t then Bronze
            else if op == TieringAll || op == Tiering(address) then Tiered(sqrt, t[address]).tier
            else t[address].tier
  {
  }

  /**
   After every run the miners known are those that were registered or updated, and each
   one's stored tier is the one computed last since its registration, from the counts at
   that moment; Bronze when there was none.
   */
  lemma {:induction false} StoredTierExactly(sqrt: real -> real, ops: seq<Op>, address: string)
    ensures address in RunOf(sqrt, ops) <==> IsKnown(ops, address)
    ensures address in RunOf(sqrt, ops) ==> RunOf(sqrt, ops)[address].tier == LastTier(sqrt, ops, address)
  {
    KnownExactly(sqrt, ops, address);
    if ops != [] && address in RunOf(sqrt, ops) {
      var before := ops[..|ops| - 1];
      StoredTierExactly(sqrt, before, address);
      if address in RunOf(sqrt, before) {
        TierOfCounts(sqrt, before, address);
      } else {
        UnknownIsBronze(sqrt, before, address);
      }
      ApplyTier(sqrt, RunOf(sqrt, before), ops[|ops| - 1], address);
    }
  }
}
