/**
 How a validator cuts a payload into index ranges and hands them to groups of
 miners (storage/validator/utils.py).
 */
module Distribution {
  import opened Arithmetic
  import opened Sequences
  import opened Wrappers
  import opened Chunking

  const MIN_CHUNK_SIZE := 64 * 1024 * 1024
  const MAX_CHUNK_SIZE := 256 * 1024 * 1024

  // ---------- Chunk size ----------

  function MinReal(a: real, b: real): real {
    if a <= b then a else b
  }

  function MaxReal(a: real, b: real): real {
    if a >= b then a else b
  }

  /** `optimal_chunk_size`, with exact division. */
  function OptimalChunkSize(dataSize: nat, uids: nat, R: nat): nat
    requires R > 0
  {
    var maxChunks := uids / R;
    var ideal := if maxChunks > 0 then dataSize as real / maxChunks as real else MAX_CHUNK_SIZE as real;
    var size := MaxReal(MIN_CHUNK_SIZE as real, MinReal(ideal, MAX_CHUNK_SIZE as real));
    if size > dataSize as real then dataSize else size.Floor
  }

  lemma FloorOfQuotient(n: nat, d: nat)
    requires d > 0
    ensures (n as real / d as real).Floor == n / d
  {
    var q, r := n / d, n % d;
    assert n == q * d + r;
    assert n as real / d as real == q as real + r as real / d as real by {
      assert (q * d) as real == q as real * d as real;
    }
    assert 0.0 <= r as real / d as real < 1.0;
  }

  lemma QuotientAgainst(n: nat, d: nat, bound: nat)
    requires d > 0
    ensures n as real / d as real <= bound as real <==> n <= d * bound
  {
    assert (d * bound) as real == d as real * bound as real;
  }

  /** In integers: one chunk for small data, else the share of each group held between the two limits. */
  lemma OptimalChunkSizeCases(dataSize: nat, uids: nat, R: nat)
    requires R > 0 && uids / R > 0
    ensures var G := uids / R;
            OptimalChunkSize(dataSize, uids, R) ==
            if dataSize < 67108864 then dataSize
            else if dataSize <= G * 67108864 then 67108864
            else if dataSize <= G * 268435456 then dataSize / G
            else 268435456
  {
    var G := uids / R;
    FloorOfQuotient(dataSize, G);
    QuotientAgainst(dataSize, G, MIN_CHUNK_SIZE);
    QuotientAgainst(dataSize, G, MAX_CHUNK_SIZE);
    QuotientAtMost(dataSize, G);
  }

  /** Without a whole group: the maximum, or the data size when that is smaller. */
  lemma OptimalChunkSizeWithoutGroups(dataSize: nat, uids: nat, R: nat)
    requires R > 0 && uids / R == 0
    ensures OptimalChunkSize(dataSize, uids, R) == Min(dataSize, 268435456)
  {
  }

  lemma QuotientAtMost(n: nat, d: nat)
    requires d > 0
    ensures n as real / d as real <= n as real
  {
    QuotientAgainst(n, d, n);
    assert n <= d * n;
  }

  // ---------- Index ranges ----------

  datatype Range = Range(start: nat, end: nat)

  /** The i-th range of a given size, cut at the end of the data. */
  function RangeAt(dataSize: nat, chunkSize: nat, i: nat): Range {
    Range(i * chunkSize, if i * chunkSize + chunkSize <= dataSize then i * chunkSize + chunkSize else dataSize)
  }

  function Ranges(dataSize: nat, chunkSize: nat, n: nat): seq<Range> {
    seq(n, i requires 0 <= i < n => RangeAt(dataSize, chunkSize, i))
  }

  /** `calculate_chunk_indices`: one range per started chunk. Its correction of a short last range never applies. */
  method CalculateChunkIndices(dataSize: nat, chunkSize: nat) returns (r: Result<seq<Range>>)
    ensures r == if chunkSize == 0 then Err(ZeroDivisionError)
                 else Ok(Ranges(dataSize, chunkSize, CeilDiv(dataSize, chunkSize)))
  {
    if chunkSize == 0 {
      return Err(ZeroDivisionError);
    }
    var indices := [];
    var numChunks := CeilDiv(dataSize, chunkSize);
    for i := 0 to numChunks
      invariant indices == Ranges(dataSize, chunkSize, i)
    {
      var startIdx := i * chunkSize;
      var endIdx := if startIdx + chunkSize <= dataSize then startIdx + chunkSize else dataSize;
      indices := indices + [Range(startIdx, endIdx)];
      if i == numChunks - 1 && endIdx < dataSize {
        indices := indices[..|indices| - 1] + [Range(startIdx, dataSize)];
        LastRangeReachesEnd(dataSize, chunkSize);
      }
    }
    return Ok(indices);
  }

  lemma CeilDivBounds(n: nat, d: nat)
    requires d > 0
    ensures n <= CeilDiv(n, d) * d < n + d
  {
    assert n == n / d * d + n % d;
    if n % d != 0 {
      assert (n / d + 1) * d == n / d * d + d;
    }
  }

  lemma LastRangeReachesEnd(dataSize: nat, chunkSize: nat)
    requires chunkSize > 0
    ensures var n := CeilDiv(dataSize, chunkSize);
            n > 0 ==> RangeAt(dataSize, chunkSize, n - 1).end == dataSize
  {
    var n := CeilDiv(dataSize, chunkSize);
    CeilDivBounds(dataSize, chunkSize);
    assert (n - 1) * chunkSize == n * chunkSize - chunkSize;
  }

  // ---------- Groups ----------

  /** `adjust_uids_to_multiple` */
  function AdjustUids(uids: seq<Uid>, R: nat): (r: seq<Uid>)
    requires R > 0
    ensures |r| == |uids| / R * R
  {
    assert |uids| / R * R <= |uids|;
    uids[..|uids| / R * R]
  }

  /** `partition_uids` */
  function PartitionUids(uids: seq<Uid>, R: nat): seq<seq<Uid>>
    requires R > 0
    decreases |uids|
  {
    if uids == [] then []
    else if |uids| <= R then [uids]
    else [uids[..R]] + PartitionUids(uids[R..], R)
  }

  /** A whole number of groups: group g holds the uids from g*R on, R of them. */
  lemma {:induction false} PartitionAt(uids: seq<Uid>, R: nat, G: nat, g: nat)
    requires R > 0 && |uids| == G * R && g < G
    ensures |PartitionUids(uids, R)| == G
    ensures 0 <= g * R <= g * R + R <= |uids|
    ensures PartitionUids(uids, R)[g] == uids[g * R..g * R + R]
    decreases G
  {
    assert |uids| >= R by {
      assert G * R == (G - 1) * R + R;
    }
    assert (G - 1) * R == G * R - R;
    if G > 1 {
      assert (G - 1) * R >= R by {
        assert (G - 1) * R == (G - 2) * R + R;
      }
      var rest := uids[R..];
      PartitionAt(rest, R, G - 1, if g == 0 then 0 else g - 1);
      if g > 0 {
        assert g * R == (g - 1) * R + R;
        assert rest[(g - 1) * R..(g - 1) * R + R] == uids[g * R..g * R + R];
      }
    } else {
      assert g * R == 0;
    }
  }

  /** The groups used: the initial ones, then over and over again. */
  function Cycled(groups: seq<seq<Uid>>, n: nat): seq<seq<Uid>>
    requires groups != []
  {
    seq(n, i requires 0 <= i < n => groups[i % |groups|])
  }

  function Larger(a: nat, b: nat): nat {
    if a >= b then a else b
  }

  /** The reuse loop: groups are appended in turn until there are enough; both loops end. */
  method ReuseGroups(initial: seq<seq<Uid>>, needed: nat) returns (groups: seq<seq<Uid>>)
    requires initial != []
    ensures groups == Cycled(initial, Larger(|initial|, needed))
  {
    groups := initial;
    CycledOnce(initial);
    while |groups| < needed
      invariant |initial| <= |groups| <= Larger(|initial|, needed) && groups == Cycled(initial, |groups|)
      invariant |groups| % |initial| == 0 || |groups| >= needed
      decreases needed - |groups|
    {
      var k := 0;
      while true
        invariant |initial| <= |groups| <= Larger(|initial|, needed) && groups == Cycled(initial, |groups|)
        invariant 0 <= k < |initial| && k == |groups| % |initial|
        decreases needed - |groups|
      {
        if |groups| >= needed {
          break;
        }
        ModSuccessor(|groups|, |initial|);
        CycledNext(initial, |groups|);
        groups := groups + [initial[k]];
        k := if k + 1 == |initial| then 0 else k + 1;
      }
    }
  }

  lemma CycledOnce(groups: seq<seq<Uid>>)
    requires groups != []
    ensures Cycled(groups, |groups|) == groups
    ensures |groups| % |groups| == 0
  {
    forall i | 0 <= i < |groups|
      ensures i % |groups| == i
    {
      DivUnique(i, |groups|, 0, i);
    }
    DivUnique(|groups|, |groups|, 1, 0);
  }

  lemma CycledNext(groups: seq<seq<Uid>>, n: nat)
    requires groups != []
    ensures Cycled(groups, n + 1) == Cycled(groups, n) + [groups[n % |groups|]]
  {
  }

  lemma ModSuccessor(n: nat, d: nat)
    requires d > 0
    ensures (n + 1) % d == if n % d + 1 == d then 0 else n % d + 1
    ensures (n + 1) / d == if n % d + 1 == d then n / d + 1 else n / d
  {
    var q, r := n / d, n % d;
    if r + 1 == d {
      assert n + 1 == (q + 1) * d + 0;
      DivUnique(n + 1, d, q + 1, 0);
    } else {
      DivUnique(n + 1, d, q, r + 1);
    }
  }

  // ---------- The distribution ----------

  datatype Part = Part(chunkSize: nat, range: Range, uids: seq<Uid>, chunkIndex: nat)

  /** How many ranges come out of zipping ranges with groups. */
  function Yielded(dataSize: nat, chunkSize: nat, G: nat): nat
    requires chunkSize > 0
  {
    var ranges, groups := CeilDiv(dataSize, chunkSize), Larger(G, dataSize / chunkSize);
    if ranges <= groups then ranges else groups
  }

  /** The zip of ranges and groups: chunk i has the i-th range and the group that is next in turn. */
  function Distribute(dataSize: nat, chunkSize: nat, initial: seq<seq<Uid>>): seq<Part>
    requires chunkSize > 0 && initial != []
  {
    var n := Yielded(dataSize, chunkSize, |initial|);
    seq(n, i requires 0 <= i < n =>
      Part(chunkSize, RangeAt(dataSize, chunkSize, i), initial[i % |initial|], i))
  }

  /** The groups of R uids, without the uids that fill no group. */
  function InitialGroups(uids: seq<Uid>, R: nat): (groups: seq<seq<Uid>>)
    requires R > 0
    ensures |groups| == |uids| / R
    ensures |uids| >= R ==> groups != []
  {
    GroupsExactly(uids, R);
    PartitionUids(AdjustUids(uids, R), R)
  }

  function ChosenChunkSize(dataSize: nat, R: nat, uids: seq<Uid>, chunkSize: Option<nat>): nat
    requires R > 0
  {
    if chunkSize.Some? && chunkSize.value > 0 then chunkSize.value else OptimalChunkSize(dataSize, |uids|, R)
  }

  lemma GroupsExactly(uids: seq<Uid>, R: nat)
    requires R > 0
    ensures |PartitionUids(AdjustUids(uids, R), R)| == |uids| / R
    ensures |AdjustUids(uids, R)| < R <==> |uids| < R
    ensures |uids| >= R ==> |uids| / R > 0
  {
    var G := |uids| / R;
    if G > 0 {
      PartitionAt(AdjustUids(uids, R), R, G, 0);
      assert G * R >= R;
    } else {
      DivZero(|uids|, R);
      assert G * R == 0;
    }
    if |uids| < R {
      DivUnique(|uids|, R, 0, |uids|);
    }
  }

  lemma DivZero(n: nat, d: nat)
    requires d > 0 && n / d == 0
    ensures n < d
  {
    assert n == n / d * d + n % d;
  }

  /** `compute_chunk_distribution_mut_exclusive_numpy_reuse_uids`, given the chosen uids. */
  method ComputeDistribution(dataSize: nat, R: nat, uids: seq<Uid>, chunkSize: Option<nat>) returns (r: Result<seq<Part>>)
    requires R > 0
    ensures var size := ChosenChunkSize(dataSize, R, uids, chunkSize);
            r == if size == 0 then Err(ZeroDivisionError)
                 else if |uids| < R then Err(ValueError)
                 else Ok(Distribute(dataSize, size, InitialGroups(uids, R)))
  {
    var size := ChosenChunkSize(dataSize, R, uids, chunkSize);
    var adjusted := AdjustUids(uids, R);
    var indices := CalculateChunkIndices(dataSize, size);
    if indices.Err? {
      return Err(indices.error);
    }
    GroupsExactly(uids, R);
    if R > |adjusted| {
      return Err(ValueError);
    }
    var initial := PartitionUids(adjusted, R);
    var groups := ReuseGroups(initial, dataSize / size);
    var parts := Zip(size, indices.value, groups);
    assert parts == Distribute(dataSize, size, initial);
    return Ok(parts);
  }

  /** Pair ranges with groups until either runs out. */
  method Zip(chunkSize: nat, ranges: seq<Range>, groups: seq<seq<Uid>>) returns (parts: seq<Part>)
    ensures |parts| == if |ranges| <= |groups| then |ranges| else |groups|
    ensures forall i :: 0 <= i < |parts| ==> parts[i] == Part(chunkSize, ranges[i], groups[i], i)
  {
    parts := [];
    var n := if |ranges| <= |groups| then |ranges| else |groups|;
    for i := 0 to n
      invariant |parts| == i
      invariant forall j :: 0 <= j < i ==> parts[j] == Part(chunkSize, ranges[j], groups[j], j)
    {
      parts := parts + [Part(chunkSize, ranges[i], groups[i], i)];
    }
  }

  // ---------- Coverage ----------

  /** The ranges start at 0, are not empty and follow each other without gap or overlap. */
  lemma RangesConsecutive(dataSize: nat, chunkSize: nat, i: nat)
    requires chunkSize > 0 && i < CeilDiv(dataSize, chunkSize)
    ensures var range := RangeAt(dataSize, chunkSize, i);
            && range.start < range.end <= dataSize
            && (i == 0 ==> range.start == 0)
            && (i + 1 < CeilDiv(dataSize, chunkSize) ==>
                  range.end == RangeAt(dataSize, chunkSize, i + 1).start == range.start + chunkSize)
  {
    var n := CeilDiv(dataSize, chunkSize);
    CeilDivBounds(dataSize, chunkSize);
    assert (i + 1) * chunkSize == i * chunkSize + chunkSize;
    assert (n - 1) * chunkSize == n * chunkSize - chunkSize;
    MulMonotone(i, n - 1, chunkSize);
    if i + 1 < n {
      MulMonotone(i + 1, n - 1, chunkSize);
    }
  }

  /** Where the last yielded range ends. */
  function CoveredEnd(dataSize: nat, chunkSize: nat, G: nat): nat
    requires chunkSize > 0
  {
    var n := Yielded(dataSize, chunkSize, G);
    if n == 0 then 0 else RangeAt(dataSize, chunkSize, n - 1).end
  }

  /** Everything is covered, except that with at least G whole chunks a started last one is dropped. */
  lemma CoverageExactly(dataSize: nat, chunkSize: nat, G: nat)
    requires chunkSize > 0 && G > 0
    ensures CoveredEnd(dataSize, chunkSize, G) ==
            if dataSize / chunkSize < G then dataSize else dataSize - dataSize % chunkSize
  {
    var whole := dataSize / chunkSize;
    assert dataSize == whole * chunkSize + dataSize % chunkSize;
    LastRangeReachesEnd(dataSize, chunkSize);
    if whole >= G && dataSize % chunkSize != 0 {
      assert (whole - 1) * chunkSize + chunkSize == whole * chunkSize;
    } else if CeilDiv(dataSize, chunkSize) == 0 {
      assert dataSize == 0;
    }
  }

  lemma ModOfPartition(dataSize: nat, G: nat)
    requires G > 0 && dataSize / G > 0
    ensures dataSize % (dataSize / G) < G && dataSize / (dataSize / G) >= G
  {
    var q, r := dataSize / G, dataSize % G;
    assert dataSize == q * G + r;
    var k, m := r / q, r % q;
    assert r == k * q + m && m <= r by {
      assert k * q >= 0;
    }
    assert dataSize == (G + k) * q + m;
    DivUnique(dataSize, q, G + k, m);
  }

  /**
   With the chosen chunk size and G groups: up to G full-size chunks, fewer than G
   trailing positions are left out; beyond that exactly the whole chunks are covered.
   */
  lemma OptimalCoverage(dataSize: nat, uids: nat, R: nat)
    requires R > 0 && uids / R > 0 && dataSize > 0
    ensures var G, size := uids / R, OptimalChunkSize(dataSize, uids, R);
            && size > 0
            && (dataSize <= G * MAX_CHUNK_SIZE ==>
                  dataSize - G < CoveredEnd(dataSize, size, G) <= dataSize)
            && (dataSize > G * MAX_CHUNK_SIZE ==>
                  CoveredEnd(dataSize, size, G) == dataSize / MAX_CHUNK_SIZE * MAX_CHUNK_SIZE)
  {
    var G := uids / R;
    OptimalChunkSizeCases(dataSize, uids, R);
    var size := OptimalChunkSize(dataSize, uids, R);
    if dataSize < MIN_CHUNK_SIZE {
      DivUnique(dataSize, dataSize, 1, 0);
    } else if dataSize <= G * MIN_CHUNK_SIZE {
      WholeChunksAtMost(dataSize, MIN_CHUNK_SIZE, G);
    } else if dataSize <= G * MAX_CHUNK_SIZE {
      DivAtLeast(dataSize, G, MIN_CHUNK_SIZE);
      ModOfPartition(dataSize, G);
    } else {
      DivAtLeast(dataSize, MAX_CHUNK_SIZE, G);
      assert dataSize == dataSize / MAX_CHUNK_SIZE * MAX_CHUNK_SIZE + dataSize % MAX_CHUNK_SIZE;
    }
    CoverageExactly(dataSize, size, G);
  }

  lemma DivAtLeast(n: nat, d: nat, k: nat)
    requires d > 0 && n >= d * k
    ensures n / d >= k
  {
    assert (n / d + 1) * d == n / d * d + d;
    if n / d < k {
      MulMonotone(n / d + 1, k, d);
    }
  }

  lemma WholeChunksAtMost(n: nat, d: nat, k: nat)
    requires d > 0 && n <= k * d
    ensures n / d < k || n % d == 0
  {
    if n / d >= k {
      MulMonotone(k, n / d, d);
    }
  }

  /** The payload is 33 bytes shorter than its reported size, so up to 33 positions may be left out. */
  predicate PayloadCovered(payload: nat, chunkSize: nat, G: nat)
    requires chunkSize > 0
  {
    CoveredEnd(payload + BYTES_OVERHEAD, chunkSize, G) >= payload
  }

  lemma PayloadCoveredExactly(payload: nat, chunkSize: nat, G: nat)
    requires chunkSize > 0 && G > 0
    ensures var dataSize := payload + BYTES_OVERHEAD;
            PayloadCovered(payload, chunkSize, G) <==>
            dataSize / chunkSize < G || dataSize % chunkSize <= BYTES_OVERHEAD
  {
    CoverageExactly(payload + BYTES_OVERHEAD, chunkSize, G);
  }

  /** With at most 34 groups, every payload that fits in one full-size chunk per group is covered. */
  lemma PayloadCoveredWithFewGroups(payload: nat, uids: nat, R: nat)
    requires R > 0 && 0 < uids / R <= 34
    requires payload + BYTES_OVERHEAD <= uids / R * MAX_CHUNK_SIZE
    ensures var size := OptimalChunkSize(payload + BYTES_OVERHEAD, uids, R);
            size > 0 && PayloadCovered(payload, size, uids / R)
  {
    OptimalCoverage(payload + BYTES_OVERHEAD, uids, R);
  }

  /** Beyond that the tail is lost, exactly when it is longer than the overhead. */
  lemma LargePayloadCoveredExactly(payload: nat, uids: nat, R: nat)
    requires R > 0 && uids / R > 0 && payload + BYTES_OVERHEAD > uids / R * MAX_CHUNK_SIZE
    ensures var dataSize := payload + BYTES_OVERHEAD;
            OptimalChunkSize(dataSize, uids, R) == MAX_CHUNK_SIZE &&
            (PayloadCovered(payload, MAX_CHUNK_SIZE, uids / R) <==> dataSize % MAX_CHUNK_SIZE <= BYTES_OVERHEAD)
  {
    var G := uids / R;
    OptimalChunkSizeCases(payload + BYTES_OVERHEAD, uids, R);
    DivAtLeast(payload + BYTES_OVERHEAD, MAX_CHUNK_SIZE, G);
    MulMonotone(1, G, MAX_CHUNK_SIZE);
    PayloadCoveredExactly(payload, MAX_CHUNK_SIZE, G);
  }

  // ---------- Assignment ----------

  predicate DisjointUids(a: seq<Uid>, b: seq<Uid>) {
    forall i, j :: 0 <= i < |a| && 0 <= j < |b| ==> a[i] != b[j]
  }

  lemma SlicesDisjoint(uids: seq<Uid>, a: nat, b: nat, R: nat)
    requires AllDistinct(uids) && a + R <= b && b + R <= |uids|
    ensures AllDistinct(uids[a..a + R]) && AllDistinct(uids[b..b + R])
    ensures DisjointUids(uids[a..a + R], uids[b..b + R])
  {
  }

  /** Group g is the slice of the uids from g*R on, R of them. */
  lemma GroupIsSlice(uids: seq<Uid>, R: nat, g: nat) returns (start: nat)
    requires R > 0 && g < |uids| / R
    ensures start == g * R && start + R <= |uids|
    ensures InitialGroups(uids, R)[g] == uids[start..start + R]
  {
    var G := |uids| / R;
    PartitionAt(AdjustUids(uids, R), R, G, g);
    start := g * R;
    SliceOfPrefix(uids, |uids| / R * R, start, start + R);
  }

  lemma SliceOfPrefix<T>(s: seq<T>, n: nat, from: nat, to: nat)
    requires from <= to <= n <= |s|
    ensures s[..n][from..to] == s[from..to]
  {
  }

  lemma LaterSliceStarts(g: nat, g': nat, R: nat)
    requires g < g'
    ensures g * R + R <= g' * R
  {
    MulMonotone(g + 1, g', R);
    assert (g + 1) * R == g * R + R;
  }

  /** Every group has exactly R distinct uids, and two different groups share none. */
  lemma GroupsAreDisjoint(uids: seq<Uid>, R: nat, g: nat, g': nat)
    requires R > 0 && AllDistinct(uids) && g < g' < |uids| / R
    ensures var groups := InitialGroups(uids, R);
            && |groups[g]| == R == |groups[g']| && AllDistinct(groups[g]) && AllDistinct(groups[g'])
            && DisjointUids(groups[g], groups[g'])
  {
    var a := GroupIsSlice(uids, R, g);
    var b := GroupIsSlice(uids, R, g');
    LaterSliceStarts(g, g', R);
    SlicesDisjoint(uids, a, b, R);
  }

  lemma TurnsDiffer(i: nat, j: nat, G: nat)
    requires G > 0 && i < j < i + G
    ensures i % G != j % G && i % G < G && j % G < G
  {
    var k := j / G - i / G;
    assert k * G == j - i - (j % G - i % G);
    MultipleOutside(k, G);
  }

  /** Any G consecutive chunks go to pairwise disjoint groups. */
  lemma ConsecutiveChunksDisjoint(dataSize: nat, chunkSize: nat, uids: seq<Uid>, R: nat, i: nat, j: nat)
    requires R > 0 && chunkSize > 0 && |uids| >= R && AllDistinct(uids)
    requires i < j < i + |uids| / R
    requires j < |Distribute(dataSize, chunkSize, InitialGroups(uids, R))|
    ensures var parts := Distribute(dataSize, chunkSize, InitialGroups(uids, R));
            && |parts[i].uids| == R && AllDistinct(parts[i].uids)
            && DisjointUids(parts[i].uids, parts[j].uids)
  {
    var G := |uids| / R;
    var parts := Distribute(dataSize, chunkSize, InitialGroups(uids, R));
    var a, b := i % G, j % G;
    TurnsDiffer(i, j, G);
    assert parts[i].uids == InitialGroups(uids, R)[a] && parts[j].uids == InitialGroups(uids, R)[b];
    if a < b {
      GroupsAreDisjoint(uids, R, a, b);
    } else {
      GroupsAreDisjoint(uids, R, b, a);
    }
  }

  /** How many parts go to a group. */
  function Load(parts: seq<Part>, group: seq<Uid>): nat {
    if parts == [] then 0
    else Load(parts[..|parts| - 1], group) + if parts[|parts| - 1].uids == group then 1 else 0
  }

  lemma TurnGoesTo(uids: seq<Uid>, R: nat, turn: nat, g: nat)
    requires R > 0 && AllDistinct(uids) && turn < |uids| / R && g < |uids| / R
    ensures InitialGroups(uids, R)[turn] == InitialGroups(uids, R)[g] <==> turn == g
  {
    if turn < g {
      GroupsAreDisjoint(uids, R, turn, g);
      assert InitialGroups(uids, R)[turn][0] != InitialGroups(uids, R)[g][0];
    } else if g < turn {
      GroupsAreDisjoint(uids, R, g, turn);
      assert InitialGroups(uids, R)[turn][0] != InitialGroups(uids, R)[g][0];
    }
  }

  lemma {:induction false} LoadOfFirst(parts: seq<Part>, n: nat, uids: seq<Uid>, R: nat, g: nat)
    requires R > 0 && AllDistinct(uids) && g < |uids| / R && n <= |parts|
    requires forall i :: 0 <= i < |parts| ==> parts[i].uids == InitialGroups(uids, R)[i % (|uids| / R)]
    ensures var G := |uids| / R;
            Load(parts[..n], InitialGroups(uids, R)[g]) == n / G + if g < n % G then 1 else 0
  {
    var G := |uids| / R;
    if n == 0 {
      DivUnique(0, G, 0, 0);
    } else {
      LoadOfFirst(parts, n - 1, uids, R, g);
      TakeNext(parts, n - 1);
      ModSuccessor(n - 1, G);
      TurnGoesTo(uids, R, (n - 1) % G, g);
    }
  }

  /**
   In every distribution over distinct uids the loads differ by at most one: with n
   parts and G groups each group gets n div G parts, the first n mod G groups one more.
   */
  lemma LoadIsBalanced(dataSize: nat, chunkSize: nat, uids: seq<Uid>, R: nat, g: nat)
    requires R > 0 && chunkSize > 0 && AllDistinct(uids) && g < |uids| / R
    ensures var parts, G := Distribute(dataSize, chunkSize, InitialGroups(uids, R)), |uids| / R;
            Load(parts, InitialGroups(uids, R)[g]) == |parts| / G + if g < |parts| % G then 1 else 0
  {
    var parts := Distribute(dataSize, chunkSize, InitialGroups(uids, R));
    LoadOfFirst(parts, |parts|, uids, R, g);
    TakeAll(parts);
  }

  /**
   Every part in full: its range, the group that is next in turn as a slice of the uids,
   its size and its number; and how many parts there are.
   */
  lemma PartsExactly(dataSize: nat, chunkSize: nat, uids: seq<Uid>, R: nat, i: nat) returns (start: nat)
    requires R > 0 && chunkSize > 0 && |uids| >= R
    ensures |uids| / R > 0 && start == i % (|uids| / R) * R && start + R <= |uids|
    ensures var parts, G := Distribute(dataSize, chunkSize, InitialGroups(uids, R)), |uids| / R;
            && (i < |parts| <==> i * chunkSize < dataSize && (i < G || (i + 1) * chunkSize <= dataSize))
            && (i < |parts| ==>
                  parts[i] == Part(chunkSize, Range(i * chunkSize, Min((i + 1) * chunkSize, dataSize)),
                                   uids[start..start + R], i))
  {
    GroupsExactly(uids, R);
    var turn := TurnOf(i, |uids| / R);
    start := GroupIsSlice(uids, R, turn);
    StartedChunks(dataSize, chunkSize, i);
    RangeExactly(dataSize, chunkSize, i);
  }

  lemma TurnOf(i: nat, G: nat) returns (turn: nat)
    requires G > 0
    ensures turn == i % G < G
  {
    turn := i % G;
  }

  lemma RangeExactly(dataSize: nat, chunkSize: nat, i: nat)
    ensures RangeAt(dataSize, chunkSize, i) == Range(i * chunkSize, Min((i + 1) * chunkSize, dataSize))
  {
    assert (i + 1) * chunkSize == i * chunkSize + chunkSize;
  }

  /** Chunk i is started when it begins before the end, and whole when it ends by then. */
  lemma StartedChunks(dataSize: nat, chunkSize: nat, i: nat)
    requires chunkSize > 0
    ensures i < CeilDiv(dataSize, chunkSize) <==> i * chunkSize < dataSize
    ensures i < dataSize / chunkSize <==> (i + 1) * chunkSize <= dataSize
  {
    var q, n := dataSize / chunkSize, CeilDiv(dataSize, chunkSize);
    assert dataSize == q * chunkSize + dataSize % chunkSize;
    CeilDivBounds(dataSize, chunkSize);
    assert (i + 1) * chunkSize == i * chunkSize + chunkSize;
    assert (q + 1) * chunkSize == q * chunkSize + chunkSize;
    assert (n - 1) * chunkSize == n * chunkSize - chunkSize;
    if i < q {
      MulMonotone(i + 1, q, chunkSize);
    } else {
      MulMonotone(q, i, chunkSize);
      MulMonotone(q + 1, i + 1, chunkSize);
    }
    if i < n {
      MulMonotone(i, n - 1, chunkSize);
    } else {
      MulMonotone(n, i, chunkSize);
    }
  }
}
