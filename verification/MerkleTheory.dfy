/**
 The laws of the Merkle tree: every honest proof is accepted and is short, an
 accepted proof binds its target, the root binds the whole leaf list and is the
 root of the recursive tree, and updating a leaf is rebuilding exactly when no
 odd end node on its path is hashed.
 */
module MerkleTheory {
  import opened Wrappers
  import opened Text
  import opened Hashing
  import opened MerkleSpec

  // ---------- Completeness ----------

  /** Smallest d with n <= 2^d. */
  function CeilLog2(n: nat): nat
    requires n >= 1
  {
    if n == 1 then 0 else 1 + CeilLog2((n + 1) / 2)
  }

  function Pow2(d: nat): (p: nat)
    ensures p >= 1
  {
    if d == 0 then 1 else 2 * Pow2(d - 1)
  }

  lemma {:induction false} CeilLog2Bounds(n: nat)
    requires n >= 1
    ensures n <= Pow2(CeilLog2(n))
    ensures n > 1 ==> Pow2(CeilLog2(n) - 1) < n
  {
    if n > 1 {
      CeilLog2Bounds((n + 1) / 2);
    }
  }

  /** The levels below the top of a made tree are those of the next level. */
  lemma LevelsBelow(hash: HashFn, leaves: Level)
    requires |leaves| > 1
    ensures var levels := LevelsOf(hash, leaves);
            |levels| > 1 && levels[..|levels| - 1] == LevelsOf(hash, NextLevel(hash, leaves))
  {
  }

  lemma {:induction false} LevelsTopIsRoot(hash: HashFn, leaves: Level)
    requires leaves != []
    ensures LevelsOf(hash, leaves)[0] == [Root(hash, leaves)]
    decreases |leaves|
  {
    if |leaves| > 1 {
      LevelsTopIsRoot(hash, NextLevel(hash, leaves));
    }
  }

  lemma ProofBelow(hash: HashFn, leaves: Level, i: nat)
    requires i < |leaves| && |leaves| > 1
    ensures ProofIn(LevelsOf(hash, leaves), i)
         == (if IsOddEnd(|leaves|, i) then [] else [SiblingStep(leaves, i)])
          + ProofIn(LevelsOf(hash, NextLevel(hash, leaves)), i / 2)
  {
    LevelsBelow(hash, leaves);
  }

  lemma FoldFirst(hash: HashFn, s: Step, rest: seq<Step>, target: Bytes)
    ensures Fold(hash, [s] + rest, target) == Fold(hash, rest, hash(HashInput(s, target)))
  {
    assert ([s] + rest)[1..] == rest;
  }

  lemma SiblingGivesParent(hash: HashFn, level: Level, i: nat)
    requires i < |level| && !IsOddEnd(|level|, i)
    ensures hash(HashInput(SiblingStep(level, i), level[i])) == Parent(hash, level, i / 2)
  {
    if i % 2 == 1 {
      assert 2 * (i / 2) == i - 1;
    } else {
      assert 2 * (i / 2) == i;
    }
  }

  /** The proof of leaf i, straight from the leaves. */
  function ProofOf(hash: HashFn, leaves: Level, i: nat): seq<Step>
    requires i < |leaves|
    decreases |leaves|
  {
    if |leaves| == 1 then []
    else if IsOddEnd(|leaves|, i) then ProofOf(hash, NextLevel(hash, leaves), i / 2)
    else [SiblingStep(leaves, i)] + ProofOf(hash, NextLevel(hash, leaves), i / 2)
  }

  lemma {:induction false} ProofInIsProofOf(hash: HashFn, leaves: Level, i: nat)
    requires i < |leaves|
    ensures ProofIn(LevelsOf(hash, leaves), i) == ProofOf(hash, leaves, i)
    decreases |leaves|
  {
    if |leaves| > 1 {
      ProofInIsProofOf(hash, NextLevel(hash, leaves), i / 2);
      ProofBelow(hash, leaves, i);
    }
  }

  lemma {:induction false} ProofOfFolds(hash: HashFn, leaves: Level, i: nat)
    requires i < |leaves|
    ensures Fold(hash, ProofOf(hash, leaves, i), leaves[i]) == Root(hash, leaves)
    decreases |leaves|
  {
    if |leaves| > 1 {
      var next := NextLevel(hash, leaves);
      ProofOfFolds(hash, next, i / 2);
      if IsOddEnd(|leaves|, i) {
        assert 2 * (i / 2) == i;
        assert next[i / 2] == Parent(hash, leaves, i / 2) == leaves[i];
      } else {
        SiblingGivesParent(hash, leaves, i);
        assert next[i / 2] == Parent(hash, leaves, i / 2);
        FoldFirst(hash, SiblingStep(leaves, i), ProofOf(hash, next, i / 2), leaves[i]);
      }
    }
  }

  /** An honest proof folds to the root. */
  lemma ProofFolds(hash: HashFn, leaves: Level, i: nat)
    requires i < |leaves|
    ensures Fold(hash, ProofIn(LevelsOf(hash, leaves), i), leaves[i]) == Root(hash, leaves)
  {
    ProofInIsProofOf(hash, leaves, i);
    ProofOfFolds(hash, leaves, i);
  }

  /** An honest proof has at most ceil(log2 n) steps. */
  lemma {:induction false} ProofIsShort(hash: HashFn, leaves: Level, i: nat)
    requires i < |leaves|
    ensures |ProofIn(LevelsOf(hash, leaves), i)| <= CeilLog2(|leaves|)
    decreases |leaves|
  {
    if |leaves| > 1 {
      ProofBelow(hash, leaves, i);
      ProofIsShort(hash, NextLevel(hash, leaves), i / 2);
    }
  }

  /** For position i of n leaves, on which side the siblings stand: left of an odd position, none for an odd end. */
  function DirectionsAt(n: nat, i: nat): seq<bool>
    requires i < n
    decreases n
  {
    if n == 1 then []
    else (if i == n - 1 && n % 2 == 1 then [] else [i % 2 == 1]) + DirectionsAt((n + 1) / 2, i / 2)
  }

  lemma DirectionsFirst(s: Step, rest: seq<Step>)
    ensures Directions([s] + rest) == [s.onLeft] + Directions(rest)
  {
  }

  /** The sides of an honest proof are those of its position. */
  lemma {:induction false} ProofDirections(hash: HashFn, leaves: Level, i: nat)
    requires i < |leaves|
    ensures Directions(ProofIn(LevelsOf(hash, leaves), i)) == DirectionsAt(|leaves|, i)
    decreases |leaves|
  {
    if |leaves| > 1 {
      var rest := ProofIn(LevelsOf(hash, NextLevel(hash, leaves)), i / 2);
      ProofBelow(hash, leaves, i);
      ProofDirections(hash, NextLevel(hash, leaves), i / 2);
      if IsOddEnd(|leaves|, i) {
        assert [] + rest == rest;
        assert [] + DirectionsAt((|leaves| + 1) / 2, i / 2) == DirectionsAt((|leaves| + 1) / 2, i / 2);
      } else {
        DirectionsFirst(SiblingStep(leaves, i), rest);
      }
    }
  }

  lemma {:induction false} EntriesRoundTrip(steps: seq<Step>)
    ensures ParseEntries(ToEntries(steps)) == Ok(steps)
    ensures |ToEntries(steps)| == |steps|
  {
    if steps != [] {
      EntriesRoundTrip(steps[1..]);
      HexRoundTrip(steps[0].sibling);
      assert ToEntries(steps)[1..] == ToEntries(steps[1..]);
      assert steps == [steps[0]] + steps[1..];
    }
  }

  /** The verifier accepts the printed proof of every leaf against the printed root. */
  lemma HonestProofAccepted(hash: HashFn, leaves: Level, i: nat)
    requires i < |leaves|
    ensures Validate(hash, ToEntries(ProofIn(LevelsOf(hash, leaves), i)), ToHex(leaves[i]), ToHex(Root(hash, leaves)))
         == Ok(true)
  {
    var proof := ProofIn(LevelsOf(hash, leaves), i);
    ProofFolds(hash, leaves, i);
    EntriesRoundTrip(proof);
    HexRoundTrip(leaves[i]);
    HexRoundTrip(Root(hash, leaves));
  }

  /**
   What one entry does to the rest of the verification: a left sibling is hashed before the
   running value, a right one after it; unreadable hex on the left leaves the right one.
   */
  lemma EntryStep(
    hash: HashFn, sibling: Bytes, other: Option<string>, rest: seq<ProofEntry>, target: Bytes, root: string)
    ensures Validate(hash, [ProofEntry(Some(ToHex(sibling)), other)] + rest, ToHex(target), root)
         == Validate(hash, rest, ToHex(hash(sibling + target)), root)
    ensures other.None? || FromHex(other.value).Err? ==>
              Validate(hash, [ProofEntry(other, Some(ToHex(sibling)))] + rest, ToHex(target), root)
              == Validate(hash, rest, ToHex(hash(target + sibling)), root)
  {
    HexRoundTrip(sibling);
    HexRoundTrip(target);
    HexRoundTrip(hash(sibling + target));
    HexRoundTrip(hash(target + sibling));
    var left, right := ProofEntry(Some(ToHex(sibling)), other), ProofEntry(other, Some(ToHex(sibling)));
    assert ([left] + rest)[1..] == rest && ([right] + rest)[1..] == rest;
    if ParseEntries(rest).Ok? {
      FoldFirst(hash, Step(true, sibling), ParseEntries(rest).value, target);
      FoldFirst(hash, Step(false, sibling), ParseEntries(rest).value, target);
    }
  }

  // ---------- Binding ----------

  /** The pair of colliding inputs, if any, that two folds to one value pass through. */
  function FindCollision(hash: HashFn, a: seq<Step>, ta: Bytes, b: seq<Step>, tb: Bytes): Option<(Bytes, Bytes)>
    requires |a| == |b|
  {
    if a == [] then None
    else
      var x, y := HashInput(a[0], ta), HashInput(b[0], tb);
      if Collision(hash, x, y) then Some((x, y))
      else FindCollision(hash, a[1..], hash(x), b[1..], hash(y))
  }

  /** Two folds over the same directions that meet either never differed or show a collision. */
  lemma {:induction false} FoldBinds(hash: HashFn, a: seq<Step>, ta: Bytes, b: seq<Step>, tb: Bytes)
    requires Directions(a) == Directions(b) && |a| == |b| && |ta| == |tb|
    requires Fold(hash, a, ta) == Fold(hash, b, tb)
    ensures match FindCollision(hash, a, ta, b, tb)
            case None => a == b && ta == tb
            case Some((x, y)) => Collision(hash, x, y)
  {
    if a != [] {
      var x, y := HashInput(a[0], ta), HashInput(b[0], tb);
      assert a[0].onLeft == Directions(a)[0] == Directions(b)[0] == b[0].onLeft;
      assert Directions(a[1..]) == Directions(a)[1..] == Directions(b)[1..] == Directions(b[1..]);
      if !Collision(hash, x, y) {
        FoldBinds(hash, a[1..], hash(x), b[1..], hash(y));
        if FindCollision(hash, a[1..], hash(x), b[1..], hash(y)).None? {
          assert x == y;
          SplitInput(a[0], ta, b[0], tb);
          assert a == [a[0]] + a[1..] && b == [b[0]] + b[1..];
        }
      }
    }
  }

  lemma SplitInput(s: Step, ta: Bytes, t: Step, tb: Bytes)
    requires s.onLeft == t.onLeft && |ta| == |tb| && HashInput(s, ta) == HashInput(t, tb)
    ensures s == t && ta == tb
  {
    var n := |ta|;
    var whole := HashInput(s, ta);
    if s.onLeft {
      assert whole[|whole| - n..] == ta && whole[|whole| - n..] == tb;
      assert whole[..|whole| - n] == s.sibling && whole[..|whole| - n] == t.sibling;
    } else {
      assert whole[..n] == ta && whole[..n] == tb;
      assert whole[n..] == s.sibling && whole[n..] == t.sibling;
    }
  }

  /**
   Whatever proof the verifier accepts for position i of a made tree, with the
   directions of position i and a target as long as leaf i: the target is leaf i
   and the proof is the honest one, or `FindCollision` returns a collision.
   */
  lemma AcceptedProofBinds(hash: HashFn, leaves: Level, i: nat, proof: seq<ProofEntry>, target: string)
    requires i < |leaves|
    requires Validate(hash, proof, target, ToHex(Root(hash, leaves))) == Ok(true)
    requires |FromHex(target).value| == |leaves[i]|
    requires Directions(ParseEntries(proof).value) == Directions(ProofIn(LevelsOf(hash, leaves), i))
    ensures var honest := ProofIn(LevelsOf(hash, leaves), i);
            var steps := ParseEntries(proof).value;
            var value := FromHex(target).value;
            |steps| == |honest| &&
            match FindCollision(hash, steps, value, honest, leaves[i])
            case None => value == leaves[i] && steps == honest
            case Some((x, y)) => Collision(hash, x, y)
  {
    var honest := ProofIn(LevelsOf(hash, leaves), i);
    var steps := ParseEntries(proof).value;
    assert |steps| == |Directions(steps)| && |honest| == |Directions(honest)|;
    HexRoundTrip(Root(hash, leaves));
    ProofFolds(hash, leaves, i);
    FoldBinds(hash, steps, FromHex(target).value, honest, leaves[i]);
  }

  predicate SameShape(a: Level, b: Level) {
    |a| == |b| && forall i :: 0 <= i < |a| ==> |a[i]| == |b[i]|
  }

  /** The first pair of sibling inputs, in level order from the top, that differ under one digest. */
  function FindTreeCollision(hash: HashFn, a: Level, b: Level): Option<(Bytes, Bytes)>
    requires |a| == |b|
    decreases |a|
  {
    if |a| <= 1 then None
    else
      var above := FindTreeCollision(hash, NextLevel(hash, a), NextLevel(hash, b));
      if above.Some? then above else FindPairCollision(hash, a, b, 0)
  }

  function FindPairCollision(hash: HashFn, a: Level, b: Level, p: nat): Option<(Bytes, Bytes)>
    requires |a| == |b|
    decreases |a| - 2 * p
  {
    if 2 * p + 1 >= |a| then None
    else
      var x, y := a[2 * p] + a[2 * p + 1], b[2 * p] + b[2 * p + 1];
      if Collision(hash, x, y) then Some((x, y)) else FindPairCollision(hash, a, b, p + 1)
  }

  lemma {:induction false} PairCollisionFound(hash: HashFn, a: Level, b: Level, p: nat)
    requires |a| == |b|
    ensures match FindPairCollision(hash, a, b, p)
            case Some((x, y)) => Collision(hash, x, y)
            case None => forall q :: p <= q && 2 * q + 1 < |a| ==>
                           !Collision(hash, a[2 * q] + a[2 * q + 1], b[2 * q] + b[2 * q + 1])
    decreases |a| - 2 * p
  {
    if 2 * p + 1 < |a| {
      PairCollisionFound(hash, a, b, p + 1);
    }
  }

  lemma SplitAt(x1: Bytes, x2: Bytes, y1: Bytes, y2: Bytes)
    requires |x1| == |y1| && x1 + x2 == y1 + y2
    ensures x1 == y1 && x2 == y2
  {
    assert (x1 + x2)[..|x1|] == x1 && (y1 + y2)[..|x1|] == y1;
    assert (x1 + x2)[|x1|..] == x2 && (y1 + y2)[|x1|..] == y2;
  }

  /** The root commits to the whole list: equal roots of equally shaped leaves mean equal leaves, or a collision is found. */
  lemma {:induction false} RootBinds(hash: HashFn, a: Level, b: Level)
    requires a != [] && SameShape(a, b)
    requires Root(hash, a) == Root(hash, b)
    ensures match FindTreeCollision(hash, a, b)
            case None => a == b
            case Some((x, y)) => Collision(hash, x, y)
    decreases |a|
  {
    if |a| > 1 {
      var na, nb := NextLevel(hash, a), NextLevel(hash, b);
      forall p | 0 <= p < |na|
        ensures |na[p]| == |nb[p]|
      {
        assert |Parent(hash, a, p)| == |Parent(hash, b, p)|;
      }
      RootBinds(hash, na, nb);
      PairCollisionFound(hash, a, b, 0);
      if FindTreeCollision(hash, a, b).None? {
        forall i | 0 <= i < |a|
          ensures a[i] == b[i]
        {
          var p := i / 2;
          assert na[p] == Parent(hash, a, p) && nb[p] == Parent(hash, b, p);
          if 2 * p + 1 < |a| {
            assert !Collision(hash, a[2 * p] + a[2 * p + 1], b[2 * p] + b[2 * p + 1]);
            SplitAt(a[2 * p], a[2 * p + 1], b[2 * p], b[2 * p + 1]);
          }
        }
      }
    }
  }

  // ---------- The recursive tree ----------

  /** Largest power of two below n. */
  function SplitPoint(n: nat): (k: nat)
    requires n >= 2
    ensures 1 <= k < n <= 2 * k
  {
    if n == 2 then 1 else 2 * SplitPoint((n + 1) / 2)
  }

  lemma {:induction false} SplitPointIsPowerOfTwo(n: nat)
    requires n >= 2
    ensures exists d: nat :: SplitPoint(n) == Pow2(d)
  {
    if n == 2 {
      assert Pow2(0) == 1;
    } else {
      SplitPointIsPowerOfTwo((n + 1) / 2);
      var d: nat :| SplitPoint((n + 1) / 2) == Pow2(d);
      assert Pow2(d + 1) == SplitPoint(n);
    }
  }

  /** The tree of section 2.1 of RFC 6962 without its prefixes: split at the largest power of two below n. */
  function RecursiveRoot(hash: HashFn, leaves: Level): Bytes
    requires leaves != []
    decreases |leaves|
  {
    if |leaves| == 1 then leaves[0]
    else
      var k := SplitPoint(|leaves|);
      hash(RecursiveRoot(hash, leaves[..k]) + RecursiveRoot(hash, leaves[k..]))
  }

  /** Hashing one level first does not change the recursive root. */
  lemma {:induction false} RecursiveRootOfNext(hash: HashFn, leaves: Level)
    requires leaves != []
    ensures RecursiveRoot(hash, NextLevel(hash, leaves)) == RecursiveRoot(hash, leaves)
    decreases |leaves|
  {
    var next := NextLevel(hash, leaves);
    if |leaves| == 1 {
      assert next == leaves;
    } else if |leaves| == 2 {
      assert SplitPoint(2) == 1;
    } else {
      var k := SplitPoint(|leaves|);
      var h := SplitPoint(|next|);
      assert k == 2 * h;
      assert next[..h] == NextLevel(hash, leaves[..k]);
      assert next[h..] == NextLevel(hash, leaves[k..]);
      RecursiveRootOfNext(hash, leaves[..k]);
      RecursiveRootOfNext(hash, leaves[k..]);
    }
  }

  /** The level-by-level tree with promotion has the root of the recursive tree. */
  lemma {:induction false} RootIsRecursiveRoot(hash: HashFn, leaves: Level)
    requires leaves != []
    ensures Root(hash, leaves) == RecursiveRoot(hash, leaves)
    decreases |leaves|
  {
    if |leaves| > 1 {
      RootIsRecursiveRoot(hash, NextLevel(hash, leaves));
      RecursiveRootOfNext(hash, leaves);
    }
  }

  // ---------- Updating is rebuilding, exactly when ----------

  /** Every odd end node on the way up from i is its own hash. */
  predicate OddEndsFixed(hash: HashFn, leaves: Level, i: nat)
    requires i < |leaves|
    decreases |leaves|
  {
    |leaves| == 1 ||
    (&& (IsOddEnd(|leaves|, i) ==> hash(leaves[i]) == leaves[i])
     && OddEndsFixed(hash, NextLevel(hash, leaves), i / 2))
  }

  /** No odd end node on the way up from i, in a tree of n leaves. */
  predicate PathMeetsNoOddEnd(n: nat, i: nat)
    requires i < n
    decreases n
  {
    n == 1 || (!IsOddEnd(n, i) && PathMeetsNoOddEnd((n + 1) / 2, i / 2))
  }

  lemma NextAfterUpdate(hash: HashFn, leaves: Level, i: nat, value: Bytes)
    requires i < |leaves|
    ensures var updated := leaves[i := value];
            NextLevel(hash, updated) == NextLevel(hash, leaves)[i / 2 := Parent(hash, updated, i / 2)]
  {
    var updated := leaves[i := value];
    forall p | 0 <= p < |NextLevel(hash, leaves)| && p != i / 2
      ensures Parent(hash, updated, p) == Parent(hash, leaves, p)
    {
    }
  }

  lemma UpdateBelow(hash: HashFn, leaves: Level, i: nat, value: Bytes)
    requires i < |leaves| && |leaves| > 1
    ensures UpdateLevels(hash, LevelsOf(hash, leaves), i, value)
         == UpdateLevels(hash, LevelsOf(hash, NextLevel(hash, leaves)), i / 2, Refreshed(hash, leaves[i := value], i / 2))
          + [leaves[i := value]]
  {
    LevelsBelow(hash, leaves);
  }

  lemma ConsLastInjective(a: seq<Level>, b: seq<Level>, last: Level)
    ensures a + [last] == b + [last] <==> a == b
  {
    assert (a + [last])[..|a|] == a && (b + [last])[..|b|] == b;
  }

  /** The refreshed node is the rebuilt one, except that an odd end is hashed instead of promoted. */
  lemma RefreshedNode(hash: HashFn, level: Level, i: nat)
    requires i < |level|
    ensures var p := i / 2;
            if IsOddEnd(|level|, i) then Refreshed(hash, level, p) == hash(level[i]) && Parent(hash, level, p) == level[i]
            else Refreshed(hash, level, p) == Parent(hash, level, p)
  {
    if IsOddEnd(|level|, i) {
      assert level[i] + [] == level[i];
    }
  }

  /**
   For every tree, position and value: updating equals rebuilding if and only if
   each odd end node on the path happens to be its own hash.
   */
  lemma {:induction false} UpdateIsRebuildExactly(hash: HashFn, leaves: Level, i: nat, value: Bytes)
    requires i < |leaves|
    ensures UpdateLevels(hash, LevelsOf(hash, leaves), i, value) == LevelsOf(hash, leaves[i := value])
       <==> OddEndsFixed(hash, leaves[i := value], i)
    decreases |leaves|
  {
    var updated := leaves[i := value];
    if |leaves| > 1 {
      var next, p := NextLevel(hash, leaves), i / 2;
      var node := Refreshed(hash, updated, p);
      var above := UpdateLevels(hash, LevelsOf(hash, next), p, node);
      var rebuilt := LevelsOf(hash, NextLevel(hash, updated));
      UpdateBelow(hash, leaves, i, value);
      ConsLastInjective(above, rebuilt, updated);
      NextAfterUpdate(hash, leaves, i, value);
      RefreshedNode(hash, updated, i);
      UpdateIsRebuildExactly(hash, next, p, node);
      if node != Parent(hash, updated, p) {
        LastLevelDiffers(above, rebuilt, p);
      }
    }
  }

  lemma LastLevelDiffers(a: seq<Level>, b: seq<Level>, p: nat)
    requires a != [] && b != [] && p < |a[|a| - 1]| && p < |b[|b| - 1]|
    requires a[|a| - 1][p] != b[|b| - 1][p]
    ensures a != b
  {
  }

  lemma {:induction false} CleanPathIsFixed(hash: HashFn, leaves: Level, i: nat)
    requires i < |leaves| && PathMeetsNoOddEnd(|leaves|, i)
    ensures OddEndsFixed(hash, leaves, i)
    decreases |leaves|
  {
    if |leaves| > 1 {
      CleanPathIsFixed(hash, NextLevel(hash, leaves), i / 2);
    }
  }

  /** With no odd end on the path, updating a made tree gives the made tree of the updated leaves. */
  lemma UpdateRefinesRebuild(hash: HashFn, leaves: Level, i: nat, value: Bytes)
    requires i < |leaves| && PathMeetsNoOddEnd(|leaves|, i)
    ensures UpdateLevels(hash, LevelsOf(hash, leaves), i, value) == LevelsOf(hash, leaves[i := value])
  {
    CleanPathIsFixed(hash, leaves[i := value], i);
    UpdateIsRebuildExactly(hash, leaves, i, value);
  }

  predicate IsPowerOfTwo(n: nat) {
    n == 1 || (n > 1 && n % 2 == 0 && IsPowerOfTwo(n / 2))
  }

  predicate AllPathsMeetNoOddEnd(n: nat)
  {
    forall i: nat | i < n :: PathMeetsNoOddEnd(n, i)
  }

  lemma EvenLevelPath(half: nat, i: nat)
    requires i < 2 * half
    ensures PathMeetsNoOddEnd(2 * half, i) == PathMeetsNoOddEnd(half, i / 2)
  {
    assert (2 * half + 1) / 2 == half;
    assert !IsOddEnd(2 * half, i);
  }

  lemma EvenLevelPaths(half: nat)
    requires half >= 1
    ensures AllPathsMeetNoOddEnd(2 * half) == AllPathsMeetNoOddEnd(half)
  {
    forall i: nat | i < 2 * half
      ensures PathMeetsNoOddEnd(2 * half, i) == PathMeetsNoOddEnd(half, i / 2)
    {
      EvenLevelPath(half, i);
    }
    if !AllPathsMeetNoOddEnd(half) {
      var p: nat :| p < half && !PathMeetsNoOddEnd(half, p);
      var i: nat := 2 * p;
      assert i / 2 == p && !PathMeetsNoOddEnd(2 * half, i);
    }
  }

  /** Every position is safe to update exactly when the number of leaves is a power of two. */
  lemma {:induction false} AllPathsCleanExactly(n: nat)
    requires n >= 1
    ensures AllPathsMeetNoOddEnd(n) <==> IsPowerOfTwo(n)
  {
    if n % 2 == 1 {
      if n > 1 {
        var last: nat := n - 1;
        assert IsOddEnd(n, last) && !PathMeetsNoOddEnd(n, last);
      }
    } else {
      EvenLevelPaths(n / 2);
      AllPathsCleanExactly(n / 2);
      assert n == 2 * (n / 2);
    }
  }

  /** Updating the last of an odd number of leaves with a value that is no digest never gives the rebuilt tree. */
  lemma UpdateOfOddEndDiffers(hash: HashFn, leaves: Level, value: Bytes)
    requires |leaves| > 1 && |leaves| % 2 == 1 && |value| != DIGEST_LENGTH
    ensures var last := |leaves| - 1;
            UpdateLevels(hash, LevelsOf(hash, leaves), last, value) != LevelsOf(hash, leaves[last := value])
  {
    var last := |leaves| - 1;
    OddEndNotFixed(hash, leaves[last := value], last);
    UpdateIsRebuildExactly(hash, leaves, last, value);
  }

  /** An odd end that is no digest cannot be its own hash. */
  lemma OddEndNotFixed(hash: HashFn, leaves: Level, i: nat)
    requires i < |leaves| && |leaves| > 1 && IsOddEnd(|leaves|, i) && |leaves[i]| != DIGEST_LENGTH
    ensures !OddEndsFixed(hash, leaves, i)
  {
    assert |hash(leaves[i])| == DIGEST_LENGTH;
  }
}
