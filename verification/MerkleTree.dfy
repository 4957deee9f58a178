/**
 The `MerkleTree` object of storage/shared/merkle.py. Its lists are objects, so
 that the source's sharing is kept: after `MakeTree` the bottom level is the very
 list `leaves`, after `Deserialize` it is a copy.
 */
module MerkleTree {
  import opened Sequences
  import opened Wrappers
  import opened Text
  import opened Hashing
  import opened MerkleSpec
  import opened MerkleTheory

  /** A Python list of nodes. */
  class NodeList {
    var nodes: Level

    constructor (nodes: Level)
      ensures this.nodes == nodes
    {
      this.nodes := nodes;
    }
  }

  /** The lists' contents, in order. */
  ghost function Contents(lists: seq<NodeList>): (r: seq<Level>)
    reads lists
    ensures |r| == |lists|
    ensures forall x :: 0 <= x < |lists| ==> r[x] == lists[x].nodes
  {
    seq(|lists|, x requires 0 <= x < |lists| reads lists => lists[x].nodes)
  }

  ghost predicate Holds(lists: seq<NodeList>, values: seq<Level>)
    reads lists
  {
    |lists| == |values| && forall x :: 0 <= x < |lists| ==> lists[x].nodes == values[x]
  }

  lemma HoldsContents(lists: seq<NodeList>, values: seq<Level>)
    requires Holds(lists, values)
    ensures Contents(lists) == values
  {
  }

  /** The JSON object that `serialize` dumps. */
  datatype TreeJson = TreeJson(leaves: seq<string>, levels: Option<seq<seq<string>>>, isReady: bool)

  /** Everything observable of a tree, without its sharing. */
  datatype TreeView = TreeView(leaves: Level, levels: Option<seq<Level>>, isReady: bool)

  /** A ready tree has a tree's shape over its leaves. */
  predicate WellShaped(v: TreeView) {
    v.isReady ==>
      if v.levels.None? then v.leaves == []
      else v.levels.value != [] && Shaped(v.levels.value) && |v.leaves| == |v.levels.value[|v.levels.value| - 1]|
  }

  /** The tree is ready and its levels are those of its leaves. */
  predicate IsMade(hash: HashFn, v: TreeView) {
    v.isReady && v.leaves != [] && v.levels == Some(LevelsOf(hash, v.leaves))
  }

  /** The view after a leaf is updated; the list of leaves follows only when it is shared with the bottom level. */
  function UpdatedView(hash: HashFn, v: TreeView, index: nat, value: Bytes, shared: bool): TreeView
    requires WellShaped(v) && v.isReady && v.levels.Some? && index < |v.leaves|
  {
    v.(levels := Some(UpdateLevels(hash, v.levels.value, index, value)),
       leaves := if shared then v.leaves[index := value] else v.leaves)
  }

  class MerkleTree {
    const hash: HashFn
    var leaves: NodeList
    var levels: Option<seq<NodeList>>
    var isReady: bool

    ghost function LevelLists(): seq<NodeList>
      reads this
    {
      if levels.Some? then levels.value else []
    }

    ghost function View(): TreeView
      reads this, leaves, LevelLists()
    {
      TreeView(leaves.nodes, if levels.Some? then Some(Contents(levels.value)) else None, isReady)
    }

    /** No two levels share a list, and only the bottom one may be `leaves`. */
    ghost predicate SoundSharing()
      reads this
    {
      levels.Some? ==>
        && levels.value != []
        && AllDistinct(levels.value)
        && (forall x :: 0 <= x < |levels.value| - 1 ==> levels.value[x] != leaves)
    }

    ghost predicate Valid()
      reads this, leaves, LevelLists()
    {
      SoundSharing() && WellShaped(View())
    }

    /** The bottom level is the list of leaves itself. */
    ghost predicate Aliased()
      reads this
    {
      levels.Some? && levels.value != [] && levels.value[|levels.value| - 1] == leaves
    }

    ghost predicate Made()
      reads this, leaves, LevelLists()
    {
      IsMade(hash, View())
    }

    constructor (hash: HashFn)
      ensures Valid() && this.hash == hash
      ensures View() == TreeView([], None, false) && fresh(leaves)
    {
      this.hash := hash;
      leaves := new NodeList([]);
      levels := None;
      isReady := false;
    }

    method ResetTree()
      modifies this
      ensures Valid() && View() == TreeView([], None, false) && fresh(leaves)
    {
      leaves := new NodeList([]);
      levels := None;
      isReady := false;
    }

    /** `add_leaf`: values are hexadecimal, or text to be hashed; a bad value stops half way. */
    method AddLeaf(values: seq<string>, doHash: bool) returns (r: Result<()>)
      requires Valid()
      modifies this, leaves
      ensures Valid() && !isReady && leaves == old(leaves) && levels == old(levels)
      ensures exists k: nat ::
                && k <= |values|
                && DecodedLeaves(hash, values[..k], doHash).Ok?
                && leaves.nodes == old(leaves.nodes) + DecodedLeaves(hash, values[..k], doHash).value
                && (r.Ok? ==> k == |values|)
                && (r.Err? ==> k < |values| && DecodedLeaf(hash, values[k], doHash) == Err(r.error))
    {
      isReady := false;
      ghost var before, decoded: Level := leaves.nodes, [];
      for i := 0 to |values|
        invariant Valid() && !isReady && leaves == old(leaves) && levels == old(levels)
        invariant DecodedLeaves(hash, values[..i], doHash) == Ok(decoded)
        invariant leaves.nodes == before + decoded
      {
        var v := if doHash then ToHex(hash(Utf8(values[i]))) else values[i];
        var leaf := FromHex(v);
        if leaf.Err? {
          return Err(leaf.error);
        }
        DecodedLeavesAppend(hash, values[..i], values[i], doHash);
        TakeNext(values, i);
        leaves.nodes := leaves.nodes + [leaf.value];
        decoded := decoded + [leaf.value];
      }
      TakeAll(values);
      return Ok(());
    }

    /** `_calculate_next_level` */
    method CalculateNextLevel()
      requires levels.Some? && levels.value != []
      modifies this`levels
      ensures levels.Some? && levels.value != [] && fresh(levels.value[0])
      ensures levels.value == [levels.value[0]] + old(levels).value
      ensures levels.value[0].nodes == NextLevel(hash, old(levels).value[0].nodes)
    {
      var bottom := levels.value[0].nodes;
      var solo: Option<Bytes> := None;
      var n := |bottom|;
      if n % 2 == 1 {
        solo := Some(bottom[n - 1]);
        n := n - 1;
      }
      var newLevel := [];
      var i := 0;
      while i < n
        invariant 0 <= i <= n && i % 2 == 0
        invariant newLevel == NextLevel(hash, bottom)[..i / 2]
      {
        newLevel := newLevel + [hash(bottom[i] + bottom[i + 1])];
        i := i + 2;
      }
      if solo.Some? {
        newLevel := newLevel + [solo.value];
      }
      assert newLevel == NextLevel(hash, bottom);
      var list := new NodeList(newLevel);
      levels := Some([list] + levels.value);
    }

    /** `make_tree` terminates and its levels are those of the leaves; with no leaves it only declares itself ready. */
    method MakeTree()
      requires Valid()
      modifies this
      ensures isReady && leaves == old(leaves) && leaves.nodes == old(leaves.nodes)
      ensures leaves.nodes == [] ==> levels == old(levels)
      ensures leaves.nodes != [] ==> Made() && Aliased()
      ensures leaves.nodes != [] || levels.None? ==> Valid()
    {
      isReady := false;
      if |leaves.nodes| > 0 {
        ghost var target := LevelsOf(hash, leaves.nodes);
        BuildLevels();
        HoldsContents(levels.value, target);
        isReady := true;
        MadeIsWellShaped(hash, View());
      } else {
        isReady := true;
      }
    }

    /** The loop of `make_tree`: the top level strictly shrinks until one node is left. */
    method BuildLevels()
      requires leaves.nodes != []
      modifies this`levels
      ensures levels.Some? && Holds(levels.value, LevelsOf(hash, leaves.nodes))
      ensures SoundSharing() && Aliased()
    {
      levels := Some([leaves]);
      ghost var below: seq<Level> := [];
      ghost var target := LevelsOf(hash, leaves.nodes);
      while |levels.value[0].nodes| > 1
        invariant levels.Some? && |levels.value| == |below| + 1 && AllDistinct(levels.value)
        invariant levels.value[|below|] == leaves && leaves.nodes == old(leaves.nodes)
        invariant forall x :: 0 <= x < |below| ==> fresh(levels.value[x])
        invariant levels.value[0].nodes != [] && Holds(levels.value, [levels.value[0].nodes] + below)
        invariant target == LevelsOf(hash, levels.value[0].nodes) + below
        decreases |levels.value[0].nodes|
      {
        LevelsOfUnfold(hash, levels.value[0].nodes, below);
        below := [levels.value[0].nodes] + below;
        CalculateNextLevel();
      }
    }

    /** `get_merkle_root` */
    method GetMerkleRoot() returns (root: Option<string>)
      requires Valid()
      ensures root == if isReady && levels.Some? then Some(ToHex(levels.value[0].nodes[0])) else None
      ensures Made() ==> root == Some(ToHex(Root(hash, leaves.nodes)))
    {
      if isReady {
        if levels.Some? {
          root := Some(ToHex(levels.value[0].nodes[0]));
          if Made() {
            LevelsTopIsRoot(hash, leaves.nodes);
          }
        } else {
          root := None;
        }
      } else {
        root := None;
      }
    }

    /** `get_leaf` */
    method GetLeaf(index: nat) returns (r: Result<string>)
      ensures r == if index < |leaves.nodes| then Ok(ToHex(leaves.nodes[index])) else Err(IndexError)
    {
      if index < |leaves.nodes| {
        r := Ok(ToHex(leaves.nodes[index]));
      } else {
        r := Err(IndexError);
      }
    }

    /** `get_proof`: the siblings from the leaf up, or nothing when the tree is not ready or has no such leaf. */
    method GetProof(index: int) returns (proof: Option<seq<ProofEntry>>)
      requires Valid()
      ensures proof == if levels.None? || !isReady || !(0 <= index < |leaves.nodes|) then None
                       else Some(ToEntries(ProofIn(Contents(levels.value), index)))
      ensures Made() && 0 <= index < |leaves.nodes| ==>
                proof == Some(HonestEntries(hash, leaves.nodes, index))
    {
      if levels.None? {
        return None;
      } else if !isReady || index > |leaves.nodes| - 1 || index < 0 {
        return None;
      }
      EntriesFromIsProof(Contents(levels.value), index);
      var entries := ClimbProof(levels.value, index, Contents(levels.value));
      return Some(entries);
    }

    /** The loop of `get_proof`, from the bottom level to the one below the root. */
    static method ClimbProof(lists: seq<NodeList>, index: nat, ghost values: seq<Level>) returns (entries: seq<ProofEntry>)
      requires values != [] && Halving(values) && index < |values[|values| - 1]|
      requires Holds(lists, values)
      ensures entries == EntriesFrom(values, |values| - 1, index)
    {
      entries := [];
      var i := index;
      var x := |lists| - 1;
      ghost var rest := EntriesFrom(values, x, i);
      ghost var target := rest;
      while x > 0
        invariant 0 <= x < |lists| && 0 <= i < |values[x]|
        invariant rest == EntriesFrom(values, x, i) && target == entries + rest
        decreases x
      {
        var entry := SiblingEntry(lists[x].nodes, i);
        rest := Climb(values, x, i, entries, entry, rest);
        entries := entries + entry;
        i := i / 2;
        x := x - 1;
      }
    }

    /** One iteration: the entry for node i of a level, none for an odd end. */
    static method SiblingEntry(level: Level, index: nat) returns (entry: seq<ProofEntry>)
      requires index < |level|
      ensures entry == EntryAt(level, index)
    {
      var levelLen := |level|;
      if index == levelLen - 1 && levelLen % 2 == 1 {
        return [];
      }
      var isRightNode := index % 2 == 1;
      var siblingIndex := if isRightNode then index - 1 else index + 1;
      var sibling := ToHex(level[siblingIndex]);
      return [if isRightNode then ProofEntry(Some(sibling), None) else ProofEntry(None, Some(sibling))];
    }

    /**
     `update_leaf`: on a ready tree the levels become the refreshed ones. The list of
     leaves sees the new value exactly when the bottom level is that list.
     */
    method UpdateLeaf(index: nat, newValue: string) returns (r: Result<()>)
      requires Valid()
      modifies LevelLists()
      ensures Valid()
      ensures r == if !isReady then Ok(())
                   else if FromHex(newValue).Err? then Err(FromHex(newValue).error)
                   else if levels.None? then Err(TypeError)
                   else if index >= old(|leaves.nodes|) then Err(IndexError)
                   else Ok(())
      ensures View() == if !isReady || r.Err? then old(View())
                        else UpdatedView(hash, old(View()), index, FromHex(newValue).value, Aliased())
    {
      if !isReady {
        return Ok(());
      }
      var value := FromHex(newValue);
      if value.Err? {
        return Err(value.error);
      }
      if levels.None? {
        return Err(TypeError);
      }
      if index >= |levels.value[|levels.value| - 1].nodes| {
        return Err(IndexError);
      }
      SetLeaf(index, value.value);
      return Ok(());
    }

    method SetLeaf(index: nat, value: Bytes)
      requires Valid() && isReady && levels.Some? && index < |leaves.nodes|
      modifies LevelLists()
      ensures Valid()
      ensures View() == UpdatedView(hash, old(View()), index, value, Aliased())
    {
      ghost var v := View();
      ghost var updated := UpdatedView(hash, v, index, value, Aliased());
      UpdatedIsWellShaped(hash, v, index, value, Aliased());
      RefreshLevels(hash, levels.value, leaves, index, value, v.levels.value, updated.levels.value);
      assert View() == updated;
    }

    /** The levels become the refreshed ones, and `leaves` follows when it is the bottom one of them. */
    static method RefreshLevels(
      hash: HashFn, lists: seq<NodeList>, ghost leaves: NodeList, index: nat, value: Bytes,
      ghost before: seq<Level>, ghost after: seq<Level>)
      requires before != [] && Shaped(before) && index < |before[|before| - 1]|
      requires AllDistinct(lists) && Contents(lists) == before && after == UpdateLevels(hash, before, index, value)
      requires forall x :: 0 <= x < |lists| - 1 ==> lists[x] != leaves
      modifies lists
      ensures Contents(lists) == after
      ensures leaves.nodes == if lists[|lists| - 1] == leaves then old(leaves.nodes)[index := value] else old(leaves.nodes)
    {
      UpdateRefreshes(hash, before, index, value);
      RefreshPath(hash, lists, index, value, before, after);
    }

    /** Write the leaf and then, level by level, its ancestors. */
    static method RefreshPath(
      hash: HashFn, lists: seq<NodeList>, index: nat, value: Bytes, ghost before: seq<Level>, ghost after: seq<Level>)
      requires before != [] && |after| == |before| && PathRefreshed(hash, before, after, index, value)
      requires AllDistinct(lists) && Holds(lists, before)
      modifies lists
      ensures Holds(lists, after)
    {
      var x := |lists| - 1;
      var i: nat := index;
      lists[x].nodes := lists[x].nodes[index := value];
      ghost var up: nat := 0;
      while x > 0
        invariant 0 <= x < |lists| && up == |lists| - 1 - x && i == Ancestor(index, up)
        invariant forall y :: 0 <= y < x ==> lists[y].nodes == before[y]
        invariant forall y :: x <= y < |lists| ==> lists[y].nodes == after[y]
        decreases x
      {
        up := up + 1;
        assert NodeRefreshed(hash, before, after, x - 1, Ancestor(index, up));
        AncestorNext(index, up);
        i := RewriteParent(hash, lists[x], lists[x - 1], i);
        x := x - 1;
      }
    }

    /** One iteration: the parent of node i of a level is hashed from its children. */
    static method RewriteParent(hash: HashFn, level: NodeList, above: NodeList, i: nat) returns (parentIndex: nat)
      requires level != above && 2 * (i / 2) < |level.nodes| && i / 2 < |above.nodes|
      modifies above
      ensures parentIndex == i / 2
      ensures above.nodes == old(above.nodes)[i / 2 := Refreshed(hash, level.nodes, i / 2)]
    {
      parentIndex := i / 2;
      var leftChild := level.nodes[parentIndex * 2];
      var rightChild := if parentIndex * 2 + 1 < |level.nodes| then level.nodes[parentIndex * 2 + 1] else [];
      var node: Bytes := hash(leftChild + rightChild);
      above.nodes := above.nodes[parentIndex := node];
    }

    /** `serialize`, up to the JSON text. */
    method Serialize() returns (json: TreeJson)
      requires Valid()
      ensures json == ToJson(View())
    {
      var hexLevels: Option<seq<seq<string>>> := None;
      if levels.Some? {
        var all := [];
        for x := 0 to |levels.value|
          invariant all == LevelsToHex(Contents(levels.value)[..x])
        {
          ghost var done := Contents(levels.value);
          LevelsToHexAppend(done[..x], levels.value[x].nodes);
          assert done[..x] + [done[x]] == done[..x + 1];
          all := all + [LevelToHex(levels.value[x].nodes)];
        }
        assert Contents(levels.value)[..|levels.value|] == Contents(levels.value);
        hexLevels := Some(all);
      }
      json := TreeJson(LevelToHex(leaves.nodes), hexLevels, isReady);
    }

    /** `deserialize`: a new tree that shares nothing, its bottom level a copy of its leaves. */
    static method Deserialize(hash: HashFn, json: TreeJson) returns (r: Result<MerkleTree>)
      ensures r.Ok? <==> FromJson(json).Ok?
      ensures r.Ok? ==> fresh(r.value) && fresh(r.value.leaves) && r.value.hash == hash
      ensures r.Ok? ==> r.value.View() == FromJson(json).value && !r.value.Aliased()
      ensures r.Ok? && WellShaped(FromJson(json).value) && json.levels != Some([]) ==> r.value.Valid()
      ensures r.Ok? ==> fresh(r.value.LevelLists())
    {
      var tree := new MerkleTree(hash);
      var leaves := LevelFromHex(json.leaves);
      if leaves.Err? {
        return Err(leaves.error);
      }
      tree.leaves := new NodeList(leaves.value);
      if json.levels.Some? {
        var lists := ReadLevels(json.levels.value);
        if lists.Err? {
          return Err(lists.error);
        }
        tree.levels := Some(lists.value);
      }
      tree.isReady := json.isReady;
      return Ok(tree);
    }

    /** The levels of a serialised tree, each in a new list. */
    static method ReadLevels(levels: seq<seq<string>>) returns (r: Result<seq<NodeList>>)
      ensures r.Ok? <==> LevelsFromHex(levels).Ok?
      ensures r.Err? ==> r.error == LevelsFromHex(levels).error
      ensures r.Ok? ==> AllDistinct(r.value) && (forall x :: 0 <= x < |r.value| ==> fresh(r.value[x]))
      ensures r.Ok? ==> Contents(r.value) == LevelsFromHex(levels).value
    {
      var lists: seq<NodeList> := [];
      ghost var target := LevelsFromHex(levels);
      PrependNothing(target);
      assert levels[0..] == levels;
      for x := 0 to |levels|
        invariant |lists| == x && AllDistinct(lists) && forall y :: 0 <= y < x ==> fresh(lists[y])
        invariant target == Prepend(Contents(lists), LevelsFromHex(levels[x..]))
      {
        var level := LevelFromHex(levels[x]);
        if level.Err? {
          return Err(level.error);
        }
        assert levels[x..][1..] == levels[x + 1..];
        ghost var parsed := Contents(lists);
        var list := new NodeList(level.value);
        lists := lists + [list];
        assert Contents(lists) == parsed + [level.value];
        PrependAppend(parsed, level.value, LevelsFromHex(levels[x + 1..]));
      }
      assert Contents(lists) + [] == Contents(lists);
      return Ok(lists);
    }
  }

  // ---------- Climbing ----------

  lemma UpdatedIsWellShaped(hash: HashFn, v: TreeView, index: nat, value: Bytes, shared: bool)
    requires WellShaped(v) && v.isReady && v.levels.Some? && index < |v.leaves|
    ensures WellShaped(UpdatedView(hash, v, index, value, shared))
    ensures var after := UpdateLevels(hash, v.levels.value, index, value);
            after[|after| - 1] == v.levels.value[|after| - 1][index := value]
  {
  }

  lemma MadeIsWellShaped(hash: HashFn, v: TreeView)
    requires IsMade(hash, v)
    ensures WellShaped(v)
  {
  }

  lemma LevelsOfUnfold(hash: HashFn, level: Level, below: seq<Level>)
    requires |level| > 1
    ensures LevelsOf(hash, level) + below == LevelsOf(hash, NextLevel(hash, level)) + ([level] + below)
  {
    Regroup(LevelsOf(hash, NextLevel(hash, level)), level, below);
  }

  lemma Regroup<T>(a: seq<T>, b: T, c: seq<T>)
    ensures (a + [b]) + c == a + ([b] + c)
  {
  }

  function EntryAt(level: Level, i: nat): seq<ProofEntry>
    requires i < |level|
  {
    if IsOddEnd(|level|, i) then [] else [ToEntry(SiblingStep(level, i))]
  }

  /** The entries from node i of level x up to the level below the root. */
  function EntriesFrom(levels: seq<Level>, x: nat, i: nat): seq<ProofEntry>
    requires x < |levels|
  {
    if x == 0 || i >= |levels[x]| then [] else EntryAt(levels[x], i) + EntriesFrom(levels, x - 1, i / 2)
  }

  /** The position, some levels up, of the ancestor of node i. */
  function Ancestor(i: nat, up: nat): nat {
    if up == 0 then i else Ancestor(i / 2, up - 1)
  }

  lemma {:induction false} AncestorNext(i: nat, up: nat)
    requires up > 0
    ensures Ancestor(i, up) == Ancestor(i, up - 1) / 2
  {
    if up > 1 {
      AncestorNext(i / 2, up - 1);
    }
  }

  /** Level x has node i hashed anew from the level below, and nothing else changed. */
  predicate NodeRefreshed(hash: HashFn, before: seq<Level>, after: seq<Level>, x: nat, i: nat)
    requires x + 1 < |before| == |after|
  {
    2 * i < |after[x + 1]| && i < |before[x]| && after[x] == before[x][i := Refreshed(hash, after[x + 1], i)]
  }

  /** The leaf is written and every ancestor refreshed. */
  ghost predicate PathRefreshed(hash: HashFn, before: seq<Level>, after: seq<Level>, index: nat, value: Bytes)
    requires before != [] && |before| == |after|
  {
    var n := |before| - 1;
    && index < |before[n]| && after[n] == before[n][index := value]
    && forall up :: 0 < up <= n ==> NodeRefreshed(hash, before, after, n - up, Ancestor(index, up))
  }

  /** One more level at the bottom: its node is written, and the path above carries on. */
  lemma PathRefreshedBelow(
    hash: HashFn, above: seq<Level>, refreshed: seq<Level>, last: Level, i: nat, value: Bytes, node: Bytes)
    requires above != [] && |above| == |refreshed| && i < |last|
    requires node == Refreshed(hash, last[i := value], i / 2)
    requires PathRefreshed(hash, above, refreshed, i / 2, node)
    ensures PathRefreshed(hash, above + [last], refreshed + [last[i := value]], i, value)
  {
    var before, after, n := above + [last], refreshed + [last[i := value]], |above|;
    forall up | 0 < up <= n
      ensures NodeRefreshed(hash, before, after, n - up, Ancestor(i, up))
    {
      assert Ancestor(i, up) == Ancestor(i / 2, up - 1);
      if up > 1 {
        assert NodeRefreshed(hash, above, refreshed, n - up, Ancestor(i / 2, up - 1));
      }
    }
  }

  /** What `UpdateLevels` computes, level by level. */
  lemma {:induction false} UpdateRefreshes(hash: HashFn, levels: seq<Level>, i: nat, value: Bytes)
    requires levels != [] && Shaped(levels) && i < |levels[|levels| - 1]|
    ensures PathRefreshed(hash, levels, UpdateLevels(hash, levels, i, value), i, value)
  {
    var n := |levels| - 1;
    if n > 0 {
      var above, last := levels[..n], levels[n];
      var node := Refreshed(hash, last[i := value], i / 2);
      UpdateRefreshes(hash, above, i / 2, node);
      PathRefreshedBelow(hash, above, UpdateLevels(hash, above, i / 2, node), last, i, value, node);
      assert levels == above + [last];
    }
  }

  /** One level up: the entry moves from what is left to what is done. */
  lemma Climb(
    levels: seq<Level>, x: nat, i: nat, done: seq<ProofEntry>, entry: seq<ProofEntry>, rest: seq<ProofEntry>)
    returns (rest': seq<ProofEntry>)
    requires Halving(levels) && 0 < x < |levels| && i < |levels[x]|
    requires entry == EntryAt(levels[x], i) && rest == EntriesFrom(levels, x, i)
    ensures i / 2 < |levels[x - 1]| && rest' == EntriesFrom(levels, x - 1, i / 2)
    ensures done + rest == (done + entry) + rest'
  {
    rest' := EntriesFrom(levels, x - 1, i / 2);
  }

  lemma {:induction false} EntriesFromPrefix(levels: seq<Level>, n: nat, x: nat, i: nat)
    requires Halving(levels) && x < n <= |levels| && i < |levels[x]|
    ensures Halving(levels[..n]) && EntriesFrom(levels[..n], x, i) == EntriesFrom(levels, x, i)
  {
    if x > 0 {
      EntriesFromPrefix(levels, n, x - 1, i / 2);
    }
  }

  /** Walking up by index gives the entries of the proof. */
  lemma {:induction false} EntriesFromIsProof(levels: seq<Level>, i: nat)
    requires levels != [] && Shaped(levels) && i < |levels[|levels| - 1]|
    ensures Halving(levels) && EntriesFrom(levels, |levels| - 1, i) == ToEntries(ProofIn(levels, i))
  {
    var n := |levels| - 1;
    if n > 0 {
      var rest := ProofIn(levels[..n], i / 2);
      EntriesFromIsProof(levels[..n], i / 2);
      EntriesFromPrefix(levels, n, n - 1, i / 2);
      if IsOddEnd(|levels[n]|, i) {
        assert [] + rest == rest;
      } else {
        assert ([SiblingStep(levels[n], i)] + rest)[1..] == rest;
      }
    }
  }

  // ---------- Leaves as they are added ----------

  function DecodedLeaf(hash: HashFn, value: string, doHash: bool): Result<Bytes> {
    FromHex(if doHash then ToHex(hash(Utf8(value))) else value)
  }

  function DecodedLeaves(hash: HashFn, values: seq<string>, doHash: bool): Result<Level> {
    if values == [] then Ok([])
    else
      var n := |values| - 1;
      var front :- DecodedLeaves(hash, values[..n], doHash);
      var last :- DecodedLeaf(hash, values[n], doHash);
      Ok(front + [last])
  }

  lemma DecodedLeavesAppend(hash: HashFn, values: seq<string>, v: string, doHash: bool)
    requires DecodedLeaves(hash, values, doHash).Ok? && DecodedLeaf(hash, v, doHash).Ok?
    ensures DecodedLeaves(hash, values + [v], doHash)
         == Ok(DecodedLeaves(hash, values, doHash).value + [DecodedLeaf(hash, v, doHash).value])
  {
    assert (values + [v])[..|values|] == values;
  }

  /** Hashed values are always accepted, and become the digests themselves. */
  lemma HashedLeafIsDigest(hash: HashFn, value: string)
    ensures DecodedLeaf(hash, value, true) == Ok(hash(Utf8(value)))
  {
    HexRoundTrip(hash(Utf8(value)));
  }

  // ---------- Serialised form ----------

  function LevelToHex(level: Level): seq<string> {
    if level == [] then [] else [ToHex(level[0])] + LevelToHex(level[1..])
  }

  function LevelsToHex(levels: seq<Level>): seq<seq<string>> {
    if levels == [] then [] else [LevelToHex(levels[0])] + LevelsToHex(levels[1..])
  }

  function LevelFromHex(level: seq<string>): Result<Level> {
    if level == [] then Ok([])
    else
      var first :- FromHex(level[0]);
      var rest :- LevelFromHex(level[1..]);
      Ok([first] + rest)
  }

  function LevelsFromHex(levels: seq<seq<string>>): Result<seq<Level>> {
    if levels == [] then Ok([])
    else
      var first :- LevelFromHex(levels[0]);
      var rest :- LevelsFromHex(levels[1..]);
      Ok([first] + rest)
  }

  function ToJson(v: TreeView): TreeJson {
    TreeJson(LevelToHex(v.leaves), if v.levels.Some? then Some(LevelsToHex(v.levels.value)) else None, v.isReady)
  }

  function FromJson(json: TreeJson): Result<TreeView> {
    var leaves :- LevelFromHex(json.leaves);
    if json.levels.None? then Ok(TreeView(leaves, None, json.isReady))
    else
      var levels :- LevelsFromHex(json.levels.value);
      Ok(TreeView(leaves, Some(levels), json.isReady))
  }

  function Prepend(done: seq<Level>, rest: Result<seq<Level>>): Result<seq<Level>> {
    if rest.Err? then rest else Ok(done + rest.value)
  }

  lemma PrependNothing(rest: Result<seq<Level>>)
    ensures Prepend([], rest) == rest
  {
    if rest.Ok? {
      assert [] + rest.value == rest.value;
    }
  }

  lemma PrependAppend(done: seq<Level>, level: Level, rest: Result<seq<Level>>)
    ensures Prepend(done, Prepend([level], rest)) == Prepend(done + [level], rest)
  {
    if rest.Ok? {
      assert done + ([level] + rest.value) == done + [level] + rest.value;
    }
  }

  lemma {:induction false} LevelsToHexAppend(levels: seq<Level>, level: Level)
    ensures LevelsToHex(levels + [level]) == LevelsToHex(levels) + [LevelToHex(level)]
  {
    if levels == [] {
      assert [] + [level] == [level];
    } else {
      assert (levels + [level])[1..] == levels[1..] + [level];
      LevelsToHexAppend(levels[1..], level);
    }
  }

  lemma {:induction false} LevelHexRoundTrip(level: Level)
    ensures LevelFromHex(LevelToHex(level)) == Ok(level)
  {
    if level != [] {
      HexRoundTrip(level[0]);
      LevelHexRoundTrip(level[1..]);
      assert LevelToHex(level)[1..] == LevelToHex(level[1..]);
      assert level == [level[0]] + level[1..];
    }
  }

  lemma {:induction false} LevelsHexRoundTrip(levels: seq<Level>)
    ensures LevelsFromHex(LevelsToHex(levels)) == Ok(levels)
  {
    if levels != [] {
      LevelHexRoundTrip(levels[0]);
      LevelsHexRoundTrip(levels[1..]);
      assert LevelsToHex(levels)[1..] == LevelsToHex(levels[1..]);
      assert levels == [levels[0]] + levels[1..];
    }
  }

  lemma {:induction false} LevelToHexAt(level: Level, i: nat)
    requires i < |level|
    ensures |LevelToHex(level)| == |level| && LevelToHex(level)[i] == ToHex(level[i])
  {
    if i > 0 {
      LevelToHexAt(level[1..], i - 1);
    } else if |level| > 1 {
      LevelToHexAt(level[1..], 0);
    }
  }

  lemma {:induction false} LevelsToHexAt(levels: seq<Level>, x: nat)
    requires x < |levels|
    ensures |LevelsToHex(levels)| == |levels| && LevelsToHex(levels)[x] == LevelToHex(levels[x])
  {
    LevelsToHexLength(levels);
    if x > 0 {
      LevelsToHexAt(levels[1..], x - 1);
    }
  }

  /** Node i of level x is written as its hex, at its place; so is leaf i. */
  lemma SerializedAt(v: TreeView, x: nat, i: nat)
    ensures i < |v.leaves| ==> |ToJson(v).leaves| == |v.leaves| && ToJson(v).leaves[i] == ToHex(v.leaves[i])
    ensures v.levels.Some? && x < |v.levels.value| && i < |v.levels.value[x]| ==>
              var levels := ToJson(v).levels;
              && levels.Some? && |levels.value| == |v.levels.value| && |levels.value[x]| == |v.levels.value[x]|
              && levels.value[x][i] == ToHex(v.levels.value[x][i])
    ensures ToJson(v).levels.None? <==> v.levels.None?
    ensures ToJson(v).isReady == v.isReady
  {
    if i < |v.leaves| {
      LevelToHexAt(v.leaves, i);
    }
    if v.levels.Some? && x < |v.levels.value| && i < |v.levels.value[x]| {
      LevelsToHexAt(v.levels.value, x);
      LevelToHexAt(v.levels.value[x], i);
    }
  }

  /** Deserialising a serialised tree gives equal leaves, levels and readiness. */
  lemma JsonRoundTrip(v: TreeView)
    ensures FromJson(ToJson(v)) == Ok(v)
  {
    LevelHexRoundTrip(v.leaves);
    if v.levels.Some? {
      LevelsHexRoundTrip(v.levels.value);
    }
  }

  // ---------- Clients: what the pieces give together ----------

  /** `validate_merkle_proof` */
  method ValidateMerkleProof(hash: HashFn, proof: seq<ProofEntry>, target: string, root: string) returns (r: Result<bool>)
    ensures r == Validate(hash, proof, target, root)
  {
    var merkleRoot := FromHex(root);
    if merkleRoot.Err? {
      return Err(merkleRoot.error);
    }
    var targetHash := FromHex(target);
    if targetHash.Err? {
      return Err(targetHash.error);
    }
    if |proof| == 0 {
      return Ok(targetHash.value == merkleRoot.value);
    }
    var proofHash := targetHash.value;
    assert proof[0..] == proof;
    for i := 0 to |proof|
      invariant ParseEntries(proof).Ok? <==> ParseEntries(proof[i..]).Ok?
      invariant ParseEntries(proof).Err? ==> ParseEntries(proof).error == ParseEntries(proof[i..]).error
      invariant ParseEntries(proof).Ok? ==>
        Fold(hash, ParseEntries(proof).value, targetHash.value) == Fold(hash, ParseEntries(proof[i..]).value, proofHash)
    {
      var p := proof[i];
      assert proof[i..][1..] == proof[i + 1..];
      var left: Result<Bytes> := if p.left.Some? then FromHex(p.left.value) else Err(NotFound);
      if left.Ok? {
        proofHash := hash(left.value + proofHash);
      } else {
        if p.right.None? {
          return Err(NotFound);
        }
        var right := FromHex(p.right.value);
        if right.Err? {
          return Err(right.error);
        }
        proofHash := hash(proofHash + right.value);
      }
    }
    return Ok(proofHash == merkleRoot.value);
  }

  /** Made tree, any leaf: the proof it gives is accepted against the root it gives, and is logarithmic. */
  method ProveAndValidate(tree: MerkleTree, index: nat) returns (accepted: Result<bool>)
    requires tree.Valid() && tree.Made() && index < |tree.leaves.nodes|
    ensures accepted == Ok(true)
  {
    var root := tree.GetMerkleRoot();
    var proof := tree.GetProof(index);
    var leaf := tree.GetLeaf(index);
    HonestProofAccepted(tree.hash, tree.leaves.nodes, index);
    accepted := ValidateMerkleProof(tree.hash, proof.value, leaf.value, root.value);
  }

  /** Updating a made tree in place keeps it made exactly when the odd ends on the path are their own hashes. */
  method UpdateMade(tree: MerkleTree, index: nat, newValue: string) returns (r: Result<()>)
    requires tree.Valid() && tree.Made() && tree.Aliased()
    requires index < |tree.leaves.nodes| && FromHex(newValue).Ok?
    modifies tree.LevelLists()
    ensures r.Ok? && tree.Valid() && tree.Aliased()
    ensures tree.View().leaves == old(tree.View()).leaves[index := FromHex(newValue).value]
    ensures tree.Made() <==> OddEndsFixed(tree.hash, tree.View().leaves, index)
    ensures PathMeetsNoOddEnd(|tree.View().leaves|, index) ==> tree.Made()
  {
    ghost var before := tree.View();
    r := tree.UpdateLeaf(index, newValue);
    UpdatedViewIsMade(tree.hash, before, index, FromHex(newValue).value);
  }

  lemma UpdatedViewIsMade(hash: HashFn, v: TreeView, index: nat, value: Bytes)
    requires WellShaped(v) && IsMade(hash, v) && index < |v.leaves|
    ensures var updated := UpdatedView(hash, v, index, value, true);
            && updated.leaves == v.leaves[index := value]
            && (IsMade(hash, updated) <==> OddEndsFixed(hash, updated.leaves, index))
            && (PathMeetsNoOddEnd(|updated.leaves|, index) ==> IsMade(hash, updated))
  {
    UpdateIsRebuildExactly(hash, v.leaves, index, value);
    if PathMeetsNoOddEnd(|v.leaves|, index) {
      CleanPathIsFixed(hash, v.leaves[index := value], index);
    }
  }

  /** A round trip through JSON keeps the view, but then an update no longer reaches `get_leaf`. */
  method CopyThenUpdate(tree: MerkleTree, index: nat, newValue: string) returns (copy: MerkleTree, leaf: Result<string>)
    requires tree.Valid() && tree.isReady && tree.levels.Some?
    requires index < |tree.leaves.nodes| && FromHex(newValue).Ok?
    ensures fresh(copy) && copy.hash == tree.hash
    ensures copy.View() == UpdatedView(tree.hash, old(tree.View()), index, FromHex(newValue).value, false)
    ensures leaf == Ok(ToHex(old(tree.leaves.nodes)[index]))
  {
    ghost var v := tree.View();
    copy := Copy(tree);
    assert copy.View() == v;
    var updated := copy.UpdateLeaf(index, newValue);
    leaf := copy.GetLeaf(index);
  }

  /** Through JSON and back: equal in every observable, sharing nothing. */
  method Copy(tree: MerkleTree) returns (copy: MerkleTree)
    requires tree.Valid()
    ensures fresh(copy) && fresh(copy.leaves) && fresh(copy.LevelLists())
    ensures copy.Valid() && copy.hash == tree.hash
    ensures copy.View() == tree.View() && !copy.Aliased()
  {
    var json := tree.Serialize();
    JsonRoundTrip(tree.View());
    if tree.levels.Some? {
      LevelsToHexLength(tree.View().levels.value);
    }
    var read := MerkleTree.Deserialize(tree.hash, json);
    copy := read.value;
  }

  lemma {:induction false} LevelsToHexLength(levels: seq<Level>)
    ensures |LevelsToHex(levels)| == |levels|
  {
    if levels != [] {
      LevelsToHexLength(levels[1..]);
    }
  }
}
