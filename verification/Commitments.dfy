/** The miner's commitments (storage/miner/utils.py): the chained hash and the tree over all chunks. */
module Commitments {
  import opened Wrappers
  import opened Sequences
  import opened Text
  import opened Hashing
  import opened Ecc
  import opened Chunking
  import opened MerkleSpec
  import opened MerkleTree

  // ---------- The chained hash ----------

  /** The proof that the data was held when `previousSeed` was current. */
  function SeedProof(hash: HashFn, data: Bytes, previousSeed: string): nat {
    HashData(hash, data + Utf8(previousSeed))
  }

  /** `compute_subsequent_commitment`: the new commitment and the proof of the old one. */
  function SubsequentCommitment(hash: HashFn, data: Bytes, previousSeed: string, newSeed: string): (nat, nat) {
    var proof := SeedProof(hash, data, previousSeed);
    (HashData(hash, Utf8(Decimal(proof)) + Utf8(newSeed)), proof)
  }

  // ---------- Committing every chunk ----------

  /** The commitment of one chunk, joined with the challenge seed. */
  function ChunkCommitment(hash: HashFn, curve: Curve, g: Point, h: Point, chunk: Bytes, seed: string, r: nat): Point {
    Commit(hash, curve, g, h, chunk + Utf8(seed), r).0
  }

  /** `f(i, s[i])` for every element. */
  function Enumerate<T, U>(f: (nat, T) -> U, s: seq<T>): (r: seq<U>)
    ensures |r| == |s|
    ensures forall i :: 0 <= i < |s| ==> r[i] == f(i, s[i])
  {
    seq(|s|, i requires 0 <= i < |s| => f(i, s[i]))
  }

  lemma EnumerateAppend<T, U>(f: (nat, T) -> U, s: seq<T>, v: T)
    ensures Enumerate(f, s + [v]) == Enumerate(f, s) + [f(|s|, v)]
  {
  }

  /** Slot i of a list that starts as all `None` and is filled from the front. */
  function Filled<T>(values: seq<T>, slots: nat): seq<Option<T>> {
    seq(slots, i => if 0 <= i < |values| then Some(values[i]) else None)
  }

  lemma FilledNext<T>(values: seq<T>, slots: nat, v: T)
    requires |values| < slots
    ensures Filled(values, slots)[|values| := Some(v)] == Filled(values + [v], slots)
  {
  }

  /** What is fixed while one challenge is answered. */
  datatype Task = Task(hash: HashFn, curve: Curve, g: Point, h: Point, seed: string, random: nat -> nat)
  {
    function Commitment(i: nat, chunk: Bytes): Point {
      ChunkCommitment(hash, curve, g, h, chunk, seed, random(i))
    }

    /** The leaves of the challenge tree: the printed commitments, as bytes. */
    function Leaves(chunks: seq<Bytes>): Level {
      Enumerate((i, chunk) => PointBytes(Commitment(i, chunk)), chunks)
    }

    function Texts(chunks: seq<Bytes>): seq<string> {
      Enumerate((i, chunk) => PointToHex(Commitment(i, chunk)), chunks)
    }

    function Draws(chunks: seq<Bytes>): seq<nat> {
      Enumerate((i, chunk) => random(i), chunks)
    }

    lemma Extend(done: seq<Bytes>, chunk: Bytes)
      ensures Leaves(done + [chunk]) == Leaves(done) + [PointBytes(Commitment(|done|, chunk))]
      ensures Texts(done + [chunk]) == Texts(done) + [PointToHex(Commitment(|done|, chunk))]
      ensures Draws(done + [chunk]) == Draws(done) + [random(|done|)]
    {
      EnumerateAppend((i, chunk) => PointBytes(Commitment(i, chunk)), done, chunk);
      EnumerateAppend((i, chunk) => PointToHex(Commitment(i, chunk)), done, chunk);
      EnumerateAppend((i, chunk) => random(i), done, chunk);
    }
  }

  /** What the miner has after committing: three slot lists and the tree. */
  class Committed {
    const randomness: array<Option<nat>>
    const chunks: array<Option<Bytes>>
    const points: array<Option<string>>
    const tree: MerkleTree

    constructor (slots: nat, task: Task)
      ensures fresh(randomness) && fresh(chunks) && fresh(points) && fresh(tree) && fresh(tree.leaves)
      ensures tree.hash == task.hash && SlotsHold(task, [], slots) && TreeHolds(task, [])
    {
      randomness := new Option<nat>[slots](_ => None);
      chunks := new Option<Bytes>[slots](_ => None);
      points := new Option<string>[slots](_ => None);
      tree := new MerkleTree(task.hash);
    }

    /** The slots hold the commitments of the chunks done so far, the rest is `None`. */
    ghost predicate SlotsHold(task: Task, done: seq<Bytes>, slots: nat)
      reads randomness, chunks, points
    {
      && randomness[..] == Filled(task.Draws(done), slots)
      && chunks[..] == Filled(done, slots)
      && points[..] == Filled(task.Texts(done), slots)
    }

    ghost predicate TreeHolds(task: Task, done: seq<Bytes>)
      reads tree, tree.leaves, tree.LevelLists()
    {
      tree.Valid() && tree.levels.None? && tree.leaves.nodes == task.Leaves(done)
    }

    /** Store one chunk's commitment in its slots. */
    method Fill(task: Task, index: nat, chunk: Bytes, r: nat, cHex: string, slots: nat, ghost done: seq<Bytes>)
      requires SlotsHold(task, done, slots) && index == |done| < slots
      requires task.Draws(done + [chunk]) == task.Draws(done) + [r]
      requires task.Texts(done + [chunk]) == task.Texts(done) + [cHex]
      modifies randomness, chunks, points
      ensures SlotsHold(task, done + [chunk], slots)
    {
      ghost var draws, texts := task.Draws(done), task.Texts(done);
      assert randomness.Length == |Filled(draws, slots)| && chunks.Length == |Filled(done, slots)|;
      assert points.Length == |Filled(texts, slots)|;
      FilledNext(draws, slots, r);
      FilledNext(done, slots, chunk);
      FilledNext(texts, slots, cHex);
      randomness[index] := Some(r);
      chunks[index] := Some(chunk);
      points[index] := Some(cHex);
    }
  }

  /**
   `commit_data_with_seed`: the slots are filled from the front and the tree is made
   of the commitments; with more chunks than slots the loop runs out of the lists.
   */
  method CommitDataWithSeed(task: Task, dataChunks: seq<Bytes>, slots: nat) returns (r: Result<Committed>)
    ensures if |dataChunks| <= slots then r.Ok? else r == Err(IndexError)
    ensures r.Ok? ==> fresh(r.value) && r.value.SlotsHold(task, dataChunks, slots)
    ensures r.Ok? ==> r.value.tree.Valid() && r.value.tree.hash == task.hash
    ensures r.Ok? ==> r.value.tree.View().leaves == task.Leaves(dataChunks)
    ensures r.Ok? && dataChunks != [] ==> r.value.tree.Made()
  {
    var out := new Committed(slots, task);
    for index := 0 to |dataChunks|
      invariant index <= slots
      invariant fresh(out.randomness) && fresh(out.chunks) && fresh(out.points)
      invariant fresh(out.tree) && fresh(out.tree.leaves) && out.tree.hash == task.hash
      invariant out.SlotsHold(task, dataChunks[..index], slots)
      invariant out.TreeHolds(task, dataChunks[..index])
    {
      if index >= slots {
        return Err(IndexError);
      }
      var chunk := dataChunks[index];
      var (c, _, drawn) := Commit(task.hash, task.curve, task.g, task.h, chunk + Utf8(task.seed), task.random(index));
      var cHex := PointToHex(c);
      ghost var done := dataChunks[..index];
      task.Extend(done, chunk);
      out.Fill(task, index, chunk, drawn, cHex, slots, done);
      AddCommitment(out.tree, c);
      TakeNext(dataChunks, index);
    }
    TakeAll(dataChunks);
    out.tree.MakeTree();
    return Ok(out);
  }

  /** Adding a printed point as a leaf always succeeds and appends its bytes. */
  method AddCommitment(tree: MerkleTree, c: Point)
    requires tree.Valid() && tree.levels.None?
    modifies tree, tree.leaves
    ensures tree.Valid() && tree.levels.None? && tree.leaves == old(tree.leaves)
    ensures tree.leaves.nodes == old(tree.leaves.nodes) + [PointBytes(c)]
  {
    var cHex := PointToHex(c);
    HexRoundTrip(PointBytes(c));
    var r := tree.AddLeaf([cHex], false);
    assert DecodedLeaf(tree.hash, cHex, false) == Ok(PointBytes(c));
    assert [cHex][..0] == [] && [cHex][..1] == [cHex];
    DecodedLeavesAppend(tree.hash, [], cHex, false);
    assert [] + [cHex] == [cHex];
  }
}
