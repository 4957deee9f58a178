/**
 What the Merkle tree of storage/shared/merkle.py computes, on values: levels
 from the root down to the leaves, proofs from the leaf up, the verifier's fold,
 and the refresh that an updated leaf sends to the root.
 */
module MerkleSpec {
  import opened Wrappers
  import opened Text
  import opened Hashing

  type Level = seq<Bytes>

  // ---------- Building ----------

  /** Node i of the level above: two children hashed, an odd last child promoted. */
  function Parent(hash: HashFn, level: Level, i: nat): Bytes
    requires 2 * i < |level|
  {
    if 2 * i + 1 < |level| then hash(level[2 * i] + level[2 * i + 1]) else level[2 * i]
  }

  function NextLevel(hash: HashFn, level: Level): (next: Level)
    ensures |next| == (|level| + 1) / 2
  {
    seq((|level| + 1) / 2, i requires 0 <= i < (|level| + 1) / 2 => Parent(hash, level, i))
  }

  /** All levels, root level first, as the source keeps them. */
  function LevelsOf(hash: HashFn, leaves: Level): (levels: seq<Level>)
    requires leaves != []
    ensures levels != [] && levels[|levels| - 1] == leaves
    ensures |levels[0]| == 1
    ensures Shaped(levels)
    decreases |leaves|
  {
    if |leaves| == 1 then [leaves]
    else LevelsOf(hash, NextLevel(hash, leaves)) + [leaves]
  }

  function Root(hash: HashFn, leaves: Level): Bytes
    requires leaves != []
    decreases |leaves|
  {
    if |leaves| == 1 then leaves[0] else Root(hash, NextLevel(hash, leaves))
  }

  /** Each level has half as many nodes as the one below, rounded up. */
  predicate Halving(levels: seq<Level>) {
    forall x, y {:trigger levels[x], levels[y]} ::
      0 <= x < |levels| && 0 <= y < |levels| && y == x + 1 ==> |levels[x]| == (|levels[y]| + 1) / 2
  }

  /** A tree's levels: halving from the leaves up to a single node. */
  predicate Shaped(levels: seq<Level>) {
    levels != [] ==> |levels[0]| == 1 && Halving(levels)
  }

  // ---------- Proofs ----------

  /** One sibling on the way up; `onLeft` when it stands left of the path. */
  datatype Step = Step(onLeft: bool, sibling: Bytes)

  /** The last node of a level of odd length: it has no sibling. */
  predicate IsOddEnd(n: nat, i: nat) {
    i == n - 1 && n % 2 == 1
  }

  function SiblingStep(level: Level, i: nat): Step
    requires i < |level| && !IsOddEnd(|level|, i)
  {
    if i % 2 == 1 then Step(true, level[i - 1]) else Step(false, level[i + 1])
  }

  /** The siblings above node i of the bottom level of `levels`, skipping odd ends. */
  function ProofIn(levels: seq<Level>, i: nat): seq<Step>
    requires levels != [] && Shaped(levels) && i < |levels[|levels| - 1]|
  {
    var bottom := levels[|levels| - 1];
    if |levels| == 1 then []
    else
      (if IsOddEnd(|bottom|, i) then [] else [SiblingStep(bottom, i)]) +
      ProofIn(levels[..|levels| - 1], i / 2)
  }

  function HashInput(s: Step, acc: Bytes): Bytes {
    if s.onLeft then s.sibling + acc else acc + s.sibling
  }

  /** The verifier's loop: hash the running value with each sibling. */
  function Fold(hash: HashFn, steps: seq<Step>, target: Bytes): Bytes {
    if steps == [] then target else Fold(hash, steps[1..], hash(HashInput(steps[0], target)))
  }

  function Directions(steps: seq<Step>): seq<bool> {
    seq(|steps|, i requires 0 <= i < |steps| => steps[i].onLeft)
  }

  // ---------- Proofs as they travel ----------

  /** The proof of leaf i of a made tree, as it is handed out. */
  function HonestEntries(hash: HashFn, leaves: Level, i: nat): seq<ProofEntry>
    requires i < |leaves|
  {
    ToEntries(ProofIn(LevelsOf(hash, leaves), i))
  }

  /** One dictionary of a proof: the keys `left` and `right`, either possibly missing. */
  datatype ProofEntry = ProofEntry(left: Option<string>, right: Option<string>)

  function ToEntry(s: Step): ProofEntry {
    if s.onLeft then ProofEntry(Some(ToHex(s.sibling)), None) else ProofEntry(None, Some(ToHex(s.sibling)))
  }

  function ToEntries(steps: seq<Step>): seq<ProofEntry> {
    if steps == [] then [] else [ToEntry(steps[0])] + ToEntries(steps[1..])
  }

  /** The left branch is tried first; whatever goes wrong there, the right branch is taken. */
  function ParseEntry(e: ProofEntry): Result<Step> {
    if e.left.Some? && FromHex(e.left.value).Ok? then Ok(Step(true, FromHex(e.left.value).value))
    else if e.right.None? then Err(NotFound)
    else
      var sibling :- FromHex(e.right.value);
      Ok(Step(false, sibling))
  }

  function ParseEntries(proof: seq<ProofEntry>): Result<seq<Step>> {
    if proof == [] then Ok([])
    else
      var first :- ParseEntry(proof[0]);
      var rest :- ParseEntries(proof[1..]);
      Ok([first] + rest)
  }

  /** `validate_merkle_proof`. */
  function Validate(hash: HashFn, proof: seq<ProofEntry>, target: string, root: string): (r: Result<bool>)
    ensures r.Ok? ==> ParseEntries(proof).Ok?
  {
    var rootBytes :- FromHex(root);
    var targetBytes :- FromHex(target);
    var steps :- ParseEntries(proof);
    Ok(Fold(hash, steps, targetBytes) == rootBytes)
  }

  // ---------- Updating ----------

  /** What `update_leaf` stores above node i: both children hashed, a missing right child as empty. */
  function Refreshed(hash: HashFn, level: Level, p: nat): Digest
    requires 2 * p < |level|
  {
    hash(level[2 * p] + if 2 * p + 1 < |level| then level[2 * p + 1] else [])
  }

  function UpdateLevels(hash: HashFn, levels: seq<Level>, i: nat, value: Bytes): (r: seq<Level>)
    requires levels != [] && Shaped(levels) && i < |levels[|levels| - 1]|
    ensures |r| == |levels| && Shaped(r)
    ensures r[|r| - 1] == levels[|levels| - 1][i := value]
  {
    var n := |levels| - 1;
    var bottom := levels[n][i := value];
    if n == 0 then [bottom]
    else UpdateLevels(hash, levels[..n], i / 2, Refreshed(hash, bottom, i / 2)) + [bottom]
  }
}
