/**
 One challenge, from both ends: what an honest miner answers (neurons/miner.py,
 the pure part of `challenge`), that the validator accepts it, and what an answer
 accepted against the root of committed chunks reveals.
 */
module Challenge {
  import opened Wrappers
  import opened Text
  import opened Hashing
  import opened Ecc
  import opened Chunking
  import opened MerkleSpec
  import opened MerkleTheory
  import opened MerkleTree
  import opened Commitments
  import opened Protocol
  import opened Verify

  /** The answer's fields from the commitments to all chunks. */
  function OpeningAnswer(task: Task, chunks: seq<Bytes>, index: nat, chained: (nat, nat)): ChallengeAnswer
    requires index < |chunks|
  {
    var leaves := task.Leaves(chunks);
    ChallengeAnswer(
      Some(Decimal(chained.0)),
      Some(Decimal(chained.1)),
      Some(PointToHex(task.Commitment(index, chunks[index]))),
      Some(chunks[index]),
      Some(task.random(index)),
      Some(ToEntries(ProofIn(LevelsOf(task.hash, leaves), index))),
      Some(ToHex(Root(task.hash, leaves))))
  }

  /**
   The miner's answer to a challenge about `data`, or the exception it raises: bad
   generators, a zero or negative chunk size, or an index of no chunk. An index
   past the last chunk finds an empty slot while slots last.
   */
  function AnswerChallenge(
    hash: HashFn, curve: Curve, data: Bytes, previousSeed: string, req: ChallengeRequest, random: nat -> nat)
    : Result<ChallengeAnswer>
  {
    var chained := SubsequentCommitment(hash, data, previousSeed, req.seed);
    var g :- HexToPoint(curve, req.g);
    var h :- HexToPoint(curve, req.h);
    if req.chunkSize == 0 then Err(ZeroDivisionError)
    else if req.chunkSize < 0 then Err(IndexError)
    else
      var chunks := ChunkData(data, req.chunkSize);
      if req.challengeIndex >= SlotCount(data, req.chunkSize) then Err(IndexError)
      else if req.challengeIndex >= |chunks| then Err(TypeError)
      else Ok(OpeningAnswer(Task(hash, curve, g, h, req.seed, random), chunks, req.challengeIndex, chained))
  }

  /** The same answer computed the miner's way: commit in a loop, make the tree, read the slots, ask for the proof. */
  method BuildAnswer(
    hash: HashFn, curve: Curve, data: Bytes, previousSeed: string, req: ChallengeRequest, random: nat -> nat)
    returns (r: Result<ChallengeAnswer>)
    ensures r == AnswerChallenge(hash, curve, data, previousSeed, req, random)
  {
    var (nextCommitment, proof) := SubsequentCommitment(hash, data, previousSeed, req.seed);
    var g := HexToPoint(curve, req.g);
    if g.Err? {
      return Err(g.error);
    }
    var h := HexToPoint(curve, req.h);
    if h.Err? {
      return Err(h.error);
    }
    if req.chunkSize == 0 {
      return Err(ZeroDivisionError);
    } else if req.chunkSize < 0 {
      return Err(IndexError);
    }
    var chunks := ChunkData(data, req.chunkSize);
    var slots := SlotCount(data, req.chunkSize);
    SlotsSuffice(data, req.chunkSize);
    var task := Task(hash, curve, g.value, h.value, req.seed, random);
    var committed := CommitDataWithSeed(task, chunks, slots);
    r := ReadAnswer(committed.value, task, chunks, slots, req.challengeIndex, (nextCommitment, proof));
  }

  /** The answer from the slots and the tree; an index past the last chunk finds an empty slot. */
  method ReadAnswer(
    committed: Committed, task: Task, chunks: seq<Bytes>, slots: nat, index: nat, chained: (nat, nat))
    returns (r: Result<ChallengeAnswer>)
    requires committed.SlotsHold(task, chunks, slots) && |chunks| <= slots
    requires committed.tree.Valid() && committed.tree.hash == task.hash
    requires committed.tree.View().leaves == task.Leaves(chunks)
    requires chunks != [] ==> committed.tree.Made()
    ensures r == if index >= slots then Err(IndexError)
                 else if index >= |chunks| then Err(TypeError)
                 else Ok(OpeningAnswer(task, chunks, index, chained))
  {
    var slot := ReadSlot(committed, task, chunks, slots, index);
    if slot.Err? {
      return Err(slot.error);
    }
    var (commitment, chunk, drawn) := slot.value;
    var proof, root := ReadTree(committed.tree, task.Leaves(chunks), index);
    return Ok(ChallengeAnswer(
                Some(Decimal(chained.0)), Some(Decimal(chained.1)),
                Some(commitment), Some(chunk), Some(drawn), proof, root));
  }

  method ReadSlot(committed: Committed, ghost task: Task, ghost chunks: seq<Bytes>, ghost slots: nat, index: nat)
    returns (r: Result<(string, Bytes, nat)>)
    requires committed.SlotsHold(task, chunks, slots) && |chunks| <= slots
    ensures r == if index >= slots then Err(IndexError)
                 else if index >= |chunks| then Err(TypeError)
                 else Ok((PointToHex(task.Commitment(index, chunks[index])), chunks[index], task.random(index)))
  {
    var points := committed.points[..];
    var held := committed.chunks[..];
    var draws := committed.randomness[..];
    if index >= |points| {
      return Err(IndexError);
    }
    if held[index].None? {
      return Err(TypeError);
    }
    return Ok((points[index].value, held[index].value, draws[index].value));
  }

  /** The proof and the root of a made tree. */
  method ReadTree(tree: MerkleTree, ghost leaves: Level, index: nat)
    returns (proof: Option<seq<ProofEntry>>, root: Option<string>)
    requires tree.Valid() && tree.Made() && tree.leaves.nodes == leaves && index < |leaves|
    ensures proof == Some(HonestEntries(tree.hash, leaves, index))
    ensures root == Some(ToHex(Root(tree.hash, leaves)))
  {
    proof := tree.GetProof(index);
    root := tree.GetMerkleRoot();
  }

  /** The miner can answer exactly for curve points, a positive chunk size and the index of a real chunk. */
  lemma AnsweredExactly(
    hash: HashFn, curve: Curve, data: Bytes, previousSeed: string, req: ChallengeRequest, random: nat -> nat)
    ensures AnswerChallenge(hash, curve, data, previousSeed, req, random).Ok? <==>
            && HexToPoint(curve, req.g).Ok? && HexToPoint(curve, req.h).Ok?
            && req.chunkSize > 0 && req.challengeIndex < CeilDiv(|data|, req.chunkSize)
  {
    if req.chunkSize > 0 {
      ChunksPartition(data, req.chunkSize);
      SlotsSuffice(data, req.chunkSize);
    }
  }

  // ---------- What an honest answer opens ----------

  /** g times the hash of bytes and seed, plus h times r. */
  function PieceCommitment(hash: HashFn, curve: Curve, g: Point, h: Point, piece: Bytes, seed: string, r: nat): Point {
    curve.add(curve.mul(g, HashData(hash, piece + Utf8(seed))), curve.mul(h, r))
  }

  /** Bytes j times the size up to a size later. */
  function Piece(data: Bytes, size: nat, j: nat): Bytes
    requires j * size <= |data|
  {
    assert (j + 1) * size == j * size + size;
    data[j * size..Min((j + 1) * size, |data|)]
  }

  /** The printed commitments of all pieces of the data, as bytes. */
  ghost predicate ArePieceLeaves(task: Task, data: Bytes, size: nat, leaves: Level)
    requires size > 0
  {
    && |leaves| == CeilDiv(|data|, size)
    && forall j :: 0 <= j < |leaves| ==>
         && j * size <= |data|
         && leaves[j] == PointBytes(PieceCommitment(
                           task.hash, task.curve, task.g, task.h, Piece(data, size, j), task.seed, task.random(j)))
  }

  lemma LeavesArePieces(task: Task, data: Bytes, size: nat)
    requires size > 0
    ensures ArePieceLeaves(task, data, size, task.Leaves(ChunkData(data, size)))
  {
    var chunks := ChunkData(data, size);
    ChunksPartition(data, size);
    forall j | 0 <= j < |chunks|
      ensures j * size <= |data| && chunks[j] == Piece(data, size, j)
    {
      ChunkIsSlice(data, size, j);
    }
  }

  /**
   The answer opens index i for pieces of size c: the piece of the data from i times c on;
   its commitment and draw; a proof with the sides of position i among all started
   pieces; and the root of the recursive tree over the commitments of all pieces.
   */
  ghost predicate OpensPiece(task: Task, data: Bytes, c: int, i: nat, answer: ChallengeAnswer) {
    && c > 0 && i < CeilDiv(|data|, c) && i * c <= Min((i + 1) * c, |data|)
    && answer.dataChunk == Some(data[i * c..Min((i + 1) * c, |data|)])
    && answer.randomness == Some(task.random(i))
    && answer.commitment == Some(PointToHex(PieceCommitment(
                                   task.hash, task.curve, task.g, task.h,
                                   data[i * c..Min((i + 1) * c, |data|)], task.seed, task.random(i))))
    && ProvesPosition(answer, CeilDiv(|data|, c), i)
    && HasPieceRoot(task, data, c, answer)
  }

  predicate ProvesPosition(answer: ChallengeAnswer, n: nat, i: nat)
    requires i < n
  {
    && answer.merkleProof.Some? && ParseEntries(answer.merkleProof.value).Ok?
    && Directions(ParseEntries(answer.merkleProof.value).value) == DirectionsAt(n, i)
  }

  ghost predicate HasPieceRoot(task: Task, data: Bytes, c: nat, answer: ChallengeAnswer)
    requires c > 0
  {
    exists leaves :: leaves != [] && ArePieceLeaves(task, data, c, leaves)
                  && answer.merkleRoot == Some(ToHex(RecursiveRoot(task.hash, leaves)))
  }

  lemma OpeningOpens(task: Task, data: Bytes, c: nat, i: nat, chained: (nat, nat))
    requires c > 0 && i < |ChunkData(data, c)|
    ensures OpensPiece(task, data, c, i, OpeningAnswer(task, ChunkData(data, c), i, chained))
  {
    var chunks := ChunkData(data, c);
    var leaves := task.Leaves(chunks);
    ChunksPartition(data, c);
    ChunkIsSlice(data, c, i);
    LeavesArePieces(task, data, c);
    ProofDirections(task.hash, leaves, i);
    EntriesRoundTrip(ProofIn(LevelsOf(task.hash, leaves), i));
    RootIsRecursiveRoot(task.hash, leaves);
  }

  /** What is fixed by a request with readable generators. */
  function TaskOf(hash: HashFn, curve: Curve, req: ChallengeRequest, random: nat -> nat): Task
    requires HexToPoint(curve, req.g).Ok? && HexToPoint(curve, req.h).Ok?
  {
    Task(hash, curve, HexToPoint(curve, req.g).value, HexToPoint(curve, req.h).value, req.seed, random)
  }

  /** Whenever the miner answers, it opens what was challenged. */
  lemma OpensChallengedPiece(
    hash: HashFn, curve: Curve, data: Bytes, previousSeed: string, req: ChallengeRequest, random: nat -> nat)
    requires AnswerChallenge(hash, curve, data, previousSeed, req, random).Ok?
    ensures HexToPoint(curve, req.g).Ok? && HexToPoint(curve, req.h).Ok?
    ensures OpensPiece(TaskOf(hash, curve, req, random), data, req.chunkSize, req.challengeIndex,
                       AnswerChallenge(hash, curve, data, previousSeed, req, random).value)
  {
    AnswerIsOpening(hash, curve, data, previousSeed, req, random);
    OpeningOpens(TaskOf(hash, curve, req, random), data, req.chunkSize, req.challengeIndex,
                 SubsequentCommitment(hash, data, previousSeed, req.seed));
  }

  lemma AnswerIsOpening(
    hash: HashFn, curve: Curve, data: Bytes, previousSeed: string, req: ChallengeRequest, random: nat -> nat)
    requires AnswerChallenge(hash, curve, data, previousSeed, req, random).Ok?
    ensures HexToPoint(curve, req.g).Ok? && HexToPoint(curve, req.h).Ok?
    ensures req.chunkSize > 0 && req.challengeIndex < |ChunkData(data, req.chunkSize)|
    ensures AnswerChallenge(hash, curve, data, previousSeed, req, random).value
         == OpeningAnswer(TaskOf(hash, curve, req, random), ChunkData(data, req.chunkSize), req.challengeIndex,
                          SubsequentCommitment(hash, data, previousSeed, req.seed))
  {
  }

  /**
   Which exception an unanswerable challenge raises, for generators on the curve: none of
   these sizes divides, an index past the slots, an index of an empty slot.
   */
  lemma UnansweredExactly(
    hash: HashFn, curve: Curve, data: Bytes, previousSeed: string, req: ChallengeRequest, random: nat -> nat)
    requires HexToPoint(curve, req.g).Ok? && HexToPoint(curve, req.h).Ok?
    ensures var r, c, i := AnswerChallenge(hash, curve, data, previousSeed, req, random), req.chunkSize, req.challengeIndex;
            && (r == Err(ZeroDivisionError) <==> c == 0)
            && (r == Err(IndexError) <==> c < 0 || (c > 0 && i >= (|data| + 33) / c + 1))
            && (r == Err(TypeError) <==> c > 0 && CeilDiv(|data|, c) <= i < (|data| + 33) / c + 1)
  {
    if req.chunkSize > 0 {
      ChunksPartition(data, req.chunkSize);
      SlotsSuffice(data, req.chunkSize);
    }
  }

  // ---------- Honest answers verify ----------

  /** The chained part alone: proof and commitment as the miner prints them. */
  lemma ChainedPartVerifies(hash: HashFn, data: Bytes, previousSeed: string, newSeed: string)
    ensures var (next, proof) := SubsequentCommitment(hash, data, previousSeed, newSeed);
            VerifyChained(hash, Some(Decimal(proof)), newSeed, Some(Decimal(next)))
  {
  }

  lemma OpeningVerifies(task: Task, chunks: seq<Bytes>, i: nat, chained: (nat, nat), req: ChallengeRequest)
    requires task.curve.IsClosed() && i < |chunks| && req.seed == task.seed
    requires HexToPoint(task.curve, req.g) == Ok(task.g) && HexToPoint(task.curve, req.h) == Ok(task.h)
    requires VerifyChained(task.hash, Some(Decimal(chained.1)), task.seed, Some(Decimal(chained.0)))
    ensures VerifyChallenge(task.hash, task.curve, req, OpeningAnswer(task, chunks, i, chained)) == Ok(true)
  {
    var c := task.Commitment(i, chunks[i]);
    CommitmentIsOnCurve(
      task.curve, task.g, task.h, HashData(task.hash, chunks[i] + Utf8(task.seed)), task.random(i));
    PointRoundTrip(task.curve, c);
    HonestProofAccepted(task.hash, task.Leaves(chunks), i);
  }

  /** Whatever the data, seeds, points, randomness, chunk size and real index: an honest answer passes all three checks. */
  lemma HonestAnswerVerifies(
    hash: HashFn, curve: Curve, data: Bytes, previousSeed: string, req: ChallengeRequest, random: nat -> nat)
    requires curve.IsClosed()
    requires HexToPoint(curve, req.g).Ok? && HexToPoint(curve, req.h).Ok?
    requires req.chunkSize > 0 && req.challengeIndex < CeilDiv(|data|, req.chunkSize)
    ensures var answer := AnswerChallenge(hash, curve, data, previousSeed, req, random);
            answer.Ok? && VerifyChallenge(hash, curve, req, answer.value) == Ok(true)
  {
    AnsweredExactly(hash, curve, data, previousSeed, req, random);
    AnswerIsOpening(hash, curve, data, previousSeed, req, random);
    ChainedPartVerifies(hash, data, previousSeed, req.seed);
    OpeningVerifies(TaskOf(hash, curve, req, random), ChunkData(data, req.chunkSize), req.challengeIndex,
                    SubsequentCommitment(hash, data, previousSeed, req.seed), req);
  }

  // ---------- What an accepted answer reveals ----------

  /** The parts of an answer that the second and third check look at, parsed. */
  datatype Revealed = Revealed(commitment: Point, chunk: Bytes, r: nat, steps: seq<Step>)

  function Reveal(curve: Curve, answer: ChallengeAnswer): Result<Revealed> {
    var printed :- Present(answer.commitment);
    var commitment :- HexToPoint(curve, printed);
    var chunk :- Present(answer.dataChunk);
    var r :- Present(answer.randomness);
    var proof :- Present(answer.merkleProof);
    var steps :- ParseEntries(proof);
    Ok(Revealed(commitment, chunk, r, steps))
  }

  lemma AcceptedMeans(hash: HashFn, curve: Curve, req: ChallengeRequest, answer: ChallengeAnswer)
    requires VerifyOpening(hash, curve, req, answer) == Ok(true)
    ensures HexToPoint(curve, req.g).Ok? && HexToPoint(curve, req.h).Ok? && answer.merkleRoot.Some?
    ensures Reveal(curve, answer).Ok? && answer.merkleProof.Some?
    ensures ParseEntries(answer.merkleProof.value) == Ok(Reveal(curve, answer).value.steps)
    ensures var revealed := Reveal(curve, answer).value;
            && Open(curve, HexToPoint(curve, req.g).value, HexToPoint(curve, req.h).value, revealed.commitment,
                    HashData(hash, revealed.chunk + Utf8(req.seed)), revealed.r)
            && Validate(hash, answer.merkleProof.value, PointToHex(revealed.commitment), answer.merkleRoot.value)
            == Ok(true)
  {
  }

  lemma MerklePartBinds(
    task: Task, chunks: seq<Bytes>, i: nat, proof: seq<ProofEntry>, steps: seq<Step>, c: Point)
    requires i < |chunks| && ParseEntries(proof) == Ok(steps)
    requires Validate(task.hash, proof, PointToHex(c), ToHex(Root(task.hash, task.Leaves(chunks)))) == Ok(true)
    requires |PointBytes(c)| == |task.Leaves(chunks)[i]|
    requires Directions(steps) == Directions(ProofIn(LevelsOf(task.hash, task.Leaves(chunks)), i))
    ensures |steps| == |ProofIn(LevelsOf(task.hash, task.Leaves(chunks)), i)|
    ensures match FindCollision(task.hash, steps, PointBytes(c),
                                ProofIn(LevelsOf(task.hash, task.Leaves(chunks)), i), task.Leaves(chunks)[i])
            case None => PointBytes(c) == task.Leaves(chunks)[i]
            case Some((x, y)) => Collision(task.hash, x, y)
  {
    HexRoundTrip(PointBytes(c));
    AcceptedProofBinds(task.hash, task.Leaves(chunks), i, proof, PointToHex(c));
  }

  /** How a false answer could have been accepted. */
  datatype Break =
    | NoBreak
    | HashCollision(x: Bytes, y: Bytes)
    | GeneratorRelation(m: int, r: int)

  /** What a break shows about a chunk revealed in place of the committed one. */
  ghost predicate Explains(task: Task, b: Break, committed: Bytes, revealed: Bytes) {
    match b
    case NoBreak => revealed == committed
    case HashCollision(x, y) => Collision(task.hash, x, y)
    case GeneratorRelation(m, r) => m != 0 && task.curve.mul(task.g, m) == task.curve.mul(task.h, r)
  }

  /** Read the break, if there is one, off what was revealed in place of chunk i, whose proof is `honest`. */
  function ExtractBreak(task: Task, chunk: Bytes, i: nat, honest: seq<Step>, revealed: Revealed): Break
    requires |revealed.steps| == |honest|
  {
    var found := FindCollision(
      task.hash, revealed.steps, PointBytes(revealed.commitment), honest, PointBytes(task.Commitment(i, chunk)));
    if found.Some? then HashCollision(found.value.0, found.value.1)
    else ChunkBreak(task, chunk, task.random(i), revealed.chunk, revealed.r)
  }

  /** Two openings of one commitment, of `chunk` with r and of `chunk'` with r'. */
  function ChunkBreak(task: Task, chunk: Bytes, r: nat, chunk': Bytes, r': nat): Break {
    var x', x := chunk' + Utf8(task.seed), chunk + Utf8(task.seed);
    var m', m := HashData(task.hash, x'), HashData(task.hash, x);
    if m' != m then GeneratorRelation(m' - m, r - r')
    else if x' != x then HashCollision(x', x)
    else NoBreak
  }

  lemma ChunkBreakIsBreak(task: Task, chunk: Bytes, r: nat, chunk': Bytes, r': nat)
    requires task.curve.Valid() && task.curve.contains(task.g) && task.curve.contains(task.h)
    requires ChunkCommitment(task.hash, task.curve, task.g, task.h, chunk, task.seed, r)
          == ChunkCommitment(task.hash, task.curve, task.g, task.h, chunk', task.seed, r')
    ensures Explains(task, ChunkBreak(task, chunk, r, chunk', r'), chunk, chunk')
  {
    var x', x := chunk' + Utf8(task.seed), chunk + Utf8(task.seed);
    var m', m := HashData(task.hash, x'), HashData(task.hash, x);
    if m' != m {
      TwoOpeningsRelateGenerators(
        task.curve, task.g, task.h, Pedersen(task.curve, task.g, task.h, m, r), m', r', m, r);
    } else {
      HashDataBinds(task.hash, x', x);
      if x' == x {
        assert |chunk'| == |chunk| && x'[..|chunk'|] == chunk' && x[..|chunk|] == chunk;
      }
    }
  }

  lemma PointBytesInjective(p: Point, q: Point)
    requires PointBytes(p) == PointBytes(q)
    ensures p == q
  {
    var everywhere := Curve(_ => true, p, x => x, (x, y) => x, (x, n) => x);
    PointRoundTrip(everywhere, p);
    PointRoundTrip(everywhere, q);
  }

  lemma RevealedBinds(task: Task, chunk: Bytes, i: nat, honest: seq<Step>, revealed: Revealed)
    requires task.curve.Valid() && task.curve.contains(task.g) && task.curve.contains(task.h)
    requires ChunkCommitment(task.hash, task.curve, task.g, task.h, revealed.chunk, task.seed, revealed.r)
          == revealed.commitment
    requires |revealed.steps| == |honest|
    requires match FindCollision(task.hash, revealed.steps, PointBytes(revealed.commitment),
                                 honest, PointBytes(task.Commitment(i, chunk)))
             case None => PointBytes(revealed.commitment) == PointBytes(task.Commitment(i, chunk))
             case Some((x, y)) => Collision(task.hash, x, y)
    ensures Explains(task, ExtractBreak(task, chunk, i, honest, revealed), chunk, revealed.chunk)
  {
    var found := FindCollision(
      task.hash, revealed.steps, PointBytes(revealed.commitment), honest, PointBytes(task.Commitment(i, chunk)));
    if found.None? {
      PointBytesInjective(revealed.commitment, task.Commitment(i, chunk));
      ChunkBreakIsBreak(task, chunk, task.random(i), revealed.chunk, revealed.r);
    }
  }

  /** Position i of the committed chunks, with the honest proof of its leaf. */
  ghost predicate IsPosition(task: Task, chunks: seq<Bytes>, i: nat, honest: seq<Step>) {
    i < |chunks| && honest == ProofIn(LevelsOf(task.hash, task.Leaves(chunks)), i)
  }

  lemma AcceptedOpeningMeets(
    task: Task, chunks: seq<Bytes>, i: nat, honest: seq<Step>,
    req: ChallengeRequest, answer: ChallengeAnswer, revealed: Revealed)
    requires IsPosition(task, chunks, i, honest) && req.seed == task.seed
    requires HexToPoint(task.curve, req.g) == Ok(task.g) && HexToPoint(task.curve, req.h) == Ok(task.h)
    requires VerifyOpening(task.hash, task.curve, req, answer) == Ok(true)
    requires Reveal(task.curve, answer) == Ok(revealed)
    requires answer.merkleRoot == Some(ToHex(Root(task.hash, task.Leaves(chunks))))
    requires |PointBytes(revealed.commitment)| == |PointBytes(task.Commitment(i, chunks[i]))|
    requires Directions(revealed.steps) == Directions(honest)
    ensures |revealed.steps| == |honest|
    ensures ChunkCommitment(task.hash, task.curve, task.g, task.h, revealed.chunk, task.seed, revealed.r)
         == revealed.commitment
    ensures match FindCollision(task.hash, revealed.steps, PointBytes(revealed.commitment),
                                honest, PointBytes(task.Commitment(i, chunks[i])))
            case None => PointBytes(revealed.commitment) == PointBytes(task.Commitment(i, chunks[i]))
            case Some((x, y)) => Collision(task.hash, x, y)
  {
    AcceptedMeans(task.hash, task.curve, req, answer);
    MerklePartBinds(task, chunks, i, answer.merkleProof.value, revealed.steps, revealed.commitment);
  }

  /**
   Soundness across the three checks: when the validator accepts an answer against
   the root of committed chunks, with the directions of position i and a commitment
   printed as long as leaf i, then the revealed chunk is chunk i, or `ExtractBreak`
   returns a hash collision or a relation between the generators.
   */
  lemma AcceptedAnswerRevealsChunk(
    task: Task, chunks: seq<Bytes>, i: nat, honest: seq<Step>,
    req: ChallengeRequest, answer: ChallengeAnswer, revealed: Revealed)
    requires task.curve.Valid() && IsPosition(task, chunks, i, honest) && req.seed == task.seed
    requires HexToPoint(task.curve, req.g) == Ok(task.g) && HexToPoint(task.curve, req.h) == Ok(task.h)
    requires VerifyChallenge(task.hash, task.curve, req, answer) == Ok(true)
    requires Reveal(task.curve, answer) == Ok(revealed)
    requires answer.merkleRoot == Some(ToHex(Root(task.hash, task.Leaves(chunks))))
    requires |PointBytes(revealed.commitment)| == |PointBytes(task.Commitment(i, chunks[i]))|
    requires Directions(revealed.steps) == Directions(honest)
    ensures |revealed.steps| == |honest|
    ensures Explains(task, ExtractBreak(task, chunks[i], i, honest, revealed), chunks[i], revealed.chunk)
  {
    ParsedPointIsOnCurve(task.curve, req.g, task.g);
    ParsedPointIsOnCurve(task.curve, req.h, task.h);
    AcceptedOpeningMeets(task, chunks, i, honest, req, answer, revealed);
    RevealedBinds(task, chunks[i], i, honest, revealed);
  }

  /**
   The converse: the verdict only looks at the generators and the seed of the request, and
   at the root the answer brings. Whatever hash, index and chunk size a request names, an
   honest answer about any non-empty data verifies, and reveals that data.
   */
  lemma AcceptedUnderOwnRoot(hash: HashFn, curve: Curve, req: ChallengeRequest, data: Bytes, random: nat -> nat)
    returns (answer: ChallengeAnswer)
    requires curve.IsClosed() && HexToPoint(curve, req.g).Ok? && HexToPoint(curve, req.h).Ok? && data != []
    ensures VerifyChallenge(hash, curve, req, answer) == Ok(true)
    ensures answer.dataChunk == Some(data)
  {
    var whole := req.(chunkSize := |data|, challengeIndex := 0);
    DivUnique(|data|, |data|, 1, 0);
    HonestAnswerVerifies(hash, curve, data, "", whole, random);
    answer := AnswerChallenge(hash, curve, data, "", whole, random).value;
    assert ChunkData(data, |data|) == [data];
    VerdictLooksAt(hash, curve, req, whole, answer);
  }

  lemma VerdictLooksAt(
    hash: HashFn, curve: Curve, req: ChallengeRequest, other: ChallengeRequest, answer: ChallengeAnswer)
    requires req.g == other.g && req.h == other.h && req.seed == other.seed
    ensures VerifyChallenge(hash, curve, req, answer) == VerifyChallenge(hash, curve, other, answer)
  {
  }
}
