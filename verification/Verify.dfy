/** The validator's checks (storage/validator/verify.py). A raised exception is an `Err`. */
module Verify {
  import opened Wrappers
  import opened Text
  import opened Hashing
  import opened Ecc
  import opened MerkleSpec
  import opened Protocol

  /** `verify_chained_commitment`: the commitment is the hash of proof and seed; a missing part fails. */
  predicate VerifyChained(hash: HashFn, proof: Option<string>, seed: string, commitment: Option<string>) {
    && proof.Some? && commitment.Some?
    && Decimal(HashData(hash, Utf8(proof.value) + Utf8(seed))) == commitment.value
  }

  function Present<T>(v: Option<T>): Result<T> {
    if v.Some? then Ok(v.value) else Err(TypeError)
  }

  /** `verify_challenge_with_seed`: chained hash, then commitment opening, then Merkle proof. */
  function VerifyChallenge(hash: HashFn, curve: Curve, req: ChallengeRequest, answer: ChallengeAnswer): Result<bool> {
    if answer.commitmentHash.None? || answer.commitmentProof.None? then Ok(false)
    else if !VerifyChained(hash, answer.commitmentProof, req.seed, answer.commitmentHash) then Ok(false)
    else VerifyOpening(hash, curve, req, answer)
  }

  /** The second and third check of `verify_challenge_with_seed`. */
  function VerifyOpening(hash: HashFn, curve: Curve, req: ChallengeRequest, answer: ChallengeAnswer): Result<bool> {
    var g :- HexToPoint(curve, req.g);
    var h :- HexToPoint(curve, req.h);
    var printed :- Present(answer.commitment);
    var commitment :- HexToPoint(curve, printed);
    var chunk :- Present(answer.dataChunk);
    var r :- Present(answer.randomness);
    if !Open(curve, g, h, commitment, HashData(hash, chunk + Utf8(req.seed)), r) then Ok(false)
    else
      var proof :- Present(answer.merkleProof);
      var root :- Present(answer.merkleRoot);
      Validate(hash, proof, PointToHex(commitment), root)
  }

  /** `verify_store_with_seed` */
  function VerifyStore(hash: HashFn, curve: Curve, req: StoreRequest, answer: StoreAnswer): Result<bool> {
    var m := HashData(hash, req.data + Utf8(req.seed));
    if answer.commitmentHash != Decimal(m) then Ok(false)
    else
      var g :- HexToPoint(curve, req.g);
      var h :- HexToPoint(curve, req.h);
      var commitment :- HexToPoint(curve, answer.commitment);
      Ok(Open(curve, g, h, commitment, m, answer.randomness))
  }

  /** `verify_retrieve_with_seed` */
  predicate VerifyRetrieve(hash: HashFn, req: RetrieveRequest, answer: RetrieveAnswer) {
    VerifyChained(hash, answer.commitmentProof, req.seed, answer.commitmentHash)
  }

  // ---------- What is refused ----------

  /** One proof and one seed leave room for one commitment only. */
  lemma ChainedUnique(hash: HashFn, proof: Option<string>, seed: string, c: Option<string>, c': Option<string>)
    requires VerifyChained(hash, proof, seed, c) && VerifyChained(hash, proof, seed, c')
    ensures c == c'
  {
  }

  /** One commitment accepted for two pairs of proof and seed: the pairs spell the same bytes, or these collide. */
  lemma ChainedBinds(
    hash: HashFn, proof: Option<string>, seed: string, proof': Option<string>, seed': string, c: Option<string>)
    requires VerifyChained(hash, proof, seed, c) && VerifyChained(hash, proof', seed', c)
    ensures proof.Some? && proof'.Some? && c.Some?
    ensures var x, x' := Utf8(proof.value) + Utf8(seed), Utf8(proof'.value) + Utf8(seed');
            x == x' || Collision(hash, x, x')
  {
    var x, x' := Utf8(proof.value) + Utf8(seed), Utf8(proof'.value) + Utf8(seed');
    DecimalInjective(HashData(hash, x), HashData(hash, x'));
    HashDataBinds(hash, x, x');
  }

  /** An accepted retrieve answer is refused with any other commitment hash, or none. */
  lemma RetrieveRefusesOtherHash(hash: HashFn, req: RetrieveRequest, answer: RetrieveAnswer, other: Option<string>)
    requires VerifyRetrieve(hash, req, answer) && other != answer.commitmentHash
    ensures !VerifyRetrieve(hash, req, answer.(commitmentHash := other))
  {
    if VerifyRetrieve(hash, req, answer.(commitmentHash := other)) {
      ChainedUnique(hash, answer.commitmentProof, req.seed, answer.commitmentHash, other);
    }
  }

  /** So is an accepted challenge answer. */
  lemma ChallengeRefusesOtherHash(
    hash: HashFn, curve: Curve, req: ChallengeRequest, answer: ChallengeAnswer, other: Option<string>)
    requires VerifyChallenge(hash, curve, req, answer) == Ok(true) && other != answer.commitmentHash
    ensures VerifyChallenge(hash, curve, req, answer.(commitmentHash := other)) == Ok(false)
  {
    if VerifyChained(hash, answer.commitmentProof, req.seed, other) {
      ChainedUnique(hash, answer.commitmentProof, req.seed, answer.commitmentHash, other);
    }
  }

  /** The last two checks on their parts: the opening of a point, and a proof of it against a root. */
  lemma OpeningParts(hash: HashFn, curve: Curve, req: ChallengeRequest, answer: ChallengeAnswer)
    returns (g: Point, h: Point, c: Point, m: nat)
    requires VerifyOpening(hash, curve, req, answer) == Ok(true)
    ensures answer.dataChunk.Some? && answer.randomness.Some? && answer.merkleProof.Some? && answer.merkleRoot.Some?
    ensures answer.commitment.Some? && HexToPoint(curve, answer.commitment.value) == Ok(c)
    ensures Open(curve, g, h, c, m, answer.randomness.value)
    ensures Validate(hash, answer.merkleProof.value, PointToHex(c), answer.merkleRoot.value) == Ok(true)
    ensures forall printed: string, root: string ::
              (VerifyOpening(hash, curve, req, answer.(commitment := Some(printed), merkleRoot := Some(root)))
              == Reopened(hash, curve, g, h, m, answer, HexToPoint(curve, printed), root))
  {
    g, h := HexToPoint(curve, req.g).value, HexToPoint(curve, req.h).value;
    c := HexToPoint(curve, answer.commitment.value).value;
    m := HashData(hash, answer.dataChunk.value + Utf8(req.seed));
  }

  /** What the last two checks say of another point and another root in an answer. */
  function Reopened(
    hash: HashFn, curve: Curve, g: Point, h: Point, m: nat, answer: ChallengeAnswer, point: Result<Point>, root: string)
    : Result<bool>
    requires answer.randomness.Some? && answer.merkleProof.Some?
  {
    if point.Err? then Err(point.error)
    else if !Open(curve, g, h, point.value, m, answer.randomness.value) then Ok(false)
    else Validate(hash, answer.merkleProof.value, PointToHex(point.value), root)
  }

  /** An accepted challenge answer is refused with any other curve point as its commitment. */
  lemma ChallengeRefusesOtherPoint(
    hash: HashFn, curve: Curve, req: ChallengeRequest, answer: ChallengeAnswer, other: Point)
    requires VerifyChallenge(hash, curve, req, answer) == Ok(true) && curve.contains(other)
    requires answer.commitment.Some? && HexToPoint(curve, answer.commitment.value) != Ok(other)
    ensures VerifyChallenge(hash, curve, req, answer.(commitment := Some(PointToHex(other)))) == Ok(false)
  {
    var printed := PointToHex(other);
    var g, h, c, m := OpeningParts(hash, curve, req, answer);
    PointRoundTrip(curve, other);
    var changed := answer.(commitment := Some(printed));
    assert changed == answer.(commitment := Some(printed), merkleRoot := Some(answer.merkleRoot.value));
  }

  /** An accepted challenge answer is refused with any other bytes as its root. */
  lemma ChallengeRefusesOtherRoot(
    hash: HashFn, curve: Curve, req: ChallengeRequest, answer: ChallengeAnswer, other: Bytes)
    requires VerifyChallenge(hash, curve, req, answer) == Ok(true)
    requires answer.merkleRoot.Some? && FromHex(answer.merkleRoot.value) != Ok(other)
    ensures VerifyChallenge(hash, curve, req, answer.(merkleRoot := Some(ToHex(other)))) == Ok(false)
  {
    var root := ToHex(other);
    var g, h, c, m := OpeningParts(hash, curve, req, answer);
    ValidateRefusesOtherRoot(hash, answer.merkleProof.value, PointToHex(c), answer.merkleRoot.value, other);
    var changed := answer.(merkleRoot := Some(root));
    assert changed == answer.(commitment := Some(answer.commitment.value), merkleRoot := Some(root));
  }

  lemma ValidateRefusesOtherRoot(hash: HashFn, proof: seq<ProofEntry>, target: string, root: string, other: Bytes)
    requires Validate(hash, proof, target, root) == Ok(true) && FromHex(root) != Ok(other)
    ensures Validate(hash, proof, target, ToHex(other)) == Ok(false)
  {
    HexRoundTrip(other);
  }

  /** An accepted store answer is refused with any other commitment hash. */
  lemma StoreRefusesOtherHash(hash: HashFn, curve: Curve, req: StoreRequest, answer: StoreAnswer, other: string)
    requires VerifyStore(hash, curve, req, answer) == Ok(true) && other != answer.commitmentHash
    ensures VerifyStore(hash, curve, req, answer.(commitmentHash := other)) == Ok(false)
  {
  }

  /** ... and with any other curve point as its commitment. */
  lemma StoreRefusesOtherPoint(hash: HashFn, curve: Curve, req: StoreRequest, answer: StoreAnswer, other: Point)
    requires VerifyStore(hash, curve, req, answer) == Ok(true) && curve.contains(other)
    requires HexToPoint(curve, answer.commitment) != Ok(other)
    ensures VerifyStore(hash, curve, req, answer.(commitment := PointToHex(other))) == Ok(false)
  {
    PointRoundTrip(curve, other);
  }

  /** Two stores accepted with one commitment hash are of the same data followed by the same seed, or these collide. */
  lemma StoreBinds(
    hash: HashFn, curve: Curve, req: StoreRequest, answer: StoreAnswer, req': StoreRequest, answer': StoreAnswer)
    requires VerifyStore(hash, curve, req, answer) == Ok(true) && VerifyStore(hash, curve, req', answer') == Ok(true)
    requires answer.commitmentHash == answer'.commitmentHash
    ensures var x, x' := req.data + Utf8(req.seed), req'.data + Utf8(req'.seed);
            x == x' || Collision(hash, x, x')
  {
    var x, x' := req.data + Utf8(req.seed), req'.data + Utf8(req'.seed);
    DecimalInjective(HashData(hash, x), HashData(hash, x'));
    HashDataBinds(hash, x, x');
  }
}
