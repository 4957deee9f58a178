/** The messages of storage/protocol.py that carry proofs, without transport fields. */
module Protocol {
  import opened Wrappers
  import opened Text
  import opened MerkleSpec

  datatype StoreRequest = StoreRequest(data: Bytes, g: string, h: string, seed: string)

  datatype StoreAnswer = StoreAnswer(randomness: nat, commitment: string, commitmentHash: string)

  datatype ChallengeRequest = ChallengeRequest(
    challengeHash: string, challengeIndex: nat, chunkSize: int, g: string, h: string, seed: string)

  /** The returned fields, each `None` until the miner sets it. */
  datatype ChallengeAnswer = ChallengeAnswer(
    commitmentHash: Option<string>,
    commitmentProof: Option<string>,
    commitment: Option<string>,
    dataChunk: Option<Bytes>,
    randomness: Option<nat>,
    merkleProof: Option<seq<ProofEntry>>,
    merkleRoot: Option<string>)

  const NO_CHALLENGE_ANSWER := ChallengeAnswer(None, None, None, None, None, None, None)

  datatype RetrieveRequest = RetrieveRequest(dataHash: string, seed: string)

  datatype RetrieveAnswer = RetrieveAnswer(
    data: Option<Bytes>, commitmentHash: Option<string>, commitmentProof: Option<string>)

  const NO_RETRIEVE_ANSWER := RetrieveAnswer(None, None, None)
}
