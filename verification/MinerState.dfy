/**
 A miner's stored state as a value, and what each request does to it
 (storage/miner/database.py and the handlers of neurons/miner.py).
 */
module MinerState {
  import opened Wrappers
  import opened Text
  import opened Hashing
  import opened Ecc
  import opened Chunking
  import opened Commitments
  import opened Protocol
  import opened Challenge

  /** Where a file lies: under its caller's directory, or in the old place without one. */
  datatype Path = ByHotkey(hotkey: string, dataHash: string) | Legacy(dataHash: string)

  /** The `filepath` field of a record: a path, or the empty string. */
  datatype FilePath = At(path: Path) | EmptyPath

  /** The metadata of one chunk for one hotkey, in the new format. */
  datatype Record = Record(filepath: FilePath, size: nat, seed: string, ttl: nat)

  type Index = map<string, map<string, Record>>

  const DEFAULT_TTL := 60 * 60 * 24 * 30

  datatype State = State(index: Index, files: map<Path, Bytes>)

  const EMPTY_STATE := State(map[], map[])

  // ---------- The database ----------

  function Lookup(index: Index, chunkHash: string, hotkey: string): Option<Record> {
    if chunkHash in index && hotkey in index[chunkHash] then Some(index[chunkHash][hotkey]) else None
  }

  /** `hset` */
  function Put(index: Index, chunkHash: string, hotkey: string, record: Record): Index {
    index[chunkHash := (if chunkHash in index then index[chunkHash] else map[])[hotkey := record]]
  }

  /** `update_seed_info`: a missing record is created with an empty path. */
  function WithSeed(index: Index, chunkHash: string, hotkey: string, seed: string): Index {
    var found := Lookup(index, chunkHash, hotkey);
    var record := if found.Some? then found.value else Record(EmptyPath, 0, seed, DEFAULT_TTL);
    Put(index, chunkHash, hotkey, record.(seed := seed))
  }

  /** `store_or_update_chunk_metadata`: only a chunk unknown to the miner gets the full record. */
  function StoredOrUpdated(
    index: Index, chunkHash: string, filepath: FilePath, hotkey: string, size: nat, seed: string, ttl: Option<nat>): Index
  {
    if chunkHash in index then WithSeed(index, chunkHash, hotkey, seed)
    else
      var life := if ttl.Some? && ttl.value > 0 then ttl.value else DEFAULT_TTL;
      Put(index, chunkHash, hotkey, Record(filepath, size, seed, life))
  }

  // ---------- Requests ----------

  function ChunkName(hash: HashFn, data: Bytes): string {
    Decimal(HashData(hash, data))
  }

  /** What `store` leaves behind. */
  function AfterStore(hash: HashFn, st: State, hotkey: string, req: StoreRequest, ttl: Option<nat>): State {
    var name := ChunkName(hash, req.data);
    var held := Lookup(st.index, name, hotkey);
    var path := ByHotkey(hotkey, name);
    var files := if held.None? then st.files[path := req.data] else st.files;
    var filepath := if held.None? then At(path) else held.value.filepath;
    State(StoredOrUpdated(st.index, name, filepath, hotkey, SizeOf(req.data), req.seed, ttl), files)
  }

  /** What `store` answers; it fails on bad generators after the data is stored. */
  function StoreReply(hash: HashFn, curve: Curve, req: StoreRequest, r: nat): Result<StoreAnswer> {
    var g :- HexToPoint(curve, req.g);
    var h :- HexToPoint(curve, req.h);
    var (c, m, drawn) := Commit(hash, curve, g, h, req.data + Utf8(req.seed), r);
    Ok(StoreAnswer(drawn, PointToHex(c), Decimal(m)))
  }

  /** The bytes a handler loads: at the record's path, or, with no record, in the caller's or the old place. */
  function LoadData(st: State, dataHash: string, hotkey: string): Result<Bytes> {
    var record := Lookup(st.index, dataHash, hotkey);
    if record.Some? then
      if record.value.filepath.At? && record.value.filepath.path in st.files
      then Ok(st.files[record.value.filepath.path]) else Err(NotFound)
    else if ByHotkey(hotkey, dataHash) in st.files then Ok(st.files[ByHotkey(hotkey, dataHash)])
    else if Legacy(dataHash) in st.files then Ok(st.files[Legacy(dataHash)])
    else Err(NotFound)
  }

  function PreviousSeed(st: State, dataHash: string, hotkey: string): string {
    var record := Lookup(st.index, dataHash, hotkey);
    if record.Some? then record.value.seed else ""
  }

  /** A challenge or retrieve moves the caller's seed once the data is loaded, whatever happens after. */
  function AfterProof(st: State, dataHash: string, hotkey: string, seed: string): State {
    if LoadData(st, dataHash, hotkey).Err? then st
    else st.(index := WithSeed(st.index, dataHash, hotkey, seed))
  }

  /** What `challenge` answers: an empty answer when there is no file. */
  function ChallengeReply(
    hash: HashFn, curve: Curve, st: State, hotkey: string, req: ChallengeRequest, random: nat -> nat)
    : Result<ChallengeAnswer>
  {
    var data := LoadData(st, req.challengeHash, hotkey);
    if data.Err? then Ok(NO_CHALLENGE_ANSWER)
    else AnswerChallenge(hash, curve, data.value, PreviousSeed(st, req.challengeHash, hotkey), req, random)
  }

  /** What `retrieve` answers. */
  function RetrieveReply(hash: HashFn, st: State, hotkey: string, req: RetrieveRequest): RetrieveAnswer {
    var data := LoadData(st, req.dataHash, hotkey);
    if data.Err? then NO_RETRIEVE_ANSWER
    else
      var (next, proof) := SubsequentCommitment(hash, data.value, PreviousSeed(st, req.dataHash, hotkey), req.seed);
      RetrieveAnswer(Some(data.value), Some(Decimal(next)), Some(Decimal(proof)))
  }

  /**
   Where data loads from: a record decides alone, and an empty path loads nothing; without
   one the caller's own directory comes before the old place.
   */
  lemma LoadOrder(st: State, dataHash: string, hotkey: string)
    ensures var record, own, old' := Lookup(st.index, dataHash, hotkey), ByHotkey(hotkey, dataHash), Legacy(dataHash);
            LoadData(st, dataHash, hotkey) ==
            match record {
              case Some(Record(At(path), _, _, _)) => if path in st.files then Ok(st.files[path]) else Err(NotFound)
              case Some(Record(EmptyPath, _, _, _)) => Err(NotFound)
              case None =>
                if own in st.files then Ok(st.files[own])
                else if old' in st.files then Ok(st.files[old'])
                else Err(NotFound)
            }
  {
  }

  /** A store's answer: the draw, the Pedersen commitment to data and seed with it, and their hash. */
  lemma StoreReplyExactly(hash: HashFn, curve: Curve, req: StoreRequest, r: nat)
    ensures var g, h, reply := HexToPoint(curve, req.g), HexToPoint(curve, req.h), StoreReply(hash, curve, req, r);
            var m := HashData(hash, req.data + Utf8(req.seed));
            && (reply.Ok? <==> g.Ok? && h.Ok?)
            && (reply.Ok? ==>
                  reply.value == StoreAnswer(
                                   r, PointToHex(curve.add(curve.mul(g.value, m), curve.mul(h.value, r))), Decimal(m)))
  {
  }
}
