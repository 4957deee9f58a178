/**
 The miner's handlers (neurons/miner.py) over its database and file system. Every
 method is tied to the value-level step of `MinerState`.
 */
module Miner {
  import opened Wrappers
  import opened Text
  import opened Hashing
  import opened Ecc
  import opened Chunking
  import opened Commitments
  import opened Protocol
  import opened Challenge
  import opened MinerState

  /** The Redis hashes of storage/miner/database.py: one per chunk, one field per hotkey. */
  class Database {
    var index: Index

    constructor ()
      ensures index == map[]
    {
      index := map[];
    }

    /** `store_chunk_metadata` */
    method StoreChunkMetadata(
      chunkHash: string, filepath: FilePath, hotkey: string, size: nat, seed: string, ttl: Option<nat>)
      modifies this
      ensures index == Put(old(index), chunkHash, hotkey,
                           Record(filepath, size, seed, if ttl.Some? && ttl.value > 0 then ttl.value else DEFAULT_TTL))
    {
      var life := if ttl.Some? && ttl.value > 0 then ttl.value else DEFAULT_TTL;
      index := Put(index, chunkHash, hotkey, Record(filepath, size, seed, life));
    }

    /** `update_seed_info` */
    method UpdateSeedInfo(chunkHash: string, hotkey: string, seed: string)
      modifies this
      ensures index == WithSeed(old(index), chunkHash, hotkey, seed)
    {
      var metadata := GetRecord(chunkHash, hotkey);
      var record := Record(EmptyPath, 0, seed, DEFAULT_TTL);
      if metadata.Some? {
        record := metadata.value;
      }
      record := record.(seed := seed);
      index := Put(index, chunkHash, hotkey, record);
    }

    /** `store_or_update_chunk_metadata` */
    method StoreOrUpdate(
      chunkHash: string, filepath: FilePath, hotkey: string, size: nat, seed: string, ttl: Option<nat>)
      modifies this
      ensures index == StoredOrUpdated(old(index), chunkHash, filepath, hotkey, size, seed, ttl)
    {
      if chunkHash in index {
        UpdateSeedInfo(chunkHash, hotkey, seed);
      } else {
        StoreChunkMetadata(chunkHash, filepath, hotkey, size, seed, ttl);
      }
    }

    /** `hget`, and `get_chunk_metadata` on records of the new format. */
    method GetRecord(chunkHash: string, hotkey: string) returns (record: Option<Record>)
      ensures record == Lookup(index, chunkHash, hotkey)
    {
      if chunkHash in index && hotkey in index[chunkHash] {
        record := Some(index[chunkHash][hotkey]);
      } else {
        record := None;
      }
    }
  }

  class Miner {
    const hash: HashFn
    const curve: Curve
    const database: Database
    var files: map<Path, Bytes>
    var requestCount: nat

    constructor (hash: HashFn, curve: Curve)
      ensures this.hash == hash && this.curve == curve && fresh(database)
      ensures View() == EMPTY_STATE && requestCount == 0
    {
      this.hash := hash;
      this.curve := curve;
      database := new Database();
      files := map[];
      requestCount := 0;
    }

    function View(): State
      reads this, database
    {
      State(database.index, files)
    }

    /** `store`: save the data unless this caller's record is there, record it, commit to it. */
    method Store(hotkey: string, req: StoreRequest, ttl: Option<nat>, r: nat) returns (reply: Result<StoreAnswer>)
      modifies this, database
      ensures View() == AfterStore(hash, old(View()), hotkey, req, ttl)
      ensures reply == StoreReply(hash, curve, req, r)
      ensures requestCount == old(requestCount) + 1
    {
      requestCount := requestCount + 1;
      var dataHash := ChunkName(hash, req.data);
      var held := database.GetRecord(dataHash, hotkey);
      var filepath: FilePath;
      if held.None? {
        files := files[ByHotkey(hotkey, dataHash) := req.data];
        filepath := At(ByHotkey(hotkey, dataHash));
      } else {
        filepath := held.value.filepath;
      }
      database.StoreOrUpdate(dataHash, filepath, hotkey, SizeOf(req.data), req.seed, ttl);
      var g := HexToPoint(curve, req.g);
      if g.Err? {
        return Err(g.error);
      }
      var h := HexToPoint(curve, req.h);
      if h.Err? {
        return Err(h.error);
      }
      var (c, m, drawn) := Commit(hash, curve, g.value, h.value, req.data + Utf8(req.seed), r);
      return Ok(StoreAnswer(drawn, PointToHex(c), Decimal(m)));
    }

    /** Find and load the caller's file for a hash. */
    method Load(dataHash: string, hotkey: string) returns (data: Result<Bytes>, previousSeed: string)
      ensures data == LoadData(View(), dataHash, hotkey)
      ensures previousSeed == PreviousSeed(View(), dataHash, hotkey)
    {
      var record := database.GetRecord(dataHash, hotkey);
      var filepath: Option<FilePath> := if record.Some? then Some(record.value.filepath) else None;
      previousSeed := if record.Some? then record.value.seed else "";
      if filepath.None? {
        if ByHotkey(hotkey, dataHash) in files {
          filepath := Some(At(ByHotkey(hotkey, dataHash)));
        } else if Legacy(dataHash) !in files {
          return Err(NotFound), previousSeed;
        } else {
          filepath := Some(At(Legacy(dataHash)));
        }
      }
      if filepath.value.At? && filepath.value.path in files {
        data := Ok(files[filepath.value.path]);
      } else {
        data := Err(NotFound);
      }
    }

    /** `challenge` */
    method Challenge(hotkey: string, req: ChallengeRequest, random: nat -> nat) returns (reply: Result<ChallengeAnswer>)
      modifies this, database
      ensures View() == AfterProof(old(View()), req.challengeHash, hotkey, req.seed)
      ensures reply == ChallengeReply(hash, curve, old(View()), hotkey, req, random)
      ensures requestCount == old(requestCount) + 1
    {
      requestCount := requestCount + 1;
      var data, previousSeed := Load(req.challengeHash, hotkey);
      if data.Err? {
        return Ok(NO_CHALLENGE_ANSWER);
      }
      database.UpdateSeedInfo(req.challengeHash, hotkey, req.seed);
      reply := BuildAnswer(hash, curve, data.value, previousSeed, req, random);
    }

    /** `retrieve` */
    method Retrieve(hotkey: string, req: RetrieveRequest) returns (reply: RetrieveAnswer)
      modifies this, database
      ensures View() == AfterProof(old(View()), req.dataHash, hotkey, req.seed)
      ensures reply == RetrieveReply(hash, old(View()), hotkey, req)
      ensures requestCount == old(requestCount) + 1
    {
      requestCount := requestCount + 1;
      var data, previousSeed := Load(req.dataHash, hotkey);
      if data.Err? {
        return NO_RETRIEVE_ANSWER;
      }
      var (commitment, proof) := SubsequentCommitment(hash, data.value, previousSeed, req.seed);
      database.UpdateSeedInfo(req.dataHash, hotkey, req.seed);
      return RetrieveAnswer(Some(data.value), Some(Decimal(commitment)), Some(Decimal(proof)));
    }
  }
}
