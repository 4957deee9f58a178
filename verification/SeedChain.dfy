/**
 The seed-chained protocol between any number of validators and one miner, as a
 state machine over store, challenge and retrieve, with requests and answers that
 may be lost. The theorems hold after every run from an empty miner.
 */
module SeedChain {
  import opened Wrappers
  import opened Text
  import opened Hashing
  import opened Ecc
  import opened Chunking
  import opened Commitments
  import opened Protocol
  import opened Verify
  import opened Challenge
  import opened MinerState

  /** What fixes a run: the hash, the curve and the miner's draws. */
  datatype World = World(hash: HashFn, curve: Curve)

  /** The miner's state, and the `prev_seed` each validator keeps per chunk it has stored there. */
  datatype System = System(miner: State, recorded: map<(string, string), string>)

  const START := System(EMPTY_STATE, map[])

  datatype Delivery = LostRequest | LostAnswer | Delivered

  /** One exchange, started by the validator with hotkey `who`. */
  datatype Event =
    | Storing(who: string, store: StoreRequest, ttl: Option<nat>, r: nat, delivery: Delivery)
    | Challenging(who: string, challenge: ChallengeRequest, random: nat -> nat, delivery: Delivery)
    | Retrieving(who: string, retrieve: RetrieveRequest, delivery: Delivery)
    | Fetching(who: string, retrieve: RetrieveRequest, delivery: Delivery)
  {
    function Chunk(hash: HashFn): string {
      match this
      case Storing(_, store, _, _, _) => ChunkName(hash, store.data)
      case Challenging(_, challenge, _, _) => challenge.challengeHash
      case Retrieving(_, retrieve, _) => retrieve.dataHash
      case Fetching(_, retrieve, _) => retrieve.dataHash
    }

    function Seed(): string {
      match this
      case Storing(_, store, _, _, _) => store.seed
      case Challenging(_, challenge, _, _) => challenge.seed
      case Retrieving(_, retrieve, _) => retrieve.seed
      case Fetching(_, retrieve, _) => retrieve.seed
    }
  }

  // ---------- Steps ----------

  /** A validator only challenges, and only retrieves by itself, what it has recorded for the miner. */
  predicate Enabled(w: World, s: System, e: Event) {
    e.Challenging? || e.Retrieving? ==> (e.who, e.Chunk(w.hash)) in s.recorded
  }

  function MinerAfter(w: World, s: System, e: Event): State {
    if e.delivery.LostRequest? then s.miner
    else
      match e
      case Storing(who, store, ttl, _, _) => AfterStore(w.hash, s.miner, who, store, ttl)
      case _ => AfterProof(s.miner, e.Chunk(w.hash), e.who, e.Seed())
  }

  /** The validator's verdict on the exchange: only a delivered answer can verify. */
  predicate Verified(w: World, s: System, e: Event) {
    && e.delivery.Delivered?
    && match e
       case Storing(_, store, _, r, _) =>
         var reply := StoreReply(w.hash, w.curve, store, r);
         reply.Ok? && VerifyStore(w.hash, w.curve, store, reply.value) == Ok(true)
       case Challenging(who, challenge, random, _) =>
         var reply := ChallengeReply(w.hash, w.curve, s.miner, who, challenge, random);
         reply.Ok? && VerifyChallenge(w.hash, w.curve, challenge, reply.value) == Ok(true)
       case _ => VerifyRetrieve(w.hash, e.retrieve, RetrieveReply(w.hash, s.miner, e.who, e.retrieve))
  }

  /** `prev_seed` is recorded after a verified store or challenge, and after every retrieve, verified or not. */
  predicate Records(w: World, s: System, e: Event) {
    e.Retrieving? || (!e.Fetching? && Verified(w, s, e))
  }

  function Step(w: World, s: System, e: Event): System {
    if !Enabled(w, s, e) then s
    else System(MinerAfter(w, s, e),
                if Records(w, s, e) then s.recorded[(e.who, e.Chunk(w.hash)) := e.Seed()] else s.recorded)
  }

  function RunOf(w: World, events: seq<Event>): System {
    if events == [] then START else Step(w, RunOf(w, events[..|events| - 1]), events[|events| - 1])
  }

  // ---------- The invariant of all runs ----------

  /** The record of `who` for the chunk knows where the file is. */
  predicate HasPath(st: State, chunk: string, who: string) {
    var record := Lookup(st.index, chunk, who);
    record.Some? && record.value.filepath.At?
  }

  /** A recorded caller's data lies in its directory under its own hash, and a path in the record leads there. */
  predicate RecordSound(hash: HashFn, st: State, chunk: string, who: string) {
    var record, path := Lookup(st.index, chunk, who), ByHotkey(who, chunk);
    record.Some? ==>
      && path in st.files && ChunkName(hash, st.files[path]) == chunk
      && (record.value.filepath.At? ==> record.value.filepath.path == path)
  }

  ghost predicate RecordsSound(hash: HashFn, st: State) {
    forall chunk, who :: RecordSound(hash, st, chunk, who)
  }

  /** A file in a caller's directory has a record of that caller; nothing lies in the old place. */
  ghost predicate FilesRecorded(st: State) {
    forall path :: path in st.files ==> path.ByHotkey? && Lookup(st.index, path.dataHash, path.hotkey).Some?
  }

  /** Every chunk known to the miner has one record that knows the file, and only one. */
  ghost predicate OnePathEach(st: State) {
    && (forall chunk :: chunk in st.index ==> exists who :: HasPath(st, chunk, who))
    && (forall chunk, who, who' :: HasPath(st, chunk, who) && HasPath(st, chunk, who') ==> who == who')
  }

  /** What a validator has recorded, the miner has a record of. */
  ghost predicate RecordedIsStored(s: System) {
    forall k :: k in s.recorded ==> Lookup(s.miner.index, k.1, k.0).Some?
  }

  ghost predicate Inv(w: World, s: System) {
    && RecordsSound(w.hash, s.miner)
    && FilesRecorded(s.miner)
    && OnePathEach(s.miner)
    && RecordedIsStored(s)
  }

  // ---------- Single steps on the index ----------

  /** Moving a seed changes that one record, and of it only the seed. */
  lemma WithSeedLookup(index: Index, chunk: string, who: string, seed: string, chunk': string, who': string)
    ensures Lookup(WithSeed(index, chunk, who, seed), chunk', who')
         == if chunk' == chunk && who' == who then
              Some((if Lookup(index, chunk, who).Some? then Lookup(index, chunk, who).value
                    else Record(EmptyPath, 0, seed, DEFAULT_TTL)).(seed := seed))
            else Lookup(index, chunk', who')
    ensures WithSeed(index, chunk, who, seed).Keys == index.Keys + {chunk}
  {
  }

  /**
   A store's effect on every record and file. The caller's record only gets the seed when
   there is one; is complete, with the reported size and the given life or 30 days, when
   the chunk is new; and has neither path nor size when others hold the chunk. The file is
   written unless the caller had a record.
   */
  lemma StoreLookup(w: World, st: State, who: string, req: StoreRequest, ttl: Option<nat>, chunk': string, who': string)
    ensures var chunk := ChunkName(w.hash, req.data);
            var after := AfterStore(w.hash, st, who, req, ttl);
            var held, life := Lookup(st.index, chunk, who), if ttl.Some? && ttl.value > 0 then ttl.value else 2592000;
            && Lookup(after.index, chunk', who')
            == (if chunk' != chunk || who' != who then Lookup(st.index, chunk', who')
                else if held.Some? then Some(held.value.(seed := req.seed))
                else if chunk in st.index then Some(Record(EmptyPath, 0, req.seed, 2592000))
                else Some(Record(At(ByHotkey(who, chunk)), |req.data| + 33, req.seed, life)))
            && after.files == (if held.Some? then st.files else st.files[ByHotkey(who, chunk) := req.data])
            && after.index.Keys == st.index.Keys + {chunk}
  {
  }

  // ---------- Preservation ----------

  lemma StoreKeepsRecordsSound(w: World, st: State, who: string, req: StoreRequest, ttl: Option<nat>)
    requires RecordsSound(w.hash, st)
    ensures RecordsSound(w.hash, AfterStore(w.hash, st, who, req, ttl))
  {
    var after := AfterStore(w.hash, st, who, req, ttl);
    forall chunk', who'
      ensures RecordSound(w.hash, after, chunk', who')
    {
      StoreLookup(w, st, who, req, ttl, chunk', who');
      assert RecordSound(w.hash, st, chunk', who');
    }
  }

  lemma StoreKeepsFilesRecorded(w: World, st: State, who: string, req: StoreRequest, ttl: Option<nat>)
    requires FilesRecorded(st)
    ensures FilesRecorded(AfterStore(w.hash, st, who, req, ttl))
  {
    var after := AfterStore(w.hash, st, who, req, ttl);
    forall path | path in after.files
      ensures path.ByHotkey? && Lookup(after.index, path.dataHash, path.hotkey).Some?
    {
      if path.ByHotkey? {
        StoreLookup(w, st, who, req, ttl, path.dataHash, path.hotkey);
      }
    }
  }

  lemma StoreKeepsPaths(w: World, st: State, who: string, req: StoreRequest, ttl: Option<nat>)
    requires OnePathEach(st)
    ensures OnePathEach(AfterStore(w.hash, st, who, req, ttl))
    ensures forall chunk', who' :: HasPath(st, chunk', who') ==>
              HasPath(AfterStore(w.hash, st, who, req, ttl), chunk', who')
  {
    var chunk := ChunkName(w.hash, req.data);
    var after := AfterStore(w.hash, st, who, req, ttl);
    forall chunk', who'
      ensures HasPath(after, chunk', who')
         <==> HasPath(st, chunk', who') || (chunk !in st.index && chunk' == chunk && who' == who)
    {
      StoreLookup(w, st, who, req, ttl, chunk', who');
    }
    forall chunk' | chunk' in after.index
      ensures exists who' :: HasPath(after, chunk', who')
    {
      StoreLookup(w, st, who, req, ttl, chunk', who);
      if chunk' in st.index {
        var who' :| HasPath(st, chunk', who');
        assert HasPath(after, chunk', who');
      } else {
        assert HasPath(after, chunk', who);
      }
    }
    forall who' | HasPath(st, chunk, who')
      ensures chunk in st.index
    {
    }
  }

  /** A proof request moves a seed only where there is a record, so nothing else of the miner changes. */
  lemma ProofLookup(w: World, st: State, chunk: string, who: string, seed: string, chunk': string, who': string)
    requires FilesRecorded(st)
    ensures var after := AfterProof(st, chunk, who, seed);
            && after.files == st.files && after.index.Keys == st.index.Keys
            && (LoadData(st, chunk, who).Ok? ==> Lookup(st.index, chunk, who).Some?)
            && Lookup(after.index, chunk', who')
            == if chunk' == chunk && who' == who && LoadData(st, chunk, who).Ok?
               then Some(Lookup(st.index, chunk', who').value.(seed := seed))
               else Lookup(st.index, chunk', who')
  {
    if LoadData(st, chunk, who).Ok? {
      assert Lookup(st.index, chunk, who).Some?;
      WithSeedLookup(st.index, chunk, who, seed, chunk', who');
    }
  }

  lemma ProofKeepsMiner(w: World, st: State, chunk: string, who: string, seed: string)
    requires RecordsSound(w.hash, st) && FilesRecorded(st) && OnePathEach(st)
    ensures var after := AfterProof(st, chunk, who, seed);
            && RecordsSound(w.hash, after) && FilesRecorded(after) && OnePathEach(after)
            && forall chunk', who' :: HasPath(after, chunk', who') == HasPath(st, chunk', who')
  {
    var after := AfterProof(st, chunk, who, seed);
    forall chunk', who'
      ensures HasPath(after, chunk', who') == HasPath(st, chunk', who')
      ensures RecordSound(w.hash, after, chunk', who')
    {
      ProofLookup(w, st, chunk, who, seed, chunk', who');
      assert RecordSound(w.hash, st, chunk', who');
    }
    forall path | path in after.files
      ensures path.ByHotkey? && Lookup(after.index, path.dataHash, path.hotkey).Some?
    {
      ProofLookup(w, st, chunk, who, seed, path.dataHash, path.hotkey);
    }
    ProofLookup(w, st, chunk, who, seed, chunk, who);
    forall chunk' | chunk' in after.index
      ensures exists who' :: HasPath(after, chunk', who')
    {
      var who' :| HasPath(st, chunk', who');
      assert HasPath(after, chunk', who');
    }
  }

  lemma StepKeepsInv(w: World, s: System, e: Event)
    requires Inv(w, s)
    ensures Inv(w, Step(w, s, e))
  {
    var after := Step(w, s, e);
    if Enabled(w, s, e) {
      var chunk := e.Chunk(w.hash);
      if !e.delivery.LostRequest? {
        match e {
          case Storing(who, store, ttl, _, _) =>
            StoreKeepsRecordsSound(w, s.miner, who, store, ttl);
            StoreKeepsFilesRecorded(w, s.miner, who, store, ttl);
            StoreKeepsPaths(w, s.miner, who, store, ttl);
          case _ =>
            ProofKeepsMiner(w, s.miner, chunk, e.who, e.Seed());
        }
      }
      forall k | k in after.recorded
        ensures Lookup(after.miner.index, k.1, k.0).Some?
      {
        StepLookup(w, s, e, k.1, k.0);
      }
    }
  }

  /** What one enabled step does to any one record. */
  lemma StepLookup(w: World, s: System, e: Event, chunk': string, who': string)
    requires Inv(w, s) && Enabled(w, s, e)
    ensures var chunk := e.Chunk(w.hash);
            var record, record' := Lookup(s.miner.index, chunk', who'), Lookup(Step(w, s, e).miner.index, chunk', who');
            && (chunk' != chunk || who' != e.who || e.delivery.LostRequest? ==> record' == record)
            && (record.Some? ==> record'.Some? && record'.value.filepath == record.value.filepath)
            && (chunk' == chunk && who' == e.who && !e.delivery.LostRequest? ==>
                  && (e.Storing? ==> record'.Some? && record'.value.seed == e.Seed())
                  && (!e.Storing? && LoadData(s.miner, chunk, e.who).Ok? ==> record'.Some? && record'.value.seed == e.Seed())
                  && (!e.Storing? && LoadData(s.miner, chunk, e.who).Err? ==> record' == record))
  {
    if !e.delivery.LostRequest? {
      match e {
        case Storing(who, store, ttl, _, _) => StoreLookup(w, s.miner, who, store, ttl, chunk', who');
        case _ => ProofLookup(w, s.miner, e.Chunk(w.hash), e.who, e.Seed(), chunk', who');
      }
    }
  }

  /** The invariant holds after every run. */
  lemma {:induction false} RunKeepsInv(w: World, events: seq<Event>)
    ensures Inv(w, RunOf(w, events))
  {
    if events != [] {
      RunKeepsInv(w, events[..|events| - 1]);
      StepKeepsInv(w, RunOf(w, events[..|events| - 1]), events[|events| - 1]);
    }
  }

  // ---------- What loads ----------

  /** In a sound state, data loads exactly by a record that knows the file. */
  lemma LoadsByPath(w: World, st: State, chunk: string, who: string)
    requires RecordsSound(w.hash, st) && FilesRecorded(st)
    ensures HasPath(st, chunk, who) ==> ByHotkey(who, chunk) in st.files
    ensures LoadData(st, chunk, who) ==
            if HasPath(st, chunk, who) then Ok(st.files[ByHotkey(who, chunk)]) else Err(NotFound)
  {
    assert RecordSound(w.hash, st, chunk, who);
    if Lookup(st.index, chunk, who).None? {
      assert ByHotkey(who, chunk) !in st.files;
      assert Legacy(chunk) !in st.files;
    }
  }

  // ---------- Who stored first ----------

  predicate ArrivesWith(w: World, e: Event, chunk: string) {
    e.Storing? && !e.delivery.LostRequest? && e.Chunk(w.hash) == chunk
  }

  /** The first store of the chunk that reached the miner. */
  function FirstStore(w: World, events: seq<Event>, chunk: string): (first: Option<Event>)
    ensures first.Some? ==> ArrivesWith(w, first.value, chunk)
  {
    if events == [] then None
    else
      var before, e := FirstStore(w, events[..|events| - 1], chunk), events[|events| - 1];
      if before.Some? then before
      else if ArrivesWith(w, e, chunk) then Some(e)
      else None
  }

  predicate StoredFirst(w: World, events: seq<Event>, chunk: string, who: string) {
    var first := FirstStore(w, events, chunk);
    first.Some? && first.value.who == who
  }

  /** Once a chunk was stored, who stored it first does not change. */
  lemma {:induction false} FirstStoreStays(w: World, events: seq<Event>, later: seq<Event>, chunk: string)
    requires FirstStore(w, events, chunk).Some?
    ensures FirstStore(w, events + later, chunk) == FirstStore(w, events, chunk)
  {
    if later == [] {
      assert events + later == events;
    } else {
      var n := |later| - 1;
      assert (events + later)[..|events| + n] == events + later[..n];
      FirstStoreStays(w, events, later[..n], chunk);
    }
  }

  /** What one step does to who knows the file of a chunk, and to the file. */
  lemma StepPaths(w: World, s: System, e: Event, chunk: string, who: string)
    requires Inv(w, s)
    ensures var s', path := Step(w, s, e), ByHotkey(who, chunk);
            var isFirst := ArrivesWith(w, e, chunk) && chunk !in s.miner.index && who == e.who;
            && (chunk in s'.miner.index <==> chunk in s.miner.index || ArrivesWith(w, e, chunk))
            && (HasPath(s'.miner, chunk, who) <==> HasPath(s.miner, chunk, who) || isFirst)
            && (HasPath(s.miner, chunk, who) ==>
                  path in s.miner.files && path in s'.miner.files && s'.miner.files[path] == s.miner.files[path])
            && (isFirst ==> path in s'.miner.files && s'.miner.files[path] == e.store.data)
  {
    assert RecordSound(w.hash, s.miner, chunk, who);
    if Enabled(w, s, e) && !e.delivery.LostRequest? {
      match e {
        case Storing(caller, store, ttl, _, _) => StoreLookup(w, s.miner, caller, store, ttl, chunk, who);
        case _ => ProofLookup(w, s.miner, e.Chunk(w.hash), e.who, e.Seed(), chunk, who);
      }
    }
  }

  /**
   After every run: the miner knows a chunk if and only if a store of it arrived, and the
   one record that knows its file is that of whoever stored it first, with that data.
   */
  lemma {:induction false} FirstStoreDecides(w: World, events: seq<Event>, chunk: string, who: string)
    ensures var st, first, path := RunOf(w, events).miner, FirstStore(w, events, chunk), ByHotkey(who, chunk);
            && (chunk in st.index <==> first.Some?)
            && (HasPath(st, chunk, who) <==> StoredFirst(w, events, chunk, who))
            && (StoredFirst(w, events, chunk, who) ==> path in st.files && st.files[path] == first.value.store.data)
  {
    if events != [] {
      var before := events[..|events| - 1];
      RunKeepsInv(w, before);
      FirstStoreDecides(w, before, chunk, who);
      StepPaths(w, RunOf(w, before), events[|events| - 1], chunk, who);
    }
  }

  /** After every run, a caller's data loads exactly when it stored the chunk before anyone else, and is what it stored. */
  lemma LoadsExactlyForFirstStorer(w: World, events: seq<Event>, chunk: string, who: string)
    ensures LoadData(RunOf(w, events).miner, chunk, who) ==
            if StoredFirst(w, events, chunk, who) then Ok(FirstStore(w, events, chunk).value.store.data) else Err(NotFound)
  {
    RunKeepsInv(w, events);
    FirstStoreDecides(w, events, chunk, who);
    LoadsByPath(w, RunOf(w, events).miner, chunk, who);
  }

  // ---------- Which exchanges verify ----------

  /** A delivered store verifies whenever its generators are curve points. */
  lemma StoreVerifiesExactly(w: World, s: System, e: Event)
    requires w.curve.IsClosed() && e.Storing?
    ensures Verified(w, s, e) <==>
            e.delivery.Delivered? && HexToPoint(w.curve, e.store.g).Ok? && HexToPoint(w.curve, e.store.h).Ok?
  {
    var g, h := HexToPoint(w.curve, e.store.g), HexToPoint(w.curve, e.store.h);
    if g.Ok? && h.Ok? {
      var m := HashData(w.hash, e.store.data + Utf8(e.store.seed));
      ParsedPointIsOnCurve(w.curve, e.store.g, g.value);
      ParsedPointIsOnCurve(w.curve, e.store.h, h.value);
      CommitmentIsOnCurve(w.curve, g.value, h.value, m, e.r);
      PointRoundTrip(w.curve, Pedersen(w.curve, g.value, h.value, m, e.r));
    }
  }

  /** A challenge that some data can answer. */
  predicate WellFormed(w: World, challenge: ChallengeRequest, data: Bytes) {
    && HexToPoint(w.curve, challenge.g).Ok? && HexToPoint(w.curve, challenge.h).Ok?
    && challenge.chunkSize > 0 && challenge.challengeIndex < CeilDiv(|data|, challenge.chunkSize)
  }

  /** The challenger stored the chunk first, and the challenge names a real piece of what it stored. */
  predicate Answerable(w: World, events: seq<Event>, who: string, challenge: ChallengeRequest) {
    && StoredFirst(w, events, challenge.challengeHash, who)
    && WellFormed(w, challenge, FirstStore(w, events, challenge.challengeHash).value.store.data)
  }

  /**
   After every run, whatever was lost on the way: a delivered challenge verifies
   exactly when the challenger stored the chunk before anyone else and the challenge
   names a real piece of the data it stored then.
   */
  lemma ChallengeVerifiesExactly(w: World, events: seq<Event>, e: Event)
    requires w.curve.IsClosed() && e.Challenging?
    ensures Verified(w, RunOf(w, events), e) <==> e.delivery.Delivered? && Answerable(w, events, e.who, e.challenge)
  {
    var s := RunOf(w, events);
    LoadsExactlyForFirstStorer(w, events, e.challenge.challengeHash, e.who);
    var data := LoadData(s.miner, e.challenge.challengeHash, e.who);
    if data.Ok? {
      var previous := PreviousSeed(s.miner, e.challenge.challengeHash, e.who);
      AnsweredExactly(w.hash, w.curve, data.value, previous, e.challenge, e.random);
      if WellFormed(w, e.challenge, data.value) {
        HonestAnswerVerifies(w.hash, w.curve, data.value, previous, e.challenge, e.random);
      }
    }
  }

  /** And then the answer opens what was challenged, in the data stored first. */
  lemma VerifiedChallengeOpens(w: World, events: seq<Event>, e: Event)
    requires w.curve.IsClosed() && e.Challenging? && Verified(w, RunOf(w, events), e)
    ensures StoredFirst(w, events, e.challenge.challengeHash, e.who)
    ensures HexToPoint(w.curve, e.challenge.g).Ok? && HexToPoint(w.curve, e.challenge.h).Ok?
    ensures var reply := ChallengeReply(w.hash, w.curve, RunOf(w, events).miner, e.who, e.challenge, e.random);
            var first := FirstStore(w, events, e.challenge.challengeHash).value;
            && reply.Ok?
            && OpensPiece(TaskOf(w.hash, w.curve, e.challenge, e.random), first.store.data,
                          e.challenge.chunkSize, e.challenge.challengeIndex, reply.value)
  {
    var chunk := e.challenge.challengeHash;
    ChallengeVerifiesExactly(w, events, e);
    LoadsExactlyForFirstStorer(w, events, chunk, e.who);
    OpensChallengedPiece(w.hash, w.curve, FirstStore(w, events, chunk).value.store.data,
                         PreviousSeed(RunOf(w, events).miner, chunk, e.who), e.challenge, e.random);
  }

  /** Likewise a delivered retrieve verifies exactly for the first storer, and returns exactly what it stored first. */
  lemma RetrieveVerifiesExactly(w: World, events: seq<Event>, e: Event)
    requires e.Retrieving? || e.Fetching?
    ensures var s, hash := RunOf(w, events), e.retrieve.dataHash;
            && (Verified(w, s, e) <==> e.delivery.Delivered? && StoredFirst(w, events, hash, e.who))
            && RetrieveReply(w.hash, s.miner, e.who, e.retrieve).data
            == if StoredFirst(w, events, hash, e.who) then Some(FirstStore(w, events, hash).value.store.data) else None
  {
    LoadsExactlyForFirstStorer(w, events, e.retrieve.dataHash, e.who);
  }

  /**
   Two validators store the same chunk: whatever happens afterwards, no challenge and no
   retrieve of the second one about it ever verifies.
   */
  lemma SecondStorerNeverVerifies(w: World, first: Event, second: Event, later: seq<Event>, e: Event)
    requires w.curve.IsClosed() && !e.Storing?
    requires ArrivesWith(w, first, e.Chunk(w.hash)) && ArrivesWith(w, second, e.Chunk(w.hash))
    requires first.who != second.who == e.who
    ensures !Verified(w, RunOf(w, [first, second] + later), e)
  {
    var chunk := e.Chunk(w.hash);
    assert [first, second][..1] == [first] && [first][..0] == [];
    assert FirstStore(w, [first], chunk) == Some(first);
    FirstStoreStays(w, [first, second], later, chunk);
    if e.Challenging? {
      ChallengeVerifiesExactly(w, [first, second] + later, e);
    } else {
      RetrieveVerifiesExactly(w, [first, second] + later, e);
    }
  }

  // ---------- Seeds ----------

  /** The last request of `who` about `chunk` that reached the miner. */
  function LastArrived(w: World, events: seq<Event>, chunk: string, who: string): (last: Option<Event>)
    ensures last.Some? ==> last.value.who == who && last.value.Chunk(w.hash) == chunk
  {
    if events == [] then None
    else
      var n := |events| - 1;
      var e := events[n];
      if Enabled(w, RunOf(w, events[..n]), e) && !e.delivery.LostRequest? && e.who == who && e.Chunk(w.hash) == chunk
      then Some(e)
      else LastArrived(w, events[..n], chunk, who)
  }

  function LastSeed(w: World, events: seq<Event>, chunk: string, who: string): Option<string> {
    match LastArrived(w, events, chunk, who)
    case None => None
    case Some(e) => Some(e.Seed())
  }

  /** After every run the first storer's seed at the miner is the seed of its last request that arrived. */
  lemma {:induction false} SeedIsLastArrived(w: World, events: seq<Event>, chunk: string, who: string)
    requires StoredFirst(w, events, chunk, who)
    ensures LastSeed(w, events, chunk, who) == Some(PreviousSeed(RunOf(w, events).miner, chunk, who))
  {
    var n := |events| - 1;
    var before, e := RunOf(w, events[..n]), events[n];
    RunKeepsInv(w, events[..n]);
    FirstStoreDecides(w, events[..n], chunk, who);
    LoadsExactlyForFirstStorer(w, events[..n], chunk, who);
    if Enabled(w, before, e) {
      StepLookup(w, before, e, chunk, who);
    }
    if StoredFirst(w, events[..n], chunk, who) {
      SeedIsLastArrived(w, events[..n], chunk, who);
    }
  }

  /** The chained proof in a delivered answer, if there is one. */
  function ProofOfAnswer(w: World, s: System, e: Event): Option<string> {
    match e
    case Storing(_, _, _, _, _) => None
    case Challenging(who, challenge, random, _) =>
      var reply := ChallengeReply(w.hash, w.curve, s.miner, who, challenge, random);
      if reply.Ok? then reply.value.commitmentProof else None
    case Retrieving(who, retrieve, _) => RetrieveReply(w.hash, s.miner, who, retrieve).commitmentProof
    case Fetching(who, retrieve, _) => RetrieveReply(w.hash, s.miner, who, retrieve).commitmentProof
  }

  /** A proof is the hash of the loaded data with the caller's stored seed. */
  lemma ProofOfLoaded(w: World, s: System, e: Event)
    requires ProofOfAnswer(w, s, e).Some?
    ensures var chunk := e.Chunk(w.hash);
            var data := LoadData(s.miner, chunk, e.who);
            && data.Ok?
            && ProofOfAnswer(w, s, e).value
            == Decimal(SeedProof(w.hash, data.value, PreviousSeed(s.miner, chunk, e.who)))
  {
  }

  /**
   After every run a proof is only given to the first storer, and is the hash of the data
   it stored first with the seed of its last arrived request.
   */
  lemma ProofChainsLastSeed(w: World, events: seq<Event>, e: Event)
    requires ProofOfAnswer(w, RunOf(w, events), e).Some?
    ensures var chunk := e.Chunk(w.hash);
            var last := LastSeed(w, events, chunk, e.who);
            && StoredFirst(w, events, chunk, e.who) && last.Some?
            && ProofOfAnswer(w, RunOf(w, events), e).value
            == Decimal(HashData(w.hash, FirstStore(w, events, chunk).value.store.data + Utf8(last.value)))
  {
    ProofOfLoaded(w, RunOf(w, events), e);
    LoadsExactlyForFirstStorer(w, events, e.Chunk(w.hash), e.who);
    SeedIsLastArrived(w, events, e.Chunk(w.hash), e.who);
  }

  /**
   The first proof after a store, however many other exchanges and lost requests lie
   between, is that store's commitment hash, or the data stored first and now collide.
   */
  lemma FirstProofIsStoreCommitment(w: World, events: seq<Event>, store: Event, e: Event)
    requires store.Storing? && LastArrived(w, events, e.Chunk(w.hash), e.who) == Some(store)
    requires ProofOfAnswer(w, RunOf(w, events), e).Some?
    requires StoreReply(w.hash, w.curve, store.store, store.r).Ok?
    ensures var chunk := e.Chunk(w.hash);
            && StoredFirst(w, events, chunk, e.who)
            && (|| ProofOfAnswer(w, RunOf(w, events), e).value
                == StoreReply(w.hash, w.curve, store.store, store.r).value.commitmentHash
                || Collision(w.hash, FirstStore(w, events, chunk).value.store.data, store.store.data))
  {
    ProofChainsLastSeed(w, events, e);
    var held := FirstStore(w, events, e.Chunk(w.hash)).value.store.data;
    DecimalInjective(HashData(w.hash, held), HashData(w.hash, store.store.data));
    HashDataBinds(w.hash, held, store.store.data);
  }

  predicate Agree(s: System, chunk: string, who: string) {
    (who, chunk) in s.recorded && s.recorded[(who, chunk)] == PreviousSeed(s.miner, chunk, who)
  }

  /** Once an exchange of any validator has verified, both sides hold its seed. */
  lemma CompletedExchangeAgrees(w: World, events: seq<Event>, e: Event)
    requires w.curve.IsClosed()
    requires Enabled(w, RunOf(w, events), e) && !e.Fetching? && Verified(w, RunOf(w, events), e)
    ensures var s', chunk := Step(w, RunOf(w, events), e), e.Chunk(w.hash);
            Agree(s', chunk, e.who) && s'.recorded[(e.who, chunk)] == e.Seed()
  {
    var s, chunk := RunOf(w, events), e.Chunk(w.hash);
    RunKeepsInv(w, events);
    LoadsExactlyForFirstStorer(w, events, chunk, e.who);
    if e.Challenging? {
      ChallengeVerifiesExactly(w, events, e);
    } else if e.Retrieving? {
      RetrieveVerifiesExactly(w, events, e);
    }
    StepLookup(w, s, e, chunk, e.who);
  }

  /**
   Which exchanges keep agreement, read off the request, what was lost and who stored first:
   a store, when it is lost or comes through with curve points as generators; a challenge,
   when it is lost, comes through and is answerable, or is not the first storer's; a recorded
   retrieve, when the first storer's request arrives; an unrecorded one, when it does not.
   */
  predicate KeepsAgreement(w: World, events: seq<Event>, e: Event) {
    match e
    case Storing(_, store, _, _, delivery) =>
      || delivery.LostRequest?
      || (delivery.Delivered? && HexToPoint(w.curve, store.g).Ok? && HexToPoint(w.curve, store.h).Ok?)
    case Challenging(who, challenge, _, delivery) =>
      || delivery.LostRequest?
      || (delivery.Delivered? && Answerable(w, events, who, challenge))
      || !StoredFirst(w, events, challenge.challengeHash, who)
    case Retrieving(who, retrieve, delivery) =>
      !delivery.LostRequest? && StoredFirst(w, events, retrieve.dataHash, who)
    case Fetching(who, retrieve, delivery) =>
      delivery.LostRequest? || !StoredFirst(w, events, retrieve.dataHash, who)
  }

  /** From agreement after any run, an exchange of any validator with a fresh seed keeps agreement exactly then. */
  lemma DriftExactly(w: World, events: seq<Event>, e: Event)
    requires w.curve.IsClosed()
    requires var s, chunk := RunOf(w, events), e.Chunk(w.hash);
             Enabled(w, s, e) && Agree(s, chunk, e.who) && e.Seed() != s.recorded[(e.who, chunk)]
    ensures Agree(Step(w, RunOf(w, events), e), e.Chunk(w.hash), e.who) <==> KeepsAgreement(w, events, e)
  {
    var s, chunk := RunOf(w, events), e.Chunk(w.hash);
    RunKeepsInv(w, events);
    LoadsExactlyForFirstStorer(w, events, chunk, e.who);
    StepLookup(w, s, e, chunk, e.who);
    match e {
      case Storing(_, _, _, _, _) => StoreVerifiesExactly(w, s, e);
      case Challenging(_, _, _, _) => ChallengeVerifiesExactly(w, events, e);
      case Retrieving(_, _, _) =>
      case Fetching(_, _, _) =>
    }
  }

  /** One validator's exchange changes no seed, path or recorded seed of another validator or another chunk. */
  lemma OthersUntouched(w: World, events: seq<Event>, e: Event, chunk': string, who': string)
    requires chunk' != e.Chunk(w.hash) || who' != e.who
    ensures var s := RunOf(w, events);
            var s' := Step(w, s, e);
            && Lookup(s'.miner.index, chunk', who') == Lookup(s.miner.index, chunk', who')
            && ((who', chunk') in s'.recorded <==> (who', chunk') in s.recorded)
            && ((who', chunk') in s.recorded ==> s'.recorded[(who', chunk')] == s.recorded[(who', chunk')])
            && (HasPath(s'.miner, chunk', who') <==> HasPath(s.miner, chunk', who'))
  {
    RunKeepsInv(w, events);
    if Enabled(w, RunOf(w, events), e) {
      StepLookup(w, RunOf(w, events), e, chunk', who');
    }
  }
}
