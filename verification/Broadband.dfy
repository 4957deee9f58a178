/**
 Storing a file over many miners and reading it back (storage/validator/store.py
 and storage/validator/retrieve.py): slicing, the ordered index, reassembly, and
 exactly when the payload comes back.
 */
module Broadband {
  import opened Wrappers
  import opened Sequences
  import opened Text
  import opened Hashing
  import opened Chunking
  import opened Distribution
  import opened FileIndex
  import opened Protocol
  import opened Verify
  import opened MinerState

  // ---------- Storing ----------

  function Clamp(n: nat, bound: nat): nat {
    if n <= bound then n else bound
  }

  /** `data[start:end]`, which stops at the end of the data. */
  function Slice(data: Bytes, range: Range): Bytes {
    var from, to := Clamp(range.start, |data|), Clamp(range.end, |data|);
    if from <= to then data[from..to] else []
  }

  function ChunksOf(data: Bytes, parts: seq<Part>): (chunks: seq<Bytes>)
    ensures |chunks| == |parts|
  {
    seq(|parts|, i requires 0 <= i < |parts| => Slice(data, parts[i].range))
  }

  function NamesOf(hash: HashFn, chunks: seq<Bytes>): (names: seq<string>)
    ensures |names| == |chunks|
    ensures forall i :: 0 <= i < |chunks| ==> names[i] == ChunkName(hash, chunks[i])
  {
    seq(|chunks|, i requires 0 <= i < |chunks| => ChunkName(hash, chunks[i]))
  }

  /** The metadata of every chunk written, with the hotkeys it was sent to. */
  function WithChunks(st: DbState, hash: HashFn, chunks: seq<Bytes>, hotkeys: seq<set<string>>): DbState
    requires |hotkeys| == |chunks|
  {
    if chunks == [] then st
    else
      var n := |chunks| - 1;
      WithChunk(WithChunks(st, hash, chunks[..n], hotkeys[..n]), ChunkName(hash, chunks[n]), hotkeys[n], SizeOf(chunks[n]))
  }

  lemma StoredNext(st: DbState, hash: HashFn, chunks: seq<Bytes>, hotkeys: seq<set<string>>, i: nat)
    requires |hotkeys| == |chunks| && i < |chunks|
    ensures WithChunks(st, hash, chunks[..i + 1], hotkeys[..i + 1])
         == WithChunk(WithChunks(st, hash, chunks[..i], hotkeys[..i]),
                      ChunkName(hash, chunks[i]), hotkeys[i], SizeOf(chunks[i]))
    ensures NamesOf(hash, chunks[..i + 1]) == NamesOf(hash, chunks[..i]) + [ChunkName(hash, chunks[i])]
  {
    TakeNext(chunks, i);
    TakeNext(hotkeys, i);
  }

  /** The database after the file is stored: all chunk metadata, then the ordered index. */
  function WithFile(
    st: DbState, hash: HashFn, fullHash: string, chunks: seq<Bytes>, hotkeys: seq<set<string>>): DbState
    requires |hotkeys| == |chunks|
  {
    var written := WithChunks(st, hash, chunks, hotkeys);
    if chunks == [] then written
    else
      written.(files := written.files[fullHash :=
        ZAddAll(FileSet(written, fullHash), NamesOf(hash, chunks), Upto(|chunks|))])
  }

  predicate AlreadyStored(st: DbState, fullHash: string) {
    var known := OrderedMetadata(st, fullHash);
    known.Some? && known.value != []
  }

  /** `store_broadband`, given the distribution and the hotkeys that took part in each chunk: a known file is left alone. */
  method StoreBroadband(
    db: Database, hash: HashFn, fullHash: string, data: Bytes, parts: seq<Part>, hotkeys: seq<set<string>>)
    requires |hotkeys| == |parts|
    modifies db
    ensures db.View() == if AlreadyStored(old(db.View()), fullHash) then old(db.View())
                         else WithFile(old(db.View()), hash, fullHash, ChunksOf(data, parts), hotkeys)
  {
    var known := db.GetOrderedMetadata(fullHash);
    if known.Some? && |known.value| > 0 {
      return;
    }
    ghost var st, chunks := db.View(), ChunksOf(data, parts);
    var chunkHashes := [];
    for i := 0 to |parts|
      invariant db.View() == WithChunks(st, hash, chunks[..i], hotkeys[..i])
      invariant chunkHashes == NamesOf(hash, chunks[..i])
    {
      StoredNext(st, hash, chunks, hotkeys, i);
      var chunk := Slice(data, parts[i].range);
      var chunkHash := ChunkName(hash, chunk);
      chunkHashes := chunkHashes + [chunkHash];
      db.StoreChunkMetadata(chunkHash, hotkeys[i], SizeOf(chunk));
    }
    TakeAll(chunks);
    TakeAll(hotkeys);
    db.StoreFileChunkMapping(fullHash, chunkHashes, Upto(|chunkHashes|));
  }

  // ---------- Retrieving ----------

  datatype Reply = Reply(statusCode: nat, answer: RetrieveAnswer)

  predicate Accepted(hash: HashFn, req: RetrieveRequest, reply: Reply) {
    reply.statusCode == 200 && VerifyRetrieve(hash, req, reply.answer)
  }

  /** The first reply of a group that is accepted. */
  function FirstAccepted(hash: HashFn, req: RetrieveRequest, group: seq<Reply>): Option<RetrieveAnswer> {
    if group == [] then None
    else if Accepted(hash, req, group[0]) then Some(group[0].answer)
    else FirstAccepted(hash, req, group[1..])
  }

  /** The data of each group's first accepted reply, groups without one left out; an accepted reply without data fails. */
  function Collected(hash: HashFn, reqs: seq<RetrieveRequest>, groups: seq<seq<Reply>>): Result<seq<Bytes>>
    requires |reqs| == |groups|
  {
    if groups == [] then Ok([])
    else
      var n := |groups| - 1;
      var front :- Collected(hash, reqs[..n], groups[..n]);
      var first := FirstAccepted(hash, reqs[n], groups[n]);
      if first.None? then Ok(front)
      else if first.value.data.None? then Err(TypeError)
      else Ok(front + [first.value.data.value])
  }

  /** The reassembly of `retrieve_broadband`: the first accepted reply of each group is decoded, the rest ignored. */
  method Reassemble(hash: HashFn, reqs: seq<RetrieveRequest>, groups: seq<seq<Reply>>) returns (r: Result<Bytes>)
    requires |reqs| == |groups|
    ensures r == match Collected(hash, reqs, groups)
                 case Ok(chunks) => Ok(Join(chunks))
                 case Err(e) => Err(e)
  {
    var chunks := [];
    for i := 0 to |groups|
      invariant Collected(hash, reqs[..i], groups[..i]) == Ok(chunks)
    {
      assert groups[..i + 1][..i] == groups[..i] && reqs[..i + 1][..i] == reqs[..i];
      var taken := false;
      assert groups[i][0..] == groups[i];
      for j := 0 to |groups[i]|
        invariant if taken then
                    var first := FirstAccepted(hash, reqs[i], groups[i]);
                    && first.Some? && first.value.data.Some?
                    && Collected(hash, reqs[..i], groups[..i]).Ok?
                    && chunks == Collected(hash, reqs[..i], groups[..i]).value + [first.value.data.value]
                  else
                    && Collected(hash, reqs[..i], groups[..i]) == Ok(chunks)
                    && FirstAccepted(hash, reqs[i], groups[i]) == FirstAccepted(hash, reqs[i], groups[i][j..])
      {
        assert groups[i][j..][1..] == groups[i][j + 1..];
        if groups[i][j].statusCode != 200 {
          continue;
        }
        if VerifyRetrieve(hash, reqs[i], groups[i][j].answer) {
          if !taken {
            var data := groups[i][j].answer.data;
            if data.None? {
              CollectedFails(hash, reqs, groups, i);
              return Err(TypeError);
            }
            chunks := chunks + [data.value];
            taken := true;
          }
        }
      }
    }
    assert groups[..|groups|] == groups && reqs[..|reqs|] == reqs;
    return Ok(Join(chunks));
  }

  lemma {:induction false} CollectedFails(hash: HashFn, reqs: seq<RetrieveRequest>, groups: seq<seq<Reply>>, i: nat)
    requires |reqs| == |groups| && i < |groups|
    requires Collected(hash, reqs[..i + 1], groups[..i + 1]).Err?
    ensures Collected(hash, reqs, groups) == Collected(hash, reqs[..i + 1], groups[..i + 1])
  {
    var n := |groups| - 1;
    if i < n {
      assert reqs[..n][..i + 1] == reqs[..i + 1] && groups[..n][..i + 1] == groups[..i + 1];
      CollectedFails(hash, reqs[..n], groups[..n], i);
    } else {
      assert reqs[..i + 1] == reqs && groups[..i + 1] == groups;
    }
  }

  // ---------- Which replies are taken ----------

  /** Reply j came through and verifies, and every earlier one did not come through or does not verify. */
  predicate IsTaken(hash: HashFn, req: RetrieveRequest, group: seq<Reply>, j: nat) {
    && j < |group| && group[j].statusCode == 200 && VerifyRetrieve(hash, req, group[j].answer)
    && forall i :: 0 <= i < j ==> group[i].statusCode != 200 || !VerifyRetrieve(hash, req, group[i].answer)
  }

  lemma {:induction false} TakenIsFirst(hash: HashFn, req: RetrieveRequest, group: seq<Reply>, j: nat)
    requires IsTaken(hash, req, group, j)
    ensures FirstAccepted(hash, req, group) == Some(group[j].answer)
  {
    if j > 0 {
      forall i | 0 <= i < j - 1
        ensures group[1..][i].statusCode != 200 || !VerifyRetrieve(hash, req, group[1..][i].answer)
      {
        assert group[1..][i] == group[i + 1];
      }
      TakenIsFirst(hash, req, group[1..], j - 1);
    }
  }

  lemma {:induction false} FirstIsTaken(hash: HashFn, req: RetrieveRequest, group: seq<Reply>) returns (j: nat)
    requires FirstAccepted(hash, req, group).Some?
    ensures IsTaken(hash, req, group, j)
  {
    if Accepted(hash, req, group[0]) {
      j := 0;
    } else {
      j := FirstIsTaken(hash, req, group[1..]);
      j := j + 1;
      forall i | 0 <= i < j
        ensures group[i].statusCode != 200 || !VerifyRetrieve(hash, req, group[i].answer)
      {
        assert i > 0 ==> group[i] == group[1..][i - 1];
      }
    }
  }

  /** For each group the index of the reply that is taken, if there is one. */
  ghost predicate ArePicks(
    hash: HashFn, reqs: seq<RetrieveRequest>, groups: seq<seq<Reply>>, picks: seq<Option<nat>>)
  {
    && |reqs| == |groups| == |picks|
    && forall i :: 0 <= i < |picks| ==>
         match picks[i]
         case Some(j) => IsTaken(hash, reqs[i], groups[i], j)
         case None => forall j: nat :: !IsTaken(hash, reqs[i], groups[i], j)
  }

  function PickedReply(group: seq<Reply>, pick: Option<nat>): Option<RetrieveAnswer> {
    match pick
    case None => None
    case Some(j) => if j < |group| then Some(group[j].answer) else None
  }

  /** The data of the picked replies in order; groups without a pick add nothing. */
  function PickedData(groups: seq<seq<Reply>>, picks: seq<Option<nat>>): seq<Bytes>
    requires |groups| == |picks|
  {
    if groups == [] then []
    else
      var n := |groups| - 1;
      var last := PickedReply(groups[n], picks[n]);
      PickedData(groups[..n], picks[..n]) +
      if last.Some? && last.value.data.Some? then [last.value.data.value] else []
  }

  predicate PicksHaveData(groups: seq<seq<Reply>>, picks: seq<Option<nat>>)
    requires |groups| == |picks|
  {
    groups == [] ||
    var n := |groups| - 1;
    var last := PickedReply(groups[n], picks[n]);
    PicksHaveData(groups[..n], picks[..n]) && (last.Some? ==> last.value.data.Some?)
  }

  lemma PickIsFirst(hash: HashFn, req: RetrieveRequest, group: seq<Reply>, pick: Option<nat>)
    requires match pick
             case Some(j) => IsTaken(hash, req, group, j)
             case None => forall j: nat :: !IsTaken(hash, req, group, j)
    ensures FirstAccepted(hash, req, group) == PickedReply(group, pick)
  {
    match pick
    case Some(j) => TakenIsFirst(hash, req, group, j);
    case None =>
      if FirstAccepted(hash, req, group).Some? {
        var j := FirstIsTaken(hash, req, group);
        assert false;
      }
  }

  /**
   What reassembly collects: of each group the data of the first reply that came through
   and verifies, nothing of a group without one; an exception exactly when a taken reply
   has no data.
   */
  lemma {:induction false} CollectedExactly(
    hash: HashFn, reqs: seq<RetrieveRequest>, groups: seq<seq<Reply>>, picks: seq<Option<nat>>)
    requires ArePicks(hash, reqs, groups, picks)
    ensures Collected(hash, reqs, groups)
         == if PicksHaveData(groups, picks) then Ok(PickedData(groups, picks)) else Err(TypeError)
  {
    if groups != [] {
      var n := |groups| - 1;
      CollectedExactly(hash, reqs[..n], groups[..n], picks[..n]);
      PickIsFirst(hash, reqs[n], groups[n], picks[n]);
      var last := PickedReply(groups[n], picks[n]);
      if last.None? {
        assert PickedData(groups[..n], picks[..n]) + [] == PickedData(groups[..n], picks[..n]);
      }
    }
  }

  // ---------- Joining ----------

  lemma {:induction false} JoinAppend(chunks: seq<Bytes>, c: Bytes)
    ensures Join(chunks + [c]) == Join(chunks) + c
  {
    if chunks == [] {
      assert [] + [c] == [c] && [c][1..] == [];
      assert Join([c]) == c + [] == c;
    } else {
      assert (chunks + [c])[1..] == chunks[1..] + [c];
      JoinAppend(chunks[1..], c);
    }
  }

  function ChunkAt(chunks: seq<Bytes>, p: nat): Bytes {
    if p < |chunks| then chunks[p] else []
  }

  /** The chunks at some positions, joined. */
  function JoinAt(positions: seq<nat>, chunks: seq<Bytes>): Bytes {
    if positions == [] then []
    else
      var n := |positions| - 1;
      JoinAt(positions[..n], chunks) + ChunkAt(chunks, positions[n])
  }

  /** The first n chunks, those at other positions emptied. */
  function Masked(positions: seq<nat>, chunks: seq<Bytes>, n: nat): (r: seq<Bytes>)
    ensures |r| == n
    ensures forall p :: 0 <= p < n ==> r[p] == if p in positions then ChunkAt(chunks, p) else []
  {
    seq(n, p requires 0 <= p < n => if p in positions then ChunkAt(chunks, p) else [])
  }

  lemma MaskedTake(front: seq<nat>, chunks: seq<Bytes>, n: nat)
    ensures Masked(front + [n], chunks, n + 1) == Masked(front, chunks, n) + [ChunkAt(chunks, n)]
  {
    forall p: nat | p < n
      ensures p in front + [n] <==> p in front
    {
    }
    assert (front + [n])[|front|] == n;
    assert n in front + [n];
  }

  lemma MaskedSkip(positions: seq<nat>, chunks: seq<Bytes>, n: nat)
    requires n !in positions
    ensures Masked(positions, chunks, n + 1) == Masked(positions, chunks, n) + [[]]
  {
  }

  lemma {:induction false} MaskedJoin(positions: seq<nat>, chunks: seq<Bytes>, n: nat)
    requires Ascending(positions, n)
    ensures JoinAt(positions, chunks) == Join(Masked(positions, chunks, n))
    decreases n
  {
    if n == 0 {
      assert positions == [];
    } else if positions != [] && positions[|positions| - 1] == n - 1 {
      var front := positions[..|positions| - 1];
      assert positions == front + [n - 1];
      MaskedJoin(front, chunks, n - 1);
      MaskedTake(front, chunks, n - 1);
      JoinAppend(Masked(front, chunks, n - 1), ChunkAt(chunks, n - 1));
    } else {
      forall i | 0 <= i < |positions|
        ensures positions[i] < n - 1
      {
        assert positions[i] <= positions[|positions| - 1];
      }
      MaskedJoin(positions, chunks, n - 1);
      MaskedSkip(positions, chunks, n - 1);
      JoinAppend(Masked(positions, chunks, n - 1), []);
      assert Join(Masked(positions, chunks, n - 1)) + [] == Join(Masked(positions, chunks, n - 1));
    }
  }

  /** Shorter pieces join to less, and to strictly less when one of them is strictly shorter. */
  lemma {:induction false} JoinLength(a: seq<Bytes>, b: seq<Bytes>)
    requires |a| == |b| && forall p :: 0 <= p < |a| ==> |a[p]| <= |b[p]|
    ensures |Join(a)| <= |Join(b)|
    ensures (exists p :: 0 <= p < |a| && |a[p]| < |b[p]|) ==> |Join(a)| < |Join(b)|
  {
    if a != [] {
      JoinLength(a[1..], b[1..]);
      if exists p :: 0 <= p < |a| && |a[p]| < |b[p]| {
        var p :| 0 <= p < |a| && |a[p]| < |b[p]|;
        if p > 0 {
          assert |a[1..][p - 1]| < |b[1..][p - 1]|;
        }
      }
    }
  }

  // ---------- Slicing ----------

  /** The parts start at 0 and follow each other. */
  predicate Consecutive(parts: seq<Part>) {
    && (parts != [] ==> parts[0].range.start == 0)
    && (forall i :: 0 <= i < |parts| ==> parts[i].range.start <= parts[i].range.end)
    && (forall i :: 0 <= i < |parts| - 1 ==> parts[i].range.end == parts[i + 1].range.start)
  }

  function EndOf(parts: seq<Part>): nat {
    if parts == [] then 0 else parts[|parts| - 1].range.end
  }

  lemma SliceExtends(data: Bytes, range: Range)
    requires range.start <= range.end
    ensures data[..Clamp(range.start, |data|)] + Slice(data, range) == data[..Clamp(range.end, |data|)]
  {
  }

  /** Slices of consecutive parts join to what they cover. */
  lemma {:induction false} SlicesJoin(data: Bytes, parts: seq<Part>)
    requires Consecutive(parts)
    ensures Join(ChunksOf(data, parts)) == data[..Clamp(EndOf(parts), |data|)]
  {
    if parts != [] {
      var n := |parts| - 1;
      var front, last := parts[..n], parts[n].range;
      SlicesJoin(data, front);
      assert ChunksOf(data, parts) == ChunksOf(data, front) + [Slice(data, last)];
      JoinAppend(ChunksOf(data, front), Slice(data, last));
      assert EndOf(front) == last.start;
      SliceExtends(data, last);
    }
  }

  // ---------- Store, then retrieve ----------

  lemma {:induction false} ChunksAreKnown(st: DbState, hash: HashFn, chunks: seq<Bytes>, hotkeys: seq<set<string>>)
    requires |hotkeys| == |chunks|
    ensures var after := WithChunks(st, hash, chunks, hotkeys);
            && after.files == st.files
            && forall i :: 0 <= i < |chunks| ==> ChunkName(hash, chunks[i]) in after.chunks
  {
    if chunks != [] {
      var n := |chunks| - 1;
      ChunksAreKnown(st, hash, chunks[..n], hotkeys[..n]);
      forall i | 0 <= i < |chunks|
        ensures ChunkName(hash, chunks[i]) in WithChunks(st, hash, chunks, hotkeys).chunks
      {
        if i < n {
          assert chunks[..n][i] == chunks[i];
        }
      }
    }
  }

  /** The index of a newly stored file names the chunks whose hash does not come again, in order. */
  lemma StoredIndex(st: DbState, hash: HashFn, fullHash: string, chunks: seq<Bytes>, hotkeys: seq<set<string>>)
    requires |hotkeys| == |chunks| && chunks != [] && FileSet(st, fullHash) == []
    ensures var names := NamesOf(hash, chunks);
            var metadata := OrderedMetadata(WithFile(st, hash, fullHash, chunks, hotkeys), fullHash);
            && metadata.Some? && Names(metadata.value, Survivors(names), names)
            && forall i :: 0 <= i < |metadata.value| ==>
                 var info, stored := metadata.value[i], WithChunks(st, hash, chunks, hotkeys).chunks;
                 info.chunkHash in stored && info.meta == stored[info.chunkHash]
  {
    ChunksAreKnown(st, hash, chunks, hotkeys);
    NewFileMetadata(WithFile(st, hash, fullHash, chunks, hotkeys), fullHash, NamesOf(hash, chunks));
  }

  /** A file counts as stored once its index names a chunk: not before it is stored, and from then on. */
  lemma StoredFileIsKnown(st: DbState, hash: HashFn, fullHash: string, chunks: seq<Bytes>, hotkeys: seq<set<string>>)
    requires |hotkeys| == |chunks| && chunks != [] && FileSet(st, fullHash) == []
    ensures !AlreadyStored(st, fullHash)
    ensures AlreadyStored(WithFile(st, hash, fullHash, chunks, hotkeys), fullHash)
  {
    StoredIndex(st, hash, fullHash, chunks, hotkeys);
    SurvivesExactly(NamesOf(hash, chunks), |chunks| - 1);
  }

  /** Storing a file a second time, whatever the data and the miners, changes nothing. */
  method StoreTwice(
    db: Database, hash: HashFn, fullHash: string, data: Bytes, parts: seq<Part>, hotkeys: seq<set<string>>,
    data': Bytes, parts': seq<Part>, hotkeys': seq<set<string>>)
    requires |hotkeys| == |parts| && parts != [] && |hotkeys'| == |parts'| && FileSet(db.View(), fullHash) == []
    modifies db
    ensures db.View() == WithFile(old(db.View()), hash, fullHash, ChunksOf(data, parts), hotkeys)
  {
    ghost var st := db.View();
    StoredFileIsKnown(st, hash, fullHash, ChunksOf(data, parts), hotkeys);
    StoreBroadband(db, hash, fullHash, data, parts, hotkeys);
    StoreBroadband(db, hash, fullHash, data', parts', hotkeys');
  }

  /** The chunk was stored under this name with this hotkey. */
  ghost predicate StoredWith(
    hash: HashFn, chunks: seq<Bytes>, hotkeys: seq<set<string>>, name: string, hotkey: string)
    requires |hotkeys| == |chunks|
  {
    exists i :: 0 <= i < |chunks| && ChunkName(hash, chunks[i]) == name && hotkey in hotkeys[i]
  }

  /**
   The metadata of a chunk after storing: every hotkey that was there and every one that
   stored the chunk, no other; and the reported size of the last chunk of that name.
   */
  lemma {:induction false} ChunkMetaExactly(
    st: DbState, hash: HashFn, chunks: seq<Bytes>, hotkeys: seq<set<string>>, name: string, hotkey: string)
    requires |hotkeys| == |chunks| && name in WithChunks(st, hash, chunks, hotkeys).chunks
    ensures hotkey in WithChunks(st, hash, chunks, hotkeys).chunks[name].hotkeys <==>
            (name in st.chunks && hotkey in st.chunks[name].hotkeys) || StoredWith(hash, chunks, hotkeys, name, hotkey)
    ensures forall i :: 0 <= i < |chunks| && ChunkName(hash, chunks[i]) == name && !ComesAgain(NamesOf(hash, chunks), i) ==>
              WithChunks(st, hash, chunks, hotkeys).chunks[name].size == |chunks[i]| + 33
  {
    if chunks != [] {
      var n := |chunks| - 1;
      var before := WithChunks(st, hash, chunks[..n], hotkeys[..n]).chunks;
      if name in before {
        ChunkMetaExactly(st, hash, chunks[..n], hotkeys[..n], name, hotkey);
      } else {
        ChunksAreKnown(st, hash, chunks[..n], hotkeys[..n]);
        if name in st.chunks {
          KnownStays(st, hash, chunks[..n], hotkeys[..n], name);
        }
      }
      StoredWithLast(hash, chunks, hotkeys, name, hotkey);
      forall i | 0 <= i < n && ChunkName(hash, chunks[i]) == name && !ComesAgain(NamesOf(hash, chunks), i)
        ensures name in before && WithChunks(st, hash, chunks, hotkeys).chunks[name].size == |chunks[i]| + 33
      {
        ChunksAreKnown(st, hash, chunks[..n], hotkeys[..n]);
        assert chunks[..n][i] == chunks[i];
        assert NamesOf(hash, chunks)[..n] == NamesOf(hash, chunks[..n]);
        ComesAgainNext(NamesOf(hash, chunks), i);
        assert NamesOf(hash, chunks)[n] != name;
      }
    }
  }

  lemma {:induction false} KnownStays(
    st: DbState, hash: HashFn, chunks: seq<Bytes>, hotkeys: seq<set<string>>, name: string)
    requires |hotkeys| == |chunks| && name in st.chunks
    ensures name in WithChunks(st, hash, chunks, hotkeys).chunks
  {
    if chunks != [] {
      KnownStays(st, hash, chunks[..|chunks| - 1], hotkeys[..|chunks| - 1], name);
    }
  }

  lemma StoredWithLast(hash: HashFn, chunks: seq<Bytes>, hotkeys: seq<set<string>>, name: string, hotkey: string)
    requires |hotkeys| == |chunks| && chunks != []
    ensures var n := |chunks| - 1;
            StoredWith(hash, chunks, hotkeys, name, hotkey) <==>
            || StoredWith(hash, chunks[..n], hotkeys[..n], name, hotkey)
            || (ChunkName(hash, chunks[n]) == name && hotkey in hotkeys[n])
  {
    var n := |chunks| - 1;
    if StoredWith(hash, chunks[..n], hotkeys[..n], name, hotkey) {
      var i :| 0 <= i < n && ChunkName(hash, chunks[..n][i]) == name && hotkey in hotkeys[..n][i];
      assert chunks[i] == chunks[..n][i] && hotkeys[i] == hotkeys[..n][i];
    }
    if StoredWith(hash, chunks, hotkeys, name, hotkey) {
      var i :| 0 <= i < |chunks| && ChunkName(hash, chunks[i]) == name && hotkey in hotkeys[i];
      if i < n {
        assert chunks[i] == chunks[..n][i] && hotkeys[i] == hotkeys[..n][i];
      }
    }
  }

  /** The reply that is taken carries data of the asked hash. */
  ghost predicate GroupHonest(hash: HashFn, req: RetrieveRequest, group: seq<Reply>) {
    exists j: nat :: IsTaken(hash, req, group, j) && group[j].answer.data.Some?
             && ChunkName(hash, group[j].answer.data.value) == req.dataHash
  }

  /** The reply that is taken carries other data under the digest of a chunk. */
  ghost predicate GroupCollides(hash: HashFn, req: RetrieveRequest, group: seq<Reply>, chunk: Bytes) {
    exists j: nat :: IsTaken(hash, req, group, j) && group[j].answer.data.Some?
             && Collision(hash, group[j].answer.data.value, chunk)
  }

  /** One request per chunk read from the index, and every group honest. */
  ghost predicate HonestReplies(
    hash: HashFn, infos: seq<ChunkInfo>, reqs: seq<RetrieveRequest>, groups: seq<seq<Reply>>)
  {
    && |infos| == |reqs| == |groups|
    && forall i :: 0 <= i < |infos| ==>
         reqs[i].dataHash == infos[i].chunkHash && GroupHonest(hash, reqs[i], groups[i])
  }

  /** No returned data collides with the chunk it stands for. */
  ghost predicate NoCollision(
    hash: HashFn, chunks: seq<Bytes>, kept: seq<nat>, reqs: seq<RetrieveRequest>, groups: seq<seq<Reply>>)
    requires |reqs| == |groups| == |kept|
  {
    forall i :: 0 <= i < |kept| && kept[i] < |chunks| ==> !GroupCollides(hash, reqs[i], groups[i], chunks[kept[i]])
  }

  lemma SurvivorsInRange(names: seq<string>)
    ensures forall p :: p in Survivors(names) ==> p < |names|
  {
    forall p | p in Survivors(names)
      ensures p < |names|
    {
      SurvivesExactly(names, p);
    }
  }

  /** Honest replies collect the very chunks at the surviving positions, unless one of them collides with its chunk. */
  lemma {:induction false} CollectedAreSurvivors(
    hash: HashFn, chunks: seq<Bytes>, kept: seq<nat>, infos: seq<ChunkInfo>,
    reqs: seq<RetrieveRequest>, groups: seq<seq<Reply>>)
    requires forall p :: p in kept ==> p < |chunks|
    requires Names(infos, kept, NamesOf(hash, chunks)) && HonestReplies(hash, infos, reqs, groups)
    ensures var r := Collected(hash, reqs, groups);
            r.Ok? && (NoCollision(hash, chunks, kept, reqs, groups) ==> Join(r.value) == JoinAt(kept, chunks))
  {
    if kept != [] {
      var n := |kept| - 1;
      assert kept[n] in kept;
      assert forall p :: p in kept[..n] ==> p in kept;
      FrontHonest(hash, infos, reqs, groups);
      CollectedAreSurvivors(hash, chunks, kept[..n], infos[..n], reqs[..n], groups[..n]);
      var data := HonestData(hash, reqs[n], groups[n], chunks[kept[n]]);
      CollectedLast(hash, reqs, groups, data);
      JoinAppend(Collected(hash, reqs[..n], groups[..n]).value, data);
      if NoCollision(hash, chunks, kept, reqs, groups) {
        FrontDoesNotCollide(hash, chunks, kept, reqs, groups);
      }
    }
  }

  lemma FrontHonest(hash: HashFn, infos: seq<ChunkInfo>, reqs: seq<RetrieveRequest>, groups: seq<seq<Reply>>)
    requires HonestReplies(hash, infos, reqs, groups) && infos != []
    ensures var n := |infos| - 1;
            HonestReplies(hash, infos[..n], reqs[..n], groups[..n]) && GroupHonest(hash, reqs[n], groups[n])
  {
  }

  lemma FrontDoesNotCollide(
    hash: HashFn, chunks: seq<Bytes>, kept: seq<nat>, reqs: seq<RetrieveRequest>, groups: seq<seq<Reply>>)
    requires |reqs| == |groups| == |kept| && kept != [] && NoCollision(hash, chunks, kept, reqs, groups)
    ensures var n := |kept| - 1;
            && NoCollision(hash, chunks, kept[..n], reqs[..n], groups[..n])
            && (kept[n] < |chunks| ==> !GroupCollides(hash, reqs[n], groups[n], chunks[kept[n]]))
  {
  }

  lemma CollectedLast(hash: HashFn, reqs: seq<RetrieveRequest>, groups: seq<seq<Reply>>, data: Bytes)
    requires |reqs| == |groups| && groups != []
    requires var n := |groups| - 1;
             var first := FirstAccepted(hash, reqs[n], groups[n]);
             Collected(hash, reqs[..n], groups[..n]).Ok? && first.Some? && first.value.data == Some(data)
    ensures var n := |groups| - 1;
            Collected(hash, reqs, groups) == Ok(Collected(hash, reqs[..n], groups[..n]).value + [data])
  {
  }

  /** What an honest group contributes for a chunk: the chunk, unless it collides. */
  lemma HonestData(hash: HashFn, req: RetrieveRequest, group: seq<Reply>, chunk: Bytes) returns (data: Bytes)
    requires GroupHonest(hash, req, group) && req.dataHash == ChunkName(hash, chunk)
    ensures var first := FirstAccepted(hash, req, group);
            first.Some? && first.value.data == Some(data)
    ensures !GroupCollides(hash, req, group, chunk) ==> data == chunk
  {
    var j: nat :| IsTaken(hash, req, group, j) && group[j].answer.data.Some?
             && ChunkName(hash, group[j].answer.data.value) == req.dataHash;
    TakenIsFirst(hash, req, group, j);
    data := group[j].answer.data.value;
    DecimalInjective(HashData(hash, data), HashData(hash, chunk));
    HashDataBinds(hash, data, chunk);
  }

  /** A chunk that is lost: its hash comes again later in the file. */
  predicate Superseded(hash: HashFn, chunks: seq<Bytes>, p: nat)
    requires p < |chunks|
  {
    ComesAgain(NamesOf(hash, chunks), p)
  }

  ghost predicate OnlyEmptySuperseded(hash: HashFn, chunks: seq<Bytes>) {
    forall p: nat :: p < |chunks| && Superseded(hash, chunks, p) ==> chunks[p] == []
  }

  /** Emptying the chunks outside `kept` changes the joined bytes exactly when one of them held something. */
  lemma MaskedAgainstAll(kept: seq<nat>, chunks: seq<Bytes>)
    ensures var masked := Join(Masked(kept, chunks, |chunks|));
            if forall p: nat :: p < |chunks| && p !in kept ==> chunks[p] == []
            then masked == Join(chunks) else |masked| < |Join(chunks)|
  {
    var masked := Masked(kept, chunks, |chunks|);
    if forall p: nat :: p < |chunks| && p !in kept ==> chunks[p] == [] {
      assert masked == chunks;
    } else {
      var p: nat :| p < |chunks| && p !in kept && chunks[p] != [];
      assert |masked[p]| < |chunks[p]|;
      JoinLength(masked, chunks);
    }
  }

  /** Dropping superseded chunks changes the joined bytes exactly when one of them held something. */
  lemma SurvivorsJoin(hash: HashFn, chunks: seq<Bytes>)
    ensures var joined := JoinAt(Survivors(NamesOf(hash, chunks)), chunks);
            if OnlyEmptySuperseded(hash, chunks) then joined == Join(chunks) else |joined| < |Join(chunks)|
  {
    var names := NamesOf(hash, chunks);
    var kept := Survivors(names);
    SurvivorsAscend(names);
    MaskedJoin(kept, chunks, |chunks|);
    MaskedAgainstAll(kept, chunks);
    forall p: nat | p < |chunks|
      ensures p in kept <==> !Superseded(hash, chunks, p)
    {
      SurvivesExactly(names, p);
    }
  }

  /** What is joined is the payload exactly when the parts cover it and no superseded chunk held anything. */
  lemma JoinIsPayloadExactly(hash: HashFn, data: Bytes, parts: seq<Part>)
    requires Consecutive(parts)
    ensures JoinAt(Survivors(NamesOf(hash, ChunksOf(data, parts))), ChunksOf(data, parts)) == data
       <==> EndOf(parts) >= |data| && OnlyEmptySuperseded(hash, ChunksOf(data, parts))
  {
    SurvivorsJoin(hash, ChunksOf(data, parts));
    SlicesJoin(data, parts);
    assert data[..|data|] == data;
  }

  /** A new file was stored from consecutive parts, and every chunk its index names was asked for and honestly answered. */
  ghost predicate StoredAndAsked(
    st: DbState, hash: HashFn, fullHash: string, data: Bytes, parts: seq<Part>, hotkeys: seq<set<string>>,
    reqs: seq<RetrieveRequest>, groups: seq<seq<Reply>>)
  {
    && Consecutive(parts) && parts != [] && |hotkeys| == |parts| && FileSet(st, fullHash) == []
    && |reqs| == |groups|
    && var metadata := OrderedMetadata(WithFile(st, hash, fullHash, ChunksOf(data, parts), hotkeys), fullHash);
       metadata.Some? ==> HonestReplies(hash, metadata.value, reqs, groups)
  }

  /** No reply collides with the chunk of the file it stands for. */
  ghost predicate RepliesFaithful(
    hash: HashFn, data: Bytes, parts: seq<Part>, reqs: seq<RetrieveRequest>, groups: seq<seq<Reply>>)
  {
    var chunks := ChunksOf(data, parts);
    var kept := Survivors(NamesOf(hash, chunks));
    |reqs| == |groups| == |kept| && NoCollision(hash, chunks, kept, reqs, groups)
  }

  /**
   End to end: store a new file, read its index, ask for each chunk, reassemble. With
   one honest reply first in every group something is reassembled, and unless a reply
   collides with the chunk it stands for, it is the payload if and only if the parts
   cover it and no non-empty chunk's hash comes again.
   */
  lemma StoreThenRetrieveExactly(
    st: DbState, hash: HashFn, fullHash: string, data: Bytes, parts: seq<Part>, hotkeys: seq<set<string>>,
    reqs: seq<RetrieveRequest>, groups: seq<seq<Reply>>)
    requires StoredAndAsked(st, hash, fullHash, data, parts, hotkeys, reqs, groups)
    ensures var r, chunks := Collected(hash, reqs, groups), ChunksOf(data, parts);
            && |reqs| == |Survivors(NamesOf(hash, chunks))| && r.Ok?
            && (RepliesFaithful(hash, data, parts, reqs, groups) ==>
                  (Join(r.value) == data <==> EndOf(parts) >= |data| && OnlyEmptySuperseded(hash, chunks)))
  {
    var chunks := ChunksOf(data, parts);
    var kept := Survivors(NamesOf(hash, chunks));
    var metadata := OrderedMetadata(WithFile(st, hash, fullHash, chunks, hotkeys), fullHash);
    StoredIndex(st, hash, fullHash, chunks, hotkeys);
    JoinIsPayloadExactly(hash, data, parts);
    SurvivorsInRange(NamesOf(hash, chunks));
    CollectedAreSurvivors(hash, chunks, kept, metadata.value, reqs, groups);
  }

  /** Two equal non-empty chunks in one file: the payload does not come back, unless a reply collides with its chunk. */
  lemma RepeatedChunkIsLost(
    st: DbState, hash: HashFn, fullHash: string, data: Bytes, parts: seq<Part>, hotkeys: seq<set<string>>,
    reqs: seq<RetrieveRequest>, groups: seq<seq<Reply>>, i: nat, j: nat)
    requires StoredAndAsked(st, hash, fullHash, data, parts, hotkeys, reqs, groups)
    requires i < j < |parts| && ChunksOf(data, parts)[i] == ChunksOf(data, parts)[j] != []
    ensures var r := Collected(hash, reqs, groups);
            r.Ok? && (RepliesFaithful(hash, data, parts, reqs, groups) ==> Join(r.value) != data)
  {
    var chunks := ChunksOf(data, parts);
    StoreThenRetrieveExactly(st, hash, fullHash, data, parts, hotkeys, reqs, groups);
    assert NamesOf(hash, chunks)[i] == NamesOf(hash, chunks)[j];
    assert Superseded(hash, chunks, i);
  }

  // ---------- With the validator's own distribution ----------

  lemma DistributionIsConsecutive(dataSize: nat, chunkSize: nat, initial: seq<seq<Uid>>)
    requires chunkSize > 0 && initial != [] && dataSize > 0
    ensures var parts := Distribute(dataSize, chunkSize, initial);
            parts != [] && Consecutive(parts) && EndOf(parts) == CoveredEnd(dataSize, chunkSize, |initial|)
  {
    var parts := Distribute(dataSize, chunkSize, initial);
    CeilDivBounds(dataSize, chunkSize);
    forall i | 0 <= i < |parts|
      ensures parts[i].range.start <= parts[i].range.end
      ensures i == 0 ==> parts[i].range.start == 0
      ensures i + 1 < |parts| ==> parts[i].range.end == parts[i + 1].range.start
    {
      RangesConsecutive(dataSize, chunkSize, i);
    }
  }

  /** When the file cut for G groups comes back: few whole chunks or a rest within the overhead, and no lost chunk. */
  ghost predicate ComesBack(hash: HashFn, data: Bytes, chunkSize: nat, initial: seq<seq<Uid>>)
    requires chunkSize > 0 && initial != []
  {
    && (SizeOf(data) / chunkSize < |initial| || SizeOf(data) % chunkSize <= BYTES_OVERHEAD)
    && OnlyEmptySuperseded(hash, ChunksOf(data, Distribute(SizeOf(data), chunkSize, initial)))
  }

  lemma PartsCoverExactly(data: Bytes, chunkSize: nat, initial: seq<seq<Uid>>)
    requires chunkSize > 0 && initial != []
    ensures EndOf(Distribute(SizeOf(data), chunkSize, initial)) >= |data|
       <==> SizeOf(data) / chunkSize < |initial| || SizeOf(data) % chunkSize <= BYTES_OVERHEAD
  {
    DistributionIsConsecutive(SizeOf(data), chunkSize, initial);
    PayloadCoveredExactly(|data|, chunkSize, |initial|);
  }

  /**
   The file cut by the validator for G groups, stored, asked for and honestly answered,
   comes back exactly when there are fewer than G whole chunks or the last started one
   fits in the overhead, and no non-empty chunk's hash comes again.
   */
  lemma DistributedFileReturnsExactly(
    st: DbState, hash: HashFn, fullHash: string, data: Bytes, chunkSize: nat, initial: seq<seq<Uid>>,
    hotkeys: seq<set<string>>, reqs: seq<RetrieveRequest>, groups: seq<seq<Reply>>)
    requires chunkSize > 0 && initial != []
    requires var parts := Distribute(SizeOf(data), chunkSize, initial);
             StoredAndAsked(st, hash, fullHash, data, parts, hotkeys, reqs, groups)
    ensures var r, parts := Collected(hash, reqs, groups), Distribute(SizeOf(data), chunkSize, initial);
            && r.Ok?
            && (RepliesFaithful(hash, data, parts, reqs, groups) ==>
                  (Join(r.value) == data <==> ComesBack(hash, data, chunkSize, initial)))
  {
    var parts := Distribute(SizeOf(data), chunkSize, initial);
    StoreThenRetrieveExactly(st, hash, fullHash, data, parts, hotkeys, reqs, groups);
    PartsCoverExactly(data, chunkSize, initial);
  }

  // ---------- The whole way, as the validator goes it ----------

  function RequestsFor(infos: seq<ChunkInfo>, seeds: nat -> string): (reqs: seq<RetrieveRequest>)
    ensures |reqs| == |infos|
  {
    seq(|infos|, i requires 0 <= i < |infos| => RetrieveRequest(infos[i].chunkHash, seeds(i)))
  }

  function RepliesTo(reqs: seq<RetrieveRequest>, network: RetrieveRequest -> seq<Reply>): (groups: seq<seq<Reply>>)
    ensures |groups| == |reqs|
  {
    seq(|reqs|, i requires 0 <= i < |reqs| => network(reqs[i]))
  }

  /** What `retrieve_broadband` returns or raises, given the seeds it draws and what the network replies. */
  function Retrieved(
    st: DbState, hash: HashFn, fullHash: string, seeds: nat -> string, network: RetrieveRequest -> seq<Reply>)
    : Result<Bytes>
  {
    var known := OrderedMetadata(st, fullHash);
    if known.None? || known.value == [] then Err(ValueError)
    else
      var reqs := RequestsFor(known.value, seeds);
      match Collected(hash, reqs, RepliesTo(reqs, network))
      case Ok(chunks) => Ok(Join(chunks))
      case Err(e) => Err(e)
  }

  /** `retrieve_broadband`: one request per chunk in the index, then the reassembly. */
  method RetrieveBroadband(
    db: Database, hash: HashFn, fullHash: string, seeds: nat -> string, network: RetrieveRequest -> seq<Reply>)
    returns (r: Result<Bytes>)
    ensures r == Retrieved(db.View(), hash, fullHash, seeds, network)
    ensures FileSet(db.View(), fullHash) == [] ==> r == Err(ValueError)
  {
    var known := db.GetOrderedMetadata(fullHash);
    if known.None? || |known.value| == 0 {
      return Err(ValueError);
    }
    var reqs, groups := [], [];
    ghost var allReqs := RequestsFor(known.value, seeds);
    ghost var allGroups := RepliesTo(allReqs, network);
    for i := 0 to |known.value|
      invariant reqs == allReqs[..i] && groups == allGroups[..i]
    {
      var req := RetrieveRequest(known.value[i].chunkHash, seeds(i));
      TakeNext(allReqs, i);
      TakeNext(allGroups, i);
      reqs := reqs + [req];
      groups := groups + [network(req)];
    }
    TakeAll(allReqs);
    TakeAll(allGroups);
    r := Reassemble(hash, reqs, groups);
  }

  /** Asked for a chunk, the reply that is taken carries data of that hash. */
  ghost predicate AnswersHonestly(hash: HashFn, network: RetrieveRequest -> seq<Reply>, chunk: Bytes, seed: string) {
    var req := RetrieveRequest(ChunkName(hash, chunk), seed);
    GroupHonest(hash, req, network(req))
  }

  /** ... and it is other data under the chunk's digest. */
  ghost predicate AnswersCollide(hash: HashFn, network: RetrieveRequest -> seq<Reply>, chunk: Bytes, seed: string) {
    var req := RetrieveRequest(ChunkName(hash, chunk), seed);
    GroupCollides(hash, req, network(req), chunk)
  }

  ghost predicate NetworkHonest(hash: HashFn, network: RetrieveRequest -> seq<Reply>, chunks: seq<Bytes>) {
    forall i, seed :: 0 <= i < |chunks| ==> AnswersHonestly(hash, network, chunks[i], seed)
  }

  ghost predicate NetworkFaithful(hash: HashFn, network: RetrieveRequest -> seq<Reply>, chunks: seq<Bytes>) {
    forall i, seed :: 0 <= i < |chunks| ==> !AnswersCollide(hash, network, chunks[i], seed)
  }

  lemma NetworkGivesReplies(
    st: DbState, hash: HashFn, fullHash: string, data: Bytes, parts: seq<Part>, hotkeys: seq<set<string>>,
    seeds: nat -> string, network: RetrieveRequest -> seq<Reply>) returns (reqs: seq<RetrieveRequest>)
    requires Consecutive(parts) && parts != [] && |hotkeys| == |parts| && FileSet(st, fullHash) == []
    requires NetworkHonest(hash, network, ChunksOf(data, parts))
    ensures StoredAndAsked(st, hash, fullHash, data, parts, hotkeys, reqs, RepliesTo(reqs, network))
    ensures Retrieved(WithFile(st, hash, fullHash, ChunksOf(data, parts), hotkeys), hash, fullHash, seeds, network)
         == match Collected(hash, reqs, RepliesTo(reqs, network)) {
              case Ok(chunks) => Ok(Join(chunks))
              case Err(e) => Err(e)
            }
    ensures NetworkFaithful(hash, network, ChunksOf(data, parts)) ==>
              RepliesFaithful(hash, data, parts, reqs, RepliesTo(reqs, network))
  {
    var chunks := ChunksOf(data, parts);
    var kept := Survivors(NamesOf(hash, chunks));
    StoredIndex(st, hash, fullHash, chunks, hotkeys);
    SurvivesLast(NamesOf(hash, chunks));
    SurvivorsInRange(NamesOf(hash, chunks));
    var infos := OrderedMetadata(WithFile(st, hash, fullHash, chunks, hotkeys), fullHash).value;
    reqs := RequestsFor(infos, seeds);
    forall i | 0 <= i < |kept|
      ensures kept[i] < |chunks| && reqs[i] == RetrieveRequest(ChunkName(hash, chunks[kept[i]]), seeds(i))
      ensures AnswersHonestly(hash, network, chunks[kept[i]], seeds(i))
      ensures NetworkFaithful(hash, network, chunks) ==> !AnswersCollide(hash, network, chunks[kept[i]], seeds(i))
    {
      assert kept[i] in kept;
    }
  }

  lemma SurvivesLast(names: seq<string>)
    requires names != []
    ensures Survivors(names) != []
  {
    SurvivesExactly(names, |names| - 1);
  }

  /**
   The validator distributes a new file, stores it and retrieves it again over a network
   that answers honestly: something comes back, and unless an answer collides with its
   chunk it is the file if and only if there are fewer whole chunks than groups or the
   rest fits in the overhead, and no non-empty chunk's hash comes again.
   */
  method StoreThenRetrieve(
    db: Database, hash: HashFn, fullHash: string, data: Bytes, R: nat, uids: seq<Uid>, chunkSize: Option<nat>,
    hotkeysOf: Part -> set<string>, seeds: nat -> string, network: RetrieveRequest -> seq<Reply>)
    returns (r: Result<Bytes>)
    requires 0 < R <= |uids| && FileSet(db.View(), fullHash) == []
    modifies db
    ensures var size := ChosenChunkSize(SizeOf(data), R, uids, chunkSize);
            && size > 0
            && var initial := InitialGroups(uids, R);
               var chunks := ChunksOf(data, Distribute(SizeOf(data), size, initial));
               NetworkHonest(hash, network, chunks) ==>
                 && r.Ok?
                 && (NetworkFaithful(hash, network, chunks) ==>
                       (r.value == data <==> ComesBack(hash, data, size, initial)))
  {
    ghost var st := db.View();
    ghost var size, initial := ChosenChunkSize(SizeOf(data), R, uids, chunkSize), InitialGroups(uids, R);
    ChosenSizePositive(SizeOf(data), R, uids, chunkSize);
    var distributions := ComputeDistribution(SizeOf(data), R, uids, chunkSize);
    var parts := distributions.value;
    var hotkeys := seq(|parts|, i requires 0 <= i < |parts| => hotkeysOf(parts[i]));
    StoreBroadband(db, hash, fullHash, data, parts, hotkeys);
    r := RetrieveBroadband(db, hash, fullHash, seeds, network);
    DistributionIsConsecutive(SizeOf(data), size, initial);
    if NetworkHonest(hash, network, ChunksOf(data, parts)) {
      ghost var reqs := NetworkGivesReplies(st, hash, fullHash, data, parts, hotkeys, seeds, network);
      DistributedFileReturnsExactly(
        st, hash, fullHash, data, size, initial, hotkeys, reqs, RepliesTo(reqs, network));
    }
  }

  lemma ChosenSizePositive(dataSize: nat, R: nat, uids: seq<Uid>, chunkSize: Option<nat>)
    requires 0 < R <= |uids| && dataSize > 0
    ensures ChosenChunkSize(dataSize, R, uids, chunkSize) > 0
  {
    GroupsExactly(uids, R);
    OptimalCoverage(dataSize, |uids|, R);
  }
}
