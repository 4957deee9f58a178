/**
 The validator's file and chunk index (storage/validator/database.py): for each
 file a sorted set of chunk hashes scored by position, for each chunk its metadata.
 */
module FileIndex {
  import opened Wrappers
  import opened Sequences

  // ---------- Sorted sets ----------

  datatype Entry = Entry(member: string, score: nat)

  /** A Redis sorted set: by score, then by member; each member once. */
  type SortedSet = seq<Entry>

  predicate LexLess(a: string, b: string) {
    if b == "" then false
    else if a == "" then true
    else a[0] < b[0] || (a[0] == b[0] && LexLess(a[1..], b[1..]))
  }

  predicate Before(a: Entry, b: Entry) {
    a.score < b.score || (a.score == b.score && LexLess(a.member, b.member))
  }

  function Without(z: SortedSet, member: string): SortedSet {
    if z == [] then []
    else
      var n := |z| - 1;
      Without(z[..n], member) + if z[n].member == member then [] else [z[n]]
  }

  function Insert(z: SortedSet, e: Entry): SortedSet {
    if z == [] then [e]
    else
      var n := |z| - 1;
      if Before(e, z[n]) then Insert(z[..n], e) + [z[n]] else z + [e]
  }

  /** `zadd` of one member: its old score, if any, is replaced. */
  function ZAdd(z: SortedSet, member: string, score: nat): SortedSet {
    Insert(Without(z, member), Entry(member, score))
  }

  /** `zadd` of members in turn, each with its index as score. */
  function ZAddAll(z: SortedSet, members: seq<string>, scores: seq<nat>): SortedSet
    requires |members| == |scores|
  {
    if members == [] then z
    else
      var n := |members| - 1;
      ZAdd(ZAddAll(z, members[..n], scores[..n]), members[n], scores[n])
  }

  lemma PutTwice<K, V>(m: map<K, V>, k: K, first: V, second: V)
    ensures m[k := first][k := second] == m[k := second]
  {
  }

  lemma ZAddAllNext(z: SortedSet, members: seq<string>, scores: seq<nat>, i: nat)
    requires |members| == |scores| && i < |members|
    ensures ZAddAll(z, members[..i + 1], scores[..i + 1])
         == ZAdd(ZAddAll(z, members[..i], scores[..i]), members[i], scores[i])
  {
    TakeNext(members, i);
    TakeNext(scores, i);
  }

  // ---------- Metadata ----------

  datatype ChunkMeta = ChunkMeta(hotkeys: set<string>, size: nat)

  datatype ChunkInfo = ChunkInfo(chunkHash: string, meta: ChunkMeta)

  datatype DbState = DbState(files: map<string, SortedSet>, chunks: map<string, ChunkMeta>)

  /** `store_chunk_metadata`: the hotkeys are added to those there, the size is replaced. */
  function WithChunk(st: DbState, chunkHash: string, hotkeys: set<string>, size: nat): DbState {
    var known := if chunkHash in st.chunks then st.chunks[chunkHash].hotkeys else {};
    st.(chunks := st.chunks[chunkHash := ChunkMeta(known + hotkeys, size)])
  }

  function FileSet(st: DbState, fullHash: string): SortedSet {
    if fullHash in st.files then st.files[fullHash] else []
  }

  /** A dictionary from index to information, in insertion order. */
  type InfoDict = seq<(nat, ChunkInfo)>

  /** `d[k] = v`: in place when the key is there, else at the end. */
  function DictPut(d: InfoDict, k: nat, v: ChunkInfo): InfoDict {
    if d == [] then [(k, v)]
    else if d[0].0 == k then [(k, v)] + d[1..]
    else [d[0]] + DictPut(d[1..], k, v)
  }

  /** `get_all_chunks_for_file`: the entries that have metadata, by score. */
  function InfosOf(z: SortedSet, chunks: map<string, ChunkMeta>): InfoDict {
    if z == [] then []
    else
      var n := |z| - 1;
      var before := InfosOf(z[..n], chunks);
      if z[n].member in chunks
      then DictPut(before, z[n].score, ChunkInfo(z[n].member, chunks[z[n].member]))
      else before
  }

  function InsertByIndex(d: InfoDict, item: (nat, ChunkInfo)): InfoDict {
    if d == [] then [item]
    else
      var n := |d| - 1;
      if item.0 < d[n].0 then InsertByIndex(d[..n], item) + [d[n]] else d + [item]
  }

  /** `sorted(items, key=index)`: stable. */
  function SortByIndex(d: InfoDict): InfoDict {
    if d == [] then []
    else InsertByIndex(SortByIndex(d[..|d| - 1]), d[|d| - 1])
  }

  function Values(d: InfoDict): (r: seq<ChunkInfo>)
    ensures |r| == |d|
  {
    seq(|d|, i requires 0 <= i < |d| => d[i].1)
  }

  /** `get_ordered_metadata` */
  function OrderedMetadata(st: DbState, fullHash: string): Option<seq<ChunkInfo>> {
    var z := FileSet(st, fullHash);
    if z == [] then None else Some(Values(SortByIndex(InfosOf(z, st.chunks))))
  }

  // ---------- The database object ----------

  class Database {
    var files: map<string, SortedSet>
    var chunks: map<string, ChunkMeta>

    constructor ()
      ensures View() == DbState(map[], map[])
    {
      files := map[];
      chunks := map[];
    }

    function View(): DbState
      reads this
    {
      DbState(files, chunks)
    }

    /** `store_file_chunk_mapping_ordered`, the index part: members are added one by one. */
    method StoreFileChunkMapping(fullHash: string, chunkHashes: seq<string>, chunkIndices: seq<nat>)
      requires |chunkHashes| == |chunkIndices|
      modifies this
      ensures chunks == old(chunks)
      ensures files == if chunkHashes == [] then old(files)
                       else old(files)[fullHash := ZAddAll(FileSet(old(View()), fullHash), chunkHashes, chunkIndices)]
    {
      ghost var start := FileSet(View(), fullHash);
      ghost var added := start;
      for i := 0 to |chunkHashes|
        invariant chunks == old(chunks)
        invariant files == if i == 0 then old(files) else old(files)[fullHash := added]
        invariant FileSet(View(), fullHash) == added
        invariant added == ZAddAll(start, chunkHashes[..i], chunkIndices[..i])
      {
        ZAddAllNext(start, chunkHashes, chunkIndices, i);
        var z := ZAdd(if fullHash in files then files[fullHash] else [], chunkHashes[i], chunkIndices[i]);
        PutTwice(old(files), fullHash, added, z);
        files := files[fullHash := z];
        added := z;
      }
      TakeAll(chunkHashes);
      TakeAll(chunkIndices);
    }

    /** `store_chunk_metadata` */
    method StoreChunkMetadata(chunkHash: string, hotkeys: set<string>, size: nat)
      modifies this
      ensures View() == WithChunk(old(View()), chunkHash, hotkeys, size)
    {
      var all := hotkeys;
      assert {} + hotkeys == hotkeys;
      if chunkHash in chunks {
        all := chunks[chunkHash].hotkeys + hotkeys;
      }
      chunks := chunks[chunkHash := ChunkMeta(all, size)];
    }

    /** `get_all_chunks_for_file` and `get_ordered_metadata` */
    method GetOrderedMetadata(fullHash: string) returns (r: Option<seq<ChunkInfo>>)
      ensures r == OrderedMetadata(View(), fullHash)
    {
      var z := if fullHash in files then files[fullHash] else [];
      if |z| == 0 {
        return None;
      }
      var infos: InfoDict := [];
      for i := 0 to |z|
        invariant infos == InfosOf(z[..i], chunks)
      {
        assert z[..i + 1][..i] == z[..i];
        if z[i].member in chunks {
          infos := DictPut(infos, z[i].score, ChunkInfo(z[i].member, chunks[z[i].member]));
        }
      }
      assert z[..|z|] == z;
      return Some(Values(SortByIndex(infos)));
    }
  }

  // ---------- What a new file's index holds ----------

  /** The positions whose hash does not come again later, among the first n. */
  function Survivors(hashes: seq<string>): seq<nat> {
    if hashes == [] then []
    else
      var n := |hashes| - 1;
      Others(Survivors(hashes[..n]), hashes, hashes[n]) + [n]
  }

  function HashAt(hashes: seq<string>, p: nat): string {
    if p < |hashes| then hashes[p] else ""
  }

  /** The positions among `kept` that hold another hash. */
  function Others(kept: seq<nat>, hashes: seq<string>, hash: string): seq<nat> {
    if kept == [] then []
    else
      var n := |kept| - 1;
      Others(kept[..n], hashes, hash) + if HashAt(hashes, kept[n]) == hash then [] else [kept[n]]
  }

  predicate Ascending(positions: seq<nat>, bound: nat) {
    && (forall i :: 0 <= i < |positions| ==> positions[i] < bound)
    && (forall i, j :: 0 <= i < j < |positions| ==> positions[i] < positions[j])
  }

  lemma {:induction false} OthersMembers(kept: seq<nat>, hashes: seq<string>, hash: string)
    ensures forall p :: p in Others(kept, hashes, hash) <==> p in kept && HashAt(hashes, p) != hash
  {
    if kept != [] {
      var n := |kept| - 1;
      OthersMembers(kept[..n], hashes, hash);
      assert kept == kept[..n] + [kept[n]];
    }
  }

  lemma AscendingAppend(positions: seq<nat>, p: nat, bound: nat)
    requires Ascending(positions, bound) && p < bound
    requires forall q :: q in positions ==> q < p
    ensures Ascending(positions + [p], bound)
  {
    forall i | 0 <= i < |positions|
      ensures positions[i] < p
    {
      assert positions[i] in positions;
    }
  }

  lemma {:induction false} OthersAscending(kept: seq<nat>, hashes: seq<string>, hash: string, bound: nat)
    requires Ascending(kept, bound)
    ensures Ascending(Others(kept, hashes, hash), bound)
  {
    if kept != [] {
      var n := |kept| - 1;
      OthersAscending(kept[..n], hashes, hash, bound);
      OthersMembers(kept[..n], hashes, hash);
      AscendingAppend(Others(kept[..n], hashes, hash), kept[n], bound);
    }
  }

  predicate ComesAgain(hashes: seq<string>, p: nat)
    requires p < |hashes|
  {
    exists q :: p < q < |hashes| && hashes[q] == hashes[p]
  }

  lemma ComesAgainNext(hashes: seq<string>, p: nat)
    requires p + 1 < |hashes|
    ensures var n := |hashes| - 1;
            ComesAgain(hashes, p) <==> ComesAgain(hashes[..n], p) || hashes[n] == hashes[p]
  {
    var n := |hashes| - 1;
    if ComesAgain(hashes, p) {
      var q :| p < q < |hashes| && hashes[q] == hashes[p];
      if q < n {
        assert hashes[..n][q] == hashes[q];
      }
    }
    if ComesAgain(hashes[..n], p) {
      var q :| p < q < n && hashes[..n][q] == hashes[..n][p];
      assert hashes[q] == hashes[p];
    }
  }

  /** A position survives exactly when its hash does not come again. */
  lemma {:induction false} SurvivesExactly(hashes: seq<string>, p: nat)
    ensures p in Survivors(hashes) <==> p < |hashes| && !ComesAgain(hashes, p)
  {
    if hashes != [] {
      var n := |hashes| - 1;
      SurvivesExactly(hashes[..n], p);
      OthersMembers(Survivors(hashes[..n]), hashes, hashes[n]);
      if p < n {
        ComesAgainNext(hashes, p);
      }
    }
  }

  /** Survivors are in order. */
  lemma {:induction false} SurvivorsAscend(hashes: seq<string>)
    ensures Ascending(Survivors(hashes), |hashes|)
  {
    if hashes != [] {
      var n := |hashes| - 1;
      var kept := Survivors(hashes[..n]);
      SurvivorsAscend(hashes[..n]);
      OthersAscending(kept, hashes, hashes[n], n);
      var left := Others(kept, hashes, hashes[n]);
      forall q | q in left
        ensures q < n
      {
        var i :| 0 <= i < |left| && left[i] == q;
      }
      AscendingAppend(left, n, |hashes|);
    }
  }

  function EntriesAt(positions: seq<nat>, hashes: seq<string>): SortedSet {
    if positions == [] then []
    else
      var n := |positions| - 1;
      EntriesAt(positions[..n], hashes) + [Entry(HashAt(hashes, positions[n]), positions[n])]
  }

  function Upto(n: nat): (r: seq<nat>)
    ensures |r| == n
  {
    seq(n, i => i)
  }

  lemma EntriesAtAppend(positions: seq<nat>, p: nat, hashes: seq<string>)
    ensures EntriesAt(positions + [p], hashes) == EntriesAt(positions, hashes) + [Entry(HashAt(hashes, p), p)]
  {
    assert (positions + [p])[..|positions|] == positions;
  }

  lemma {:induction false} WithoutIsOthers(kept: seq<nat>, hashes: seq<string>, hash: string)
    ensures Without(EntriesAt(kept, hashes), hash) == EntriesAt(Others(kept, hashes, hash), hashes)
  {
    if kept != [] {
      var n := |kept| - 1;
      var front := EntriesAt(kept[..n], hashes);
      WithoutIsOthers(kept[..n], hashes, hash);
      assert EntriesAt(kept, hashes)[..n] == front by {
        EntriesAtLength(kept[..n], hashes);
      }
      EntriesAtLength(kept, hashes);
      if HashAt(hashes, kept[n]) != hash {
        EntriesAtAppend(Others(kept[..n], hashes, hash), kept[n], hashes);
      } else {
        assert Without(front, hash) + [] == Without(front, hash);
        assert Others(kept[..n], hashes, hash) + [] == Others(kept[..n], hashes, hash);
      }
    }
  }

  lemma {:induction false} EntriesAtLength(positions: seq<nat>, hashes: seq<string>)
    ensures |EntriesAt(positions, hashes)| == |positions|
  {
    if positions != [] {
      EntriesAtLength(positions[..|positions| - 1], hashes);
    }
  }

  lemma {:induction false} EntriesAtSame(positions: seq<nat>, a: seq<string>, b: seq<string>)
    requires Ascending(positions, |a|) && |a| <= |b| && a == b[..|a|]
    ensures EntriesAt(positions, a) == EntriesAt(positions, b)
  {
    if positions != [] {
      EntriesAtSame(positions[..|positions| - 1], a, b);
    }
  }

  lemma {:induction false} InsertHighest(positions: seq<nat>, hashes: seq<string>, e: Entry)
    requires Ascending(positions, e.score)
    ensures Insert(EntriesAt(positions, hashes), e) == EntriesAt(positions, hashes) + [e]
  {
    EntriesAtLength(positions, hashes);
  }

  /** The sorted set of a new file: each hash once, at the position where it came last. */
  lemma {:induction false} NewFileIndex(hashes: seq<string>)
    ensures ZAddAll([], hashes, Upto(|hashes|)) == EntriesAt(Survivors(hashes), hashes)
  {
    if hashes != [] {
      var n := |hashes| - 1;
      var kept := Survivors(hashes[..n]);
      var left := Others(kept, hashes, hashes[n]);
      NewFileIndex(hashes[..n]);
      assert Upto(|hashes|)[..n] == Upto(n);
      SurvivorsAscend(hashes[..n]);
      EntriesAtSame(kept, hashes[..n], hashes);
      WithoutIsOthers(kept, hashes, hashes[n]);
      OthersAscending(kept, hashes, hashes[n], n);
      InsertHighest(left, hashes, Entry(hashes[n], n));
      EntriesAtAppend(left, n, hashes);
    }
  }

  lemma {:induction false} DictPutNew(d: InfoDict, k: nat, v: ChunkInfo)
    requires forall i :: 0 <= i < |d| ==> d[i].0 != k
    ensures DictPut(d, k, v) == d + [(k, v)]
  {
    if d != [] {
      DictPutNew(d[1..], k, v);
      assert d + [(k, v)] == [d[0]] + (d[1..] + [(k, v)]);
    }
  }

  predicate StrictlyByIndex(d: InfoDict) {
    forall i, j :: 0 <= i < j < |d| ==> d[i].0 < d[j].0
  }

  lemma {:induction false} SortedStays(d: InfoDict)
    requires StrictlyByIndex(d)
    ensures SortByIndex(d) == d
  {
    if d != [] {
      var n := |d| - 1;
      SortedStays(d[..n]);
      assert d == d[..n] + [d[n]];
    }
  }

  function InfosAt(positions: seq<nat>, hashes: seq<string>, chunks: map<string, ChunkMeta>): InfoDict
    requires forall p :: p in positions ==> HashAt(hashes, p) in chunks
  {
    if positions == [] then []
    else
      var n := |positions| - 1;
      var h := HashAt(hashes, positions[n]);
      InfosAt(positions[..n], hashes, chunks) + [(positions[n], ChunkInfo(h, chunks[h]))]
  }

  lemma {:induction false} InfosAtIndices(positions: seq<nat>, hashes: seq<string>, chunks: map<string, ChunkMeta>)
    requires forall p :: p in positions ==> HashAt(hashes, p) in chunks
    ensures var d := InfosAt(positions, hashes, chunks);
            && |d| == |positions|
            && forall i :: 0 <= i < |d| ==>
                 d[i] == (positions[i], ChunkInfo(HashAt(hashes, positions[i]), chunks[HashAt(hashes, positions[i])]))
  {
    if positions != [] {
      InfosAtIndices(positions[..|positions| - 1], hashes, chunks);
    }
  }

  lemma {:induction false} InfosOfEntries(
    positions: seq<nat>, hashes: seq<string>, chunks: map<string, ChunkMeta>, bound: nat)
    requires Ascending(positions, bound)
    requires forall p :: p in positions ==> HashAt(hashes, p) in chunks
    ensures InfosOf(EntriesAt(positions, hashes), chunks) == InfosAt(positions, hashes, chunks)
  {
    if positions != [] {
      var n := |positions| - 1;
      InfosOfEntries(positions[..n], hashes, chunks, bound);
      EntriesAtLength(positions[..n], hashes);
      assert EntriesAt(positions, hashes)[..n] == EntriesAt(positions[..n], hashes);
      InfosAtIndices(positions[..n], hashes, chunks);
      var h := HashAt(hashes, positions[n]);
      DictPutNew(InfosAt(positions[..n], hashes, chunks), positions[n], ChunkInfo(h, chunks[h]));
    }
  }

  lemma SurvivorsKnown(hashes: seq<string>, chunks: map<string, ChunkMeta>)
    requires forall i :: 0 <= i < |hashes| ==> hashes[i] in chunks
    ensures forall p :: p in Survivors(hashes) ==> p < |hashes| && HashAt(hashes, p) in chunks
  {
    forall p | p in Survivors(hashes)
      ensures p < |hashes|
    {
      SurvivesExactly(hashes, p);
    }
  }

  lemma IndexReadBack(z: SortedSet, chunks: map<string, ChunkMeta>, kept: seq<nat>, hashes: seq<string>, bound: nat)
    requires Ascending(kept, bound) && z == EntriesAt(kept, hashes)
    requires forall p :: p in kept ==> HashAt(hashes, p) in chunks
    ensures SortByIndex(InfosOf(z, chunks)) == InfosAt(kept, hashes, chunks)
  {
    InfosOfEntries(kept, hashes, chunks, bound);
    InfosAtIndices(kept, hashes, chunks);
    SortedStays(InfosAt(kept, hashes, chunks));
  }

  /** The information read back names the hashes at the surviving positions, in order. */
  predicate Names(infos: seq<ChunkInfo>, kept: seq<nat>, hashes: seq<string>) {
    |infos| == |kept| && forall i :: 0 <= i < |kept| ==> infos[i].chunkHash == HashAt(hashes, kept[i])
  }

  /**
   Reading a new file's index back: one piece of information per surviving position,
   in order, whatever the hashes are, when every chunk has metadata.
   */
  lemma NewFileMetadata(st: DbState, fullHash: string, hashes: seq<string>)
    requires hashes != [] && forall i :: 0 <= i < |hashes| ==> hashes[i] in st.chunks
    requires FileSet(st, fullHash) == ZAddAll([], hashes, Upto(|hashes|))
    ensures var metadata := OrderedMetadata(st, fullHash);
            && metadata.Some? && Names(metadata.value, Survivors(hashes), hashes)
            && forall i :: 0 <= i < |metadata.value| ==>
                 var info := metadata.value[i];
                 info.chunkHash in st.chunks && info.meta == st.chunks[info.chunkHash]
  {
    var kept := Survivors(hashes);
    NewFileIndex(hashes);
    EntriesAtLength(kept, hashes);
    SurvivorsAscend(hashes);
    SurvivorsKnown(hashes, st.chunks);
    IndexReadBack(FileSet(st, fullHash), st.chunks, kept, hashes, |hashes|);
    InfosAtIndices(kept, hashes, st.chunks);
  }
}
