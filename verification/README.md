# FileTAO storage proofs in Dafny

FileTAO is a storage-proof protocol. A validator cuts a file into chunks, hands each
chunk to a group of miners, and keeps challenging them: a miner answers with a hash
chained through the seeds of earlier requests, a Pedersen commitment to one piece of the
data, and a Merkle proof of that commitment. Answers feed success counters, tiers, scaled
rewards and, in the end, chain weights.

This project models that logic and proves what it promises. The hash function and the
curve are parameters: the hash has 32 bytes of output and nothing more is assumed, so
where two inputs could share a digest a lemma concludes with the collision; the curve is
an abelian group on which integers act. Division, the square root, the logarithm and the
sigmoid are over exact reals, the last three as parameters.

| file | models |
|---|---|
| `Wrappers`, `Sequences`, `Arithmetic`, `Text`, `Hashing` | results and exceptions; sequences, sums and order laws; hexadecimal, decimal and comma-separated text; the hash parameter |
| `MerkleSpec`, `MerkleTheory`, `MerkleTree` | the Merkle tree as values, its laws, and the object with its shared lists |
| `Ecc`, `Chunking`, `Commitments` | commitments and point text, cutting into chunks, committing every chunk |
| `Protocol`, `Verify`, `Challenge` | the messages, the validator's checks, one challenge from both ends |
| `MinerState`, `Miner`, `SeedChain` | the miner's stored state, its handlers, and all runs of validators and a miner |
| `RateLimiter`, `Gate` | the sliding-window limiter and the per-caller admission check |
| `Distribution`, `FileIndex`, `Broadband` | chunk sizes, ranges and groups; the file and chunk index; storing and reading back a file |
| `Bonding`, `Reward`, `Scores`, `Weights` | counters, Wilson score and tiers; reward scaling; moving average; weights |
| `ChallengeDraw` | which chunk indices a validator can draw |

Methods follow the source's loops and updates and are proved equal to functions on values;
the lemmas are about those functions.

## Where the code differs from its documentation

The code is followed, and the exact condition under which the promise holds is proved.

- `update_leaf` hashes a lone last node with an empty sibling where `make_tree` promotes it. Updating equals rebuilding if and only if every odd end node on the path is its own hash (`UpdateIsRebuildExactly`); every position is safe if and only if the number of leaves is a power of two (`AllPathsCleanExactly`).
- The number of uid groups is rounded down and the number of ranges up, and `zip` stops at the shorter. `CoverageExactly` and `PayloadCoveredExactly` say when a tail is lost.
- The correction of a short last range in `calculate_chunk_indices` never applies (`CalculateChunkIndices`).
- For a recorded size up to the drawn chunk size, `num_chunks` is the size itself, so indices of no chunk can be drawn (`DrawsRealExactly`); and every part of a distributed file is recorded with the size of a full part, whatever it holds (`PartDrawsRealExactly`, with a file where no chunk size is safe in `ShortLastPartDrawsUnreal`).
- A second hotkey that stores a chunk the miner holds gets an empty file path, and its challenges and retrieves never verify afterwards (`SecondStorerNeverVerifies`; the exact condition is in `ChallengeVerifiesExactly` and `RetrieveVerifiesExactly`).
- Equal chunks of one file share one member of the sorted set, so only the last index survives and the payload does not come back, unless a reply collides with its chunk (`SurvivesExactly`, `RepeatedChunkIsLost`).
- `handle_retrieve` records its seed without having verified the answer, `retrieve_broadband` never records one. `DriftExactly` says for every kind of exchange when the two sides part.
- `scale_rewards` pairs the sorted times with the data sizes in the batch's own order. A time meets its own size if and only if it is zero or the two sizes have one logarithm (`SizesMeetTimesExactly`); then faster per unit of data gets more (`FasterPerUnitGetsMore`), and without it that can fail (`SizesMeetWrongTimes`).
- A batch of zero rewards leaves scores that are not numbers, and in a batch without negative rewards only such a one does (`ScoreLostExactly`).
- `compute_tier` speaks of the lower bounds of the interval and uses its midpoint (`WilsonIsClosedForm`).

## Model

| member | source | states |
|---|---|---|
| `MerkleTheory.HonestProofAccepted` | storage/shared/merkle.py:369-385 | For every non-empty leaf list and index, the printed proof of a made tree is accepted by the verifier for the printed leaf and root. |
| `MerkleTheory.ProofFolds` | storage/shared/merkle.py:221-235 | Folding the siblings that `get_proof` picks, with their directions, from leaf i gives the root that the level-by-level build computes. |
| `MerkleTheory.ProofDirections` | storage/shared/merkle.py:221-235 | The entries of the proof of leaf i stand left and right as the position i among n leaves alone says: by the parity of the index at each level, with nothing where the node is an odd end. |
| `MerkleTheory.EntryStep` | storage/shared/merkle.py:376-384 | A left entry is hashed before the value so far, a right entry after it, and a left entry is tried first: the right one counts only if the left is missing or no hex. |
| `MerkleTheory.ProofIsShort` | storage/shared/merkle.py:221-235 | A proof has at most the rounded-up base-two logarithm of the number of leaves as entries. |
| `MerkleTheory.CeilLog2Bounds` | storage/shared/merkle.py:156-170 | The bound of `ProofIsShort` is that logarithm: the least d with n at most two to the d. |
| `MerkleTheory.AcceptedProofBinds` | storage/shared/merkle.py:369-385 | Any proof accepted against the root of a made tree, with the directions of position i and a target as long as leaf i, has leaf i as target and is the honest proof, or `FindCollision` returns two byte strings with one digest. |
| `MerkleTheory.FoldBinds` | storage/shared/merkle.py:376-385 | Two folds over the same directions that end in one value started equal and used equal siblings, or pass through a collision. |
| `MerkleTheory.RootBinds` | storage/shared/merkle.py:140-180 | Equal roots of two leaf lists of the same shape mean equal lists, or `FindTreeCollision` returns a collision. |
| `MerkleTheory.RootIsRecursiveRoot` | storage/shared/merkle.py:140-170 | The level-by-level tree with odd-node promotion has the root of the recursive tree of section 2.1 of RFC 6962 without its prefixes. |
| `MerkleTheory.RecursiveRootOfNext` | storage/shared/merkle.py:140-154 | Hashing one level first leaves the recursive root unchanged. |
| `MerkleTheory.SplitPointIsPowerOfTwo` | storage/shared/merkle.py:140-170 | The recursive tree splits at a power of two; with the bounds in `SplitPoint` it is the largest one below n. |
| `MerkleTheory.UpdateIsRebuildExactly` | storage/shared/merkle.py:272-286 | On a made tree, all levels after `update_leaf` equal a rebuild with that leaf replaced if and only if every odd end node on the path is its own hash. |
| `MerkleTheory.UpdateRefinesRebuild` | storage/shared/merkle.py:272-286 | With no odd end node on the path the update equals the rebuild, for every hash and value. |
| `MerkleTheory.AllPathsCleanExactly` | storage/shared/merkle.py:279-285 | No position has an odd end node on its path if and only if the number of leaves is a power of two. |
| `MerkleTheory.UpdateOfOddEndDiffers` | storage/shared/merkle.py:279-285 | With an odd number of leaves above one, updating the last leaf with a value that is not of digest length never gives the rebuilt tree, for any hash. |
| `MerkleTree.MerkleTree.AddLeaf` | storage/shared/merkle.py:119-129 | The decoded values are appended; a bad one stops half way with its exception, the ones before it stay; the tree is not ready. |
| `MerkleTree.HashedLeafIsDigest` | storage/shared/merkle.py:125-129 | A value added with hashing becomes the digest of its UTF-8 bytes, and is never refused. |
| `MerkleTree.MerkleTree.CalculateNextLevel` | storage/shared/merkle.py:140-154 | One new level is prepended: pairs hashed, an odd last node promoted, the other levels untouched. |
| `MerkleTree.MerkleTree.BuildLevels` | storage/shared/merkle.py:165-169 | The loop ends, the levels are those of the leaves, and the bottom level is the list of leaves itself. |
| `MerkleTree.MerkleTree.MakeTree` | storage/shared/merkle.py:156-170 | The tree becomes ready, made and aliased to its leaves; without leaves it becomes ready and its levels stay as they were. |
| `MerkleTree.MerkleTree.GetMerkleRoot` | storage/shared/merkle.py:172-180 | The hex of the top node of a ready tree with levels, else nothing; of a made tree, the root. |
| `MerkleTree.MerkleTree.GetProof` | storage/shared/merkle.py:216-235 | Nothing without levels, readiness or such a leaf; else the entries of the proof, left and right as the verifier needs them. |
| `MerkleTree.MerkleTree.SiblingEntry` | storage/shared/merkle.py:222-234 | One level's entry: the sibling under its side, none for an odd end node. |
| `MerkleTree.MerkleTree.UpdateLeaf` | storage/shared/merkle.py:272-286 | Nothing on a tree that is not ready; bad hex, missing levels and a bad index raise and change nothing; else all levels are the refreshed ones, and the leaves follow exactly when they are the bottom level. |
| `MerkleTree.MerkleTree.RefreshPath` | storage/shared/merkle.py:275-286 | The loop writes the leaf and every ancestor hashed from its children, and no other node. |
| `MerkleTree.UpdateRefreshes` | storage/shared/merkle.py:276-286 | The recursive account of the update and the loop's account by ancestor positions are one. |
| `MerkleTree.MerkleTree.Serialize` | storage/shared/merkle.py:288-308 | The JSON value holds the hex of all leaves and levels and the readiness. |
| `MerkleTree.MerkleTree.Deserialize` | storage/shared/merkle.py:310-329 | Succeeds exactly when all hex parses, gives a new tree with that content, and shares no list between leaves and levels. |
| `MerkleTree.JsonRoundTrip` | storage/shared/merkle.py:288-329 | Reading back what was written gives equal leaves, levels and readiness, for every tree. |
| `MerkleTree.SerializedAt` | storage/shared/merkle.py:288-308 | Leaf by leaf and node by node the JSON holds the hex of that node, no levels when there are none, and the same readiness. |
| `MerkleTree.Copy` | storage/shared/merkle.py:288-329 | Through JSON and back: an equal tree, hence equal root and proofs, sharing nothing with the first one. |
| `MerkleTree.ValidateMerkleProof` | storage/shared/merkle.py:369-385 | The loop computes the fold of the parsed entries, tries the left key first, falls back to the right one, and raises where that fails. |
| `MerkleTree.ProveAndValidate` | storage/shared/merkle.py:216-235 | On any made tree object, the proof, leaf and root it hands out are accepted by the verifier. |
| `MerkleTree.UpdateMade` | storage/shared/merkle.py:272-286 | Updating a made tree in place replaces the leaf that `get_leaf` sees, and leaves a made tree if and only if the odd ends on the path are their own hashes. |
| `MerkleTree.CopyThenUpdate` | storage/shared/merkle.py:310-329 | On a deserialised tree an update changes the levels but `get_leaf` still returns the old value. |
| `Ecc.PointRoundTrip` | storage/shared/ecc.py:88-110 | Parsing the hex of a printed point gives that point, for all coordinates on the curve, and refuses every other point. |
| `Ecc.PrintedPointReads` | storage/shared/ecc.py:88-89 | A printed point, unhexed and decoded, reads as the two decimal coordinates with a comma between, x first. |
| `Ecc.TwoOpeningsRelateGenerators` | storage/shared/ecc.py:133-191 | Two openings of one commitment give a scalar relation between the generators. |
| `Hashing.HashDataBinds` | storage/shared/ecc.py:43-47 | Equal hash numbers come from equal inputs, or from a collision. |
| `Hashing.HashDataIsHexNumber` | storage/shared/ecc.py:43-47 | The hash number is what the hex digits of the digest spell in base sixteen. |
| `Text.HexRoundTrip` | storage/shared/merkle.py:108-112 | Both hex parsers undo the hex printer. |
| `Text.DecimalRoundTrip` | storage/shared/ecc.py:108-109 | Parsing the decimal digits of a number gives it back. |
| `Text.AsciiRoundTrip` | storage/shared/ecc.py:88-89 | Decoding encoded 7-bit text gives it back. |
| `Text.SplitPair` | storage/shared/ecc.py:109-109 | Splitting two comma-free texts joined by a comma gives exactly those two. |
| `Chunking.ChunksPartition` | storage/shared/utils.py:117-118 | One non-empty chunk per started `size`, none longer, joining to the data. |
| `Chunking.ChunkIsSlice` | storage/shared/utils.py:117-118 | Chunk i is exactly the data from i times the size to the next multiple or the end. |
| `Chunking.SlotsSuffice` | neurons/miner.py:828-828 | The slots the miner allocates are never fewer than the chunks, for every data and positive chunk size. |
| `Commitments.CommitDataWithSeed` | storage/miner/utils.py:63-77 | Randomness, chunks and printed commitments fill the slots from the front, the tree is made of the commitments' bytes, and too few slots raise. |
| `Challenge.BuildAnswer` | neurons/miner.py:813-842 | Committing in a loop, making the tree, reading slots and proof gives the specified answer or the specified exception. |
| `Challenge.ReadAnswer` | neurons/miner.py:834-842 | The answer's fields all belong to the challenged index; past the last chunk the empty slot raises, past the slots the list does. |
| `Challenge.AnsweredExactly` | neurons/miner.py:813-842 | The miner can answer if and only if the generators are curve points, the chunk size is positive and the index names a real chunk. |
| `Challenge.UnansweredExactly` | neurons/miner.py:813-842 | With generators on the curve: a zero chunk size divides by zero, a negative one or an index past the slots is an index error, and an index past the chunks but within the slots meets an empty slot; each exactly so. |
| `Challenge.OpensChallengedPiece` | neurons/miner.py:834-842 | Whenever an answer is given, it carries the bytes from i times the chunk size to the next multiple or the end, the randomness drawn for i, a commitment that opens to that piece, a proof with the directions of position i among the started chunks, and the root of a tree whose every leaf is the commitment to its own piece. |
| `Challenge.HonestAnswerVerifies` | storage/validator/verify.py:85-125 | Every honest answer to a challenge of a real chunk passes all three checks, for all data, seeds, points, randomness and sizes. |
| `Challenge.OpeningVerifies` | storage/validator/verify.py:94-125 | The opening and the Merkle proof of any one of the committed chunks pass the second and third check. |
| `Challenge.AcceptedAnswerRevealsChunk` | storage/validator/verify.py:85-125 | An accepted answer against the root of committed chunks, with the directions of position i and a commitment printed as long as leaf i, reveals chunk i, or yields a hash collision or a relation between the generators. |
| `Challenge.AcceptedUnderOwnRoot` | storage/validator/verify.py:85-125 | The converse: the verdict looks only at generators, seed and the root in the answer, so for every request with curve points an honest answer about any non-empty data verifies and reveals that data. |
| `Verify.ChainedUnique` | storage/validator/verify.py:55-65 | For one proof and one seed at most one commitment hash is accepted. |
| `Verify.ChainedBinds` | storage/validator/verify.py:55-65 | Two proofs with their seeds accepted under one commitment hash are the same bytes together, or collide; an absent proof or commitment is never accepted. |
| `Verify.ChallengeRefusesOtherHash` | storage/validator/verify.py:85-90 | A challenge answer that verifies stops verifying under every other commitment hash, or none. |
| `Verify.ChallengeRefusesOtherPoint` | storage/validator/verify.py:94-110 | It stops verifying with every other curve point as its commitment. |
| `Verify.ChallengeRefusesOtherRoot` | storage/validator/verify.py:112-123 | It stops verifying with the hex of any other bytes as its root. |
| `Verify.RetrieveRefusesOtherHash` | storage/validator/verify.py:185-196 | A retrieve answer that verifies stops verifying under every other commitment hash, or none. |
| `Verify.StoreRefusesOtherHash` | storage/validator/verify.py:145-155 | A store answer that verifies stops verifying under every other commitment hash. |
| `Verify.StoreRefusesOtherPoint` | storage/validator/verify.py:157-170 | It stops verifying with every other curve point as its commitment. |
| `Verify.StoreBinds` | storage/validator/verify.py:145-149 | Two store answers that verify with one commitment hash are for the same data and seed together, or those collide. |
| `Miner.Database.StoreOrUpdate` | storage/miner/database.py:124-132 | A chunk unknown to the miner gets the full record; a known one only has the caller's seed moved. |
| `Miner.Database.UpdateSeedInfo` | storage/miner/database.py:149-174 | Only the seed of that record changes; a missing record is created with an empty path and size 0. |
| `Miner.Miner.Store` | neurons/miner.py:618-687 | The whole new state and the answer: data saved unless this caller has a record, record or seed written, commitment of data and seed. |
| `Miner.Miner.Load` | neurons/miner.py:728-789 | The data behind the record's path; without a record the caller's directory, then the old place; an empty path fails. |
| `Miner.Miner.Challenge` | neurons/miner.py:723-851 | The caller's seed moves if and only if the data loads, whatever fails after, and the answer uses the seed before. |
| `Miner.Miner.Retrieve` | neurons/miner.py:886-963 | The data with its chained proof of the seed before, and the caller's seed moved. |
| `SeedChain.RunKeepsInv` | neurons/miner.py:632-651 | After every run: files lie under their own hash, recorded paths lead to them, each known chunk has exactly one record with a path, and what a validator recorded the miner has a record of. |
| `SeedChain.FirstStoreDecides` | storage/miner/database.py:124-132 | After every run, a chunk is known if and only if a store of it arrived; the one record with a path is that of whoever's store arrived first, and the file is what that store brought. |
| `SeedChain.StoreLookup` | neurons/miner.py:632-651 | What one store does to the record of every chunk and caller: only its own changes, to the full record of a new chunk, a moved seed, or an empty path for a later caller; and whether the data is saved. |
| `SeedChain.LoadsExactlyForFirstStorer` | neurons/miner.py:742-779 | After every run a caller's data loads if and only if its store of the chunk arrived before anyone else's, and is what that store brought. |
| `SeedChain.StoreVerifiesExactly` | storage/validator/verify.py:139-172 | A store verifies if and only if it is delivered and its generators are curve points. |
| `SeedChain.ChallengeVerifiesExactly` | storage/validator/challenge.py:111-133 | After every run, lost messages included, a challenge verifies if and only if it is delivered, its sender's store of the chunk arrived first and it names a real piece of the data stored then. |
| `SeedChain.VerifiedChallengeOpens` | storage/validator/challenge.py:111-133 | After every run a challenge that verifies was answered with the challenged piece of what the first store brought, its opening and a proof of its position. |
| `SeedChain.RetrieveVerifiesExactly` | storage/validator/retrieve.py:73-103 | Likewise for a retrieve; and it returns exactly the data of that first store, and nothing to anyone else. |
| `SeedChain.SecondStorerNeverVerifies` | storage/miner/database.py:156-158 | When two validators store one chunk, no challenge and no retrieve of the second verifies after any continuation of the run. |
| `SeedChain.SeedIsLastArrived` | storage/miner/database.py:149-172 | The first storer's seed at the miner is that of its last request that arrived. |
| `SeedChain.ProofChainsLastSeed` | neurons/miner.py:783-802 | After every run a proof is handed only to the first storer, and is the hash of its data with the seed of its last request that arrived. |
| `SeedChain.FirstProofIsStoreCommitment` | neurons/miner.py:673-674 | The first proof after a store, with anything in between that did not reach the miner or concerns others, is the store's commitment hash, or two data collide. |
| `SeedChain.CompletedExchangeAgrees` | storage/validator/challenge.py:129-133 | After a verified exchange of any validator, first storer or not, miner and validator hold the same seed, that of the exchange. |
| `SeedChain.DriftExactly` | storage/validator/retrieve.py:84-101 | From agreement, which exchanges with a fresh seed keep it, by kind, for every validator: read off the request, what was lost, and who stored first. |
| `SeedChain.OthersUntouched` | storage/miner/database.py:149-172 | One validator's exchange changes nothing of another validator or another chunk: record, recorded seed, and whether the record has a path. |
| `RateLimiter.RateLimiter.IsAllowed` | storage/miner/utils.py:329-341 | The whole new queue and the verdict, for any clock reading. |
| `RateLimiter.QueueIsWindow` | storage/miner/utils.py:331-338 | After every run on a clock that never goes back, the queue is the accepted calls of the window ending now. |
| `RateLimiter.RefusedExactly` | storage/miner/utils.py:337-341 | A call is refused if and only if its window already holds the maximum of accepted calls, and never more than that. |
| `RateLimiter.WindowNeverExceeded` | storage/miner/utils.py:329-341 | In every run, every closed interval as long as the window holds at most the maximum of accepted calls. |
| `Gate.Gate.Check` | neurons/miner.py:356-379 | The verdict in the source's order, and the queue of this caller alone changed; limiters are made on first use and not shared. |
| `Gate.CallersIndependent` | neurons/miner.py:362-372 | However callers interleave, each limited caller's queue is that of its own calls. |
| `Gate.RateLimitedExactly` | neurons/miner.py:368-372 | After any mix of calls, a limited caller is turned away if and only if its own accepted calls fill the window. |
| `Gate.TurnedAwayExactly` | neurons/miner.py:356-379 | After any mix of calls, a call is turned away if and only if its caller is blacklisted, or is not whitelisted and has a full window of accepted calls or is not registered. |
| `Distribution.OptimalChunkSizeCases` | storage/validator/utils.py:550-565 | In integers: the data size below the minimum, else the share per group held between both limits. |
| `Distribution.OptimalChunkSizeWithoutGroups` | storage/validator/utils.py:553-565 | With fewer uids than one group needs, the size is that of the data, up to the maximum. |
| `Distribution.CalculateChunkIndices` | storage/validator/utils.py:709-721 | The ranges, one per started chunk and cut at the end; a zero chunk size raises. |
| `Distribution.RangesConsecutive` | storage/validator/utils.py:712-715 | The ranges start at 0, are not empty, and follow each other without gap or overlap. |
| `Distribution.PartitionAt` | storage/validator/utils.py:623-623 | Group g of a multiple of R uids is the slice of R uids from g times R on. |
| `Distribution.ReuseGroups` | storage/validator/utils.py:792-797 | The nested loops end, with the initial groups repeated in turn up to the number needed. |
| `Distribution.Zip` | storage/validator/utils.py:799-806 | Part i has range i, group i and index i, until either list ends. |
| `Distribution.ComputeDistribution` | storage/validator/utils.py:777-806 | The whole distribution: chunk i has range i and initial group i modulo the number of groups; zero sizes and too few uids raise. |
| `Distribution.PartsExactly` | storage/validator/utils.py:787-806 | Part i is there if and only if its first byte exists and either i is below the number of groups or the whole chunk is; then it has that range, that index, and the R uids of group i modulo the groups. |
| `Distribution.CoverageExactly` | storage/validator/utils.py:792-806 | All data is covered, except that with at least as many whole chunks as groups a started last one is dropped. |
| `Distribution.OptimalCoverage` | storage/validator/utils.py:548-565 | With the chosen size: up to one full-size chunk per group, fewer trailing positions than groups are left out; beyond, exactly the whole chunks are covered. |
| `Distribution.PayloadCoveredExactly` | storage/validator/store.py:501-510 | The payload, 33 bytes shorter than its reported size, is covered if and only if there are fewer whole chunks than groups or the rest fits in those 33. |
| `Distribution.PayloadCoveredWithFewGroups` | storage/validator/store.py:501-510 | With at most 34 groups every payload of up to one full-size chunk per group is covered. |
| `Distribution.LargePayloadCoveredExactly` | storage/validator/store.py:501-510 | Beyond that the payload is covered if and only if the rest after full-size chunks fits in 33 bytes. |
| `Distribution.GroupsAreDisjoint` | storage/validator/utils.py:623-642 | Groups have exactly R distinct uids and share none. |
| `Distribution.ConsecutiveChunksDisjoint` | storage/validator/utils.py:787-806 | Any two of as many consecutive chunks as there are groups go to disjoint groups of R distinct uids. |
| `Distribution.LoadIsBalanced` | storage/validator/utils.py:791-806 | In every distribution over distinct uids, n parts over G groups: each group is given n div G parts, and the first n mod G groups one more. |
| `FileIndex.Database.StoreFileChunkMapping` | storage/validator/database.py:627-629 | Members are added in turn with their index as score; other files and all chunk metadata stay. |
| `FileIndex.Database.StoreChunkMetadata` | storage/validator/database.py:829-836 | The hotkeys are added to those there, the size is replaced. |
| `FileIndex.Database.GetOrderedMetadata` | storage/validator/database.py:684-701 | The metadata of the members that have some, by index; nothing for an unknown file. |
| `FileIndex.NewFileIndex` | storage/validator/database.py:627-629 | A new file's sorted set holds each hash once, at the position where it came last, in order. |
| `FileIndex.SurvivesExactly` | storage/validator/database.py:628-629 | A position is in the index if and only if its hash does not come again. |
| `FileIndex.NewFileMetadata` | storage/validator/database.py:856-861 | Reading a new file's index gives one entry per surviving position, in order, with that position's hash and the metadata stored under it. |
| `Broadband.StoreBroadband` | storage/validator/store.py:572-609 | A known file is left alone; else all chunk metadata is written, then the ordered index of the hashes in slicing order. |
| `Broadband.ChunkMetaExactly` | storage/validator/database.py:829-836 | After storing, a hotkey is read back for a chunk if and only if it was there before or stored an equal chunk of this file, and the size is that of the last such chunk. |
| `Broadband.StoredFileIsKnown` | storage/validator/store.py:519-522 | A file is unknown before its first store and known after it. |
| `Broadband.StoreTwice` | storage/validator/store.py:519-522 | A second store under the same full hash, whatever it brings, leaves the database as the first one did. |
| `Broadband.Reassemble` | storage/validator/retrieve.py:402-428 | The first accepted reply of each group is taken, later ones and failures are skipped, the pieces are joined in order. |
| `Broadband.CollectedExactly` | storage/validator/retrieve.py:402-416 | Given in each group the first reply of status 200 that passes the retrieve check, if any, exactly the data of those replies is taken, in order; a group without one adds nothing, and a taken reply without data raises. |
| `Broadband.SlicesJoin` | storage/validator/store.py:446-452 | Slices of consecutive ranges join to the data up to where the ranges end. |
| `Broadband.StoredIndex` | storage/validator/store.py:603-609 | The index of a newly stored file names its surviving chunks in order, each with the metadata just stored. |
| `Broadband.CollectedAreSurvivors` | storage/validator/retrieve.py:402-428 | Where in each group the first reply of status 200 that passes the check carries data of the asked hash, the very bytes of the surviving chunks are collected, unless a reply collides with its chunk. |
| `Broadband.JoinIsPayloadExactly` | storage/validator/retrieve.py:428-428 | What is joined is the payload if and only if the ranges cover it and no chunk whose hash comes again holds anything. |
| `Broadband.RetrieveBroadband` | storage/validator/retrieve.py:365-428 | Reads the index, asks for every chunk in it with its own seed, reassembles; an unknown file raises. |
| `Broadband.StoreThenRetrieveExactly` | storage/validator/retrieve.py:365-428 | Store a new file, read its index, ask for every chunk, reassemble: something comes back, and unless a reply collides with its chunk it is the payload if and only if the ranges cover it and no non-empty chunk's hash comes again. |
| `Broadband.DistributionIsConsecutive` | storage/validator/utils.py:799-806 | The validator's own distribution is consecutive and ends where the coverage lemmas say. |
| `Broadband.DistributedFileReturnsExactly` | storage/validator/store.py:501-512 | The same for the validator's own distribution, stored, asked for and answered: the payload comes back if and only if there are fewer whole chunks than groups or the rest fits in 33 bytes, and no non-empty chunk's hash comes again. |
| `Broadband.StoreThenRetrieve` | storage/validator/store.py:540-609 | All the code in one go, distribution, store, index and retrieve, over a network that answers honestly: the file comes back under exactly that condition, unless an answer collides with its chunk. |
| `Broadband.RepeatedChunkIsLost` | storage/validator/database.py:628-629 | Two equal non-empty chunks in one file: what is stored, asked for and reassembled is not the payload, unless a reply collides with its chunk. |
| `Bonding.WilsonIsClosedForm` | storage/validator/bonding.py:28-53 | The clamps never bite and the square root cancels: the score is (s + z²/2)/(n + z²), one half at no attempts. |
| `Bonding.ClosedFormExactly` | storage/validator/bonding.py:32-48 | That form with the constant written out, z = 0.6744897501960817. |
| `Bonding.ScoreStrictlyInside` | storage/validator/bonding.py:48-53 | The score lies strictly between 0 and 1. |
| `Bonding.ScoreStrictlyIncreasing` | storage/validator/bonding.py:34-48 | At fixed attempts more successes give a strictly higher score. |
| `Bonding.TierMonotone` | storage/validator/bonding.py:235-279 | A score and a total that are no lower give a tier that is no lower. |
| `Bonding.TierExactly` | storage/validator/bonding.py:235-279 | For each of the seven tiers above Bronze: the tier is at least that one if and only if score and total both reach its two thresholds. |
| `Bonding.MoreSuccessesNeverLowerTier` | storage/validator/bonding.py:221-279 | At fixed attempts and total, more successes never lower the tier. |
| `Bonding.StatsDatabase.UpdateStatistics` | storage/validator/bonding.py:146-202 | The attempts of this kind of task and, on success, its successes and the total go up by one; an unknown miner is registered first, an unknown kind counts only in the total. |
| `Bonding.StatsDatabase.ComputeTier` | storage/validator/bonding.py:205-314 | Tier and limit follow from the score of the window and the lifetime total; an unknown miner is left alone. |
| `Bonding.StatsDatabase.Rollover` | storage/validator/bonding.py:80-89 | Every miner's window counters become zero; tier, limit and total stay. |
| `Bonding.StatsDatabase.ComputeAllTiers` | storage/validator/bonding.py:317-332 | Every tier is computed from the window just ended, then every window is reset. |
| `Bonding.StatisticsSound` | storage/validator/bonding.py:146-202 | After every run: no task has more successes than attempts, the total counts the successful updates since registration and is at least the window's sum, and the limit is that of the stored tier. |
| `Bonding.CountersExactly` | storage/validator/bonding.py:146-202 | After every run, for each kind of task: attempts are the updates of that kind for this miner since its window last started, and successes are the successful ones among them. |
| `Bonding.StoredTierExactly` | storage/validator/bonding.py:221-282 | After every run a miner is known if and only if some operation registered or updated it, and its stored tier is that computed from its counters when tiers were last computed, Bronze before. |
| `Bonding.TierFromCounters` | storage/validator/bonding.py:221-279 | After every run the tier computed is that of the closed form of the updates of this miner since its window started and the successful ones among them, and of its successes since registration. |
| `Bonding.IdleWindowMeansBronze` | storage/validator/bonding.py:317-332 | A miner that was asked nothing since its window started is Bronze once tiers are computed, whatever it had and whatever others were asked meanwhile. |
| `Reward.SortIsPermutation` | storage/validator/reward.py:110-122 | The sorted pairs are in order of time and are the same pairs. |
| `Reward.SortIsStable` | storage/validator/reward.py:120-120 | Entries of one time keep their order. |
| `Reward.MaxTimeExactly` | storage/validator/reward.py:150-158 | The largest time is one of the known times and none exceeds it; one second when none is known. |
| `Reward.NormalizeExactly` | storage/validator/reward.py:125-139 | Each time enters the sigmoid as its distance to the mean, with twice the largest time as the shift. |
| `Reward.TotalConserved` | storage/validator/reward.py:185-198 | Scaling succeeds if and only if the time-scaled sum is not zero, and then the rewards add up to what they did. |
| `Reward.ScaledExactly` | storage/validator/reward.py:185-198 | In a batch with positive sizes, a positive largest time and no negative reward, scaling succeeds if and only if some reward is not zero, and then both totals are positive. |
| `Reward.SizesMeetTimesExactly` | storage/validator/reward.py:158-183 | In every batch of distinct uids the k-th time is divided by the logarithm of the k-th size of the batch; that is its own size's quotient if and only if the time is zero or the two logarithms are equal. |
| `Reward.OrderExactly` | storage/validator/reward.py:177-198 | In every such batch, negative rewards included: which of two equal positive rewards becomes larger, from their unit times and the signs of the two totals, as an equivalence. |
| `Reward.FasterPerUnitGetsMore` | storage/validator/reward.py:172-198 | Where two times meet their own sizes and no reward is negative: of two equal positive rewards one becomes larger if and only if its time per unit of data is smaller. |
| `Reward.FasterGetsMore` | storage/validator/reward.py:150-198 | For equal sizes and any rewards, the faster of two miners with equal positive rewards gets strictly more if and only if both totals have one sign, which without negative rewards they have. |
| `Reward.AnswersGetMore` | storage/validator/reward.py:150-198 | For equal sizes and equal positive rewards in a batch without negative ones: of two that answered the one with the smaller time gets more, exactly so; and one that never answered gets no more than one that did, and strictly less if and only if somebody was slower. |
| `Reward.EqualTimesGetEqual` | storage/validator/reward.py:150-198 | For equal sizes, equal times and equal positive rewards end up equal. |
| `Reward.SizesMeetWrongTimes` | storage/validator/reward.py:161-183 | A batch in which a miner that is faster per unit of data gets strictly less. |
| `Scores.MovingAverage.ApplyRewardScores` | storage/validator/reward.py:225-255 | The new scores are the average of the old ones with the scaled rewards scattered in; sizes that do not fit and uids out of range raise and change nothing. |
| `Scores.UnqueriedUnchanged` | storage/validator/reward.py:239-255 | A uid that was not asked, or whose batch was refused, keeps its score. |
| `Scores.QueriedBlends` | storage/validator/reward.py:239-255 | In a batch of distinct uids each one asked moves by a twentieth towards its own scaled reward, or is lost when scaling fails. |
| `Scores.ApproachesReward` | storage/validator/reward.py:252-255 | Over every run of batches that give a uid one scaled reward m times, with any others between, the distance of its score to that reward is 0.95 to the m of what it was. |
| `Scores.ZeroBatchLosesScores` | storage/validator/reward.py:194-198 | A batch of zero rewards leaves every score asked for not a number, and without weight. |
| `Scores.ScoreLostExactly` | storage/validator/reward.py:194-255 | In a batch with positive sizes, a positive largest time and no negative reward, a score asked for is not a number afterwards if and only if it was none before or every reward is zero. |
| `Scores.LostScoreStaysLost` | storage/validator/reward.py:252-255 | A score that is not a number is none after every run of batches. |
| `Weights.RawWeights` | storage/validator/weights.py:69-109 | Overwriting index set after index set and normalising gives the weights in closed form; an empty vector raises. |
| `Weights.WeightRatio` | storage/validator/weights.py:86-100 | The weights of two scores that are not negative are in the ratio of the scores, each raised by the absolute value of the minimum when that is negative. |
| `Weights.WeightsAreShares` | storage/validator/weights.py:97-109 | The weights are not negative, and sum to one, or to the sum over the normaliser's floor when that is smaller, or are all zero. |
| `Weights.BadScoresWeighNothing` | storage/validator/weights.py:71-94 | Every negative score and every score that is not a number weighs nothing. |
| `Weights.OrderPreserved` | storage/validator/weights.py:84-100 | Scores that are not negative keep their order, exactly so as soon as anything has weight. |
| `Weights.WhoHasWeight` | storage/validator/weights.py:86-100 | A score has weight if and only if it is positive, or zero while some score is negative. |
| `ChallengeDraw.DrawsRealExactly` | storage/validator/challenge.py:100-117 | For chunks longer than the 33-byte overhead and a size recorded with or without it, every index that can be drawn is real if and only if the recorded size exceeds the chunk size (sizes 0 and 1 aside). |
| `ChallengeDraw.AllSizesDrawRealExactly` | storage/validator/challenge.py:86-117 | Over all chunk sizes that can be drawn, every draw is real if and only if the recorded size exceeds the minimum chunk size. |
| `ChallengeDraw.ShorterDrawsRealExactly` | storage/validator/challenge.py:100-117 | For a chunk no longer than its recorded size: every draw with chunk size c is real if and only if c is below the recorded size and fewer bytes are missing than c and the recorded size's rest by c (one byte and one index aside). |
| `ChallengeDraw.PartDrawsRealExactly` | storage/validator/store.py:411-415 | Part i of every distributed file is recorded with the full part size; which chunk sizes draw only real indices for it, as that equivalence on the part size, the bytes the part holds and c. |
| `ChallengeDraw.ShortLastPartDrawsUnreal` | storage/validator/store.py:482-495 | A payload of 64 MiB and 67 bytes over at least two groups has a last part of 67 bytes recorded with 64 MiB, for which no chunk size that can be drawn is safe. |

## Left out

- Hash and curve internals, encryption and content identifiers: foreign libraries; the hash and the curve are parameters with the laws stated in `Hashing` and `Ecc`.
- Base64, JSON text, Redis, asyncio and the file system: base64 and JSON are exact inverses, Redis hashes and sorted sets are maps and sequences, files a map from paths to bytes; each handler runs to its end before the next.
- Floating point: sizes, times, scores and rewards are exact integers and reals; the halving `int(index / 2.0)` is exact integer halving; `1 / 0` and `0 / 0` are both taken as not a number.
- Ecc.PointRoundTrip: decimal coordinates are plain digits, though Python's `int` also accepts signs, underscores, white space and other scripts' digits.
- MerkleTree.MerkleTree.GetLeaf: indices are natural numbers, so Python's negative indexing from the end is not modelled; likewise for `MerkleTree.MerkleTree.UpdateLeaf` and the challenge index.
- Challenge.AcceptedAnswerRevealsChunk: concerns answers that bring the root of the committed chunks, since the source keeps no root to compare with; `AcceptedUnderOwnRoot` states what acceptance means without that.
- MerkleTree.MerkleTree.Deserialize: a hand-written JSON object with missing keys or other types is outside its input type.
- Records of the old formats at the miner and their conversion, and the legacy counter names in `update_statistics`: compatibility paths that overwrite or drop records.
- Miner.Miner.Challenge: the time stamps, time-to-live expiry and status codes of the source are not part of the state; an absent answer stands for every 404.
- SeedChain.CompletedExchangeAgrees: the recorded seed is that of the request; where `store_broadband` records the seed echoed in the response, an echo that differs is not modelled.
- Broadband.StoreBroadband: the retry and reroll rounds, the capacity filter and the pings are inputs, as the hotkeys that took part in each chunk; hotkeys are sets, so their joined text order is not modelled.
- FileIndex.Database.GetOrderedMetadata: members with one score are ordered by their characters, where Redis compares bytes.
- Reward.OrderExactly: `log1p` and the sigmoid are parameters, positive on positive sizes and, for a positive largest time, positive and strictly falling.
- Scores.MovingAverage.ApplyRewardScores: repeated uids are scattered in turn, an order that the tensor library does not promise.
- The base rewards and tier factors of `create_reward_vector`: inputs of the scaling.
- Weights.RawWeights: the chain's own processing and emission of the weights come after.
- Challenge selection among stored hashes, purging of hashes, and the request log: only easy members, or no sound base for a property.
- Random and pseudorandom choice of uids, network, metagraph and chain calls: uids are any list, an exchange may lose its request or its answer.
- The API, command line, indexer, plots, web frontend, configuration and scripts: plumbing and user interface.
