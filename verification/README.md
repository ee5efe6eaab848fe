# Tesseras: a verified model

A model, in Dafny 4.11, of the parts of the Tesseras node where the reasoning is hard, with proofs about all inputs, all
runs and all behaviours of peers. Check it with `dafny verify --resource-limit 2000000 dfyconfig.toml`.

## What is modelled

Each area has a layer of functions on values, which say what an operation does and carry the theorems, and, where the
source works in place, classes or methods with loops that are proved to do the same.

| area | modules |
|---|---|
| XOR distance, prefix length, byte order | `NodeIds` |
| buckets, routing table, nearest-node search | `Sequences`, `Addresses`, `Buckets`, `KBuckets`, `Nearest`, `Partitions`, `Routing`, `RoutingTables` |
| whole runs of the table: pings, evictions, failures, reload | `RoutingRuns`, `FailureStreaks`, `PersistedPeers` |
| iterative lookups against arbitrary peers | `Lookups`, `LookupComparison`, `Providers`, `IterativeLookups` |
| erasure coding, and storing and retrieving a tessera | `Erasure`, `XorCode`, `ErasureCoding`, `Tesseras`, `TesseraNodes` |
| chunk store quota under concurrency | `ChunkStores` |
| per-peer chunk counter | `PeerQuotas` |
| token-bucket rate limiter | `RateLimiting` |
| STUN address attributes | `Stun` |

How the pieces are put together:

- **Nearest-node search.** `closest_nodes` is compared with a stable sort of every resident. The sort is determined by
  the entries of each id alone (`Nearest.SortDependsOnOnly`), and the buckets fall into four parts that follow one another
  in distance (`Partitions.SortedParts`), so nothing here needs residents to be distinct.
- **Routing table.** A `KBucket` object keeps residents and a replacement cache; a `RoutingTable` object has 256 of them.
  `RoutingRuns` runs the protocol: contacts, lookups that only insert, a full bucket whose first resident is pinged while
  the lock is released (so the ping's outcome arrives any number of steps later), failures by id or address, removals.
- **Lookups.** A peer is an arbitrary function from ids to an answer or none. `Offer` is the merge of one returned node;
  the two algorithms differ only in the acceptance test (`BeatsLast`, `TakeAll`).
- **Tesseras.** The Reed-Solomon code is a parameter with the contract `IsErasureCode` (the data shards lead the code word,
  and any `dataShards` shards restore all of it); `XorCode` shows a concrete code that meets it. The hash is a parameter,
  assumed free of collisions only between a stored chunk and what a fetch of that chunk actually meets. Peers and the local
  directory together are a `World`: for each chunk, a file that may be missing or corrupt and any sequence of answers.
- **Chunk store, peer quota.** State machines over threads with program counters; a run is any sequence of single steps.

## Where the code and its comments part

The model follows the code. For each promise that fails there is an instance, and the exact condition under which it holds.

- `closest_nodes` promises the nodes closest to the target (src/routing/table.rs:102). The walk stops as soon as it has
  `count` nodes, so nearer nodes in higher buckets can be missed: `Routing.ClosestNodesCanMiss` is an instance, and
  `Routing.ClosestNodesExactIff` says exactly when it is right.
- Residents are said to be ordered by last contact (src/routing/bucket.rs:70). A contact never moves an entry, a promoted
  cache entry and a late eviction's newcomer bring an old time with them. `RoutingRuns.SeenOrderThroughoutIff` says, by
  operation, exactly which steps keep the order; `RoutingRuns.ContactCanBreakSeenOrder` and
  `RoutingRuns.PromotionCanBreakSeenOrder` are runs from the empty table that break it. What always holds is admission
  order (`RoutingRuns.LongestResidentIsFirst`).
- `evict_and_insert` pushes the newcomer without looking for it. If it was promoted from the cache while the ping was
  pending it becomes a resident twice (`RoutingRuns.LostPingCanDuplicate`); `RoutingRuns.StepKeepsDistinctIff` says
  exactly which steps do this. Then `closest_nodes` returns it twice (`RoutingRuns.DuplicateIsReturnedTwice`) and it
  outlives its last permitted failure (`RoutingRuns.DuplicateOutlivesFailures`). Other buckets are not affected: what is
  proved of clean runs asks for cleanness of one bucket only.
- `iterative_find_node` compares a newcomer with the candidate pushed last, not the farthest one. Its first result is
  still the nearest id known (`Lookups.FirstResultIsNearest`), but a round can lose one of the k nearest
  (`LookupComparison.RoundCanBeWorse`); `LookupComparison.RoundExactIff` says exactly when it does not.
- Pruning a peer's chunk counter while one of its puts is in progress lets a later rollback erase another reservation
  (`PeerQuotas.PruneInFlightUndercounts`, `PeerQuotas.PruneKeepsBalanceIff`), after which the peer can put more chunks
  than its quota (`PeerQuotas.QuotaCanBeOverrun`).
- The counter of used storage keeps bytes that are gone after overlapping puts of one chunk and after dropping a corrupt
  file (`ChunkStores.CounterExactIff`, `ChunkStores.OverlappingPutsCountTwice`). It errs on the safe side.
- A store can fail after every chunk of the data has been put, for a manifest over the size limit of a chunk: exactly then,
  if the chunk store has room (`Tesseras.OnlyManifestCanBeTooLarge`).
- Section 15.1 of RFC 5389 allows IPv6 in MAPPED-ADDRESS; the parser refuses it (`Stun.MappedRoundTripIff`).

## Model

| member | source | states |
|---|---|---|
| NodeIds.ComputeDistance | src/identity/node_id.rs:20-26 | the loop computes the bytewise XOR of the two ids |
| NodeIds.ComputeLeadingZeros | src/identity/node_id.rs:62-69 | the byte scan with early return finds the position of the first set bit, or 256 |
| NodeIds.IsZeroIffNoBit | src/identity/node_id.rs:72-74 | a distance is zero exactly when it has no set bit, and exactly when it has 256 leading zeros |
| NodeIds.CplIsFirstDifference | src/identity/node_id.rs:31-34 | two ids agree on every bit before their common prefix length and differ at it; it is 256 exactly for equal ids |
| NodeIds.CplUltrametric | src/identity/node_id.rs:31-34 | of the three prefix lengths between three ids, the two smallest are equal |
| NodeIds.LessIsNumeric | src/identity/node_id.rs:77-81 | lexicographic byte order of distances is the order of the numbers they spell |
| NodeIds.RankInjective | src/identity/node_id.rs:20-26 | from a fixed target, different ids have different distances |
| NodeIds.CloserAtSplit | src/identity/node_id.rs:77-81 | of two ids, the closer to a target is the one that agrees with it at the first bit where the two differ |
| NodeIds.BucketsAlignWithDistance | src/routing/table.rs:107-146 | of two buckets, every id of the lower one is closer to the target than every id of the higher one exactly when target and local id differ at the lower one's bit; otherwise the reverse |
| Buckets.MergeKeepsLanAddresses | src/routing/bucket.rs:145-152 | merging invents no address, keeps at most eight without adding repeats, puts LAN addresses first, and drops an address only when eight are kept, a LAN address only when all eight are LAN |
| Addresses.LanRanges | src/routing/bucket.rs:14-21 | an IPv4 address counts as LAN exactly in the private, loopback and link-local ranges |
| Buckets.MergeKeepsOrder | src/routing/bucket.rs:145-152 | among LAN addresses and among others, whatever came before a kept address is kept, and kept before it |
| Buckets.InsertUpdates | src/routing/bucket.rs:139-155 | a contact with a resident keeps its key, refreshes time and counter, merges the addresses under those laws, and touches no other entry and not the cache |
| Buckets.InsertAdmits | src/routing/bucket.rs:157-168 | a new node goes last while there is room; into a full bucket only the cache takes it, and the first resident is named for a ping |
| Buckets.CacheTakesNewest | src/routing/bucket.rs:221-230 | the cache takes a node as its newest entry, drops an older one of it, and gives up its oldest entries only, only when it has too many |
| Buckets.EvictReplaces | src/routing/bucket.rs:172-190 | an eviction takes out the first entry of the failed node, puts the newcomer last and removes no other node from the cache |
| Buckets.RemovePromotes | src/routing/bucket.rs:193-205 | a removal takes out the first entry of the id and moves the newest cached node to the end |
| Buckets.OneEntryChanges | src/routing/bucket.rs:57-66 | a contact, and a failure below the limit, change the counter and time of one entry only |
| Buckets.StrangersChangeNothing | src/routing/bucket.rs:172-218 | evicting, removing, failing or seeing an id that is not resident changes nothing |
| Buckets.InsertKeepsWellFormed | src/routing/bucket.rs:139-168 | insertion keeps capacity, a cache only beside a full bucket, residents and cache disjoint, no id twice in either |
| Buckets.EvictKeepsDistinctIff | src/routing/bucket.rs:172-190 | eviction keeps the capacity discipline, and keeps residents distinct exactly when the newcomer is not another resident |
| Buckets.RemoveKeepsWellFormed | src/routing/bucket.rs:193-205 | removal with promotion from the cache keeps the discipline |
| Buckets.RecordFailureKeepsWellFormed | src/routing/bucket.rs:208-218 | so does counting a failure, with or without the removal it triggers |
| Buckets.SeenKeepsOrderIff | src/routing/bucket.rs:57-61 | refreshing an entry in place keeps least-recently-seen order exactly when it is last or its successor was seen at that very instant |
| Buckets.InsertKeepsSeenOrderIff | src/routing/bucket.rs:139-168 | an insertion keeps that order exactly when the refreshed resident, or the appended node, comes in order; a full bucket is unchanged |
| Buckets.EvictKeepsSeenOrderIff | src/routing/bucket.rs:172-190 | an eviction keeps it exactly when nothing is evicted, or the last survivor was seen no later than the newcomer |
| Buckets.RemoveKeepsSeenOrderIff | src/routing/bucket.rs:193-205 | a removal keeps it exactly when nothing is promoted, or the last survivor was seen no later than the promoted entry |
| Buckets.FailureKeepsSeenOrderIff | src/routing/bucket.rs:208-218 | a failure keeps it exactly when it is not the last permitted one, or the removal it causes keeps it |
| Buckets.AdmissionsKeepOrder | src/routing/bucket.rs:139-190 | insertions, and evictions in favour of a non-resident, keep survivors in order and put newcomers last |
| Buckets.RemovalKeepsOrder | src/routing/bucket.rs:193-205 | so does removal: the promoted cache entry goes last |
| Buckets.ContactsKeepOrder | src/routing/bucket.rs:57-66 | contacts and failures never move a surviving resident |
| Buckets.ElderStaysAhead | src/routing/bucket.rs:139-218 | over any number of such steps a node resident before another was admitted stands before it |
| KBuckets.KBucket.Insert | src/routing/bucket.rs:139-168 | the in-place operation produces exactly the specified bucket and result, and keeps the object valid |
| KBuckets.KBucket.MergeAddressesInto | src/routing/bucket.rs:145-152 | the push, sort and truncate loop computes the specified merge and touches nothing else |
| KBuckets.KBucket.AddToReplacementCache | src/routing/bucket.rs:221-230 | the trimming loop leaves the newest `k` entries with the new one last and no older copy of it |
| KBuckets.KBucket.EvictAndInsert | src/routing/bucket.rs:172-190 | the in-place operation produces exactly the specified bucket and reports whether it evicted |
| KBuckets.KBucket.Remove | src/routing/bucket.rs:193-205 | the in-place operation produces exactly the specified bucket and reports whether it removed |
| KBuckets.KBucket.RecordFailure | src/routing/bucket.rs:208-218 | the in-place operation counts the failure and evicts at the limit, as specified |
| Nearest.SortSorts | src/routing/table.rs:135-139 | sorting by distance to a target rearranges: same members, distinct if they were, in strictly increasing distance |
| Nearest.NearestIffFullSort | src/routing/table.rs:135-145 | an answer equals sort-everything-and-truncate exactly when it consists of the `count` nearest in increasing distance |
| Nearest.SortDependsOnOnly | src/routing/table.rs:135-139 | the stable sort gives the same result for any two lists that hold the same entries of each id in the same order |
| Partitions.SortedParts | src/routing/table.rs:107-146 | sorting the scanned buckets sorts two parts one after the other, and sorting all of them sorts four: the unscanned ones above come between the scanned parts, those below come last |
| Routing.ClosestNodesSound | src/routing/table.rs:107-146 | min(count, len) residents in order of distance, none more often than the table has it, strictly increasing if residents are distinct; any omitted resident closer than a returned one lies in a bucket above the target's that the walk did not reach |
| Routing.ScanWentRounds | src/routing/table.rs:107-134 | the walk makes exactly as many rounds, each with one bucket on either side of the target's, as it takes to see `count` residents or every bucket |
| Routing.ClosestNodesExactIff | src/routing/table.rs:102-146 | the answer is exactly the `count` nearest if and only if no resident is left above the walk or `count` scanned ones lie in buckets at whose bit target and local id differ |
| Routing.ExactAtLocalId | src/routing/table.rs:107-146 | exact when the target is the local id |
| Routing.ExactWhenBucketSuffices | src/routing/table.rs:107-146 | exact when the target's own bucket holds `count` residents |
| Routing.ExactWhenFewNodes | src/routing/table.rs:107-146 | exact when the table has at most `count` residents |
| Routing.ResidentFindsItself | src/routing/table.rs:107-146 | asking for as many nodes as a resident's id has entries, or fewer, returns entries of that id in bucket order |
| Routing.PingTargetIsFound | src/node.rs:3140-3146 | the search for one node nearest a resident's id, by which the ping handler finds whom to ping, returns that resident's first entry |
| Routing.ClosestNodesCanMiss | src/routing/table.rs:102-146 | three concrete ids for which the walk returns a farther node and omits a nearer one |
| RoutingTables.RoutingTable.Insert | src/routing/table.rs:40-46 | the in-place operation on one of 256 bucket objects is the specified table update; the local id is refused |
| RoutingTables.RoutingTable.EvictAndInsert | src/routing/table.rs:49-56 | likewise for eviction, in the bucket of the failed node |
| RoutingTables.RoutingTable.Remove | src/routing/table.rs:59-62 | likewise for removal |
| RoutingTables.RoutingTable.RecordFailure | src/routing/table.rs:65-68 | likewise for a failure by id |
| RoutingTables.RoutingTable.RecordFailureByAddr | src/routing/table.rs:72-88 | the scan charges the first resident, in bucket order, that lists the address, and nobody else |
| Routing.FailAddressIsFailNode | src/routing/table.rs:72-88 | a failure at an address is a failure by id of the first resident, by bucket and then by position, that lists it |
| Routing.UnknownAddressIsIgnored | src/routing/table.rs:72-88 | an address that no resident lists changes nothing |
| RoutingTables.RoutingTable.MarkSeen | src/routing/table.rs:91-100 | a contact updates that resident only |
| RoutingTables.RoutingTable.ClosestNodes | src/routing/table.rs:107-146 | the loop over `lo` and `hi` computes the walk the theorems of `Routing` are about |
| RoutingTables.RoutingTable.AllNodesSnapshot | src/routing/table.rs:159-171 | the snapshot lists every bucket's residents in bucket order |
| RoutingTables.RoutingTable.RandomIdForBucket | src/routing/table.rs:193-213 | for every local id and draw and index below 256 the bucket of the id produced by the bit-by-bit mask loop is that index; bits after it are the draw's |
| RoutingTables.RoutingTable.BucketIndexOf | src/routing/table.rs:216-220 | the byte scan yields the common prefix length, capped at 255 |
| RoutingRuns.RunsKeepOk | src/node.rs:3112-3178 | in every run: at most k residents and k cached per bucket, a cache only beside a full bucket, disjoint, every entry in the bucket of its prefix length, the local id nowhere, pending pings well formed |
| RoutingRuns.StepKeepsDistinctIff | src/node.rs:3147-3178 | a step keeps the residents of a bucket distinct exactly unless it is a lost ping of that bucket whose pinged node and newcomer are both residents |
| RoutingRuns.CleanRunsKeepDistinct | src/routing/bucket.rs:172-190 | the residents of a bucket are distinct after every run without such a step in that bucket |
| RoutingRuns.LostPingCanDuplicate | src/node.rs:3130-3178 | for any three ids of one bucket, a five-step run that leaves one of them resident twice |
| RoutingRuns.DuplicateIsReturnedTwice | src/routing/table.rs:107-146 | after that run the table returns the id twice when asked for the two nodes nearest to it |
| RoutingRuns.DuplicateOutlivesFailures | src/routing/bucket.rs:208-218 | in a bucket that holds one node twice and nothing else, the node is still resident after `maxFailures` failures in a row: all count against its first entry |
| RoutingRuns.StepKeepsSeenOrderIff | src/routing/bucket.rs:69-71 | a step of a run keeps a bucket least recently seen first exactly by the condition of its operation |
| RoutingRuns.SeenOrderThroughoutIff | src/routing/bucket.rs:69-71 | in every run whose clock never goes back, a bucket is least recently seen first throughout if and only if every step meets that condition |
| RoutingRuns.ContactCanBreakSeenOrder | src/routing/bucket.rs:139-155 | three steps from the empty table: a second contact with the first of two residents breaks the order |
| RoutingRuns.PromotionCanBreakSeenOrder | src/routing/bucket.rs:193-205 | five steps from the empty table: with every contact in order, a promotion breaks it |
| RoutingRuns.LongestResidentIsFirst | src/routing/bucket.rs:69-71 | in a run clean for the bucket, a node resident without a break since before another was admitted stands before it, whoever was seen last |
| FailureStreaks.FailCountIsStreak | src/routing/bucket.rs:57-66 | in every run clean for its bucket a resident's counter is the number of its failures since it was admitted or last seen, and stays below the limit, so it never saturates |
| FailureStreaks.EvictedOnLastFailure | src/routing/bucket.rs:208-218 | a resident is evicted exactly on its `maxFailures`-th failure in a row, and the newest cached node takes the slot |
| PersistedPeers.LoadingFills | src/node.rs:1082-1088 | loading rows of which no bucket gets more than k yields each bucket's rows in order, and no cache |
| PersistedPeers.ReloadRestoresResidents | src/routing/table.rs:159-171 | loading one row for each resident id, rows in any order, restores every resident to its bucket and admits nobody else; an id that was resident twice comes back once |
| Lookups.TableGivesGoodSeeds | src/node.rs:2211-2222 | what `closest_nodes` delivers is strictly sorted, at most k long and free of the searching node exactly when it repeats no id, which it never does while residents are distinct |
| Lookups.RoundAsksNearest | src/lookup/mod.rs:43-62 | a round asks the alpha nearest candidates that are unasked and have an address |
| Lookups.SettleNeverWorse | src/lookup/mod.rs:83-108 | from round to round the i-th nearest candidate never gets farther and none is lost without replacement |
| Lookups.SearchIsDisciplined | src/lookup/mod.rs:43-110 | for every behaviour of peers and every number of rounds: nobody is asked twice, the node itself is neither asked nor returned, at most rounds times alpha queries, result sorted and at most k |
| Lookups.OutcomeIsDisciplined | src/lookup/mod.rs:29-110 | the same of the whole lookup, with at most 10 alpha queries |
| Lookups.AnswersInOrder | src/lookup/mod.rs:73-103 | a round works through the whole answer of every asked peer, group after group in query order |
| Lookups.CandidatesAreReturned | src/lookup/mod.rs:83-108 | every candidate is a seed or a node other than the searching one that an asked peer returned, with the contact data it came with |
| Lookups.RoundGoesOnIff | src/lookup/mod.rs:72-108 | another round follows exactly when the acceptance test let in a node that the asked peers returned |
| Lookups.SearchEnds | src/lookup/mod.rs:43-110 | the lookup is a chain of rounds that ends after ten, or after the first that lets nobody in or has nobody to ask, and not before |
| Lookups.FirstResultIsNearest | src/lookup/mod.rs:83-108 | whatever peers answer, every result is a seed or was returned by an asked peer, and the first result is the nearest of all seeds and all nodes (but the searching one) in the answers of the asked peers |
| Lookups.SettleKeepsExact | src/node.rs:2251-2285 | the k nearest of (the k nearest of A) and B are the k nearest of A and B, through the merge loop |
| Lookups.ProviderSearchIsExact | src/node.rs:2211-2290 | after any number of rounds the candidates of the provider lookup are exactly the k nearest of the seeds and all nodes (but the searching one) in the answers of the asked peers |
| LookupComparison.RoundNeverBeatsExact | src/lookup/mod.rs:83-108 | from the same state and answers a `iterative_find_node` round is never closer at any position than the exact merge, and never longer |
| LookupComparison.RoundAgreesOnNearest | src/lookup/mod.rs:83-108 | both merges put the same node first |
| LookupComparison.RoundAgreesOnFewIds | src/lookup/mod.rs:83-108 | both agree completely when at most k distinct ids are involved |
| LookupComparison.LooseTakesMinima | src/lookup/mod.rs:83-103 | for any candidates and answers a round takes every newcomer until the list has k, and after that exactly those nearer than everything from the k-th entry on |
| LookupComparison.RoundExactIff | src/lookup/mod.rs:83-108 | for any candidates and any answers of any number of peers, the round equals the exact merge if and only if every newcomer it refused is farther than the k-th nearest of the candidates and the accepted newcomers |
| LookupComparison.RoundCanBeWorse | src/lookup/mod.rs:88-100 | three concrete ids for which the round loses the second nearest and the exact merge does not |
| Providers.FirstPerNodeIsFirst | src/node.rs:2292-2294 | a record is in the final list exactly when it is the first of its node |
| Providers.FirstPerNodeIsUnique | src/node.rs:2292-2294 | no node has two records |
| Providers.FirstPerNodeKeepsNodes | src/node.rs:2292-2294 | no node loses all its records |
| Providers.LocalRecordsStay | src/node.rs:2193-2209 | local records lead the list and are never displaced by replies |
| Providers.GatheredIsComplete | src/node.rs:2187-2294 | every node with a local record or a record in the reply of an asked peer has one in the result, every record of the result is one of these, and local ones lead |
| Providers.RepliesInOrder | src/node.rs:2240-2294 | one more asked peer adds the records of its reply behind all earlier ones, each node's first record only |
| Providers.ProviderCandidatesAreExact | src/node.rs:2211-2290 | the candidates are exactly the k nearest of the seeds and the closer nodes in the replies of the asked peers |
| IterativeLookups.IterativeFindNode | src/lookup/mod.rs:29-110 | the round loop with its early exits computes the search of `Lookups` |
| IterativeLookups.GetProviders | src/node.rs:2187-2294 | the provider loop computes the exact search and the first record per node of local and returned records |
| IterativeLookups.OfferReturned | src/lookup/mod.rs:83-103 | the inner loop offers the returned nodes one by one, and its flag is set exactly when the list grew |
| Erasure.NewConfig | src/erasure/mod.rs:48-72 | a configuration is accepted exactly with one or more data and parity shards and at most 256 in all |
| Erasure.PaddingIsStripped | src/erasure/mod.rs:218-223 | truncating the concatenated data shards strips exactly the padding, even when whole shards start past the end of the data |
| Erasure.EncodeSucceeds | src/erasure/mod.rs:120-169 | for non-empty data encoding yields one hash per chunk and a code word that starts with the padded data shards |
| Erasure.OneBlockIsEncode | src/erasure/mod.rs:228-262 | data that fits one block, empty data included, is encoded as by one direct call |
| Erasure.DataShardsHold | src/erasure/mod.rs:126-142 | byte j of data shard i is byte i times the shard length plus j of the data, or zero past its end |
| Erasure.DecodeAfterEncode | src/erasure/mod.rs:190-226 | decoding what is left of a block gives the data if `dataShards` shards are left, and otherwise the error with both counts |
| Erasure.LastBlockLength | src/erasure/mod.rs:279-284 | the last-block subtraction never underflows for non-empty data and gives a length from 1 to the block size |
| Erasure.BlockLengthIsPiece | src/erasure/mod.rs:238-284 | every block length the decoder assumes is the length of the piece that was encoded |
| Erasure.BlocksRoundTrip | src/erasure/mod.rs:233-289 | `decode_blocks` after `encode_blocks` is the identity for non-empty data, every block size, valid configuration and loss leaving `dataShards` shards per block |
| Erasure.BlocksTooShort | src/erasure/mod.rs:269-289 | otherwise the first block that lost too much decides the error |
| XorCode.XorIsErasureCode | src/erasure/mod.rs:144-152 | one XOR parity shard over any number of data shards meets the contract assumed of the library |
| XorCode.XorBlocksRoundTrip | src/erasure/mod.rs:233-289 | with that code the block round trip needs no assumption: it holds for every loss that leaves all but one shard of each block |
| ErasureCoding.EncodeData | src/erasure/mod.rs:120-169 | the padding and hashing loops compute the specified block |
| ErasureCoding.DecodeInPlace | src/erasure/mod.rs:190-226 | the in-place reconstruction returns the specified data, fills the caller's shards on success and leaves them on failure |
| ErasureCoding.EncodeAllBlocks | src/erasure/mod.rs:233-262 | the block loop encodes the consecutive pieces, or stops at the first error |
| ErasureCoding.DecodeAllBlocks | src/erasure/mod.rs:269-289 | the block loop decodes and concatenates; it leaves every block's shards restored on success, and on failure those of the blocks before the first that fails |
| Tesseras.FetchIsExact | src/node.rs:2898-2962 | a fetch delivers the stored chunk exactly when it can be reached locally or from a peer, and never other bytes |
| Tesseras.FetchIsValidIff | src/node.rs:2898-2962 | without any assumption on the hash, a fetch delivers only content that hashes right, the local file before any answer and no empty answer, and fails exactly when nothing met is such |
| Tesseras.GroupsAreBlocks | src/node.rs:2965-2994 | regrouping the flat list of fetched shards gives each block's shards with exactly the reachable ones present |
| Tesseras.RetrieveChunksExact | src/node.rs:2876-2994 | for every behaviour of peers and every loss or corruption, retrieval of a stored tessera is the data exactly when every block has `dataShards` reachable chunks, and otherwise reports insufficient chunks |
| Tesseras.SingleBlockRetrieve | src/node.rs:2975-2977 | with block size zero the chunks of one encoding come back as the data exactly when `dataShards` of them can be reached, and otherwise the error has both counts |
| Tesseras.SmallDataIsOneBlock | src/bin/tessera-node.rs:348-356 | data of up to one block is stored as the chunks of its one encoding, so that applies to it |
| Tesseras.StoreSucceedsIff | src/node.rs:2304-2755 | storing non-empty data succeeds exactly when the local chunk store takes every chunk of it and then the manifest |
| Tesseras.ChunksFitStore | src/storage/chunks.rs:132-138 | no chunk of any data is longer than a block, so none is over the chunk store's size limit |
| Tesseras.OnlyManifestCanBeTooLarge | src/storage/chunks.rs:132-138 | with a chunk store that refuses only what is over that limit, every chunk is put, and storing fails exactly for a manifest over it |
| Tesseras.StoreLeaves | src/node.rs:2304-2755 | a successful store returns the flat hash list of all blocks, the lengths, and the hash of the manifest that lists them |
| Tesseras.ManifestResolves | src/node.rs:2771-2855 | a manifest hash resolves to the same hash list, configuration and lengths, or to not-found when its chunk cannot be reached |
| Tesseras.ManifestIsAcceptedIff | src/node.rs:2771-2855 | a manifest is accepted exactly when its chunk is found, decodes, lists 32-byte hashes and has legal shard counts; every field is kept, and not-found is reported for a missing chunk only |
| Tesseras.StoreThenRetrieve | src/node.rs:2687-2855 | store then retrieve is the identity on non-empty data, by hash list or by manifest, exactly when enough can be reached, and an error otherwise |
| Tesseras.TokenRoundTrip | src/node.rs:389-478 | a token without manifest hash parses back to itself; one with it leads to the same retrieval when the manifest can be reached, and to not-found otherwise |
| Tesseras.TokenIsReadIff | src/node.rs:423-478 | a token with a manifest hash is accepted exactly for 32 bytes of it and everything else in it is ignored; without one exactly for 32-byte hashes and legal shard counts, and every field is kept |
| Tesseras.TokenIsPrintedBackIff | src/node.rs:389-478 | printing what was read gives the token back exactly when it names a manifest hash alone or none |
| TesseraNodes.StoreTessera | src/node.rs:2304-2755 | the nested store loops produce the specified hash list, manifest or first error |
| TesseraNodes.FetchChunk | src/node.rs:2898-2962 | local file first, then the first peer answer that is non-empty and hashes right |
| TesseraNodes.RetrieveInner | src/node.rs:2876-2994 | the fetch loop, regrouping and decoding compute the specified result |
| TesseraNodes.RetrieveTessera | src/node.rs:2760-2874 | the manifest branch and the inline branch compute the specified result |
| ChunkStores.StepChangesLeak | src/storage/chunks.rs:126-222 | one step of any thread changes the bytes counted but accounted for by nothing by exactly what it overwrites, drops or removes unread |
| ChunkStores.StepKeepsSound | src/storage/chunks.rs:154-177 | every step keeps files, accepted reservations, unfinished deletions and leaked bytes together within the quota |
| ChunkStores.RunsKeepSound | src/storage/chunks.rs:126-222 | so does every interleaving, and the leak is the sum over its steps |
| ChunkStores.QuotaHolds | src/storage/chunks.rs:154-177 | in every interleaving stored bytes and accepted reservations stay within the quota, no subtraction underflows, and the counter exceeds the quota by no more than the rejected reservations in flight |
| ChunkStores.QuiescentCounter | src/storage/chunks.rs:224-247 | with nothing in flight the counter is at least the recomputed total, and over it by exactly the leaked bytes |
| ChunkStores.CounterExactIff | src/storage/chunks.rs:185-247 | and equal to it if and only if no step overwrote a file, dropped a corrupt one, or removed one whose length it had failed to read |
| ChunkStores.OverlappingPutsCountTwice | src/storage/chunks.rs:126-177 | two interleaved puts of one chunk leave one file and twice its size on the counter |
| ChunkStores.PutIsRefused | src/storage/chunks.rs:131-152 | a put of a stored chunk, or of one over the size limit, changes nothing |
| ChunkStores.PutAlone | src/storage/chunks.rs:126-183 | an undisturbed put of a new chunk stores and counts it exactly if it fits the quota; refused or failed it leaves everything as it was |
| ChunkStores.DeleteAlone | src/storage/chunks.rs:209-222 | an undisturbed deletion removes the file and takes its length off the counter; a failed one changes nothing |
| ChunkStores.GetAlone | src/storage/chunks.rs:185-207 | a read leaves an intact file alone and removes a corrupt one without taking it off the counter |
| ChunkStores.WritesAreNew | src/storage/chunks.rs:149-177 | in every interleaving in which no put of a chunk starts during another put of it, no write meets an existing file |
| ChunkStores.CounterExactWithoutOverlap | src/storage/chunks.rs:126-247 | in such a run, with no corrupt file dropped and every removed length read, the counter at rest equals the recomputed total |
| ChunkStores.StoredStays | src/storage/chunks.rs:126-222 | in every interleaving a chunk that does not decay stays, intact, until a deletion of that chunk removes it |
| PeerQuotas.CountNeverExceedsQuota | src/node.rs:3304-3319 | in every interleaving of requests, outcomes and prunes no counter exceeds the quota |
| PeerQuotas.CountIsSuccessesPlusInFlight | src/node.rs:3304-3337 | a counter is the peer's successful puts plus those in flight, prunes included that forget the peer between its puts |
| PeerQuotas.PruneKeepsBalanceIff | src/node.rs:1708-1715 | a prune that forgets the peer keeps that account balanced exactly when none of its puts is in flight |
| PeerQuotas.PruneInFlightUndercounts | src/node.rs:1708-1715 | a five-step run with a prune during a put that ends with one stored chunk and a counter of zero |
| PeerQuotas.QuotaCanBeOverrun | src/node.rs:3304-3337 | for every quota a run that continues it, without another prune, to one more chunk put than the quota allows |
| RateLimiting.WindowBound | src/transport/rate_limit.rs:29-53 | in any window of length t of any trace, one IP is allowed at most burst + rate t requests, provided that cleanups inside the window leave an entry the time to refill |
| RateLimiting.WindowBoundIff | src/transport/rate_limit.rs:29-61 | with cleanups of one idle time anywhere, that bound holds in every window of every trace if and only if rate times the idle time is at least burst |
| RateLimiting.OthersDoNotMatter | src/transport/rate_limit.rs:29-53 | removing every other IP's requests from a trace leaves an IP's bucket unchanged |
| RateLimiting.AnswersDependOnOwnTraffic | src/transport/rate_limit.rs:29-53 | and so every answer it gets |
| RateLimiting.PatientRequestIsAllowed | src/transport/rate_limit.rs:40-52 | a request at least 1/rate after the IP's previous one is allowed, with burst and rate of at least one |
| RateLimiting.CleanupInvisibleIff | src/transport/rate_limit.rs:56-61 | cleanups at arbitrary points never change an answer of any trace if and only if rate times the idle time is at least burst |
| RateLimiting.RateLimiter.Check | src/transport/rate_limit.rs:29-53 | the in-place refill and spend give the specified answer and buckets |
| RateLimiting.RateLimiter.Cleanup | src/transport/rate_limit.rs:56-61 | exactly the entries idle for less than the limit are kept |
| Stun.ParseMappedAddress | src/transport/nat.rs:89-120 | on arbitrary bytes the loop terminates, stays in range and returns the first address attribute as decoded |
| Stun.DecodeXorMapped | src/transport/nat.rs:122-178 | the branches and the byte loop decode the XORed family, port and address, with the length errors |
| Stun.XorMappedRoundTrip | src/transport/nat.rs:122-178 | decoding the section 15.2 encoding of any IPv4 or IPv6 address gives it back |
| Stun.MappedRoundTripIff | src/transport/nat.rs:180-200 | decoding the section 15.1 encoding gives the address back exactly for IPv4, and an unknown-family error for IPv6 |
| Stun.WalkPast | src/transport/nat.rs:94-118 | any well-formed padded attributes of no interest are stepped over |
| Stun.FirstAddressDecides | src/transport/nat.rs:89-120 | after any attributes of other types the first address attribute decides, whatever follows |
| Stun.ParseUndoesPrint | src/transport/nat.rs:89-200 | after any such attributes the parser returns exactly the printed address: any for XOR-MAPPED-ADDRESS, exactly IPv4 for MAPPED-ADDRESS |
| Stun.ClientReadsServer | src/bin/nat-test-helper.rs:81-119 | the test server answers exactly IPv4 clients; the client reads its own address out of the answer whatever follows it, and refuses the answer to another transaction |
| Stun.ForeignResponseIsRefused | src/transport/nat.rs:63-78 | a response that is too short, or differs from the cookie or the transaction id in any byte, is refused with the error of the first such check |

## Left out

- QUIC, TLS, sockets, mDNS, DNS and hole punching are foreign calls; a peer is an arbitrary function to answers.
- Reed-Solomon arithmetic, SHA-256, Ed25519, MessagePack and base64 are parameters: the code with its contract, the hash free of collisions between a chunk and what its fetch meets, decoding after encoding for the manifest. A token is modelled as the record that is serialized.
- Empty data in the erasure round trip: zero-length shards depend on library behaviour that the repository does not show.
- SQLite: persisted peers are a sequence of rows in any order without repeated ids.
- Timeouts, tracing, metrics, progress messages, the builder and the command line.
- Torn or partial file writes; a file appears whole, and later decay may corrupt it without changing its length.
- Floating-point rounding in the rate limiter: time and tokens are real numbers, rate and burst naturals.
- Wrap-around of `usize` and `u64`: integers are unbounded; the one subtraction that could wrap is modelled with an explicit underflow, and the storage and peer counters are proved to stay within their quotas plus what is in flight.
- Relay and signature guards of the inbound handler, each settled by reading one branch.
- What a retrieval writes back into the local chunk store: the file each fetch finds is a parameter of that fetch, so it covers any such effect.
- Replication of stored chunks to peers: only what `do_store_tessera` keeps and returns is modelled.
- `last_updated` and the refresh of stale buckets: the field is set by the bucket methods, the refresh loop is not modelled.
- A bucket capacity of zero: the code indexes the empty resident list and panics, so insertion asks for k of at least one.
- The lookups' guarantees are stated for seeds that repeat no id; `Lookups.TableGivesGoodSeeds` says exactly when the table delivers such seeds.
- Pending pings are a set of promises that may be kept or lost at any later step; this allows more runs than the handler's tasks produce.
- Concurrent queries within a round are answered in query order, as the code awaits them.
- A vector is a field of type `seq` that methods reassign; `sort`, `retain`, `find` and `position` of the library are functions. Only shard slots, id bytes and address bytes are arrays.
- Which iteration order the map of rate-limit buckets has is not modelled, as no answer depends on it.
