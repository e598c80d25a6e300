# A verified model of the replicated storage, routing, reputation and proof-of-work code

The project models five parts of the repository, as Dafny classes and methods where the program updates
state in place, each proved against a function on plain values, and proves what those functions do over
whole runs.

**Documents that replicas edit apart and merge** (`src/storage/crdt.go`). `DottedVectors`, `CRDTValues`,
`CRDTDocuments` and `CRDTStores` hold the four classes with their allocation and aliasing: a clone, a history
entry and an adopted document share nothing with what they came from. `Convergence` runs any number of
replicas over a network that reorders, repeats and loses snapshots. Each replica carries a ghost record of the
updates and deletions it has learned of, directly or through others. A document shows the newest update
learned, or nothing once a deletion is known, so replicas that learned the same look the same. Only what a client
can see converges: `MutualMerge` proves that the clocks of two values agree after two rounds of merging
each other, says exactly when one round is enough, and gives a pair for which it is not. `DocumentLaws` says what each
operation leaves behind, event by event and field by field. `FreshDots` shows that no
edit overwrites an event of the clock while that holds fewer than 2^32 of them, and that a lone writer does
overwrite one from then on; and `History` that the history is the list of the first ten values
replaced.

**Routing table and value store of a node** (`src/p2p/kademlia.go`). `NodeIDs` relates the loop that picks a bucket
and the loop that computes a distance to numbers: they read the same XOR in opposite byte orders.
`RoutingTables` keeps the table invariant over every run with a non-decreasing clock and finds
exactly when a bucket loses its order by age (the newcomer to a full bucket takes slot 0). `BucketRuns` says what a
bucket holds after a run of arrivals within five minutes. `ClosestContacts` proves the
exchange sort and that the result is the nearest set of the whole table if and only if the caller asks for at least
twenty contacts, or for no particular number.
`WireStores` proves that the text protocol answers a query with the latest well-formed store.

**Content-addressed file system** (`src/storage/replicated_fs.go`). `Chunking`, `FileStates`, `FileRuns`,
`FileHistories`, `Announcements` and `ReplicatedFiles`: the chunked, deduplicated store refines a plain map from paths to contents
with permanent tombstones, for every run of successful writes, failing writes and deletions. A path that was deleted stays
unreadable although a later write to it succeeds; `PublishedAgreesExactlyWhen` says, for
every run, when the documents published about a file tell peers what a local reader sees.

**Reputation** (`src/reputation/score.go`). `Scores` reduces any series of clamped updates to a single clamped sum,
with 64-bit arithmetic and the exact conditions under which it overflows. `ReputationStates`, `ReputationRuns`,
`NodeHistories` and `ReputationSystems` prove conservation of updates through the bounded queue, the
processing loop and the bypass of both, agreement of counters and
statistics with the nodes, the range of every score, that the queue is invisible to rewards alone or penalties alone, and
exactly which steps make a blacklisted node active.

**Proof of work** (`src/p2p/pow.go`, `src/p2p/gas.go`, `src/crypto/puzzle.go`). `ProofOfWork`, `NodeProofs` and
`Puzzles`: three differently written tests compare the digest, read as a number, with a power of two. They agree up
to 32 bits; beyond that `CheckPoW` asks for too little, exactly as stated. Both searches return the least solving nonce.

Parameters of the model: SHA-256 is an arbitrary function from byte strings to 32 bytes, clocks are arguments, the
identifier drawn for a new file and the number of chunks the persistent store accepts are arguments, and the amounts
taken by decay are arguments. Go's maps are visited in an arbitrary order. Each method guarded by a lock is one step.
Where a property needs digests to differ for different data, it says so in a precondition about the data at hand;
nothing is assumed about the hash function as a whole.

Places where the code does something other than its comments or messages suggest, all modelled as the code
has them: the `HELLO` branch of the dispatcher compares four bytes with a five-letter word and is never taken; a deleted
path is not revived by a write; a first write that fails leaves an empty readable file; a penalty of more than
2^63 points can raise a score; decay can set a blacklisted node active again; `CheckPoW` silently caps the difficulty
at 32; `VerifyPoW` runs off the digest when asked for more than 256 bits of an all-zero digest; `SolvePuzzle` cannot
succeed from difficulty 56 on.

## Model

| member | source | states |
|---|---|---|
| DottedVectors.DottedVector.Clone | src/storage/crdt.go:39-48 | a new object with the same map and counter |
| DottedVectors.DottedVector.AddEvent | src/storage/crdt.go:50-55 | sets one event and advances the counter |
| DottedVectors.DottedVector.GetEvent | src/storage/crdt.go:57-62 | the stamp of an event, and whether there is one |
| DottedVectors.DottedVector.Merge | src/storage/crdt.go:64-80 | the pointwise maximum in any visiting order; returns true exactly when the map changed |
| DottedVectors.JoinIsLeastUpperBound | src/storage/crdt.go:64-80 | the merge of two clocks is their least upper bound |
| DottedVectors.JoinCommutes | src/storage/crdt.go:64-80 | merging is commutative |
| DottedVectors.JoinAssociates | src/storage/crdt.go:64-80 | merging is associative |
| DottedVectors.JoinIdempotent | src/storage/crdt.go:64-80 | merging is idempotent |
| CRDTValues.CRDTValue.constructor | src/storage/crdt.go:106-119 | a value at version 1 whose clock holds one event |
| CRDTValues.CRDTValue.Clone | src/storage/crdt.go:121-144 | an equal value that shares no object with the original |
| CRDTValues.CRDTValue.Update | src/storage/crdt.go:146-159 | replaces data, adds one event to the clock, raises the version |
| CRDTValues.CRDTValue.Merge | src/storage/crdt.go:161-203 | the four branches by version, timestamp, digest and clock, with the result reported; data and clock are kept or newly allocated |
| CRDTDocuments.CRDTDocument.constructor | src/storage/crdt.go:215-224 | a live document with an empty history |
| CRDTDocuments.CRDTDocument.Clone | src/storage/crdt.go:226-246 | an equal document made of new objects only |
| CRDTDocuments.CRDTDocument.Update | src/storage/crdt.go:248-259 | remembers a clone of the old value while there is room, leaves every older entry untouched, ignores deleted documents |
| CRDTDocuments.CRDTDocument.Merge | src/storage/crdt.go:261-269 | deletion wins over values, on either side; the other document is not touched |
| CRDTDocuments.CRDTDocument.GetData | src/storage/crdt.go:271-280 | a new copy of the data, or nothing for a deleted document |
| CRDTDocuments.CRDTDocument.Delete | src/storage/crdt.go:294-302 | marks the document, leaving its history alone |
| CRDTStores.CRDTStore.Put | src/storage/crdt.go:315-319 | files a document under its identifier, replacing what was there |
| CRDTStores.CRDTStore.Get | src/storage/crdt.go:321-326 | the document filed under the identifier, if any |
| CRDTStores.CRDTStore.Delete | src/storage/crdt.go:328-337 | deletes the named document and no other |
| CRDTStores.CRDTStore.Edit | src/storage/crdt.go:248-259 | updating a stored document changes that document and no other |
| CRDTStores.CRDTStore.MergeDocument | src/storage/crdt.go:339-348 | merges into the local document or adopts a clone; the store gains only new objects |
| CRDTStores.CRDTStore.GetAllIDs | src/storage/crdt.go:350-361 | the live identifiers, ascending, without duplicates |
| DocumentLaws.EditIsVisible | src/storage/crdt.go:248-259 | an edit shows its data at once, under its author and time and one version on; a deleted document does not change |
| DocumentLaws.EditStampsOneEvent | src/storage/crdt.go:156-158 | an edit stamps exactly one event, of its author, with the new version |
| DocumentLaws.NewDocumentShows | src/storage/crdt.go:106-119 | a new document shows its data at version 1, with one event |
| DocumentLaws.MergedStamps | src/storage/crdt.go:169-202 | what a merge makes of the stamp of each event |
| DocumentLaws.MergeForgetsExactlyWhen | src/storage/crdt.go:169-202 | when a merge forgets events of either side |
| DocumentLaws.MergeAttributes | src/storage/crdt.go:169-202 | the author survives with the data, the kind of operation with the version, the signature never moves, annotations come with a higher version; and when the result is true |
| DocumentLaws.DeletionRecords | src/storage/crdt.go:294-302 | a deletion hides the data, records who asked and when, and keeps the rest |
| DocumentLaws.DocumentMergeReports | src/storage/crdt.go:261-269 | true exactly for a deletion or a changed value; nothing of a deleted document is taken over |
| DocumentLaws.DeleteReports | src/storage/crdt.go:328-337 | true exactly if the identifier was listed; takes just that one off the list |
| DocumentLaws.MergeReports | src/storage/crdt.go:339-348 | true exactly for an unknown document, a deletion or a changed value; what that does to the list |
| Convergence.MergeKeepsNewest | src/storage/crdt.go:161-203 | the merge of two newest values is the newest of both sets of updates |
| Convergence.StepsAreStoreOperations | src/storage/crdt.go:315-348 | each step of a run acts on the documents as the store's operations do |
| Convergence.RunKeepsInvariant | src/storage/crdt.go:161-348 | in every run every document, stored or in transit, shows exactly what is known about it |
| Convergence.VisibleStateIsNewestLearned | src/storage/crdt.go:146-203 | in every run a document is deleted exactly if a deletion was learned, and otherwise shows the data, author and time of a maximal update, by version, timestamp and digest, among those that the steps of the run said |
| Convergence.StrongEventualConsistency | src/storage/crdt.go:161-280 | replicas that learned the same return the same data and the same list of identifiers |
| Convergence.DeletedForGood | src/storage/crdt.go:261-302 | once a deletion is known no run brings the document back, short of a `Put` |
| Convergence.DeliveriesAccumulate | src/storage/crdt.go:339-348 | a replica learns exactly the union of the snapshots delivered, in any order and number |
| Convergence.FullExchangeConverges | src/storage/crdt.go:339-361 | two replicas that exchange all they hold look the same afterwards |
| Convergence.DeliveriesAreReceived | src/storage/crdt.go:339-348 | in a run, a node that only sends and receives ends as if it had received, one after the other, the snapshots delivered to it, whenever they were sent |
| Convergence.ExchangeInRunConverges | src/storage/crdt.go:339-361 | in any run, steps by which two nodes receive the same snapshots, theirs among them, in any order, number and interleaving and beside the work of other nodes, leave the two with the same view |
| Convergence.PushPullConverges | src/storage/crdt.go:339-361 | in any run, one node receives all that another holds, and then the other all that the first one holds after merging; that leaves the two with the same knowledge and view |
| MutualMerge.TwoRoundsSettle | src/storage/crdt.go:161-203 | two rounds of mutual merging leave version, timestamp and clock in agreement, and the data too exactly if no two different payloads tie; later merges change nothing and return false |
| MutualMerge.OneRoundAgreesExactlyWhen | src/storage/crdt.go:169-202 | one round leaves version, timestamp and clock in agreement if and only if the versions differ, or the two tie, or the value that is overwritten already covers the winner's clock |
| MutualMerge.OneRoundIsNotEnough | src/storage/crdt.go:183-188 | two values for which one round is not enough |
| MutualMerge.MergeReportsChange | src/storage/crdt.go:161-203 | a merge returns true exactly when version, timestamp, data or clock changed |
| FreshDots.UpdateAddsOneEvent | src/storage/crdt.go:146-159 | an update of a bounded value adds exactly one event and overwrites none while the clock holds fewer than 2^32 events |
| FreshDots.MergeKeepsBounded | src/storage/crdt.go:169-202 | a merge keeps sequence numbers within the clock's size and stamps within the version |
| FreshDots.RunKeepsBounded | src/storage/crdt.go:146-203 | so does every run of the network |
| FreshDots.EditsNeverReuseDots | src/storage/crdt.go:146-159 | in every run the next local event is new while the clock holds fewer than 2^32 events |
| FreshDots.LoneWriterReusesExactlyWhen | src/storage/crdt.go:146-159 | that bound is sharp: a node alone with its value overwrites an event if and only if the clock holds 2^32 events |
| FreshDots.VersionIsGreatestStamp | src/storage/crdt.go:146-203 | in every run a live document's version is the greatest stamp of its clock, and its operation is a creation exactly at version 1 |
| History.HistoryIsThePast | src/storage/crdt.go:248-259 | the history is the first ten of the values that updates replaced, whatever merges and deletions came between |
| History.RunsKeepHistory | src/storage/crdt.go:248-302 | entries never change or disappear; their versions rise strictly and stay below the current one |
| History.HistoryFromCreation | src/storage/crdt.go:215-302 | both, for a document from its creation on |
| NodeIDs.GetBucketIndex | src/p2p/kademlia.go:130-145 | the two loops find the bucket defined by the highest differing bit |
| NodeIDs.BucketIsLogDistance | src/p2p/kademlia.go:130-145 | the bucket is k exactly when the XOR, byte 19 most significant, lies in [2^k, 2^(k+1)) |
| NodeIDs.OwnBucket | src/p2p/kademlia.go:144 | the local identifier itself falls into bucket 0 |
| NodeIDs.BucketMatesAreClose | src/p2p/kademlia.go:130-145 | two identifiers in bucket k are closer than 2^k to each other and closer than to the local one |
| NodeIDs.ComputeXorDistance | src/p2p/kademlia.go:180-186 | the shifting loop computes the XOR, byte 0 most significant, modulo 2^64 |
| NodeIDs.DistanceIsLastEightBytes | src/p2p/kademlia.go:180-186 | only the last eight bytes count |
| NodeIDs.DistanceIsPseudometric | src/p2p/kademlia.go:180-186 | symmetric, zero exactly when the last eight bytes agree, and subject to the triangle inequality |
| RoutingTables.Bucket.Add | src/p2p/kademlia.go:64-84 | moves a known contact to the end, appends a new one, or replaces slot 0 if it is older than five minutes |
| RoutingTables.Bucket.GetContacts | src/p2p/kademlia.go:86-95 | the first contacts up to the limit |
| RoutingTables.AddOutcome | src/p2p/kademlia.go:64-84 | which contacts are in a bucket after an arrival, and where the new one stands |
| RoutingTables.RunKeepsTable | src/p2p/kademlia.go:64-84 | every run of arrivals keeps contacts in their bucket, identifiers unique, sizes bounded and `contacts[1..]` ordered |
| RoutingTables.UniqueAcrossTable | src/p2p/kademlia.go:130-151 | an identifier occurs at most once in the whole table |
| RoutingTables.RecentContactsStay | src/p2p/kademlia.go:64-84 | no run drops a contact seen within the last five minutes |
| RoutingTables.OrderLostExactlyWhen | src/p2p/kademlia.go:81-83 | a bucket ordered by age loses its order if and only if it is full, the newcomer is unknown, slot 0 is stale and slot 1 was seen before the newcomer |
| BucketRuns.OrderGetsLost | src/p2p/kademlia.go:81-83 | a run in which that happens |
| BucketRuns.BucketHoldsFirstTwenty | src/p2p/kademlia.go:64-84 | in every run in which no arrival comes more than five minutes after the first, a bucket holds exactly the first twenty distinct identifiers of its index, each once, with the address and time of its last arrival |
| ClosestContacts.ExchangeSort | src/p2p/kademlia.go:164-172 | sorts in place by distance, as a permutation |
| ClosestContacts.Collect | src/p2p/kademlia.go:158-162 | the first contacts of every bucket, in order |
| ClosestContacts.SortAndCut | src/p2p/kademlia.go:164-177 | a sorted sub-multiset of the right size with nothing nearer left out |
| ClosestContacts.ClosestOfTable | src/p2p/kademlia.go:153-178 | identifiers are distinct; with a count of at least 20, or none, the result is the nearest set of the whole table |
| ClosestContacts.SmallCountMissesNearest | src/p2p/kademlia.go:158-162 | for every count below 20, a contact that arrives after `count` others of its bucket is missed even if it is nearer than one of them |
| ClosestContacts.NearestOfTableExactlyWhen | src/p2p/kademlia.go:153-178 | in every run and for every target the result is nearest in the whole table, if and only if the count is at least 20 or not positive |
| WireStores.SplitUndoesJoin | src/p2p/kademlia.go:246-249 | splitting a message body undoes joining key and value, exactly for colon-free keys |
| WireStores.StoreHoldsLatest | src/p2p/kademlia.go:245-254 | after any messages the store maps a key to a value exactly if that was the latest well-formed store |
| WireStores.QueryAnswersLatest | src/p2p/kademlia.go:255-264 | a query changes nothing and is answered with the latest stored value, or not at all if there is none |
| WireStores.AnswersExactlyWhen | src/p2p/kademlia.go:235-265 | all texts a node ever answers, and to what |
| WireStores.KeysAreColonFree | src/p2p/kademlia.go:245-254 | no messages store a key with a colon |
| WireStores.HelloIsIgnored | src/p2p/kademlia.go:236-239 | the handshake branch is never taken |
| KademliaNodes.Kademlia.AddContact | src/p2p/kademlia.go:147-151 | adds the contact to the bucket of its index and leaves the other buckets alone |
| KademliaNodes.Kademlia.FindClosest | src/p2p/kademlia.go:153-178 | the nearest of the contacts collected, twenty if no positive count is given |
| KademliaNodes.Kademlia.Store | src/p2p/kademlia.go:188-196 | sets one key |
| KademliaNodes.Kademlia.FindValue | src/p2p/kademlia.go:198-206 | the value of a key, and whether there is one |
| KademliaNodes.Kademlia.HandleMessage | src/p2p/kademlia.go:232-265 | one turn of the loop stores and replies as the dispatcher does |
| Chunking.PiecesShape | src/storage/replicated_fs.go:148-153 | ceil(length/size) non-empty pieces, all full but the last, whose concatenation is the data |
| Chunking.StoreAddsPieces | src/storage/replicated_fs.go:154-165 | storing keeps every chunk under the digest of its data, with its size, and stamps the pieces stored with the version and time of the write |
| Chunking.StoreKeepsData | src/storage/replicated_fs.go:154-165 | storing changes the data of no chunk, shared or not |
| Chunking.AssembleJoins | src/storage/replicated_fs.go:191-199 | reading the digests of some pieces gives their concatenation |
| FileStates.ReadRefines | src/storage/replicated_fs.go:180-200 | reading agrees with the plain map and never misses a chunk |
| FileStates.WriteRefines | src/storage/replicated_fs.go:116-178 | a write does to the plain map what it should, fails exactly when a chunk is refused, and touches no other path |
| FileStates.DeleteRefines | src/storage/replicated_fs.go:202-220 | a deletion leaves a tombstone; it fails exactly for unknown paths and announces exactly when something changed |
| FileStates.FailedWriteReads | src/storage/replicated_fs.go:148-170 | after a failed write every path that existed reads as before, and one that did not reads as empty |
| FileRuns.RunRefines | src/storage/replicated_fs.go:116-220 | every run refines the same run of the plain map |
| FileRuns.ViewIsHistory | src/storage/replicated_fs.go:116-220 | the plain map is determined by who last wrote and who ever deleted |
| FileRuns.ReadReturnsLastWrite | src/storage/replicated_fs.go:180-200 | in every run a read returns exactly the last successful write to a path never deleted, and each error exactly when it applies |
| FileHistories.MetadataTellsHistory | src/storage/replicated_fs.go:116-220 | after any run the metadata of a file says how often it was written or deleted, when first and last, by whom first, and how much was written last |
| FileHistories.WriteStores | src/storage/replicated_fs.go:147-177 | a write stores its pieces up to the one refused and no others; a successful one announces a live document that holds the path |
| FileHistories.DeletionAnnounces | src/storage/replicated_fs.go:202-219 | a deletion announces a deleted document, fails exactly for unknown paths and does nothing to deleted ones |
| Announcements.AnnouncementAgreesExactlyWhen | src/storage/replicated_fs.go:119-177 | the document of a successful write and the local file agree on being live if and only if the path was not deleted before |
| Announcements.DeletionAnnounced | src/storage/replicated_fs.go:213-219 | the document of a deletion removes the file from the list of live documents |
| Announcements.EndsInWriteExactlyWhen | src/storage/replicated_fs.go:119-219 | the last effective operation on a path was a successful write exactly if one succeeded after its deletion or, without one, at all |
| Announcements.PublishedAgreesExactlyWhen | src/storage/replicated_fs.go:116-220 | after any run, whatever was in the document store before, a file's document is live exactly if the last effective operation on its path was a successful write; a local reader sees the same if and only if no write succeeded after a deletion or, without one, some write succeeded |
| Announcements.DeadFileLooksAlive | src/storage/replicated_fs.go:119-177 | a run after which a deleted file has a live document |
| Announcements.FailedFileLooksDead | src/storage/replicated_fs.go:126-168 | a run after which a readable file has no document |
| ReplicatedFiles.ReplicatedFS.constructor | src/storage/replicated_fs.go:68-94 | an empty file system with three replicas or as many more as asked for, and the given chunk size or else one of 1 MB |
| ReplicatedFiles.ReplicatedFS.StoreChunks | src/storage/replicated_fs.go:147-169 | the chunk loop stores every piece, or the pieces up to and including the refused one |
| ReplicatedFiles.ReplicatedFS.WriteFile | src/storage/replicated_fs.go:116-178 | the objects and maps change as the write on values does, and the document about the file goes into the document store, unless the write failed |
| ReplicatedFiles.ReplicatedFS.ReadFile | src/storage/replicated_fs.go:180-200 | the loop over the chunks reads as on values |
| ReplicatedFiles.ReplicatedFS.DeleteFile | src/storage/replicated_fs.go:202-220 | the objects and maps change as the deletion on values does, and the deleted document goes into the document store, unless nothing changed |
| ReplicatedFiles.ReplicatedFS.ListFiles | src/storage/replicated_fs.go:222-234 | exactly the live paths with the prefix, without duplicates |
| Scores.AddScoreClampsExactlyWhen | src/reputation/score.go:61-73 | an update is the clamped sum if and only if the 64-bit sum does not overflow |
| Scores.SeriesIsOneUpdate | src/reputation/score.go:61-73 | any series without overflow equals one clamped sum whose bounds do not depend on the start |
| Scores.SeriesIsMonotoneContraction | src/reputation/score.go:61-73 | a series keeps the order of two scores and never widens their gap |
| Scores.OneSignOrderIrrelevant | src/reputation/score.go:61-73 | rewards alone, or penalties alone, give the same score in any two orders in which no 64-bit sum overflows |
| Scores.PenaltyOrderIrrelevant | src/reputation/score.go:61-73 | penalties alone may be applied in any order, without any bound |
| Scores.RewardsCommuteExactlyWhen | src/reputation/score.go:61-73 | two rewards commute if and only if overflow strikes both orders alike, spelled out for every pair |
| Scores.MixedOrderMattersExactlyWhen | src/reputation/score.go:61-73 | a reward and a penalty commute if and only if neither hits a bound when it comes first or, for a reward that overflows when it comes first, it also does after the penalty; otherwise the penalty had better come first |
| Scores.PenaltyLowersExactlyWhen | src/reputation/score.go:258-260 | a penalty subtracts its points exactly unless the conversion of huge points turns it into a reward |
| ReputationStates.UpdateMovesScore | src/reputation/score.go:344-358 | an update moves the score within 1 to 1000, counts as what it is and decides the activity |
| ReputationStates.DecayTakesAmount | src/reputation/score.go:389-397 | decay takes its amount down to 1 and lets the score decide the activity |
| ReputationStates.PenaltyTakesPoints | src/reputation/score.go:106-124 | a direct penalty takes its points down to 1, is counted, and stops nodes below 100 |
| ReputationStates.FirstAndLast | src/reputation/score.go:208-217 | how a node starts, by registration or blacklist, and how blacklisting leaves it |
| ReputationStates.AnyNodeLast | src/reputation/score.go:413-422 | a scan gives the same figures in every visiting order |
| ReputationStates.TallyIsCardinality | src/reputation/score.go:413-422 | a scan counts the nodes, the active and the blacklisted ones, and the points of all scores |
| ReputationStates.OthersKeepBlacklistedInactive | src/reputation/score.go:106-134 | no update, direct penalty or blacklisting of a single node makes it active and blacklisted |
| ReputationRuns.UpdatesAreConserved | src/reputation/score.go:243-255 | in every run the updates submitted are those applied plus those queued or in flight, and the queue stays within its capacity |
| ReputationRuns.CountersMatchUpdates | src/reputation/score.go:347-355 | successes plus failures over all nodes are the non-zero updates applied |
| ReputationRuns.ScoresStayInRange | src/reputation/score.go:65-72 | every score stays between 1 and 1000 |
| ReputationRuns.StatisticsAreFresh | src/reputation/score.go:404-427 | the published statistics are true of the nodes at every moment |
| ReputationRuns.ScoreIsFold | src/reputation/score.go:327-361 | in every run that does not decay or blacklist the node, its score is the base score moved by the updates applied to it, in their order |
| ReputationRuns.DrainedAppliesAll | src/reputation/score.go:313-324 | once nothing for a node is queued or in flight, it has received exactly what was submitted for it |
| ReputationRuns.QueueIsInvisible | src/reputation/score.go:243-255 | two runs that submitted the same rewards or the same penalties for a node, none so large that sums overflow, end with the same `GetScore`, whichever updates waited or overtook and whatever happened to other nodes |
| ReputationRuns.ReactivatedExactlyWhen | src/reputation/score.go:385-399 | in every run a step makes a blacklisted node active if and only if it is a decay that takes something from it and leaves more than 100 |
| ReputationRuns.BlacklistedStaysInactive | src/reputation/score.go:126-134 | in every run that never decays a node, the node is inactive while it is blacklisted |
| ReputationRuns.DecayReactivates | src/reputation/score.go:385-399 | a run in which a blacklisted node becomes active |
| NodeHistories.BlacklistedExactlyWhen | src/reputation/score.go:126-134 | in every run a node is blacklisted exactly if some step blacklisted it, for the reason last given |
| NodeHistories.BlacklistingStrikes | src/reputation/score.go:278-295 | in every run, blacklisting a node, known or not, leaves it marked, inactive and with one point |
| NodeHistories.CountersTellApart | src/reputation/score.go:347-355 | in every run a node's successes are the rewards applied to it, its failures the punishments |
| NodeHistories.LastSeenIsLastTime | src/reputation/score.go:327-357 | in every run a node was last seen when it was registered or last updated |
| NodeHistories.FirstInFirstOut | src/reputation/score.go:243-255 | as long as the channel never holds 1000 updates, they are applied in the order of submission |
| NodeHistories.DecayTakesFromAll | src/reputation/score.go:381-401 | in every run decay takes its amount from every node and changes nothing else but the activity |
| NodeHistories.RegistrationStarts | src/reputation/score.go:200-222 | in every run registering a known node changes nothing, and an unknown one starts active with 100 points |
| NodeHistories.UpdateIntroduces | src/reputation/score.go:331-342 | in every run a node first heard of by an update starts like a registered one, without a name |
| NodeHistories.OthersUntouched | src/reputation/score.go:200-401 | in every run a step leaves alone every node it does not concern |
| ReputationSystems.NodeReputation.UpdateScore | src/reputation/score.go:61-73 | the clamped 64-bit sum |
| ReputationSystems.NodeReputation.ApplyPenalty | src/reputation/score.go:106-124 | counts, subtracts down to 1, and marks low scores inactive |
| ReputationSystems.NodeReputation.Blacklist | src/reputation/score.go:127-134 | marks the node and sets its score to 1 |
| ReputationSystems.ReputationSystem.RegisterNode | src/reputation/score.go:200-222 | adds a node at the base score, or returns the known object unchanged |
| ReputationSystems.ReputationSystem.GetScore | src/reputation/score.go:233-240 | the node's score, or the base score of an unknown node |
| ReputationSystems.ReputationSystem.UpdateScore | src/reputation/score.go:243-255 | queues the update, or applies it if the queue is full |
| ReputationSystems.ReputationSystem.Penalize | src/reputation/score.go:258-260 | submits the negated points, converted as in the source |
| ReputationSystems.ReputationSystem.BlacklistNode | src/reputation/score.go:278-295 | blacklists a known node or adds a blacklisted one |
| ReputationSystems.ReputationSystem.ReceiveUpdate | src/reputation/score.go:320 | the processing loop takes the oldest update out of the channel |
| ReputationSystems.ReputationSystem.ProcessUpdate | src/reputation/score.go:321 | it applies the update it holds, which others may have overtaken |
| ReputationSystems.ReputationSystem.ApplyUpdate | src/reputation/score.go:327-361 | changes one node and refreshes the statistics |
| ReputationSystems.ReputationSystem.ApplyDecay | src/reputation/score.go:381-401 | lowers every node by its amount, in any order, and refreshes the statistics |
| ReputationSystems.ReputationSystem.UpdateStats | src/reputation/score.go:404-427 | the statistics become those of a fresh scan |
| ReputationSystems.ReputationSystem.Count | src/reputation/score.go:408-422 | the loop counts what the scan on values does, in any visiting order |
| ProofOfWork.BlocksDiffer | src/p2p/pow.go:13-15 | different keys or nonces are never hashed as the same bytes |
| ProofOfWork.BlockLayout | src/p2p/pow.go:13-15 | the key comes first, then the nonce in eight bytes, most significant first |
| ProofOfWork.LeadingBits | src/p2p/pow.go:27-38 | whole zero bytes and the bits of the next one say that the number is below a power of two |
| ProofOfWork.LeadingZerosMeaning | src/crypto/puzzle.go:81-96 | counting leading zeros is comparing the number with a power of two |
| ProofOfWork.TestsAgree | src/p2p/pow.go:20-40 | the three tests accept the same digests up to 32 bits, two of them up to 256, and beyond that they accept nothing |
| ProofOfWork.NoDifficultyNoWork | src/p2p/pow.go:21-23 | without a difficulty every digest is accepted |
| ProofOfWork.CapAcceptsTooMuchExactlyWhen | src/p2p/pow.go:24-26 | the cap lets a digest through wrongly if and only if it has at least 32 zeros but fewer than asked for |
| ProofOfWork.CheckIsExactExactlyWhen | src/p2p/pow.go:24-26 | `CheckPoW` enforces its difficulty on all digests if and only if that is at most 32 |
| ProofOfWork.SolvableExactlyWhen | src/crypto/puzzle.go:37-53 | some hash function makes `SolvePuzzle` succeed if and only if the difficulty is below 56 |
| ProofOfWork.IterationsAre | src/crypto/puzzle.go:39 | 2^(d+8) nonces are tried for a difficulty d below 56, none from there on, and few again where the sum wraps around |
| ProofOfWork.SearchesAgree | src/crypto/puzzle.go:44-50 | up to 32 bits both searches find the same nonce, and it passes all three tests |
| NodeProofs.HashWithNonce | src/p2p/pow.go:12-17 | hashes the key followed by the nonce, most significant byte first |
| NodeProofs.CheckPoW | src/p2p/pow.go:20-40 | accepts exactly the numbers below the power of two for the capped difficulty |
| NodeProofs.FindNonce | src/p2p/pow.go:43-51 | the least passing nonce below the bound with its digest, or failure exactly when there is none |
| NodeProofs.ValidateNodeID | src/p2p/pow.go:54-62 | accepts exactly the first 20 bytes of a passing digest |
| NodeProofs.GenerateNodeIDFromPubKey | src/p2p/kademlia.go:18-33 | the identifier is made of the first passing digest or of the bare key; some nonce within the attempts validates it if and only if some nonce passes |
| NodeProofs.FoundNonceIsValid | src/p2p/pow.go:43-62 | a nonce found validates exactly one identifier at every lower difficulty, and up to 32 bits passes the other tests |
| NodeProofs.VerifyPoW | src/p2p/gas.go:66-98 | accepts, rejects or runs off the digest, exactly as the number and the difficulty say |
| Puzzles.CountLeadingZeroBits | src/crypto/puzzle.go:81-96 | the loop counts the zeros before the first one bit, modulo 2^32 |
| Puzzles.VerifyNonceOf | src/crypto/puzzle.go:62-78 | accepts exactly the nonces that solve the puzzle |
| Puzzles.PoWPuzzle.SolvePuzzle | src/crypto/puzzle.go:37-53 | for a difficulty d below 56, finds and keeps the least solution below 2^(d+8), or fails exactly when there is none; always fails from 56 on |
| Puzzles.PoWPuzzle.VerifyNonce | src/crypto/puzzle.go:56-59 | accepts exactly a stored solution |
| Puzzles.ValidateIdentityWithPoW | src/crypto/puzzle.go:106-124 | rejects a missing identity, and otherwise succeeds exactly when a solution exists below the bound; a solved puzzle never fails its check |

## Left out

- ReplicatedFiles.ReplicatedFS.WriteFile: one time value stands for the several clock readings of a call; instead of the metadata pointer the document put into the store is returned, and writes through that pointer are not modelled.
- ReplicatedFiles.ReplicatedFS.DeleteFile: one time value stands for the several clock readings of a call.
- FileRuns.RunRefines: assumes that the identifier drawn for a new path is not in use, and that the pieces written in the run have different digests if they differ.
- Convergence.StrongEventualConsistency: assumes that different payloads learned for one document have different digests, and covers the visible state only; source node, operation, metadata and clock need not agree.
- Announcements.PublishedAgreesExactlyWhen: covers runs in which this file system alone writes to the document store, and assumes that the identifiers it draws are not those of documents already there.
- CRDTStores.CRDTStore.Put: overwrites, so in the runs a replica's knowledge of the document starts over.
- CRDTStores.CRDTStore.Edit: the source reaches a stored document through `Get` and updates it; here that is one operation of the store.
- CRDTDocuments.CRDTDocument.Merge: requires that this document cannot write to the other's objects; merging a document with itself (which would block on its own lock) is left out.
- ReputationSystems.ReputationSystem.RegisterNode: returns the shared object as the source does, but calls made on it from outside the system are not part of the runs.
- NodeProofs.GenerateNodeIDFromPubKey: leaves out the log lines, which would fail on keys shorter than eight bytes.
- Versions, clock counters, success and failure counters and sizes are unbounded, except where the 64-bit or 32-bit width is modelled: scores and deltas, distances, nonces, bounds of the searches and sequence numbers of events.
- Lock ordering, blocking and fairness; each guarded method is one step.
- Nil receivers, documents without a value, stores built without their maps, and a file system built without its stores.
- Hexadecimal rendering of digests; a chunk is identified by the digest itself.
- Chunk and document payloads handed in by a caller are not changed by the caller afterwards.
- The floating-point formulas for decay and for the average: decay takes arbitrary amounts, the average is an exact fraction.
- The persistent store behind the file system, `loadIndex` and restart: the metadata writer stores nothing.
- `SyncWithPeer`, which merges the store with itself, and the metadata and statistics getters.
- `PoWManager`, whose table of difficulties is a constant per range of node counts, and `GetTopRelays`, which repeats the exchange sort.
- Random node identifiers, sockets, NAT traversal, the Noise and ChaCha20 layers, HTTP handlers, configuration, telemetry and identities.
