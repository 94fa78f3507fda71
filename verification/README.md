# A verified model of the hierarchical KV gateway

The gateway routes LLM requests to backends that already hold the KV cache of a
prompt prefix, and shares what each region holds through cuckoo filters. This project
models its stateful core in Dafny and proves what it is relied on for.

* **The filter** (`CuckooFilter`, `Lane`). Four 16-bit fingerprints in a 64-bit word,
  the bit-trick membership test, partial-key addressing, one kick of the eviction loop
  and its undo. The hash function xxh3 is a parameter: the upper modules use any
  addressing whose second bucket is given by an involution without fixed points, and the
  code's own is proved to be one for every hash function.
* **The producer** (`ProducerState`, `Insertion`, `ProducerInvariants`,
  `EventEffects`, `FailedInsertions`, `Reachability`, `Collisions`, `CkfProducer`).
  The class is proved to take the steps of a transition relation, with every operation
  recorded in a ghost run; the theorems are about all runs of that relation. The relation
  describes the eviction loop kick by kick, for arbitrary draws of the generator.
* **Replication and queries** (`DirtyMarks`, `Replication`, `ResetReplication`,
  `CkfConsumer`, `Overlap`, `PrimaryPlacement`). Snapshots and dirty-bucket deltas against
  a lane that applies them, up to the overlap a shared prompt prefix is guaranteed.
* **The local projection** (`LaneCas`, `LaneProjection`, `LocalCkf`). Interleaved
  compare-exchange loops on one lane, what a history of events leaves in it, lane binding,
  and the batched query against the single one.
* **The relay** (`CkfRelay`, and with the producers behind it `RelayReplication`), **the
  coalescer** (`Coalescer`): step systems over all interleavings of their tasks.
* **The breaker, the failover loop** (`Resilience`, `Failover`), **the SGLang stream
  parser** (`SglangParser`), **the lease lock** (`SharedState`) and **the KV memory
  estimate** (`KvEstimate`).

`Arithmetic`, `Wrappers` and `Ids` hold shared definitions. A fingerprint *class* is a
fingerprint with its pair of candidate buckets; hashes of one class share their copies.

## Where a promise holds only under a condition

* Tracked hashes exceed copies, class by class, by the insertions that failed since the
  last Reset less the last-owner removals that found no copy (`RunBalance`), so counts are
  exact if and only if these agree (`RunExactIff`). Nine hashes of a class always produce
  a failure (`ClassOfNineIsInexact`), and removing the others then leaves the last one owned
  without a copy (`SiblingLosesItsCopy`); nine such hashes exist under every addressing
  (`NineInOnePlace`, `SiblingLossIsReachable`).
* Reset clears the dirty set together with the buckets. Until the next snapshot a lane is
  in sync if and only if every bucket where it was not empty at the Reset has been marked
  dirty since (`ResetInSyncIff`); a snapshot always brings it back (`ReplicaFollows`).
* Queries probe the primary bucket only. Every bucket has exactly its own hashes after
  every operation if and only if every first owner finds room at home (`StoredPlacedIff`,
  `PlacedSinceIff`), and then owned hashes are sure to hit (`OwnedHashesHit`);
  `StoredHitsIff` says when a hash that finds no room at home still hits.
* A lane of the local projection has one copy per held hash after every operation if and
  only if each stored hash finds room just when it is new and each removed one a copy just
  when it is held (`FaithfulThroughoutIff`).
* A delete of the local projection that returns false found no copy if nothing was swapped
  in its two buckets meanwhile (`FailedDeleteMeansNoCopy`), and may miss one otherwise
  (`FailedDeleteDespiteCopy`).
* The memory estimate is the block-padded footprint if and only if that is below 2^64
  bytes (`EstimateIsPaddedModulo`), and covers the true one if and only if moreover no
  sequence caches more tokens than were reserved, of which at most 2^32 - 1 are counted
  (`CoversIff`).
* The batched query is an upper bound of the per-lane prefix, with the exact condition for
  equality in `BatchedBoundsSingle`.

Where the repository's documentation and code disagree, the model follows the code: the
comment at `local_ckf.rs:265-268` on per-lane prefix semantics, module notes that describe
locked lane writes where the code swaps atomically, and a barrier fallback of the relay
where `flush` sends nothing for a clean pool.

## Model

| member | source | states |
|---|---|---|
| `ProducerInvariants.RunConserves` | crates/hier-kv-gateway-metadata/src/ckf_producer.rs:95-245 | after every prefix of every run of Stored, Removed, Clear, Reset, snapshot and delta: both ownership tables are views of one plain set of (hash, backend) pairs obtained by set algebra on the operations, each refcount is the number of owners and positive; the copies of every fingerprint class in its two buckets never exceed the tracked hashes of the class, and equal them if no insertion has failed since the last Reset; `num_items` is the number of occupied slots |
| `ProducerInvariants.StepInvariant` | crates/hier-kv-gateway-metadata/src/ckf_producer.rs:117-179 | one operation keeps the three invariants of `RunConserves`, from any state that has them |
| `ProducerInvariants.ClassOfNineIsInexact` | crates/hier-kv-gateway-metadata/src/ckf_producer.rs:183-232 | a run that tracks nine hashes of one class has failed to place one since the last Reset, whatever was drawn |
| `FailedInsertions.RunBalance` | crates/hier-kv-gateway-metadata/src/ckf_producer.rs:117-179 | the exact balance of every run, class by class, since the start or the last Reset: tracked hashes + last-owner removals that found no copy = copies + failed insertions |
| `FailedInsertions.RunExactIff` | crates/hier-kv-gateway-metadata/src/ckf_producer.rs:117-179 | after every run, copies equal tracked hashes in all classes (and the item counter the occupied slots) if and only if in every class the failed insertions are as many as the last-owner removals that found no copy |
| `FailedInsertions.StepBalance` | crates/hier-kv-gateway-metadata/src/ckf_producer.rs:117-179 | one operation other than Reset moves copies, tracked hashes, failures and misses in step |
| `FailedInsertions.RemovedAllBalance` | crates/hier-kv-gateway-metadata/src/ckf_producer.rs:156-169 | several removals delete what the class has, up to the number of hashes they drop, in any order |
| `Reachability.SiblingLosesItsCopy` | crates/hier-kv-gateway-metadata/src/ckf_producer.rs:130-152 | in every run that stores nine or more hashes of one class and removes all but the last, an insertion has failed, and the last hash is owned with no copy in either of its buckets |
| `Reachability.SiblingLossIsReachable` | crates/hier-kv-gateway-metadata/src/ckf_producer.rs:130-152 | under every addressing such a run exists: some owned hash ends up with no copy in either of its buckets |
| `Collisions.NineInOnePlace` | crates/hier-kv-gateway-metadata/src/cuckoo_filter.rs:50-55 | under every addressing (so under every hash function) some nine distinct hashes share fingerprint and primary bucket |
| `Reachability.RunExists` | crates/hier-kv-gateway-metadata/src/ckf_producer.rs:95-273 | every list of operations can be run: no insertion gets stuck, whatever is in the lane |
| `ProducerInvariants.ClearIsRemovals` | crates/hier-kv-gateway-metadata/src/ckf_producer.rs:156-169 | Clear, in any iteration order, equals removing each of the backend's hashes one by one, up to the backend's own (then empty) reverse entry |
| `ProducerInvariants.StoredOwns` | crates/hier-kv-gateway-metadata/src/ckf_producer.rs:117-129 | Stored adds exactly one pair to the ownership relation; a repeated Stored leaves the whole state as it was |
| `ProducerInvariants.StoredCounted` | crates/hier-kv-gateway-metadata/src/ckf_producer.rs:130-135 | Stored keeps copies within tracked hashes, and exactness unless the insertion failed |
| `ProducerInvariants.RemovedOwns` | crates/hier-kv-gateway-metadata/src/ckf_producer.rs:138-154 | Removed drops exactly one pair in both tables; a foreign Removed leaves the whole state as it was |
| `ProducerInvariants.RemovedCounted` | crates/hier-kv-gateway-metadata/src/ckf_producer.rs:147-153 | Removed keeps copies within tracked hashes, also when the copy it deletes is a sibling's |
| `ProducerInvariants.ClearedInvariant` | crates/hier-kv-gateway-metadata/src/ckf_producer.rs:156-169 | Clear drops all pairs of the backend, no other, and keeps the counts |
| `Insertion.InsertionAddsOne` | crates/hier-kv-gateway-metadata/src/ckf_producer.rs:183-232 | whatever the generator draws, a successful insertion adds one copy of the inserted class, none of any other, marks every bucket it changed and counts one item; a failed one leaves the whole state as it was |
| `Lane.KickedKeeps` | crates/hier-kv-gateway-metadata/src/ckf_producer.rs:208-219 | by induction over the drawn slots: kicks keep every class (the fingerprint in hand included), the occupied slots, and the undo log |
| `Lane.KickConserves` | crates/hier-kv-gateway-metadata/src/ckf_producer.rs:208-219 | one kick moves fingerprints only within their own candidate pair |
| `Lane.KickLands` | crates/hier-kv-gateway-metadata/src/ckf_producer.rs:219-227 | placing the fingerprint in hand leaves one more copy of the class that started the chain |
| `Lane.UndoRecorded` | crates/hier-kv-gateway-metadata/src/ckf_producer.rs:214-231 | recording a word and overwriting it is undone by the reverse-order rollback, however often a bucket was visited |
| `Lane.DirectInsertCopies` | crates/hier-kv-gateway-metadata/src/ckf_producer.rs:188-199 | a direct insertion succeeds if and only if a candidate bucket has an empty slot, and adds one copy of its class only |
| `Lane.DirectDeleteCopies` | crates/hier-kv-gateway-metadata/src/ckf_producer.rs:235-245 | a deletion finds nothing if and only if the class has no copy, and removes one copy of its class only |
| `Lane.PairSymmetric` | crates/hier-kv-gateway-metadata/src/cuckoo_filter.rs:41-46 | a class is the same seen from either of its two buckets |
| `CkfProducer.CkfProducer.InsertFingerprint` | crates/hier-kv-gateway-metadata/src/ckf_producer.rs:183-232 | does what `InsertedFp` says: first candidate bucket, second, then the eviction loop for some start and some drawn slots |
| `CkfProducer.CkfProducer.Evict` | crates/hier-kv-gateway-metadata/src/ckf_producer.rs:201-232 | the loop is the kicks of its draws up to the first bucket with room; with none within MAX_KICKS every bucket is restored |
| `CkfProducer.CkfProducer.RollBack` | crates/hier-kv-gateway-metadata/src/ckf_producer.rs:228-231 | restores the recorded words last to first |
| `CkfProducer.CkfProducer.DeleteFingerprint` | crates/hier-kv-gateway-metadata/src/ckf_producer.rs:235-245 | clears one copy in the first candidate bucket that has one, and marks that bucket |
| `CkfProducer.CkfProducer.ApplyStored` | crates/hier-kv-gateway-metadata/src/ckf_producer.rs:117-136 | is a Stored step, and extends the recorded run by it |
| `CkfProducer.CkfProducer.ApplyRemoved` | crates/hier-kv-gateway-metadata/src/ckf_producer.rs:138-154 | is a Removed step, and extends the recorded run by it |
| `CkfProducer.CkfProducer.ApplyClear` | crates/hier-kv-gateway-metadata/src/ckf_producer.rs:156-169 | is a Clear step for some order of the backend's hashes, and extends the recorded run by it |
| `CkfProducer.CkfProducer.ResetInternal` | crates/hier-kv-gateway-metadata/src/ckf_producer.rs:171-179 | empties buckets, dirty set, counter and tables and keeps the sequence number |
| `CkfProducer.CkfProducer.ApplyEvent` | crates/hier-kv-gateway-metadata/src/ckf_producer.rs:95-115 | in set terms: Stored adds its hashes to what the backend owns, Removed takes them away, Clear takes all of that backend and nothing of any other, Reset empties every ownership; every bucket an event other than Reset changes is marked, Reset alone drops marks and buckets; the sequence number stays; the recorded run is extended by the event's operations |
| `EventEffects.EventOutcome` | crates/hier-kv-gateway-metadata/src/ckf_producer.rs:95-179 | the same for any two ends of runs with the operations of one event in between |
| `EventEffects.PairsAfterEvent` | crates/hier-kv-gateway-metadata/src/ckf_producer.rs:95-115 | the operations of an event change the plain set of (hash, backend) pairs by that set algebra |
| `CkfProducer.CkfProducer.Snapshot` | crates/hier-kv-gateway-metadata/src/ckf_producer.rs:248-255 | publishes all buckets under the next sequence number and empties the dirty set |
| `CkfProducer.CkfProducer.Delta` | crates/hier-kv-gateway-metadata/src/ckf_producer.rs:258-273 | publishes the dirty buckets in index order, or nothing and changes nothing when none is dirty |
| `Replication.ReplicaFollows` | crates/hier-kv-gateway-metadata/src/ckf_producer.rs:248-273 | over every run: a lane that applies all publications in order differs from the producer in dirty buckets only, and equals it after each publication, as long as the last Reset has been followed by a snapshot |
| `Replication.DeltaAlignsIffInSync` | crates/hier-kv-gateway-metadata/src/ckf_consumer.rs:115-122 | applying a delta makes the lane equal the producer if and only if it differed in dirty buckets only |
| `ResetReplication.ResetInSyncIff` | crates/hier-kv-gateway-metadata/src/ckf_producer.rs:171-179 | over every run, from a Reset up to the next snapshot: a lane (whatever it held) is in sync if and only if every bucket where it was not empty at the Reset has been marked dirty since, and after a delta exactly then it equals the producer |
| `ResetReplication.ResetThenDelta` | crates/hier-kv-gateway-metadata/src/ckf_producer.rs:171-179 | in every run Stored(h), snapshot, Reset, Stored(g), delta, the lane ends equal to the producer if and only if h and g share their primary bucket |
| `ResetReplication.ResetLosesBucket` | crates/hier-kv-gateway-metadata/src/ckf_producer.rs:171-179 | such a run exists with a lane that differs from the producer after the delta |
| `ResetReplication.RecoveryStep` | crates/hier-kv-gateway-metadata/src/ckf_producer.rs:235-273 | after a Reset a marked bucket is dirty or up to date, an unmarked one is as the Reset found it; each operation keeps this |
| `Replication.StepMarks` | crates/hier-kv-gateway-metadata/src/ckf_producer.rs:117-245 | Stored, Removed and Clear mark every bucket they change |
| `DirtyMarks.StepMarksExactly` | crates/hier-kv-gateway-metadata/src/ckf_producer.rs:117-245 | Stored, Removed and Clear mark exactly the buckets whose words they change, except that a Stored that evicts may mark more: at most one for each of its kicks and one |
| `Replication.ReplicaStep` | crates/hier-kv-gateway-metadata/src/ckf_producer.rs:95-273 | one operation other than Reset and its publication keep a lane in sync |
| `Replication.DirtyFromApplied` | crates/hier-kv-gateway-metadata/src/ckf_producer.rs:266-267 | a delta sets exactly the dirty buckets to the producer's words and leaves the others |
| `Replication.SequenceChain` | crates/hier-kv-gateway-metadata/src/ckf_producer.rs:248-273 | the j-th publication of a run has sequence j+1, and a delta names j as its predecessor, modulo 2^64 |
| `CkfConsumer.CkfConsumer.InstallSnapshot` | crates/hier-kv-gateway-metadata/src/ckf_consumer.rs:100-108 | the lane takes the snapshot word by word (a short one leaves the rest) and becomes active; other lanes are untouched; the lane stays what its received publications make of an empty one |
| `CkfConsumer.CkfConsumer.ApplyDelta` | crates/hier-kv-gateway-metadata/src/ckf_consumer.rs:115-122 | the lane takes the listed words, later ones last, ignores indices out of range; other lanes are untouched; the publication is recorded |
| `CkfConsumer.CkfConsumer.Receive` | crates/hier-kv-gateway/src/cluster_bridge.rs:337-396 | a publication goes to the lane of its region; it is dropped when there is none, or when a snapshot does not have as many words as its header says |
| `CkfConsumer.CkfConsumer.EstimateOverlap` | crates/hier-kv-gateway-metadata/src/ckf_consumer.rs:76-95 | the length of the longest prefix whose fingerprints are in their primary buckets of the region's active lane, else 0 |
| `CuckooFilter.SwarMembership` | crates/hier-kv-gateway-metadata/src/cuckoo_filter.rs:75-88 | for every 64-bit word and fingerprint, the bit trick holds if and only if some slot equals the fingerprint, if and only if `first_match` finds one (the first) |
| `CuckooFilter.SlotWithSlot` | crates/hier-kv-gateway-metadata/src/cuckoo_filter.rs:58-71 | writing a slot changes that slot to the written value and no other |
| `CuckooFilter.CountWithSlot` | crates/hier-kv-gateway-metadata/src/cuckoo_filter.rs:58-71 | a slot write exchanges one copy of the old fingerprint for one of the new |
| `CuckooFilter.TryInsertCount` | crates/hier-kv-gateway-metadata/src/cuckoo_filter.rs:98-105 | insertion succeeds if and only if a slot is empty, and adds one copy of its fingerprint only |
| `CuckooFilter.TryDeleteCount` | crates/hier-kv-gateway-metadata/src/cuckoo_filter.rs:110-117 | deletion succeeds if and only if the fingerprint is there, and removes one copy of it only |
| `CuckooFilter.InsertThenDelete` | crates/hier-kv-gateway-metadata/src/cuckoo_filter.rs:98-117 | deleting a fingerprint just inserted into a bucket without it gives the bucket back bit for bit |
| `CuckooFilter.WordOfSlots` | crates/hier-kv-gateway-metadata/src/cuckoo_filter.rs:58-71 | the word is its four slots, slot 0 lowest |
| `CuckooFilter.XxhAddressingValid` | crates/hier-kv-gateway-metadata/src/cuckoo_filter.rs:41-55 | for every hash function: fingerprints are never 0, indices are in range, and `alt_index` is an involution without fixed points |
| `CuckooFilter.XorTwice` | crates/hier-kv-gateway-metadata/src/cuckoo_filter.rs:45-45 | exclusive or with the same value twice is the identity |
| `CuckooFilter.XorDigits` | crates/hier-kv-gateway-metadata/src/cuckoo_filter.rs:45-45 | the bits of the result are those in which the two differ |
| `CuckooFilter.AnyPlace` | crates/hier-kv-gateway-metadata/src/cuckoo_filter.rs:50-55 | fingerprint and primary bucket come from different bits: some hash value gives any odd fingerprint any bucket |
| `CuckooFilter.NeighbourWhenMaskedZero` | crates/hier-kv-gateway-metadata/src/cuckoo_filter.rs:41-46 | when the hash of a fingerprint masks to 0, its second bucket is the neighbour, the index with its last bit flipped |
| `CuckooFilter.BytesKeepAll` | crates/hier-kv-gateway-metadata/src/cuckoo_filter.rs:41-55 | distinct hashes and distinct fingerprints are addressed from distinct bytes |
| `PrimaryPlacement.TokensToOverlap` | crates/hier-kv-gateway-core/src/kv_event.rs:110-128 | end to end: if every insertion found room in its primary bucket, the producer owns all block hashes of a prompt and a lane has applied its publications, then a prompt sharing at least m whole blocks with it gets an overlap of at least m |
| `PrimaryPlacement.LiveOverlap` | crates/hier-kv-gateway-core/src/kv_event.rs:110-128 | the same for a live producer and a live consumer, whose lane has received the producer's publications after any others |
| `PrimaryPlacement.StoredPlacedIff` | crates/hier-kv-gateway-metadata/src/ckf_producer.rs:183-232 | from a lane where everything is in its primary bucket, a Stored keeps it so if and only if a first owner finds room there, whatever is drawn |
| `PrimaryPlacement.PlacedSinceIff` | crates/hier-kv-gateway-metadata/src/ckf_producer.rs:117-232 | over every run: everything has been in its primary bucket after each operation since the last Reset if and only if every first owner since found room there |
| `PrimaryPlacement.StoredHitsIff` | crates/hier-kv-gateway-metadata/src/ckf_consumer.rs:85-93 | a first owner that lands directly, or fails, hits if and only if its primary bucket has room or already holds its fingerprint |
| `PrimaryPlacement.OwnedHashesHit` | crates/hier-kv-gateway-metadata/src/ckf_consumer.rs:85-93 | under the same placement condition every owned hash hits: no false negative |
| `PrimaryPlacement.RunPlaced` | crates/hier-kv-gateway-metadata/src/ckf_producer.rs:188-192 | as long as every first owner finds room at home, each bucket holds exactly the tracked hashes that live there, through Removed, Clear and Reset |
| `Overlap.ComputeBlockHashes` | crates/hier-kv-gateway-core/src/kv_event.rs:110-128 | one hash per complete block, that of its block; none for block size 0; the unfinished block is ignored |
| `Overlap.SharedPrefixSharesHashes` | crates/hier-kv-gateway-core/src/kv_event.rs:110-128 | prompts that agree on their first m blocks agree on their first m block hashes |
| `Overlap.BytesInjective` | crates/hier-kv-gateway-core/src/kv_event.rs:119-124 | distinct blocks are hashed from distinct bytes |
| `Overlap.TokenFromBytes` | crates/hier-kv-gateway-core/src/kv_event.rs:119-121 | the four bytes of a token, lowest first, give the token back |
| `Overlap.ComputeSeed` | crates/hier-kv-gateway-core/src/kv_event.rs:84-97 | the seed that the namespace and the adapter give |
| `Overlap.SeedsAgreeIff` | crates/hier-kv-gateway-core/src/kv_event.rs:84-97 | two namespaces (or two adapters), the other name being the same, have the same seed if and only if their salted hashes collide |
| `Overlap.EmptyNameIsNone` | crates/hier-kv-gateway-core/src/kv_event.rs:84-97 | an empty name counts as none |
| `LaneCas.InterleavingConserves` | crates/hier-kv-gateway-metadata/src/local_ckf.rs:150-208 | in every interleaving of the loads and compare-exchanges of any number of inserts and deletes: copies of each class = copies at the start + inserts that returned true - deletes that returned true |
| `LaneCas.NextBalanced` | crates/hier-kv-gateway-metadata/src/local_ckf.rs:155-172 | one load or compare-exchange keeps that balance for every class |
| `LaneCas.SwapCopies` | crates/hier-kv-gateway-metadata/src/local_ckf.rs:158-166 | a successful swap moves one copy, in the class of its own call only |
| `LaneCas.FailedCallSaw` | crates/hier-kv-gateway-metadata/src/local_ckf.rs:150-208 | in every interleaving: a call that returns false has seen its first bucket useless (full for an insert, without a copy for a delete) when it left it, its second when it gave up; with no swap in the pair in between, both were useless throughout |
| `LaneCas.FailedDeleteMeansNoCopy` | crates/hier-kv-gateway-metadata/src/local_ckf.rs:181-208 | so with an untouched pair a delete that returns false means that its class had no copy |
| `LaneCas.FailedDeleteDespiteCopy` | crates/hier-kv-gateway-metadata/src/local_ckf.rs:181-208 | without that it does not: an interleaving in which a delete returns false although its class has a copy in every state |
| `LocalCkf.BatchedBoundsSingle` | crates/hier-kv-gateway-metadata/src/local_ckf.rs:214-277 | for every active lane the single query is at most the batched figure, with equality if and only if the lane has no hit between its first miss and the index where the scan stops |
| `LocalCkf.BatchedEqualsSingleAlone` | crates/hier-kv-gateway-metadata/src/local_ckf.rs:242-277 | with one active lane the two queries agree |
| `LocalCkf.BatchedExceedsSingle` | crates/hier-kv-gateway-metadata/src/local_ckf.rs:265-271 | the per-lane prefix break of the comment does not hold: with two hashes in one lane and only the second in another, the other lane is credited with 1 past its first miss, where its prefix is 0 |
| `LaneProjection.LaneBalance` | crates/hier-kv-gateway-metadata/src/kv_index.rs:113-145 | the exact balance of every lane history, class by class, since the last Clear or Reset: copies + lost = held hashes + extra, where a new hash without room or a foreign removal that finds a copy loses one, and a repeated Stored or a removal that finds none leaves one too many |
| `LaneProjection.HeldAfterEvent` | crates/hier-kv-gateway-metadata/src/kv_index.rs:125-142 | Stored adds its hashes to what the backend holds, Removed takes them away, Clear and Reset take all |
| `LaneProjection.LaneFaithfulIff` | crates/hier-kv-gateway-metadata/src/kv_index.rs:113-145 | a lane has one copy per held hash in all classes if and only if lost and extra agree in every class |
| `LocalCkf.LiveLaneFaithfulIff` | crates/hier-kv-gateway-metadata/src/kv_index.rs:113-145 | the same of a live lane: after any run of events the lane of a bound backend has one copy per held hash if and only if lost and extra agree over the operations logged for it |
| `LaneProjection.FaithfulStepIff` | crates/hier-kv-gateway-metadata/src/local_ckf.rs:150-208 | one insert or delete on such a lane leaves it so if and only if a stored hash finds a free slot just when it is not held yet, a removed one finds a copy just when it is held |
| `LaneProjection.FaithfulThroughoutIff` | crates/hier-kv-gateway-metadata/src/kv_index.rs:113-145 | over every history from a new lane: faithful after each operation if and only if each operation was in step |
| `LaneProjection.StoredTwiceRemovedOnce` | crates/hier-kv-gateway-metadata/src/kv_index.rs:113-145 | the projection does not deduplicate: a hash stored twice and removed once leaves a copy in the lane, and none of any class at the producer in every such run |
| `LocalCkf.HitCountGrows` | crates/hier-kv-gateway-metadata/src/local_ckf.rs:254-272 | the figure of a lane never falls, grows by at most one a hash, and stands still exactly without hits |
| `LocalCkf.LocalCkf.AssignLane` | crates/hier-kv-gateway-metadata/src/local_ckf.rs:92-118 | an existing binding is returned, else the first free lane is bound, zeroed and activated, else none; the two maps stay inverse, a lane is active iff bound, unbound lanes are zero, and every bound lane stays what its logged operations make of an empty one |
| `LocalCkf.LocalCkf.UnassignLane` | crates/hier-kv-gateway-metadata/src/local_ckf.rs:121-134 | unbinds and zeroes the lane and leaves every bound lane as it was |
| `LocalCkf.LocalCkf.Insert` | crates/hier-kv-gateway-metadata/src/local_ckf.rs:150-178 | without interference: the first candidate bucket with room takes the fingerprint; other lanes are untouched |
| `LocalCkf.LocalCkf.Delete` | crates/hier-kv-gateway-metadata/src/local_ckf.rs:181-208 | without interference: one copy goes from the first candidate bucket that has one |
| `LocalCkf.LocalCkf.ClearLane` | crates/hier-kv-gateway-metadata/src/local_ckf.rs:280-286 | empties and activates the lane; the binding law survives if and only if the lane was bound |
| `LocalCkf.LocalCkf.EstimateOverlap` | crates/hier-kv-gateway-metadata/src/local_ckf.rs:214-229 | the longest hitting prefix on an active lane, else 0 |
| `LocalCkf.LocalCkf.EstimateAllOverlaps` | crates/hier-kv-gateway-metadata/src/local_ckf.rs:242-277 | each active lane once, in lane order, with its hits before the first hash that no active lane has |
| `LocalCkf.LocalCkf.KvApplyEvent` | crates/hier-kv-gateway-metadata/src/kv_index.rs:113-145 | binds first, and fails to only if the backend is unbound and all lanes are taken; if the radix index refuses the event, returns the error with at most that new binding; else projects the event to the backend's lane, hash by hash, and logs it; other lanes are untouched, the binding law holds, and every bound lane stays what its log makes of an empty one |
| `LocalCkf.LocalCkf.KvFindAllLocalOverlap` | crates/hier-kv-gateway-metadata/src/kv_index.rs:87-99 | every bound backend exactly once, with its own lane's batched figure |
| `CkfRelay.NoLostPublication` | crates/hier-kv-gateway-cluster/src/ckf_relay.rs:103-164 | in every interleaving a pool with dirty buckets is remembered: the counter is positive, or an apply_event has yet to count it, or a flush has yet to drain it |
| `CkfRelay.StepInvariant` | crates/hier-kv-gateway-cluster/src/ckf_relay.rs:103-191 | each step of apply_event, flush, publish_barrier and the background task keeps that |
| `CkfRelay.StepRemembers` | crates/hier-kv-gateway-cluster/src/ckf_relay.rs:124-150 | each step keeps a dirty pool remembered, and zeroing the counter hands every dirty pool to the flush that zeroed it |
| `CkfRelay.DirtyAtRestWakes` | crates/hier-kv-gateway-cluster/src/ckf_relay.rs:194-215 | with all tasks at rest, a dirty pool makes the background task's next check flush |
| `CkfRelay.FlushAloneCleans` | crates/hier-kv-gateway-cluster/src/ckf_relay.rs:124-164 | a flush that runs alone, from zeroing the counter to its end, leaves no pool dirty and nothing pending |
| `CkfRelay.FlushStartsIff` | crates/hier-kv-gateway-cluster/src/ckf_relay.rs:103-118 | an event bumps the counter by one and starts a flush if and only if that reaches the threshold; the background check only with something pending |
| `CkfRelay.PendingBelowThreshold` | crates/hier-kv-gateway-cluster/src/ckf_relay.rs:103-130 | in every interleaving, when as many events as the threshold are pending some flush is about to zero the counter |
| `RelayReplication.AtRestReplicated` | crates/hier-kv-gateway-cluster/src/ckf_relay.rs:103-191 | over every interleaving of the relay with the producers behind it: when all tasks rest and nothing is pending, the publications of every pool, applied in order, leave a lane equal to the pool's producer, as long as its last Reset has been followed by a snapshot |
| `RelayReplication.StepRefines` | crates/hier-kv-gateway-cluster/src/ckf_relay.rs:103-191 | every step of the relay with whole producers is a step of the relay that sees only which pools are dirty |
| `Coalescer.OneRemoverPerEntry` | crates/hier-kv-gateway-api/src/coalescer.rs:180-254 | in every interleaving a key is in the map if and only if a leader has yet to remove it, itself or by its timer, and then exactly one has: removal by key never drops another leader's entry |
| `Coalescer.SingleFlight` | crates/hier-kv-gateway-api/src/coalescer.rs:199-217 | two leaders of one key never await at once |
| `Coalescer.JoinedForwardKept` | crates/hier-kv-gateway-api/src/coalescer.rs:199-231 | over every run: a call that joins an entry stays attached to that entry's forward (the one found, or the one just put there) to the end, and what it returns is that forward's result |
| `Coalescer.ReturnsItsForward` | crates/hier-kv-gateway-api/src/coalescer.rs:194-231 | every returned call, bypassed ones included, has the result of the forward it is attached to, made for its own key |
| `Coalescer.ForwardResolvesOnce` | crates/hier-kv-gateway-api/src/coalescer.rs:219-221 | a result, once there, is never replaced |
| `Coalescer.ForwardAccounting` | crates/hier-kv-gateway-api/src/coalescer.rs:194-212 | forwards run = leaders + bypassed, saved = waiters |
| `Coalescer.EmptyWhenQuiet` | crates/hier-kv-gateway-api/src/coalescer.rs:239-254 | when all calls have returned and all timers fired, the map is empty |
| `Coalescer.EntryStaysForTheWindow` | crates/hier-kv-gateway-api/src/coalescer.rs:199-254 | over every run: an entry stays with its forward until its leader's own cleanup (no window) or its leader's timer (a window), that step removes it, and every call of the key in between joins the forward and starts none |
| `Coalescer.NoWindowNoTimers` | crates/hier-kv-gateway-api/src/coalescer.rs:239-254 | without a window there are never timers, and a leader that has returned has no entry left |
| `Coalescer.BypassesIff` | crates/hier-kv-gateway-api/src/coalescer.rs:193-196 | a call bypasses if and only if its guard saw a positive limit reached by the number of entries |
| `Coalescer.StatsCount` | crates/hier-kv-gateway-api/src/coalescer.rs:193-212 | the three counters are the numbers of guards that bypassed, entries filled and entries joined |
| `Coalescer.StepInvariant` | crates/hier-kv-gateway-api/src/coalescer.rs:180-254 | each step of any call keeps: an entry's forward runs its key and its owner has yet to remove it |
| `Resilience.BreakerIsItsHistory` | crates/hier-kv-gateway-connector/src/resilience.rs:139-218 | for every history: Closed holds the failures since the last success, below max(threshold, 1); HalfOpen holds the successes since the last failure, below the success threshold; Open holds the time of the last outcome, a failure |
| `Resilience.RefusalNeedsRecentFailure` | crates/hier-kv-gateway-connector/src/resilience.rs:139-156 | `allow` refuses only within the cooldown of the last failure, with no success since |
| `Resilience.ObservedOpenIffRefused` | crates/hier-kv-gateway-connector/src/resilience.rs:221-237 | `state` reports Open if and only if `allow` would refuse at that time |
| `Resilience.OpensAtThreshold` | crates/hier-kv-gateway-connector/src/resilience.rs:192-205 | from Closed, exactly the failure that completes the threshold opens the breaker |
| `Resilience.ProbesClose` | crates/hier-kv-gateway-connector/src/resilience.rs:139-189 | after the cooldown the full number of successes closes the breaker, and fewer do not |
| `Resilience.RefusedIff` | crates/hier-kv-gateway-connector/src/resilience.rs:139-218 | over every history: a request is refused if and only if some failure opened the circuit (it completed the threshold, or the circuit was not closed), only refused questions followed, and its cooldown has not gone by |
| `Resilience.FailureReopens` | crates/hier-kv-gateway-connector/src/resilience.rs:206-217 | a failure outside Closed, a failed probe included, opens the circuit from its own time: a request is refused if and only if it comes within the cooldown |
| `Resilience.SuccessCloses` | crates/hier-kv-gateway-connector/src/resilience.rs:159-189 | a success closes an open circuit at once and resets the failures of a closed one |
| `Resilience.AskingMoves` | crates/hier-kv-gateway-connector/src/resilience.rs:139-156 | asking moves an open circuit past its cooldown to HalfOpen and changes nothing else |
| `Resilience.BackoffIsCappedDoubling` | crates/hier-kv-gateway-connector/src/resilience.rs:50-57 | for every attempt the saturating arithmetic gives base * 2^attempt capped at max |
| `Resilience.BackoffMonotone` | crates/hier-kv-gateway-connector/src/resilience.rs:50-57 | delays never shrink and never exceed max |
| `Resilience.CircuitBreakerRegistry.AllowAttempt` | crates/hier-kv-gateway-connector/src/resilience.rs:139-156 | answers from the backend's own history and moves Open to HalfOpen past the cooldown; other backends are untouched |
| `Resilience.CircuitBreakerRegistry.OnSuccess` | crates/hier-kv-gateway-connector/src/resilience.rs:159-189 | the breaker goes where its history with one more success puts it |
| `Resilience.CircuitBreakerRegistry.OnFailure` | crates/hier-kv-gateway-connector/src/resilience.rs:192-218 | the breaker goes where its history with one more failure puts it |
| `Resilience.CircuitBreakerRegistry.CircuitStateOf` | crates/hier-kv-gateway-connector/src/resilience.rs:221-237 | the observable state of the history, with no change |
| `Failover.ForwardWithRetries` | crates/hier-kv-gateway-api/src/handlers.rs:700-814 | with other requests using the registry at every await: one log line per considered candidate in order, each resting on a question of this request to the breaker and carrying its own reply's outcome and error; the forwards made are exactly the candidates not refused that have a connector, in order; a success ends the loop and is last; the error returned is the last tried candidate's; the fallback arises iff every candidate was skipped; the k-th sleep is backoff(k), one for each candidate tried but the first |
| `Failover.Consider` | crates/hier-kv-gateway-api/src/handlers.rs:717-800 | one candidate: its breaker is asked next; if refused nothing else is done; else the backoff of the failures so far is slept and the candidate tried |
| `Failover.TryCandidate` | crates/hier-kv-gateway-api/src/handlers.rs:742-800 | a candidate without a connector is not forwarded to and its breaker left alone; otherwise it is forwarded to once and its breaker told the outcome, last |
| `Failover.RequestSleepsBounded` | crates/hier-kv-gateway-api/src/handlers.rs:735-745 | the sleeps of a request total at most (candidates - 1) * max |
| `Failover.ConsideredStays` | crates/hier-kv-gateway-api/src/handlers.rs:717-800 | what was logged about a candidate is still true after any later calls on the registry |
| `Failover.SleepsBounded` | crates/hier-kv-gateway-api/src/handlers.rs:735-745 | n backoffs total at most n * max |
| `Failover.ForwardsInOrder` | crates/hier-kv-gateway-api/src/handlers.rs:717-800 | the forwards are, one to one and in order, those of the log lines not skipped whose candidate has a connector |
| `Failover.TriedCounts` | crates/hier-kv-gateway-api/src/handlers.rs:717-745 | the failure counter is the number of candidates tried |
| `Failover.LastErrorIsLastTried` | crates/hier-kv-gateway-api/src/handlers.rs:717-814 | the error kept is that of the last candidate tried |
| `SglangParser.SameTextSameChunks` | crates/hier-kv-gateway-connector/src/sglang.rs:346-454 | streaming equals batch: for every two ways of cutting the same text into pieces, with waits and read errors in between, the parser emits the same chunks |
| `SglangParser.SglangGenerateParser.PollNext` | crates/hier-kv-gateway-connector/src/sglang.rs:409-454 | a chunk takes one off the front of the output still to come, waiting and read errors take nothing, the end is reported only when nothing is left; once finished, the pending Done and then only the end |
| `SglangParser.SglangGenerateParser.TryParse` | crates/hier-kv-gateway-connector/src/sglang.rs:346-400 | consumes complete lines up to the next chunk, whatever text follows later |
| `SglangParser.SglangGenerateParser.Collect` | crates/hier-kv-gateway-connector/src/sglang.rs:409-454 | driven to its end the parser emits exactly the output of the whole text |
| `SglangParser.OneDoneAtTheEnd` | crates/hier-kv-gateway-connector/src/sglang.rs:338-454 | exactly one Done, at the end, for every text |
| `SglangParser.DeltasSpellLastText` | crates/hier-kv-gateway-connector/src/sglang.rs:376-400 | if each accumulated text extends the one before, the deltas up to the terminal chunk spell the last accumulated text |
| `SglangParser.OutputFirstLine` | crates/hier-kv-gateway-connector/src/sglang.rs:348-400 | a complete first line contributes the same whatever text follows it |
| `SglangParser.PayloadLine` | crates/hier-kv-gateway-connector/src/sglang.rs:355-400 | on the text itself: a data line that decodes contributes the text past what was emitted (all of it when the text got shorter, and the count goes on from there), and ends the output when it carries a finish reason |
| `SglangParser.MarkLine` | crates/hier-kv-gateway-connector/src/sglang.rs:361-365 | a data line with the end marker, white space around it or not, ends the output with Done |
| `SglangParser.OtherLine` | crates/hier-kv-gateway-connector/src/sglang.rs:355-374 | a line that is no data, or does not decode, contributes nothing |
| `SglangParser.StreamSpellsLast` | crates/hier-kv-gateway-connector/src/sglang.rs:346-400 | for every encoder the decoder inverts: the output for the encoded stream of a generation spells its last text, from whatever had been emitted before |
| `SglangParser.RoundTrip` | crates/hier-kv-gateway-connector/src/sglang.rs:338-454 | that stream, cut into any pieces with waits and read errors, is parsed into deltas that spell the last text, and one Done |
| `SglangParser.OutputNewlineAtEnd` | crates/hier-kv-gateway-connector/src/sglang.rs:430-450 | terminating the last line does not change the output |
| `SharedState.LeaseExcludes` | crates/hier-kv-gateway-cluster/src/shared_state.rs:239-262 | over every request sequence with a non-decreasing clock: after h acquires a key and leaves it alone, no other holder acquires it before the lease has run its time, and the first request at or past the expiry does |
| `SharedState.LeaseStands` | crates/hier-kv-gateway-cluster/src/shared_state.rs:239-268 | whatever others lock and unlock before the expiry, the lease stays as it was granted |
| `SharedState.FreeKeyGranted` | crates/hier-kv-gateway-cluster/src/shared_state.rs:239-268 | the first request of all, and the first after the holder's unlock, is granted |
| `SharedState.OwnUnlockOnly` | crates/hier-kv-gateway-cluster/src/shared_state.rs:264-268 | over every request sequence: an unlock frees the key if and only if it is the holder's own, and otherwise changes nothing |
| `SharedState.RetryRefreshes` | crates/hier-kv-gateway-cluster/src/shared_state.rs:239-262 | the holder's own retry is granted at any time and starts its lease afresh |
| `SharedState.LocalSharedState.AcquireLock` | crates/hier-kv-gateway-cluster/src/shared_state.rs:239-262 | granted iff the key is free, expired or the holder's own; then a fresh lease with a saturating expiry, else no change |
| `SharedState.LocalSharedState.ReleaseLock` | crates/hier-kv-gateway-cluster/src/shared_state.rs:264-268 | removes the lease if it is the holder's own, else no change |
| `KvEstimate.EstimateIsPaddedModulo` | crates/hier-kv-gateway-kv-estimate/src/estimate.rs:156-222 | for every model and input the bytes are the block-padded footprint modulo 2^64, so equal to it if and only if it is below 2^64; with paging they are the per-block bytes times the blocks modulo 2^64 |
| `KvEstimate.PaddedFootprint` | crates/hier-kv-gateway-kv-estimate/src/estimate.rs:212-222 | below 2^32 cached tokens a sequence, the padded footprint is at least the true one (input + output within the window, batch and element count, nothing taken from the estimate), less than it plus batch * per-block bytes, and equal to it without paging |
| `KvEstimate.BytesAreBlocks` | crates/hier-kv-gateway-kv-estimate/src/estimate.rs:179-222 | below 2^64, bytes = per-block bytes * blocks without wrap-around |
| `KvEstimate.EstimateDominates` | crates/hier-kv-gateway-kv-estimate/src/estimate.rs:196-230 | if the padded footprint is below 2^64 and the cached tokens below 2^32, the estimate at `max_tokens` covers the true footprint of every shorter output, sliding window included |
| `KvEstimate.CoversIff` | crates/hier-kv-gateway-kv-estimate/src/estimate.rs:196-222 | as long as one block per sequence fits 64 bits, the estimate covers the true footprint if and only if the padded footprint is below 2^64 and the tokens reserved reach those cached |
| `KvEstimate.LargeFootprintsFallShort` | crates/hier-kv-gateway-kv-estimate/src/estimate.rs:213-220 | a true footprint of 2^64 bytes or more is always underestimated |
| `KvEstimate.OneMoreToken` | crates/hier-kv-gateway-kv-estimate/src/estimate.rs:200-222 | without paging, one more output token below the window and 2^32 adds exactly batch * per-token bytes |
| `KvEstimate.CountsElements` | crates/hier-kv-gateway-kv-estimate/src/estimate.rs:156-174 | a token's bits are those of its elements, counted as sets: key and value for every layer, head and dimension, or one latent and one rotary vector for every layer, times the bits of the dtype |
| `KvEstimate.LengthsAre` | crates/hier-kv-gateway-kv-estimate/src/estimate.rs:196-222 | the effective length is input + output, cut to the window if there is one and to 2^32 - 1; blocks cover the reserved tokens of all sequences, modulo 2^64; batch 0 counts as 1 |

## Left out

- HTTP, SSE, message transports, Redis and NATS backends, the Python SDK and launcher: plumbing over code outside the repository.
- The radix tree, routing strategies, gossip membership, region views, tenant windows, cost configuration and metrics parsing: not part of this model.
- xxh3, the request key hash and the JSON decoder are parameters; `kv_confidence` and collision rates (floating point) are not modelled.
- The producer's splitmix64 generator: every draw is arbitrary, so the results hold for any generator.
- Weak memory orderings: interleavings are sequentially consistent. Task cancellation, in particular of a coalescing leader, is not modelled.
- LaneCas.InterleavingConserves: the lane stays active; clearing or rebinding a lane while inserts or deletes are in flight is not modelled.
- LocalCkf.LocalCkf.Insert: a compare-exchange of this class meets no interference and succeeds at once; `LaneCas` has the interleaved loop.
- LocalCkf.LocalCkf.Delete: as for Insert.
- Replication.ReplicaFollows: publications arrive in order and none is lost. The relay spawns its sends and `apply_delta` ignores sequence numbers, so the code itself does not enforce this.
- CkfConsumer.CkfConsumer.Receive: one producer per region lane. The bridge picks the lane by region and ignores the pool's domain, so two pools of one region would share a lane.
- CkfConsumer.CkfConsumer.EstimateOverlap: readers do not observe a lane halfway through a snapshot or delta. When several lanes are bound to a region, which one is taken is unspecified, as in the code.
- CkfConsumer.CkfConsumer.InstallSnapshot: a snapshot with more words than the lane has buckets, on which the code stops with an index out of range, is excluded; so it is for Receive.
- CkfProducer.CkfProducer.ApplyStored: the refcount and item counters are unbounded; only the publication sequence wraps at 64 bits. The same holds for overlap counts, the relay's pending count, the coalescer's statistics and the breaker's counters.
- CkfRelay.NoLostPublication: a pool's buckets are abstracted to whether any is dirty; `RelayReplication` carries the whole producers. Errors of the spawned sends are not modelled.
- RelayReplication.AtRestReplicated: delivery is FIFO and lossless, and each pool has a lane of its own.
- PrimaryPlacement.StoredHitsIff: a first owner placed by a successful eviction is not covered; whether it ends in its primary bucket depends on the draws.
- Coalescer.ReturnsItsForward: result bodies are opaque, an error result included.
- Failover.ForwardWithRetries: connector replies and clock readings are parameters; other requests ask and report to the breakers at will, but the registry is not reset meanwhile; the adaptive-weight feedback and log output of the loop are not modelled.
- SglangParser.SglangGenerateParser.TryParse: text is a sequence of characters, so lossy UTF-8 decoding of a split character and byte offsets inside one are not modelled; token ids and latency fields of chunks are dropped.
- SglangParser.PayloadLine: what counts as white space is a parameter; the results on lines assume of it only that square brackets do not.
- The OpenAI stream parser: its end of stream is not one clean termination.
- SharedState.LocalSharedState.AcquireLock: TTLs and times are whole seconds, and requests are atomic, as under the map's entry lock. Sessions, prefix history, instances and metrics are left out.
- KvEstimate.EstimateIsPaddedModulo: multiplication wraps at 64 bits, as in a build without overflow checks; a checked build would stop instead. Model fields are unbounded naturals, so the statements cover more than the code's 32-bit ones. The model catalogue is left out.
- `num_items`, `tracked_hashes`, `pool_count` and similar accessors, the decision ring buffer, identifier parsing and length-prefixed frames: true but easy.
