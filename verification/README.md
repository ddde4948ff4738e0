# gostore in Dafny

A model of gostore's hard parts and proofs about it: the quorum lock, the erasure-coded object store,
its version store, and the stateful pieces of its API layer. Each file models one component; what the
source updates step by step is a class or a method with loops here, proved against a function of the
old state, and the lemmas beside it prove what that function means over every input or every run.

| file | component | main results |
|---|---|---|
| LockTable.dfy | one node's lock table and its tokens | who is granted, exclusive or shared; fencing over every run; what a release frees |
| QuorumLock.dfy | N lock tables, clocks, a lossy network | mutual exclusion in every reachable state, no quorum for another token while one is kept, even by a majority that changes |
| Coordinator.dfy | grab, retry and undo over all peers | the first round with a quorum of yes answers wins; a win is held on a quorum, an undone loss leaves nothing |
| ErasureCode.dfy | splitting, joining, the code as an axiom | any k shards give the stripe back; the axiom can be met |
| Stripes.dfy, PartWriter.dfy | stripes, interleaved hashes, placement | every disk's file holds its shard of every stripe |
| RangedRead.dfy, ObjectRead.dfy | ranged reads over parts and stripes | succeeds if and only if each touched stripe has k good shards, and then emits exactly the range |
| Heal.dfy | scan, rebuild, metadata repair | heals if and only if each part has k whole files; a second pass rewrites nothing |
| QuorumMeta.dfy | two-phase commit and majority read of metadata | what each read tells, by counting copies; no stale read after a successful commit or delete, in every run; revisions increase |
| FailedCommit.dfy | what a failed commit leaves | the committed version is still found if and only if enough of its copies were spared; a full cleanup erases it |
| VersionStore.dfy | version log, live slot, archive, object lock | refines a list of versions; write once, read many and legal hold over every run |
| Snapshot.dfy | bucket snapshot and restore | restore is time travel, and goes through if and only if every recorded version is left |
| Append.dfy | stat, read, conditional put | every interleaving of appends is their concatenation; of two that read the same one wins |
| Decommission.dfy | placement, locate, moves, draining | reads find the last put throughout; the drained set empties; one set stays active |
| SseStream.dfy | chunk encryption and range decryption | any range, read in any pieces, decrypts to exactly its plaintext; any other stream to what precedes its first bad chunk, and the error; no nonce twice |
| RateLimiter.dfy | token buckets with idle sweeping | the window bound holds if and only if ten minutes earn a burst; nothing earned is forfeited |
| AuditRing.dfy | hash-chained audit ring | the walk visits the last entries; tampering shows |
| ObjectCache.dfy | LRU cache | a hit is the last put if and only if no larger put came after; within the budget every fresh entry hits; evicts the least recently used |
| Listing.dfy | paged listing | following the tokens shows every key once, in order |
| Basics.dfy, Options.dfy | bytes, optional values | |

## What the proofs say about the code

Stated as lemmas where the model covers it:

- The fence of a lock table is dropped by a matching release (`LockTable.ReleaseDropsTheFence`): a token
  older than one that was already served is granted again. Fencing holds between matching releases.
- One tick past the time to live a holder that was not told can be replaced
  (`QuorumLock.ExpiryLetsAnotherIn`); exclusion is for holders whose last quorum of yes answers is within it.
  The holder's majority may be a different one at every moment; then another token gathers no quorum within
  any one time to live (`QuorumLock.NoQuorumWhileAnyHeld`), though it may over a longer time
  (`QuorumLock.MajorityMovesOn`).
- Callers of the namespace lock ignore the error of `GetLock` (for example
  internal/erasure/pool.go:219), so that an operation is atomic per key is an assumption of the models
  that say so, not a consequence of the lock.
- A commit whose own first read fails starts over at revision 1, so revisions grow if and only if that
  read found the object (`QuorumMeta.RevisionGrowsIff`, `FailedCommit.RevisionRestarts`).
- A failed commit's cleanup deletes the key on every disk, also on those that still hold the version committed
  before. When it gets through, an acknowledged object is gone after a later write was refused
  (`FailedCommit.FullCleanupErases`, `FailedCommit.FailedCommitLosesObject`). Reads still find the committed
  version if and only if a read quorum of its copies was spared and the failed version does not win the tie
  (`FailedCommit.StillFoundIff`).
- One disk that fails on a stripe the encoder comes to makes it fail the whole part, whatever the write
  quorum; a disk that fails on closing its file only counts against the quorum (`PartWriter.EncodePart`).
- A read needs k good shards in each stripe it touches; healing needs k files that are good throughout,
  so an object can be readable in full and still not healable (`Heal.ReadableNotHealable`). An empty object has no shard files and
  heal reports too few shards for it (`Heal.EmptyPartNotHealable`).
- The version listing takes no notice of its markers, so every page is the first page: the listing loop of
  a restore ends if and only if the bucket has fewer than 1000 versions, and a snapshot of a larger bucket
  repeats the first page until its cap is reached (`Snapshot.CurrentLatest`, `Snapshot.CreateSnapshot`,
  `Snapshot.LargeBucketSnapshot`).
- An append whose object is overwritten by a plain put of the same length between stat and read, and put
  back before the conditional put, succeeds and changes earlier bytes (`Append.OverwriteBreaksAppend`); in
  general a passing put extends the object if and only if the bytes read carry the ETag of the stat
  (`Append.ExtendsIff`), which the code does not check.
- A delete while a set drains removes the copy that locate finds; a key that was put during the drain can
  have a second, older one, which then shows again (`Decommission.DeleteTakesIff`, `Decommission.DeletedShowsOld`).
- Sweeping idle rate-limit buckets is invisible, and the window bound holds, if and only if ten minutes
  earn at least a burst (`RateLimiter.SweepingIff`). With a very low rate a swept bucket comes back full.
- The audit handler reports a ring as intact when `verify` returns 0, which it also does when the first
  entry that does not fit is numbered 0 (`AuditRing.VerdictIs`): renumbering an entry shows if and only if its
  new number is not 0 (`AuditRing.RenumberingShowsIff`).
- A cache put above the object ceiling returns before it drops the older entry of the same key, so a later get
  can return the old bytes (`ObjectCache.StaleHit`). A hit is the last put of its key not evicted since if and
  only if no put above the ceiling came after the one it returns (`ObjectCache.HitIsLastPutIff`).

## Model

| member | source | states |
|---|---|---|
| Tokens.TokenRoundTrip | internal/cluster/dsync.go:357-381 | an issued token gives back the counter value it was made from, for every counter and random part |
| LockTable.LockTableServer.Acquire | internal/cluster/dsync.go:54-92 | when a request is granted, exclusive or shared, by the fields of the table, and the new table |
| LockTable.AnswerIs | internal/cluster/dsync.go:54-92 | a yes is a hold of the asker for a full time to live, a no changes nothing, and no other resource is touched |
| LockTable.SharedGrantIff | internal/cluster/dsync.go:74-92 | a reader is let in if and only if the resource is free, expired or held by readers, and the readers there stay |
| LockTable.LockTableServer.Release | internal/cluster/dsync.go:94-122 | the new table after a release: an exclusive one only by its holder and then the fence goes too, a shared one takes its reader out |
| LockTable.LockTableServer.Refresh | internal/cluster/dsync.go:124-140 | a live hold of this token gets a full time to live, anything else is refused and unchanged |
| LockTable.ReleasedIff | internal/cluster/dsync.go:94-122 | the resource is free again if and only if its exclusive holder or its last reader let go |
| LockTable.SharedHasReader | internal/cluster/dsync.go:54-140 | after every run a shared hold has a reader |
| LockTable.ReleaseFreesOnlyItsOwn | internal/cluster/dsync.go:94-122 | a late release by another token changes no holder and no expiry but its own |
| LockTable.FenceStep | internal/cluster/dsync.go:54-140 | each operation keeps an exclusive holder at the fence; only a matching release lowers it |
| LockTable.Fencing | internal/cluster/dsync.go:54-140 | in every run, between matching releases exclusive grants have non-decreasing sequences and the holder is at the high-water mark |
| LockTable.ReleaseDropsTheFence | internal/cluster/dsync.go:94-122 | after a matching release an older token is granted |
| NodeSets.MajoritiesMeet | internal/cluster/dsync.go:219-226 | two sets of nodes of more than half in all share a node |
| QuorumLock.ServeKeepsBacking | internal/cluster/dsync.go:54-140 | a hold within its time survives any request to its table but its own release |
| QuorumLock.StepKeepsInv | internal/cluster/dsync.go:182-355 | every step (begin, send, deliver late or again, lose, tick one clock) keeps each live yes backed by its table |
| QuorumLock.RunKeepsInv | internal/cluster/dsync.go:182-355 | so does every run |
| QuorumLock.FreeNodeGrants | internal/cluster/dsync.go:54-92 | a node with the resource free, expired or open to readers, and no younger fence, gives a live yes |
| QuorumLock.LiveGrantRefreshes | internal/cluster/dsync.go:124-140 | a refresh that arrives while the yes is live starts its time anew |
| QuorumLock.SentToAll | internal/cluster/dsync.go:258-279 | beginning, refreshing and dropping send their request to every node |
| QuorumLock.ReleaseFrees | internal/cluster/dsync.go:94-122 | a release that arrives takes the token off the node |
| QuorumLock.MutualExclusion | internal/cluster/dsync.go:225-355 | in every reachable state a live exclusive quorum excludes any other quorum, exclusive or shared, on the resource |
| QuorumLock.KeptNodesRefuse | internal/cluster/dsync.go:54-140 | a node whose yes to the holder is kept up refuses every other token over the whole stretch |
| QuorumLock.NoQuorumWhileHeld | internal/cluster/dsync.go:225-355 | while a token keeps a quorum, by refreshes or within the time to live, no other token gathers one from answers of that stretch |
| QuorumLock.GatheredExcludes | internal/cluster/dsync.go:225-355 | once a token has gathered a quorum of yes answers within one time to live no other has a live quorum, unless both are readers |
| QuorumLock.NoQuorumWhileAnyHeld | internal/cluster/dsync.go:225-355 | the same stretch with a different quorum of the holder at every moment: in no window of one time to live does another token gather one |
| QuorumLock.MajorityMovesOn | internal/cluster/dsync.go:225-355 | a concrete run on three nodes in which it does over a longer window |
| QuorumLock.ExpiryLetsAnotherIn | internal/cluster/dsync.go:338-355 | a concrete run in which, one tick past the time to live, a second token has a quorum |
| Coordinator.TryAll | internal/cluster/dsync.go:258-279 | every reached table is changed as its operation says, no other, and the count is that of the yes answers that came back |
| Coordinator.YesMeansHeld | internal/cluster/dsync.go:258-279 | as many tables hold the token for a full time to live as answered yes, at least |
| Coordinator.UndoneRound | internal/cluster/dsync.go:286-336 | a round that is undone everywhere leaves its token nowhere and hands no table to another |
| Coordinator.ConfirmedAreHolders | internal/cluster/dsync.go:338-355 | a refresh is confirmed by exactly the reached peers that hold the token, and each holds it for a full time to live again |
| Coordinator.FreeQuorumWins | internal/cluster/dsync.go:286-317 | where more than half of the peers are reached and free the first round wins |
| Coordinator.GrabLock | internal/cluster/dsync.go:286-317 | the first round with a yes from more than half of the peers wins, and the call is lost if and only if there is none; a win is held on a quorum for a full time to live; after a loss whose undos arrive none of its tokens is anywhere |
| QuorumMeta.Tally | internal/erasure/set.go:552-564 | the count of every version among the answers and a copy of each |
| QuorumMeta.Pick | internal/erasure/set.go:565-577 | a (copies, revision) maximum, for any order the versions come in |
| QuorumMeta.Decide | internal/erasure/set.go:552-577 | the decision: a winner by copies and revision, how often it was seen, how many disks answered |
| QuorumMeta.WinnersTie | internal/erasure/set.go:565-577 | two possible winners agree in copies and in revision |
| QuorumMeta.WinnerDecides | internal/erasure/set.go:524-601 | a version on a decisive number of answers is the only winner |
| QuorumMeta.ReadMeta | internal/erasure/set.go:524-601 | not found if and only if no answering disk has a copy, corrupt if and only if some has but no version is on half of the disks, else a version that is, as the two phases decide |
| QuorumMeta.ReadTells | internal/erasure/set.go:595-601 | the same of every result the quorum rules allow |
| QuorumMeta.CommitMeta | internal/erasure/set.go:382-423 | when a commit succeeds, by staged and acknowledged disks, its revision, and what is on every disk afterwards, also when it was fenced, lost its quorum or was cleaned up |
| QuorumMeta.DeleteObject | internal/erasure/set.go:896-904 | the copies that a delete removes, and success exactly on more than half of the disks |
| QuorumMeta.CommitBuriesTheRest | internal/erasure/set.go:382-423 | a successful commit leaves every other version on fewer disks than a read needs |
| QuorumMeta.DeleteBuriesAll | internal/erasure/set.go:896-904 | so does a successful delete, for every version |
| QuorumMeta.OldVersionsDoNotSpread | internal/erasure/set.go:382-423 | no commit, delete, heal or loss puts an older version on another disk |
| QuorumMeta.StepKeepsInv | internal/erasure/set.go:382-423 | commits, deletes, heals and losses that reach any disks, fail half-way and clean up in part keep old versions buried |
| QuorumMeta.RunKeepsInv | internal/erasure/set.go:382-423 | so does every run |
| QuorumMeta.FoundHasQuorum | internal/erasure/set.go:524-601 | what a read finds is on a read quorum of disks |
| QuorumMeta.NoStaleRead | internal/erasure/set.go:524-601 | after a successful commit or delete no read over any answering disks returns a version issued before it |
| QuorumMeta.ReadAfterCommit | internal/erasure/set.go:524-601 | right after a commit a read returns exactly that version if and only if a read quorum of its disks answers |
| QuorumMeta.ReadAfterDelete | internal/erasure/set.go:896-904 | right after a delete nothing is found; the read says not found if and only if no answering disk kept its copy |
| QuorumMeta.RevisionGrowsIff | internal/erasure/set.go:389-398 | a commit outranks the last one if and only if its own first read found the object |
| QuorumMeta.RevisionsIncrease | internal/erasure/set.go:389-398 | successive successful commits have strictly increasing revisions, whatever failed in between, without deletes and with first reads that answer |
| FailedCommit.FullCleanupErases | internal/erasure/set.go:412-415 | after a failed commit whose cleanup reached every disk every read finds nothing |
| FailedCommit.CommitLeavesOnlyCandidate | internal/erasure/set.go:382-423 | after a successful commit its version is the only one that a read can find |
| FailedCommit.StillFoundIff | internal/erasure/set.go:382-423 | after a failed commit every read over some answering disks finds the committed version if and only if enough of its copies were spared and the failed version does not win |
| FailedCommit.FailedCommitIsNotRead | internal/erasure/set.go:382-423 | a run in which a commit fails, its cleanup reaches no disk, and a read returns the version before it |
| FailedCommit.FailedCommitLosesObject | internal/erasure/set.go:412-415 | a run in which the cleanup of a failed commit takes away the object committed before it |
| FailedCommit.RevisionRestarts | internal/erasure/set.go:389-398 | a run with two successful commits of revision 1, the second one having found nothing |
| ErasureCode.JoinSplit | internal/erasure/erasure.go:125-148 | joining the data shards gives the data back, padding cut off |
| ErasureCode.EncodeShape | internal/erasure/erasure.go:126-136 | a stripe is n shards of the rounded-up length |
| ErasureCode.ReconstructStripe | internal/erasure/erasure.go:138-153 | any k shards of a stripe reconstruct all of them |
| ErasureCode.DecodeEncode | internal/erasure/erasure.go:126-148 | decoding what is left of an encoded stripe gives the data, whatever n - k shards are missing |
| ErasureCode.PairIsCode | internal/erasure/erasure.go:68-86 | the property asked of a code holds of a code with two data and two parity shards, what the smallest set needs |
| Stripes.StripeCount | internal/erasure/erasure.go:90-113 | stripe i has data if and only if i is below the number of stripes |
| Stripes.FullStripe | internal/erasure/erasure.go:115-123 | every stripe but the last is full, and a full stripe has full shards |
| Stripes.AppendStripe | internal/erasure/set.go:455-489 | a file with the blocks of m stripes and the hash and shard of the next holds m + 1 |
| Stripes.HoldsAllServes | internal/erasure/set.go:430-514 | a file with all stripes serves the original block of each |
| Placement.BuildDistribution | internal/erasure/xlmeta.go:161-173 | the placement is the identity rotated by the hash: a permutation of the disks |
| Placement.ShardForDisk | internal/erasure/xlmeta.go:149-156 | the shard a disk holds, and -1 exactly when it holds none |
| PartWriter.EncodeChunk | internal/erasure/erasure.go:126-136 | the shards of one stripe are those the reader will expect |
| PartWriter.WriteStripe | internal/erasure/set.go:455-489 | each stripe appends hash and shard to the file of the disk the placement names |
| PartWriter.EncodeStripes | internal/erasure/set.go:455-489 | the loop stops at a stripe some disk fails on, else where the reader breaks off; else every file holds its shard of every stripe of the content |
| PartWriter.EncodePart | internal/erasure/set.go:430-514 | which disk failures and reader failures fail the part, at whatever stripe they come, and that otherwise every disk but those failing at the end serves its shard of every stripe |
| RangedRead.ReadBlockReads | internal/erasure/set.go:749-774 | a block is read if and only if it is there and passes its hash, and then it is the original one |
| RangedRead.StripeDecodes | internal/erasure/set.go:778-798 | with k good shards a stripe decodes to its data |
| RangedRead.ReadStripe | internal/erasure/set.go:737-786 | the blocks of one stripe from all open readers, each reader moved on by one block |
| RangedRead.EmitStripe | internal/erasure/set.go:800-820 | the skip and remaining arithmetic cuts a stripe to its share of the range |
| RangedRead.Emit | internal/erasure/set.go:800-820 | the output grows by exactly that share |
| RangedRead.TouchedRange | internal/erasure/set.go:684-731 | the stripes visited are exactly those the range touches |
| RangedRead.ReadStripes | internal/erasure/set.go:726-823 | the loop stops past the range, or at the first stripe short of k good shards |
| RangedRead.ReadWanted | internal/erasure/set.go:675-841 | a part read succeeds if and only if every touched stripe has k good shards, and emits exactly the range |
| RangedRead.ReadPart | internal/erasure/set.go:675-841 | the same with the etag check of a part that is read whole, which never fails on faithful shards |
| ObjectRead.ReadOnePart | internal/erasure/set.go:652-670 | one part of the walk: skipped, read in part or read to its end |
| ObjectRead.WalkNext | internal/erasure/set.go:652-670 | each part keeps the output equal to the range so far |
| ObjectRead.ReadParts | internal/erasure/set.go:615-671 | all parts: success if and only if every touched stripe of every part is readable |
| ObjectRead.ReadInline | internal/erasure/set.go:626-643 | an inline object gives the range from its metadata |
| ObjectRead.ClipIs | internal/erasure/set.go:616-623 | the positions read are those of the object from the offset on and within the length, if there is one |
| ObjectRead.GetObject | internal/erasure/set.go:605-671 | the read succeeds if and only if the object is inline or every touched stripe has k good shards, and then gives exactly the bytes that were put |
| ObjectRead.ResolveNames | internal/erasure/pool.go:530-552 | the resolved range is exactly the positions named in section 2.1 of RFC 7233, and which ranges are refused |
| ObjectRead.GetRange | internal/erasure/pool.go:274-354 | a ranged get emits exactly the bytes at the named positions |
| ObjectRead.SurvivesLostDisks | internal/erasure/set.go:430-514 | an encoded part reads back over any range after the loss of any n - k disks |
| Heal.ShardIntact | internal/erasure/heal.go:198-239 | a shard file is intact if and only if every block is there and passes its hash |
| Heal.StripeRebuilds | internal/erasure/heal.go:242-333 | with k good shards elsewhere a stripe gives back the block that was lost |
| Heal.RebuildShard | internal/erasure/heal.go:242-333 | the file is rebuilt if and only if the other disks have k good shards of every stripe, and then serves the original block of each |
| Heal.FindBad | internal/erasure/heal.go:172-177 | the disks whose files are not whole, in order |
| Heal.RebuildAll | internal/erasure/heal.go:187-191 | with k whole files every bad file is rebuilt and the whole ones stay |
| Heal.HealedIsWhole | internal/erasure/heal.go:198-239 | a part that every disk serves is whole on every disk |
| Heal.UniformRead | internal/erasure/set.go:524-601 | when every disk holds the same copy a read returns it |
| Heal.SameRevision | internal/erasure/heal.go:139-145 | two reads of the same disks agree in revision, so heal never takes itself for a writer |
| Heal.HealMeta | internal/erasure/heal.go:147-155 | afterwards every disk holds the winning copy, and how many were rewritten |
| Heal.StoredObject.Changed | internal/erasure/heal.go:139-142 | without a writer the second look finds the same revision |
| Heal.StoredObject.HealPart | internal/erasure/heal.go:170-192 | one part: left alone when whole, refused below k whole files, otherwise rebuilt everywhere; whole files stay as they were |
| Heal.StoredObject.HealObject | internal/erasure/heal.go:123-194 | when heal fails, exactly; afterwards metadata is uniform, every disk serves every original block, and every file that was whole is as before |
| Heal.StoredObject.HealAgain | internal/erasure/heal.go:123-194 | an object in order heals without a rewrite |
| Heal.StoredObject.HealTwice | internal/erasure/heal.go:123-194 | the second of two heals rewrites nothing |
| Heal.HealedReadable | internal/erasure/set.go:605-671 | a healed object reads back over any range |
| Heal.LostDisksHealable | internal/erasure/heal.go:170-192 | a written part is healable after the loss of any n - k disks |
| Heal.EmptyPartNotHealable | internal/erasure/heal.go:170-183 | a part without bytes reads but counts as having no whole file |
| Heal.ReadableNotHealable | internal/erasure/heal.go:170-183 | two data and two parity shards, any part of two stripes: damage after which every range reads and heal gives up |
| VersionStore.VersionedKey.ArchiveCurrent | internal/erasure/versioning.go:95-113 | the live object moves to the archive under its own id |
| VersionStore.VersionedKey.PutVersion | internal/erasure/versioning.go:124-185 | a put archives the live object, becomes live and appends its entry |
| VersionStore.VersionedKey.DeleteLatest | internal/erasure/versioning.go:318-337 | a delete archives the live object and appends a marker |
| VersionStore.VersionedKey.DeleteVersion | internal/erasure/versioning.go:339-380 | when a version delete finds nothing, is locked or gets through, by the fields of the entry; then it is removed, with the one beneath promoted when the newest goes |
| VersionStore.DeleteOutcome | internal/erasure/versioning.go:42-56 | a delete is locked if and only if the entry has a hold, a running compliance retention, or a running governance one that is not bypassed |
| VersionStore.UnlockedGoes | internal/erasure/versioning.go:339-380 | a version whose retention has ended or is bypassed, without hold, is deleted and gone |
| VersionStore.FindId | internal/erasure/lock.go:13-30 | the index is that of the first entry with the id, and -1 if and only if there is none |
| VersionStore.VersionedKey.PutRetention | internal/erasure/lock.go:44-72 | the mode and time of the request are written to the entry it names, or why not |
| VersionStore.RetentionOutcome | internal/erasure/lock.go:44-72 | a retention request is refused if and only if it weakens what is running, else written; without an id it names the newest |
| VersionStore.VersionedKey.PutLegalHold | internal/erasure/lock.go:82-98 | the hold of the named entry is set, nothing else |
| VersionStore.HoldOutcome | internal/erasure/lock.go:82-98 | a hold request gets through whenever it names an entry, and sets its hold to what it says |
| VersionStore.StepKeepsInv | internal/erasure/versioning.go:124-380 | every operation keeps each entry backed by the bytes of its put, and no stray object |
| VersionStore.RunKeepsInv | internal/erasure/versioning.go:124-380 | so does every run |
| VersionStore.ReadsBack | internal/erasure/versioning.go:198-214 | every logged version reads back as exactly what its put wrote, and no other id reads at all |
| VersionStore.RefinesList | internal/erasure/versioning.go:124-380 | each operation does to the visible history what it does to a plain list of versions |
| VersionStore.LiveIsNewest | internal/erasure/versioning.go:198-214 | there is a live object if and only if the newest entry is no marker, and it is that version |
| VersionStore.DeleteNewestExposes | internal/erasure/versioning.go:339-380 | deleting the newest entry re-exposes the one beneath it |
| VersionStore.StepKeepsRetained | internal/erasure/versioning.go:42-56 | no single operation before its end weakens a retention |
| VersionStore.Worm | internal/erasure/versioning.go:42-56 | over every run before its end a retained version stays there, readable with its bytes, in its mode and retained as long |
| VersionStore.RetainedIsUndeletable | internal/erasure/versioning.go:42-56 | and every version delete of it is refused |
| VersionStore.RetentionTakes | internal/erasure/lock.go:44-72 | an accepted compliance retention is one that these laws protect |
| VersionStore.HeldStays | internal/erasure/versioning.go:42-56 | over every run that does not lift its hold a held version stays there, readable with its bytes and held |
| VersionStore.HeldIsUndeletable | internal/erasure/versioning.go:42-56 | and every version delete of it is refused, at any time, with or without bypass |
| Snapshot.ListVersions | internal/erasure/versioning.go:422-520 | a page is the first 1000 versions, newest first within each key, and is truncated if and only if there are at least 1000 |
| Snapshot.CurrentLatest | internal/api/handlers_snapshot.go:194-223 | the listing loop of the restore ends if and only if there are fewer than 1000 versions, and then knows every key's newest |
| Snapshot.CreateSnapshot | internal/api/handlers_snapshot.go:80-106 | the manifest is every live key with its newest version; from 1000 versions on it is the picks of the first page over and over, cut at the cap |
| Snapshot.LargeBucketSnapshot | internal/api/handlers_snapshot.go:80-106 | with enough pages the cap is reached if and only if the first page picks anything, and the manifest is then not the live keys |
| Snapshot.TopsAreLatest | internal/api/handlers_snapshot.go:203-217 | a complete listing tells the newest version of each key, and whether it is a marker |
| Snapshot.EntriesAreLive | internal/api/handlers_snapshot.go:85-97 | the manifest names exactly the live keys, each once |
| Snapshot.BucketAdmin.RollEntries | internal/api/handlers_snapshot.go:225-244 | the rollback loop: what it copies, where it stops, what it counts, and that a dry run changes nothing |
| Snapshot.BucketAdmin.RemoveExtra | internal/api/handlers_snapshot.go:245-260 | a delete marker on exactly the live keys the snapshot does not know, in any order |
| Snapshot.BucketAdmin.Restore | internal/api/handlers_snapshot.go:164-264 | the whole restore: bucket, report and failure |
| Snapshot.RollBackByKey | internal/api/handlers_snapshot.go:225-244 | each recorded key is rolled back once and no other key is touched |
| Snapshot.RecordedBytes | internal/erasure/versioning.go:198-214 | a recorded version that is still there holds the bytes the key showed |
| Snapshot.RestorableIff | internal/api/handlers_snapshot.go:225-244 | a restore gets through if and only if every recorded version is still in its log |
| Snapshot.TimeTravel | internal/api/handlers_snapshot.go:164-264 | after any run a restore shows exactly what was visible at the snapshot, and extends each history by at most one entry |
| Append.AppendTarget.Stat | internal/api/handlers_append.go:48-66 | wrong offset if and only if it is not the end of the object, too large if and only if the limit would be passed, else accepted |
| Append.AppendTarget.Read | internal/api/handlers_append.go:78-93 | the second look and the length check |
| Append.AppendTarget.Put | internal/erasure/pool.go:218-228 | the put with its ETag precondition, atomic under the lock |
| Append.StepKeepsInv | internal/api/handlers_append.go:34-127 | every step keeps each request's view one the object has had |
| Append.CommitKeepsInv | internal/api/handlers_append.go:94-120 | a put that passes extends the current content by its delta |
| Append.AppendsInOrder | internal/api/handlers_append.go:34-127 | every interleaving leaves the initial content and then the successful deltas in commit order, each at its offset, within the limit |
| Append.OwnsItsBytes | internal/api/handlers_append.go:34-127 | a success at offset N owns [N, N + len) in all later contents |
| Append.CommitsIff | internal/erasure/pool.go:218-228 | a put commits if and only if the object has the ETag of the stat, or is gone |
| Append.AloneSucceedsIff | internal/api/handlers_append.go:34-127 | a request that nobody gets between succeeds if and only if it names the end and fits |
| Append.CreatesIff | internal/api/handlers_append.go:34-127 | where there is no object a request creates it if and only if it names offset 0 |
| Append.OneWins | internal/api/handlers_append.go:87-120 | of two requests that read the same content one commits and the other is told its offset is wrong |
| Append.ExtendsIff | internal/api/handlers_append.go:87-103 | with other writers a passing put extends the object if and only if the bytes read carry the ETag of the stat |
| Append.OverwriteBreaksAppend | internal/api/handlers_append.go:87-103 | a run with plain puts in which a successful append loses a byte |
| Decommission.ActiveCount | internal/erasure/decommission.go:107-117 | active and draining sets are all sets |
| Decommission.Pool.ActiveSets | internal/erasure/decommission.go:107-117 | the active sets in index order |
| Decommission.Pool.WriteTarget | internal/erasure/pool.go:72-82 | where a write of a key goes |
| Decommission.Pool.Find | internal/erasure/decommission.go:121-144 | the set locate answers: the target if the key is there, else the first set that has it |
| Decommission.LocateIs | internal/erasure/decommission.go:121-144 | the write target while nothing drains or when it has the key, else the first set that has it |
| Decommission.SpreadIs | internal/erasure/pool.go:72-82 | each set, or while draining each active set, takes the keys whose hash is its place modulo their number |
| Decommission.Pool.PutObject | internal/erasure/pool.go:207-249 | a put writes to the target set and no other |
| Decommission.Pool.Decommission | internal/erasure/decommission.go:147-187 | a set starts draining if and only if it exists, does not drain, no drain runs and another set stays active; each refusal in its order |
| Decommission.Pool.MoveObject | internal/erasure/decommission.go:320-339 | the move of one key with faults in copy or delete |
| Decommission.MoveIs | internal/erasure/decommission.go:320-339 | a move gets through if and only if a copy ends up at the target and the one at the source could be dropped; what the target had stays |
| Decommission.Pool.RunDecommission | internal/erasure/decommission.go:230-265 | the worker is the run of its moves; without failures nothing listed is left on the set; without faults there are none |
| Decommission.DecommissionsLeaveOneActive | internal/erasure/decommission.go:147-187 | after any sequence of calls at least one set is active |
| Decommission.StartDrain | internal/erasure/decommission.go:147-187 | marking a set loses no key |
| Decommission.PutKeepsDraining | internal/erasure/pool.go:72-82 | a put during a drain keeps every key findable |
| Decommission.MoveKeepsDraining | internal/erasure/decommission.go:320-339 | so does a move, however far it gets |
| Decommission.LocateFindsLast | internal/erasure/decommission.go:121-144 | locate finds a key if and only if it was put, with its last content |
| Decommission.DrainKeepsReads | internal/erasure/decommission.go:121-144 | so in every interleaving of puts, reads and moves of one decommission |
| Decommission.MovedIsGone | internal/erasure/decommission.go:230-265 | nothing comes to the draining set and a move without faults takes its key off |
| Decommission.DrainEmpties | internal/erasure/decommission.go:230-265 | a drain without faults empties the set, whatever is put meanwhile |
| Decommission.DeleteTakesIff | internal/erasure/pool.go:364-389 | a delete during a drain takes the key away if and only if there is no second copy; else the copy of the plain set shows |
| Decommission.DeletedShowsOld | internal/erasure/pool.go:364-389 | any key of the set being drained, put and then deleted, reads as its content from before the put |
| SseStream.SoundIsPossible | internal/sse/sse.go:67-73 | what is asked of sealing and opening can be met |
| SseStream.PlainOfCipher | internal/sse/sse.go:40-65 | PlainSize undoes CipherSize |
| SseStream.CipherOfPlainIff | internal/sse/sse.go:40-65 | CipherSize undoes PlainSize if and only if the size is that of some stream |
| SseStream.NonceInjective | internal/sse/sse.go:75-80 | different 64-bit counters give different nonces |
| SseStream.SealedChunk | internal/sse/sse.go:100-125 | chunk i of the stream seals piece i of the plaintext under the nonce with counter i |
| SseStream.NoNonceTwice | internal/sse/sse.go:100-125 | no two chunks of an object are sealed under the same nonce |
| SseStream.SealedSize | internal/sse/sse.go:82-87 | the stream of n bytes has CipherSize(n) bytes |
| SseStream.OpenSealed | internal/sse/sse.go:154-204 | opening a sealed stream gives the plaintext and ends cleanly |
| SseStream.ForgedChunk | internal/sse/sse.go:154-204 | a chunk that fails authentication ends the stream with that error after the plaintext before it, whatever follows |
| SseStream.ShortChunk | internal/sse/sse.go:154-204 | a last piece of no more than a tag ends it as truncated |
| SseStream.OpenedIs | internal/sse/sse.go:154-204 | any stream opens to its leading chunks that open, by index, and the end says why the next did not |
| SseStream.SealedSplit | internal/sse/sse.go:100-125 | a stream cut at a chunk boundary is two streams |
| SseStream.RangeSizes | internal/erasure/encryption.go:110-119 | cipherRange cuts at chunk boundaries and covers the range |
| SseStream.RangeSlice | internal/erasure/encryption.go:110-119 | the slice it names is the stream of the chunks it covers |
| SseStream.RangeDecrypts | internal/erasure/encryption.go:110-119 | opening the slice of any in-range (off, len) gives plaintext[off..off + len) |
| SseStream.EncReader.Read | internal/sse/sse.go:100-125 | each read hands out the next bytes of the sealed stream; the end comes when it is all out, never for a broken input |
| SseStream.DecReader.Cut | internal/sse/sse.go:183-195 | skip and remain cut a chunk to its share of the range |
| SseStream.DecReader.Fill | internal/sse/sse.go:154-196 | one chunk: opened, or how the stream ends |
| SseStream.DecReader.Read | internal/sse/sse.go:154-204 | each read hands out the next bytes of the range, for any input; then the end, or what cut it short |
| SseStream.ReadRange | internal/sse/sse.go:130-204 | any stream, read in pieces of any sizes: the range of what precedes the first bad chunk; a good end if and only if that is all the range asks for or the stream ends there, else that error |
| SseStream.EncryptAll | internal/sse/sse.go:100-125 | read in pieces of any sizes, the whole stream |
| SseStream.DecryptRange | internal/sse/sse.go:130-204 | read in pieces of any sizes, exactly the plaintext of the range |
| RateLimiter.Configured | internal/api/ratelimit.go:29-42 | rate and burst as configured; without a burst twice the rate; at least 5 in any case |
| RateLimiter.RateLimiter.Sweep | internal/api/ratelimit.go:55-59 | exactly the buckets idle for more than ten minutes go |
| RateLimiter.RateLimiter.Allow | internal/api/ratelimit.go:45-77 | the new buckets and the answer of one call |
| RateLimiter.TokensBalance | internal/api/ratelimit.go:45-77 | tokens granted and left never exceed those there were and those earned since |
| RateLimiter.WindowBound | internal/api/ratelimit.go:45-77 | at most burst + rate * t calls in any window of length t, after any run |
| RateLimiter.TokensKept | internal/api/ratelimit.go:45-77 | tokens granted and left are at least those there were and those earned, up to a full bucket, in every run |
| RateLimiter.RefusedOnlyWhenSpent | internal/api/ratelimit.go:45-77 | a call is refused only to an identity that has used its burst and what it earned since |
| RateLimiter.SweepKeepsLevel | internal/api/ratelimit.go:55-59 | a swept bucket would be full anyway, when ten minutes earn a burst |
| RateLimiter.SameAnswers | internal/api/ratelimit.go:45-77 | then every call gets the answer it would get without sweeping |
| RateLimiter.BoundBreaks | internal/api/ratelimit.go:45-77 | otherwise a run in which one identity passes the bound |
| RateLimiter.SweepingIff | internal/api/ratelimit.go:45-77 | the bound holds, and sweeping is invisible, if and only if ten minutes earn a burst |
| AuditRing.WalkIndex | internal/api/audit.go:141-142 | the walk's index arithmetic finds the slots of the last n entries |
| AuditRing.AuditLog.Record | internal/api/audit.go:103-114 | the entry appended to the chain, the ring holding the last ones |
| AuditRing.AuditLog.WalkVisitsLast | internal/api/audit.go:137-172 | the walk visits exactly the last min(count, capacity) entries in order |
| AuditRing.AuditLog.Snapshot | internal/api/audit.go:137-151 | the newer entries, at most the last `limit` |
| AuditRing.AuditLog.Verify | internal/api/audit.go:155-172 | the verdict on whatever the ring holds |
| AuditRing.VerdictIs | internal/api/audit.go:155-172 | all entries count if and only if the window is linked; 0 is reported if and only if it is, or the first bad entry is numbered 0 |
| AuditRing.RenumberingShowsIff | internal/api/audit.go:155-172 | an entry given another number is where the walk stops, and the report is that number: it shows if and only if it is not 0 |
| AuditRing.AuditLog.UntouchedVerifies | internal/api/audit.go:155-172 | an untouched ring verifies |
| AuditRing.SameEndSameChain | internal/api/audit.go:129-135 | two linked windows of one length and one last hash are the same |
| AuditRing.AuditLog.TamperingShows | internal/api/audit.go:155-172 | any replacement that verifies to the same last hash is no change |
| ObjectCache.ObjCache.Get | internal/api/objcache.go:73-93 | hit, miss or stale entry dropped, and the counters |
| ObjectCache.GetIs | internal/api/objcache.go:73-93 | a get hits if and only if the key is cached and within its time to live, and a miss drops at most that entry |
| ObjectCache.ObjCache.Put | internal/api/objcache.go:95-119 | the entry at the front and the longest part of the list that fits |
| ObjectCache.ObjCache.Trim | internal/api/objcache.go:113-118 | the budget loop keeps exactly the front that fits |
| ObjectCache.ObjCache.Evict | internal/api/objcache.go:121-134 | exactly the matching entries go, whatever the map order |
| ObjectCache.ObjCache.EvictBucket | internal/api/objcache.go:136-148 | exactly the bucket's entries go |
| ObjectCache.ObjCache.RemoveLocked | internal/api/objcache.go:150-155 | list, map and byte count lose the entry together |
| ObjectCache.StepKeepsRefinement | internal/api/objcache.go:73-155 | every operation keeps list and map the same entries, cur their bytes and within the budget, what is cached the last put it took, the list by recency |
| ObjectCache.LastTakenIsLastPutIff | internal/api/objcache.go:95-119 | the last put within the ceiling is the last put if and only if none above the ceiling came after it |
| ObjectCache.HitIsLastPutIff | internal/api/objcache.go:73-119 | after every run a hit is the last put within the ceiling not evicted since, within its time to live; it is the last put of its key if and only if no put above the ceiling came after it |
| ObjectCache.HitIffWithinBudget | internal/api/objcache.go:73-119 | in every run within the budget a get hits if and only if the key was taken, not evicted since and is within its time to live |
| ObjectCache.StaleHit | internal/api/objcache.go:95-98 | a run of two puts after which a get returns the first |
| ObjectCache.EvictsLeastRecentlyUsed | internal/api/objcache.go:113-118 | a put evicts only entries used before all it keeps, and no more than needed |
| ObjectCache.PutThenGetIff | internal/api/objcache.go:73-119 | a put reads back if and only if it is within ceiling and budget; above the ceiling the old entry stays |
| ObjectCache.EvictExact | internal/api/objcache.go:121-148 | for names without NUL the prefixes match exactly the entries of the key and of the bucket |
| Listing.DoList | internal/erasure/list.go:107-199 | one page: the first keys still wanted, whether there are more, where to go on |
| Listing.LeIs | internal/erasure/list.go:140-146 | keys are compared as strings: a prefix comes first, else the smaller character where they first differ |
| Listing.WantedIs | internal/erasure/list.go:140-146 | what is wanted is what has the prefix and lies after the marker |
| Listing.WantedAfter | internal/erasure/list.go:140-172 | going on after a shown key leaves exactly the keys after it |
| Listing.FollowTokens | internal/erasure/list.go:217-236 | following the tokens shows every readable key with the prefix once, in order, in as many pages as the keys need |
| Listing.EveryKeyOnce | internal/erasure/list.go:140-177 | when all can be read, exactly the keys with the prefix, sorted and without repetition |

## Left out

- Fault model of shards: a shard block is the one this write put there, missing, or fails its hash. A
  self-consistent shard left by an older write is outside it; readPart opens shards without comparing that disk's metadata.
- Reed-Solomon, the bitrot hash, AES-GCM, MD5 and SHA-256 themselves: they are functions with the property that is used
  (any k shards determine a stripe; opening undoes sealing; distinct contents, distinct tags).
- Heal beside a writer: its revision check is check-then-act, so heal is modelled without one. In the runs of
  QuorumMeta a heal of the metadata is one step, reading and writing any disks.
- QuorumMeta.StepKeepsInv: each commit's identity (size, time, ETag, parts, inline bytes) is taken to be fresh. Two commits
  that agree in all of it are one version to the source's decision.
- Suspended versioning, and unversioned operations on versioned keys: a suspended put does not archive a live version.
- Copies of lock fields in the live object's metadata (internal/erasure/lock.go:34-42), and modification times in the version log.
- Deleting the disk files of a version can fail in the source; the version store's disk operations succeed.
- Append of an object that does not exist yet is a branch of the model, but no claim is made for creation races, which
  have no precondition. The claims start from an existing object and no deletes. A failing stat inside the put skips
  the precondition; it does not happen while the object is there and readable.
- Second and later drains, and deletes during a drain, beyond `Decommission.DeleteTakesIff`: stale copies remain on other sets.
  Versioned keys, rebalancing and the persisted layout are not part of the drain model.
- Decommission.Pool.MoveObject: models the unversioned branch; a failed copy is taken to leave nothing behind.
- Listing with a delimiter across pages (the marker is the common prefix, the filter compares raw keys), and versioned listings
  but for the snapshot's.
- Listing.FollowTokens: a continuation token is its marker; base64 is not modelled.
- Keys nested under other keys, which share directories.
- The legacy per-stripe checksum format, deduplication, tiering, compression, backup and replication.
- SseStream.DecReader.Read: a key of a wrong length, which fails every read, is not modelled.
- RateLimiter.RateLimiter.Allow: tokens are reals, so rounding is not modelled; the call counter does not wrap, which does not matter
  as its width is a multiple of the sweep period.
- AuditRing.AuditLog.Record: sequence numbers do not wrap; the daily file and restarts beyond the hash and number taken over are left out.
- ObjectCache.ObjCache.Get: the list holds keys, so the identity of list elements is not modelled; object metadata rides along with the data.
- Snapshot.BucketAdmin.Restore: a listing that does not end is cut off after a number of pages given by the caller; sizes and ETags in the manifest are left out.
- QuorumLock: the fan-out of one round runs in any order and at any later time as separate steps; the back-off times are left out.
  Token counters are drawn per process in the source; the model only needs tokens to be fresh.
- Coordinator.GrabLock: its rounds run with no other coordinator in between and at one clock reading for all tables;
  interleaved coordinators, late messages and separate clocks are in QuorumLock.
- Coordinator.TryAll: answers are taken in peer order; the source asks all peers at once, and no result depends on the order.
- Goroutine scheduling, fsync, HTTP, signatures, configuration parsing, metrics and the console.
