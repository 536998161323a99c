# MLStoreDB engine: a verified model

MLStoreDB is an embedded document store: an encrypted, append-only record log
underneath, a page cache, secondary indexes, a query planner and a graph cache on
top, and a BSON wire protocol in front. Every fast part has to agree with one simple
thing, a map from collection and id to document. This project models those parts in
Dafny 4.11 and proves that they do, or says exactly when they do.

`dafny verify dfyconfig.toml` checks everything.

## What is modelled

Each file is one module; imports follow the program's own layering.

**Durability** (`ByteCodec`, `RecordLog`, `LogLaws`, `Scan`, `TornTail`, `FlushProtocol`,
`FlushRuns`, `FlushSafety`, `FlushCrash`, `FlushSteps`, `FlushEffects`, `FlushFailures`,
`FileStore`). The record format, the recovery scan as nested loops over bytes proved equal
to replaying the committed records in order, and the three-step flush (snapshot under the
lock, write outside it, reconcile) as a step system in which mutations, cache loads,
evictions, collection drops, compactions and crashes, also in the middle of an append,
happen in any order. One invariant ties the store to a plain map of documents and the file
to a map the store once held. `FlushCrash.Safe` gives each step its condition;
`FlushCrash.StepExact` proves that the step keeps the invariant if and only if it holds,
and `FlushCrash.RunsAreSafe` says the same of whole runs. `FlushEffects` adds that a flush
achieves something: afterwards the file holds what is in memory. `LogLaws` says what a
file means in terms of its bytes, and that damaged ones are refused. `FileStore` is the
same store as an object whose methods change entry flags, offsets and the deletion queue
in loops; each is proved to compute the protocol's function.

Some of the program's promises hold only under a condition. For each there is the
condition, proved to be exact, and a concrete input or run where it fails; the runs start
from a new store and take every step the program would take:

* After a torn append the reopened file is cut at the torn record, not after the last
  COMMIT (`db/filev2.go:288-297` and `878-882`; `doc/PLAN_V2.md:132` describes a cut at
  COMMIT, the model follows the code). Whole records of the unfinished batch stay and the
  next flush commits them (`FlushFailures.TornTailResurfaces`).
  `TornTail.TornTailExact` says, over the documents that later opens show, when that makes
  no difference; `FlushCrash.TearExact` says when the reopened store keeps the invariant.
  What the crash itself recovers is right in every case (`FlushCrash.TornCrash`).
* That next flush also writes every index from memory, without the documents it commits by
  accident. `IndexLog.RunsTell` says what the index records in force tell of in every run,
  `IndexLog.OpenCollection` when the indexes of a reopened collection are sound, and
  `IndexLog.TornTailMissesIndex` is a run after which they are not.
* A full rewrite drops the whole deletion queue when it is reconciled, so a document
  deleted while the file was being written comes back at the next open
  (`FlushFailures.FirstFlushResurrects`). `FlushCrash.ReconcileExact` says the invariant
  survives if and only if no snapshotted document was deleted meanwhile.
* Between a full rewrite and its reconciliation the slots still hold offsets into the old
  file. A cold read then decodes whatever record lies there, and the decoder checks no id:
  `FlushFailures.WindowReadsAnother` reads one document and gets another.
  `FlushCrash.LoadExact` and `FlushCrash.UpdateExact` say when this is harmless.
* Dropping a collection deletes its documents one by one and forgets whatever has been
  stored in it since without queueing a deletion (`FlushFailures.DroppedComesBack`,
  `FlushCrash.DropExact`); for edges, the graph cache is stale until the epoch is raised
  (`GraphCache.Graph.ForgetCollection`, `GraphCache.ForgottenEdgeIsServed`).
* A document that cannot be read is skipped without an error, by queries and by the rebuild
  of the graph cache, which then counts as current. `Finder.CompleteExact` and
  `GraphCache.RebuildExact` say when nothing is missing.
* The scan keeps its flags under collection, NUL and id joined into one text. Names that
  hold a NUL can share a text: `Scan.InstallIsReplay`, `FlushFailures.JoinedKeysCollide`.
* An upsert that cannot read the old document leaves its index rows behind, and when it is
  refused takes rows away that it did not add. `Collections.UnreadExact` says when the
  indexes are still right, and `Collections.UnreadUpsertLeavesRow` is a case where they are
  not.
* A record whose checksum is wrong makes the open fail (`LogLaws.DamageRefused`); one whose
  damaged length reaches past the end of the file is taken for a torn append instead, and
  everything behind it is cut off without an error (`LogLaws.LongClaimCuts`).
  `LogLaws.ReadsClaims` says which is which.
* Two readers can fill the same cold slot of the page cache. If it is evicted between their
  admissions its bytes are charged for no payload and never given back:
  `PageCache.Cache.CacheAdmit` and `PageCache.Cache.EvictEntry` say exactly when, and after
  `PageCache.TwoReaders` no clean document stays in memory.
* A `$in` list that contains null selects documents without the field when an index
  answers it and not when the filter is evaluated. `PlanMeaning.EqualMeans` says this is
  the only disagreement on fields that hold one scalar; `PlanMeaning.ArrayDisagrees` and
  `PlanMeaning.FanOutDisagrees` show why that is asked of them.
* The BSON encoder counts an array as one level shallower than the decoder does.
  `BsonRoundTrip.RoundTrip` says that what was encoded decodes to itself if and only if
  no array lies at encode depth 100.
* The queue of asynchronous hooks is bounded, and its only reader may also have to write
  to it. `HookSchedules.StuckExact` says how a schedule can get stuck and
  `HookSchedules.QueueDeadlocks` is one that does.

**Page cache** (`PageCache`). Second-chance eviction over slots with reference bits:
only clean payloads are dropped, the nested loops terminate, and on exit the budget holds
or only dirty slots are left. Slots are made, filled, dirtied, cleaned after a flush,
evicted, deleted and purged. As long as every slot is registered with its payload in
place, each of these keeps the byte count equal to the sum of the registered sizes;
eviction never changes what is charged for no payload.

**Indexes and queries** (`IndexKeys`, `Paths`, `IndexRows`, `KeyMaps`, `OrdList`, `Csr`,
`IndexSpec`, `Indexes`, `Collections`, `Filters`, `PlanMeaning`, `Seeks`, `Planner`,
`Finder`, `FilterLaws`, `OrderLaws`, with `SortedLists` and `Reversal`). The compound key
text with its prefix property; the index as an object holding a hash, a lazily sorted list
and a flat matrix that must agree; a collection whose mutations keep every index an exact
inverse of the documents and whose multi-index updates are all or nothing; the way of the
indexes into the log and back (`IndexAttach`, `IndexLog`); the filter evaluator; and the
planner, whose indexed answers are proved equal to the full scan, in the same order.
`FilterLaws` and `OrderLaws` say what the operators select and what the orders are without
using the evaluator's own words.

**Graph** (`Adjacency`, `Traversal`, `GraphCache`). The adjacency snapshot, breadth-first
traversal and shortest path over it, tied to the current documents by the epoch that
invalidates it; answers are stated over the `_from` and `_to` of those documents.

**Wire and hooks** (`Bson`, `BsonBytes`, `BsonRoundTrip`, `BsonMachine`, `Cursors`,
`Hooks`, `HookSchedules`, `HookChains`, `HookLaws`). The BSON parser and printer (the
`document`, `e_list` and `element` productions of the BSON specification, version 1.1),
byte by byte and as a round trip, cursor paging, and hook cascades as threads that run
beside one another, in any order, with the worker reading their bounded queue: what a
mutation sets off, what an error takes back, and how long a cascade can get.

Conventions. Go strings are byte strings, so text is `seq<byte>`. Encryption,
compression and JSON text are functions with inverses, the checksum is any function, and
number and JSON formatting are parameters of which only injectivity and the absence of
control characters are used. Locks are not modelled; the flush steps are the points
where the program releases its lock, the filling of a cold slot and its admission to the
page cache are two steps, and everything else is one.

## Model

| member | source | states |
|---|---|---|
| RecordLog.IDBlobRoundTrip | db/filev2.go:125-146 | an id blob decodes to the collection and id it was made from |
| RecordLog.ParseBuilt | db/filev2.go:148-217 | a record parses to itself wherever it stands, whatever comes before and after it |
| RecordLog.ParseCut | db/filev2.go:191-200 | any proper prefix of a record at the end of the data reads as torn, never as a shorter record |
| RecordLog.SliceAtPlace | db/filev2.go:820-830 | the offset and length the writer notes for a record cut exactly that record out of the file |
| RecordLog.WalkWhole | db/filev2.go:286-311 | scanning a layout meets exactly its records, at the offsets the writer assigned |
| RecordLog.WalkCut | db/filev2.go:286-311 | scanning a layout cut at any byte meets the records that are whole and then ends or is torn at the next one |
| RecordLog.ReplayAppend | db/filev2.go:390-418 | replaying a log in two parts is replaying it whole |
| RecordLog.CommitCountOfPrefix | db/filev2.go:307-309 | cutting the records before the next COMMIT does not move the last one |
| RecordLog.CrashAtomicity | db/filev2.go:267-420 | if the log ends in a COMMIT and the append of a batch is cut at any byte, recovery gives the documents before the batch or after it, offsets included, never a mix |
| RecordLog.CutRecovers | db/filev2.go:267-420 | whatever a log ends in and wherever an append to it is cut, recovery gives what the records now in the file say up to the last COMMIT among them |
| RecordLog.SealedAppend | db/filev2.go:307-321 | records without a COMMIT change nothing an open believes; records that end in one make it believe everything |
| RecordLog.RecoverWhole | db/filev2.go:267-420 | an undamaged file recovers to the replay of its committed records |
| RecordLog.SealedWalk | db/filev2.go:286-321 | scanning any undamaged log, torn leftovers included, ends at the end of the file, and what lies below the last COMMIT is the committed records at their places |
| LogLaws.RecordBytes | db/filev2.go:148-189 | the bytes of a record: type, flags, lengths, nonce and checksum in their places and least significant byte first, then id blob and payload; the checksum covers all but itself |
| LogLaws.IDBlobBytes | db/filev2.go:125-134 | an id blob is the length of the collection name, most significant byte first, the name and the id |
| LogLaws.ReadsClaims | db/filev2.go:191-217 | bytes read as torn exactly when the record they claim reaches past the end, and as corrupt exactly when it does not and the stored checksum is not that of the rest |
| LogLaws.WholeExact | db/filev2.go:191-217 | a record is read exactly where its own bytes lie; nothing else parses as one |
| LogLaws.DamageRefused | db/filev2.go:286-306 | a file in which an undamaged log is followed by a record with a wrong checksum is refused as a whole, whatever comes after |
| LogLaws.LongClaimCuts | db/filev2.go:297-306 | a record that claims more bytes than follow is taken for a torn append, and the records behind it are lost without an error |
| LogLaws.ChangedByte | db/filev2.go:191-217 | a record with one byte changed outside its lengths is damaged whenever the byte belongs to the checksum, and otherwise exactly when the checksum differs |
| LogLaws.RecoverExact | db/filev2.go:267-420 | in terms of positions and type bytes: recovery fails exactly when a record below the last COMMIT is spoilt, and otherwise holds the keys whose last word is a document, at its place, in the collections of the last META; other types say nothing |
| Scan.JoinInjective | db/filev2.go:123 | joining collection and id with NUL is injective when collection names hold no NUL |
| Scan.InstallIsReplay | db/filev2.go:383-419 | selecting live documents by flags under joined keys keeps just the last version of each key, as replaying the records in order does, if and only if the joined texts tell every key's fate |
| Scan.NulFreeTells | db/filev2.go:383-411 | they do as long as no collection name holds a NUL |
| Scan.CollectRecords | db/filev2.go:267-320 | the first pass returns the records of the walk, the end of the last COMMIT, the cut position, and its error cases |
| Scan.ApplyRecords | db/filev2.go:321-382 | the second pass yields the last META, the DOC and IDX records below the last COMMIT in log order and whether one was marked suspect, or an error for a META, IDX or id that does not decode |
| Scan.SuspectBit | db/filev2.go:38-41 | the mark is the second lowest bit of the flags |
| Scan.FlagKeys | db/filev2.go:390-411 | the alive and deleted flags say whether the last record of a key below the COMMIT is its document |
| Scan.KeepLive | db/filev2.go:412-418 | the documents kept are those whose key is still alive |
| Scan.InstallEntries | db/filev2.go:1026-1039 | entries get the last listed offset of each key, gated by the collections of the last META |
| Scan.OpenV2 | db/filev2.go:871-1052 | a normal open fails exactly when recovery does, reports the cut position, and installs the collections META lists with the gated last versions: the replay of the committed records whenever the joined texts tell keys apart |
| TornTail.TornOpenKeepsTail | db/filev2.go:871-882 | after a torn append the reopened file keeps exactly the whole records of the unfinished batch, also when earlier tears left records |
| TornTail.NextFlushAdoptsTail | db/filev2.go:835-866 | the next flush commits those records together with its own |
| TornTail.ShownCommitted | db/filev2.go:1026-1039 | what an open shows: the documents the committed records hold, in the collections the last META lists |
| TornTail.TornTailExact | db/filev2.go:288-297 | a torn append, a reopen, and any later flushes: no later open shows other documents than if the append had left nothing, if and only if the records it left decode and each says what the committed log already shows of its key |
| FlushProtocol.LastOpAppend | db/filev2.go:742-748 | what a batch does to a key is decided by its last operation on it |
| FlushProtocol.LastOpOrdered | db/filev2.go:714-749 | in the order DEL, DOC, META, IDX, COMMIT a staged document wins over a queued deletion of the same key |
| FlushProtocol.ActionOfEncoded | db/filev2.go:752-767 | the encoded records do to each key what the operations say |
| FlushProtocol.BatchOnDisk | db/filev2.go:801-866 | after a batch the file holds, key by key, what its operations and the old file determine |
| FlushRuns.OverlayIsPlain | db/file.go:538-612 | in every state that satisfies the invariant: the log, minus queued deletions, plus dirty entries, is the in-memory map; and when the store is not dirty the log alone is |
| FlushRuns.PutKeeps | db/store.go:368-389 | storing a document keeps the invariant in any phase of a flush |
| FlushRuns.RemoveKeeps | db/store.go:671-710 | deleting a document keeps the invariant: its deletion is queued whenever the file or a running flush may hold it |
| FlushSafety.ResidencyKeeps | db/cache.go:199-216 | dropping a clean payload or filling it from the log keeps the invariant |
| FlushSafety.SchemaKeeps | db/file.go:699-705 | marking the store dirty, a forced compaction and collection changes keep the invariant |
| FlushSafety.SnapshotKeeps | db/filev2.go:548-711 | taking the snapshot keeps the invariant, and its batch will leave the file equal to the snapshot |
| FlushSafety.BatchMeta | db/filev2.go:496-514 | the META of a batch lists every collection its documents need, so the gate drops none |
| FlushSafety.WriteKeeps | db/filev2.go:801-866 | writing the batch, in full or appended, keeps the invariant whatever was mutated since the snapshot |
| FlushCrash.ReconcileExact | db/file.go:538-612 | reconciling an append keeps the invariant, whatever was mutated meanwhile; reconciling a full rewrite does if and only if no document of the snapshot was deleted meanwhile |
| FlushCrash.TornCrash | db/filev2.go:835-882 | a crash after any number of bytes of an append, from any state that satisfies the invariant, recovers the durable map, or the snapshot once the batch is complete; both are maps the store held, and each recovered offset decodes to its document |
| FlushCrash.TearExact | db/filev2.go:871-882 | the store reopened after that crash keeps the invariant if and only if the batch is complete or the operations kept of it say what the file said before |
| FlushCrash.ReopenKeeps | db/filev2.go:871-1052 | opening a file that recovers the durable map gives a store that satisfies the invariant |
| FlushCrash.LoadExact | db/cache.go:43-76 | filling a slot keeps the invariant if and only if the document read is the right one |
| FlushCrash.UpdateExact | db/store.go:593-635 | an update does if and only if the document it read, patched, is the right one, patched |
| FlushCrash.OnlyTheWindowIsUnsafe | db/cache.go:43-76 | reads are right and never refused, except of a cold document between a full rewrite and its reconciliation |
| FlushCrash.DropExact | db/store.go:1503-1518 | dropping a collection does if and only if each document dropped with it is neither in the file nor in the batch under way, or has a deletion queued that will be written later |
| FlushCrash.StepExact | db/file.go:515-612 | every step the program can take keeps the invariant if and only if its condition holds, and, unless refused with an error, acts on the plain map as on an uncached, unflushed one; a crash falls back to what is durable |
| FlushCrash.RunsAreSafe | db/file.go:515-612 | every state of a run satisfies the invariant if and only if every step of it is safe, for all interleavings of mutations, flush steps, evictions, loads, drops and crashes at any byte |
| FlushCrash.CrashRecoversHistory | db/filev2.go:871-1052 | from every state that satisfies the invariant a crash recovers a map the store really held earlier, and each recovered offset decodes to its document |
| FlushEffects.SnapshotStages | db/filev2.go:560-712 | in every sound idle state a flush stages the documents of that moment if the store is dirty or to be compacted, in full exactly when there is no file yet or compaction was asked for, and otherwise does nothing |
| FlushEffects.FlushTakesHold | db/file.go:515-640 | snapshot, write and reconcile with nothing in between leave a clean store whose file holds exactly the documents in memory, and whose META lists its collections |
| FlushEffects.CompactShrinks | db/filev2.go:1076-1089 | compaction rewrites the file to one record for every document, one for every index, and two |
| FlushEffects.CrashAfterFlush | db/filev2.go:928-1052 | a crash right after a flush loses nothing, empty collections included: every document is cold and reads back as it was |
| FlushEffects.CrashBeforeFlush | db/filev2.go:871-880 | a crash before the first flush leaves a new store |
| FlushEffects.SlotReads | db/cache.go:43-66 | a slot reads as its payload; without one, as not found if it was never written, and as an error if its place is not in the file |
| FlushFailures.FirstFlushResurrects | db/file.go:594-595 | a run from a new store: a document deleted during the first flush is in the file afterwards, with nothing queued to remove it |
| FlushFailures.DroppedComesBack | db/store.go:1503-1512 | a run from a new store in which a collection is created, dropped and created again: a document stored and flushed just before the last part of the drop is in the new collection |
| FlushFailures.AlignedRead | db/cache.go:52-66 | a cold read whose offset and length are those of some record in the file returns that record's document, whichever key it belongs to |
| FlushFailures.WindowReadsAnother | db/file.go:560-592 | a run from a new store: after a full rewrite and before its reconciliation, reading one document returns another |
| FlushFailures.TornTailResurfaces | db/filev2.go:878-882 | a run from a new store: an append is cut behind the record of a second document, the reopened store shows only the first, and the next flush, which writes no document, brings the second one in |
| FlushFailures.SharedText | db/filev2.go:123 | two different keys whose collection, NUL and id join to one text |
| FlushFailures.JoinedKeysCollide | db/filev2.go:383-411 | a run from a new store for any two such keys: one document is deleted and that is flushed; the log holds the other one and an open does not install it |
| IndexAttach.StageIndexes | db/filev2.go:648-670 | every index of a sound collection is serialized to a text that loads as an index over the documents of that moment, and the collection stays sound |
| IndexAttach.LoadAll | db/filev2.go:960-1022 | texts loaded in log order into the indexes of their definitions: all fit if and only if each has one, and each index then reflects what its last text tells of |
| IndexAttach.AttachIndexes | db/filev2.go:885-1022 | indexes are attached if and only if each was seen by the scan and each text has an index, and otherwise the open falls back to reading every document; indexes whose last texts tell of one map of documents are sound over another exactly when both give the same rows |
| IndexAttach.TextIsSeen | db/filev2.go:886-893 | an index that has a text is never taken for missing |
| IndexAttach.IdxKeyText | db/filev2.go:422-424 | the text an index is noted under, by example; two indexes can share one |
| IndexLog.BatchTells | db/filev2.go:714-749 | a batch supersedes every index record before it: those behind the last META tell of the snapshot |
| IndexLog.NextTells | db/filev2.go:560-712 | no step of the protocol, safe or not, breaks the promise of the index records in force |
| IndexLog.RunsTell | db/filev2.go:648-670 | in every state of every run the index records behind the last committed META tell of the documents of the last durable snapshot |
| IndexLog.OpenFinds | db/filev2.go:343-360 | an open loads each index of the last META from a text that tells of those documents, and every older text loads too |
| IndexLog.OpenCollection | db/filev2.go:928-1052 | indexes are attached if and only if every text of the collection in the log belongs to one that META lists; the indexes of a reopened collection are sound exactly when the documents shown give the same rows as those of the last durable snapshot, and always in a state that keeps the promise |
| IndexLog.TornTailMissesIndex | db/filev2.go:878-882 | the torn run with its indexes: they reflect the first document alone, and are unsound once the second one is shown |
| FileStore.DocStore.LoadEntry | db/cache.go:43-76 | reads a slot, filling it from the log when cold, as the protocol says, and changes nothing else |
| FileStore.DocStore.MarkDirty | db/file.go:699-705 | sets the dirty flag and moves the generation on |
| FileStore.DocStore.StoreDoc | db/file.go:709-715 | the new entry is dirty with the new generation and keeps its old offset |
| FileStore.DocStore.Delete | db/store.go:682-709 | the document is read first and nothing happens when that fails; otherwise the entry goes, and its deletion is queued when a durable copy may exist |
| FileStore.DocStore.Stage | db/filev2.go:672-703 | stages every entry of a full flush and the dirty ones of an append, loading cold ones, or fails on an unreadable one |
| FileStore.DocStore.EncodeBatch | db/filev2.go:820-830 | the buffer is the layout of the records and the noted offsets are theirs |
| FileStore.DocStore.Write | db/filev2.go:801-866 | writes the batch as the protocol says: a new file in full, or appended behind the old one |
| FileStore.DocStore.ClearFlags | db/file.go:548-558 | a flushed entry becomes clean unless it was mutated after the snapshot |
| FileStore.DocStore.InstallOffsets | db/file.go:560-592 | every document written gets the offset of its last record |
| FileStore.DocStore.SettleEntries | db/file.go:547-592 | the two loops together settle each entry as the protocol says |
| FileStore.DocStore.FilterDels | db/file.go:596-605 | keeps just the deletions queued after the snapshot |
| FileStore.DocStore.Reconcile | db/file.go:538-612 | the whole bookkeeping after a write equals the protocol's reconcile step |
| PageCache.TotalWithout | db/cache.go:199-216 | the byte total does not depend on the order in which slots are counted |
| PageCache.Cache.EvictEntry | db/cache.go:199-216 | a dirty slot is left alone; a clean one leaves the cache; bytes are given back only for a payload, so the count stays the sum of sizes exactly when the slot was dirty, held its payload or was charged nothing |
| PageCache.Cache.SweepClean | db/cache.go:151-162 | drops only clean slots without reference bit, stopping at the budget; bytes charged for no payload stay as they were |
| PageCache.Cache.ClearRefBits | db/cache.go:166-173 | clears every reference bit, and says whether there was one |
| PageCache.Cache.EvictLocked | db/cache.go:141-178 | terminates; drops only clean payloads; ends within budget or with only dirty slots, does nothing when eviction is off, counts each dropped payload once, and leaves bytes charged for no payload as they were |
| PageCache.RoundProgress | db/cache.go:150-177 | a round that neither stops nor evicts clears a reference bit: the measure of the outer loop |
| PageCache.EvictedTwice | db/cache.go:141-178 | rounds of eviction add up to eviction |
| PageCache.Cache.CacheAdmit | db/cache.go:126-138 | a slot is charged once and may be evicted at once; what is charged for no payload grows by its size exactly when it is new to the cache and has been evicted since it was filled |
| PageCache.Cache.AdmitTooLarge | db/cache.go:126-138 | a clean slot that does not fit into an empty cache is dropped at once, and its bytes leave the count again exactly when it still held its payload |
| PageCache.Cache.Fill | db/cache.go:71-74 | the payload is in place and not yet registered: the moment between which two readers can run |
| PageCache.Cache.Load | db/cache.go:43-76 | with no other reader, a warm read sets the reference bit only; a cold one fills and charges the slot, which stays when it fits; the count stays the sum of sizes |
| PageCache.TwoReaders | db/cache.go:67-76 | two readers of one cold slot larger than the budget leave its bytes on the counter for good, with nothing registered; a clean slot that would fit is then dropped as soon as it is read |
| PageCache.Cache.NewSlot | db/cache.go:22-29 | a new slot is clean, charged nothing, and resident when a document came with it |
| PageCache.Cache.MarkClean | db/cache.go:80-84 | after a flush a slot is clean unless it was mutated after the snapshot |
| PageCache.Cache.Purge | db/cache.go:182-196 | a dropped collection's slots leave the registry, dirty or not, and the byte count stays the sum of sizes |
| PageCache.Cache.StoreDoc | db/store.go:482-487 | a stored document is dirty, so its admission cannot drop it |
| PageCache.Cache.StoreNew | db/store.go:488-491 | an inserted document gets a slot of its own, is charged nothing, and within the budget evicts nothing |
| PageCache.Cache.Forget | db/store.go:695-700 | deleting takes a clean registered slot out of the cache, leaves a dirty one charged, and touches no other slot |
| IndexKeys.FirstComponent | db/index.go:851-887 | the first component of a key can be read off its text whatever follows, even for strings holding the separator |
| IndexKeys.KeyInjective | db/index.go:851-887 | rows of any lengths with the same key text are the same row |
| IndexKeys.PrefixExact | db/index.go:324-348 | a key starts with the text of p and a separator if and only if its leading components are p and more follow |
| IndexKeys.KeyText | db/index.go:851-857 | the key text: the texts of the components with the unit separator between them |
| IndexKeys.ValueText | db/index.go:859-887 | the text of a component: a tag for its type and the value, a string with its length |
| IndexKeys.CompareLaws | db/index.go:68-112 | the value order is a total preorder, with ties only among equal values and among unordered types |
| IndexKeys.OrdLessLaws | db/index.go:114-119 | the entry order is a strict order that decides between any two different keys |
| OrderLaws.ValueOrder | db/index.go:62-112 | nothing comes before numbers, then strings, booleans and the rest; numbers go by value, strings by their first different byte, false before true |
| OrderLaws.NumberRange | db/index.go:421-493 | a range over numbers holds exactly the numbers between its bounds |
| OrderLaws.TextRange | db/index.go:421-493 | a range over strings holds exactly the strings between its bounds in byte order |
| OrderLaws.TextsInRange | db/store.go:1605-1612 | of two strings the one with the smaller first different byte is below a range that starts at the other |
| OrderLaws.TextQueries | db/filter.go:241-258 | the same of whole queries with $gt and $lt |
| OrderLaws.IdOrder | db/store.go:838-846 | answers in id order go up by the first different byte and hold each id once |
| OrderLaws.RisingMeans | db/store.go:826-837 | an answer in index order never comes down in its field |
| Paths.SplitJoins | db/filter.go:316-317 | splitting a dotted path loses nothing |
| Paths.GatherLeaves | db/filter.go:324-350 | the fan-out loop collects exactly the leaves a path reaches, in order |
| Paths.FindValues | db/filter.go:305-322 | all values of a path, or none when it reaches nothing |
| Paths.PathLaws | db/filter.go:305-350 | a dotted path step by step: a missing field or a scalar ends it, an object is entered by the next name, an array is gone through in order without a step |
| IndexRows.RowsAreTheProduct | db/index.go:816-848 | a document's index rows are the whole product of its fields' components, arrays expanded, absent as null |
| IndexRows.ComponentsAre | db/index.go:816-848 | a field contributes each element of an array and nothing else, the value itself otherwise, and "missing" for an empty array or no value |
| IndexRows.ElementRows | db/index.go:816-848 | the document is found under every element of an array field |
| IndexRows.ExtractRows | db/index.go:816-848 | the nested loops build those rows |
| KeyMaps.ReflectsUnique | db/index.go:139-237 | the documents determine the key map: there is no slack in "maps each key to exactly the ids that produce it" |
| KeyMaps.RemoveReflects | db/index.go:210-237 | removing a document's rows gives the key map of the remaining documents |
| KeyMaps.AddReflects | db/index.go:139-186 | adding a document's rows gives the key map with that document |
| KeyMaps.RemoveUndoesAdd | db/store.go:217-220 | removing what was added for a new owner changes nothing else |
| KeyMaps.AddUndoesRemove | db/store.go:221-225 | adding back what was removed restores the map |
| OrdList.Search | db/index.go:195-197 | binary search returns the first position where a monotone condition holds |
| OrdList.Add | db/index.go:188-201 | a dirty list is appended to, a clean one stays sorted |
| OrdList.Remove | db/index.go:239-264 | the entry of a key is removed, by search or by walking, and a clean list stays sorted |
| OrdList.SearchFindsEntry | db/index.go:250-256 | in a clean list the search lands on the entry, so the fallback walk never runs |
| OrdList.Sort | db/index.go:122-128 | sorting keeps exactly the entries |
| OrdList.SortedUnique | db/index.go:114-128 | a sorted list is determined by its entries |
| Csr.Check | db/index.go:672-697 | accepts a matrix exactly when its structure is coherent and its checksum agrees |
| Csr.AcceptedIsSafe | db/index.go:672-697 | every later access to an accepted matrix is in bounds |
| Csr.CellsAreFlat | db/index.go:495-505 | a stretch of matrix cells is the stretch of ordered keys with each key's ids ascending |
| Csr.NameColumns | db/index.go:627-635 | each id of a row gets its column, new ids being added to the dictionary |
| Csr.WithRowMirrors | db/index.go:605-637 | appending a row keeps the matrix aligned with the ordered list |
| IndexSpec.OrdIsDetermined | db/index.go:122-128 | the sorted list depends only on the live keys, not on the history |
| IndexSpec.SeekIsExact | db/index.go:324-409 | a seek by leading values returns precisely the documents with those values, for full and partial keys |
| IndexSpec.SelectIsSlice | db/index.go:421-490 | a contiguous stretch that holds just the entries in range is the selection of the entries in range |
| IndexSpec.FlattenAscends | db/index.go:495-532 | ids come out in ascending (value, key, id) order |
| IndexSpec.FlattenMembers | db/index.go:495-532 | and are exactly the owners of the listed keys |
| Indexes.Index.AddKey | db/index.go:170-186 | adds one owner to one key in hash and list, and drops the matrix |
| Indexes.Index.RemoveKey | db/index.go:221-237 | removes one owner from one key, and the key with its last owner |
| Indexes.Index.AddDoc | db/index.go:139-167 | indexes all rows of a document, or changes nothing when a unique key belongs to another one |
| Indexes.Index.RemoveDoc | db/index.go:210-219 | removes all rows of a document |
| Indexes.Index.EnsureOrd | db/index.go:122-128 | the list becomes sorted, the key map stays |
| Indexes.Index.LookupIDs | db/index.go:268-284 | the owners of a full key |
| Indexes.Index.CountKey | db/index.go:287-298 | how many there are |
| Indexes.Index.Covers | db/index.go:302-319 | whether every row of a document is indexed under its id |
| Indexes.Index.CollectPrefixScan | db/index.go:393-409 | the full scan of the hash finds every key with the prefix |
| Indexes.Index.SeekPrefix | db/index.go:324-375 | binary searches and prefix test return the ids the key map has under the leading values |
| Indexes.Index.CollectRange | db/index.go:495-518 | the matrix path and the hash path give the same list |
| Indexes.Index.SeekRange | db/index.go:421-490 | the binary searches select exactly the entries in the type band of the bounds that meet both |
| Indexes.Index.OrderedIDs | db/index.go:535-557 | the whole index in order, from either path |
| Indexes.Index.Serialize | db/index.go:589-644 | rows and matrix say what list and key map say, and the matrix passes its own check |
| Indexes.Index.LoadRows | db/index.go:702-738 | the index holds whatever list and key map the trusted part says; a payload is refused exactly when its definition differs or the trusted part gives a unique key two owners, and a differing one changes nothing |
| Indexes.Index.LoadCSR | db/index.go:742-778 | an accepted matrix loads without an out-of-bounds access and stays as a safe flat view |
| Indexes.AlignToOrd | db/index.go:782-809 | realigning keeps whole rows under their keys and a safe matrix |
| Indexes.PersistAndLoad | db/index.go:589-809 | serialize then load, with an intact, missing or damaged matrix: the same key map and the same list |
| Collections.WithoutFacts | db/store.go:205-209 | the key map without the old document reflects the other documents |
| Collections.RollbackAdd | db/store.go:216-220 | the rollback removes the new rows from every index, also from the one that refused them |
| Collections.RollbackRemove | db/store.go:221-225 | re-adding the old rows is never refused and restores the index |
| Collections.BlockedMeans | db/index.go:151-155 | a unique index refuses a document exactly when another document produces one of its keys |
| Collections.Settling | db/store.go:204-229 | for one index: refusal is a clash with another document, and otherwise it reflects the new collection |
| Collections.UniqueKeysHaveOneDocument | db/index.go:151-155 | two documents never share a key of a unique index |
| Collections.ClashMeans | db/index.go:151-168 | a document clashes with another exactly through a unique index and a shared row, never with itself, and other indexes refuse nothing |
| Collections.Collection.RemoveFromAll | db/store.go:205-209 | every index loses the document's rows |
| Collections.Collection.AddToAll | db/store.go:210-215 | every index that does not refuse the document gains its rows |
| Collections.Collection.ApplyIndexes | db/store.go:204-229 | all or nothing: every index moves to the new document, or every key map is exactly as before |
| Collections.Collection.Store | db/store.go:463-495 | a document is stored and all indexes follow, unless a unique index would put it beside another one |
| Collections.Collection.Insert | db/store.go:368-389 | fails on an existing id or a unique clash, otherwise adds the document; indexes stay exact |
| Collections.Collection.Upsert | db/store.go:463-495 | replaces or creates under the given id, which wins over the one in the document, when the old document can be read |
| Collections.UnreadExact | db/store.go:470-481 | when it cannot: an index is right afterwards if and only if the new document has all rows of the old one, and after a refusal if and only if it has none of them |
| Collections.Collection.UpsertUnread | db/store.go:463-495 | the whole upsert without the old document: outcome, documents, and when exactly the collection is still sound |
| Collections.UnreadUpsertLeavesRow | db/store.go:470-481 | a collection and an upsert, spelled out: the indexed value was 1 and is now 2, and the index lists the document under 1 |
| Collections.Collection.Update | db/store.go:593-635 | merges the patch without the id, drops the removed keys, and reports not found, too large or duplicate |
| Collections.Collection.Delete | db/store.go:671-701 | removes the document from the map and from every index |
| Collections.Collection.BuildIndex | db/store.go:142-157 | a new index reflects the documents, or is refused exactly when two of them share a key |
| Collections.Collection.EnsureIndex | db/store.go:127-160 | creates the index, or accepts one on these fields if and only if its uniqueness is the same, or refuses when documents clash |
| Collections.Collection.DropIndex | db/store.go:170-185 | removes just the index on those fields |
| Collections.PatchKeepsID | db/store.go:613-623 | a patch never changes the id; the result has the old keys and the patched ones, but for those removed, with the patched values first |
| Collections.BuildPatched | db/store.go:613-623 | the merge and removal loops compute that document |
| Filters.Match | db/filter.go:11-25 | on a well-formed filter the evaluator never fails and says whether every field matches |
| Filters.MatchField | db/filter.go:27-59 | logical operators, operator objects and literals, for present and missing fields |
| Filters.MatchOpsMulti | db/filter.go:63-78 | some value satisfies all operators, or the absence does |
| Filters.MatchLogical | db/filter.go:80-137 | and, or, not and nor over the sub-filters; a list that is no list of filters is an error |
| Filters.MatchOps | db/filter.go:139-163 | all operators hold |
| Filters.MatchOneOp | db/filter.go:165-233 | each well-formed operator by its meaning; unknown operators and arguments of the wrong shape are errors |
| FilterLaws.MergedFilters | db/filter.go:11-25 | all conditions of a filter have to hold: merged filters select the intersection |
| FilterLaws.LogicalLaws | db/filter.go:80-137 | $and selects the intersection, $or the union, $nor what $or leaves and $not the complement, for lists of any length |
| FilterLaws.OrOfTwo | db/filter.go:92-107 | the same for two filters |
| FilterLaws.EqualityLaws | db/filter.go:167-176 | $eq and a bare value select the documents that hold the value, and for null those without the field; $ne selects the complement |
| FilterLaws.MembershipLaws | db/filter.go:182-213 | $in selects the documents that hold one of the values, never those without the field, and $nin the complement |
| FilterLaws.ExistenceLaws | db/filter.go:214-219 | $exists selects the documents with the field, or those without |
| FilterLaws.ComparisonLaws | db/filter.go:241-276 | $gt, $gte, $lt and $lte select by value between numbers and in byte order between strings, and nothing else |
| FilterLaws.NullFirst | db/store.go:1592-1625 | null compares before everything, and other types do not compare with one another |
| FilterLaws.OperatorSets | db/filter.go:139-163 | all operators on a field have to hold of it, and $not turns its operators round |
| FilterLaws.AnyValue | db/filter.go:27-78 | a path that fans out matches when one of its values does, taken alone |
| PlanMeaning.EqualMeans | db/store.go:1287-1305 | an equality or $in condition agrees with an index lookup of its values exactly when it does not ask $in for null where the field is missing |
| PlanMeaning.NullInListDisagrees | db/filter.go:182-195 | a concrete input where they disagree |
| PlanMeaning.ArrayDisagrees | db/index.go:824-836 | a concrete document whose array field an index finds by an element and the filter does not |
| PlanMeaning.FanOutDisagrees | db/filter.go:294-350 | a concrete document a filter finds by the second value a path reaches and an index does not |
| PlanMeaning.RangeMeans | db/store.go:1185-1234 | a range condition holds of a document exactly when its indexed value is within the bounds |
| FilterLaws.PlannedConditions | db/store.go:1129-1234 | what the planner takes to an index: a value, $eq, $in, and a comparison from either side, each as the seek it asks for |
| PlanMeaning.OneRow | db/index.go:816-848 | a document with single scalar values has one row |
| PlanMeaning.StartsWithMeans | db/index.go:324-375 | its rows start with given values exactly when its leading fields hold them |
| Seeks.SeekLeading | db/index.go:324-375 | on a collection, a seek returns exactly the documents whose leading fields hold the values |
| Seeks.SeekOne | db/store.go:1141-1164 | one value on one field, by full key or by prefix |
| Seeks.SeekEqualityField | db/store.go:1141-1164 | the union over the values, through a single-field or a leading compound index |
| Seeks.SeekRangeField | db/store.go:1080-1084 | a range seek lists each document in range once, in ascending order of the field |
| Seeks.RangeIsExact | db/index.go:421-532 | the flattened selection is exactly the documents in range |
| Planner.BuildPlans | db/store.go:995-1011 | every top-level field is classified |
| Planner.SingleEqualityFor | db/store.go:1130-1137 | finds a field's only equality value |
| Planner.IntersectIDs | db/store.go:1175-1181 | intersection |
| Planner.CompoundSeeks | db/store.go:1013-1046 | the candidates after step 1 are exactly the documents that satisfy the consumed fields |
| Planner.StepEqual | db/store.go:1058-1073 | an equality seek narrows the candidates to the documents that satisfy its field too |
| Planner.StepRange | db/store.go:1074-1105 | a range seek does the same and takes over the order |
| Planner.FieldSeeks | db/store.go:1049-1107 | an exact plan has served every field |
| Planner.PlanCandidates | db/store.go:989-1127 | an index is used if and only if it leads with a field whose condition it can answer; no matching document is missing, an exact plan holds only matching ones, and with a range among the conditions the candidates come in the order of one, each once |
| Finder.MaterializeSerial | db/parallel.go:64-83 | loads the ids that exist, can be read and, if asked, match, in the order given; those that cannot be read are skipped |
| Finder.CompleteExact | db/parallel.go:64-69 | the answer is complete exactly when no matching document failed to be read, and no error tells |
| Finder.Materialize | db/parallel.go:19-62 | chunked loading by workers finishing in any order gives the serial result |
| Finder.RunWorkers | db/parallel.go:34-49 | each worker fills its own slot with its own chunk |
| Finder.JoinSlots | db/parallel.go:50-61 | the joined slots are the serial result, and one failed chunk fails it |
| Finder.Gathered | db/store.go:793-824 | planned or scanned, the documents found are exactly the matching ones that can be read |
| Finder.Find | db/store.go:774-877 | through any set of indexes, the matching documents that can be read, in id order |
| Finder.FullScan | db/store.go:813-824 | without any index, the same list |
| Finder.FindByIndexOrder | db/store.go:826-837 | when the sort field is the one range an index answers, index order, or its reverse, is taken, and it is sorted order |
| Reversal.Reverse | db/store.go:885-889 | the loop turns a list round |
| SortedLists.AscendingUnique | db/index.go:521-532 | a sorted list of ids is determined by its members |
| SortedLists.SortedMembers | db/index.go:521-532 | sorting a set of ids |
| Adjacency.CollectNeighbors | db/graph.go:46-60 | a row lookup returns the vertex's row, with every access in bounds |
| Adjacency.FillBuckets | db/graph.go:64-78 | buckets hold each edge once, in the direction asked |
| Adjacency.BuildAdj | db/graph.go:64-113 | the matrix answers for exactly the given edges, with ascending duplicate-free rows |
| Traversal.NoShortcut | db/graph.go:339-366 | no path reaches a vertex earlier than the breadth-first search did |
| Traversal.FoundShortest | db/graph.go:420-449 | the first sighting of the target gives a shortest path |
| Traversal.Reconstruct | db/graph.go:432-445 | walking prev back terminates and gives the recorded path |
| Traversal.SearchPath | db/graph.go:409-450 | a shortest path, or nothing when every path is longer than the bound |
| Traversal.ShortestPath | db/graph.go:382-451 | a real edge path with the fewest edges, and nil exactly when no path within the clamped depth exists |
| Traversal.AdjFor | db/graph.go:316-337 | neighbours in the direction asked, both sides merged without repetition |
| Traversal.Visit | db/graph.go:339-367 | each vertex once, at its true distance, nearest first; all in the depth bounds unless the limit cut it short |
| Traversal.Traverse | db/graph.go:279-368 | the same with the defaults and caps applied |
| Traversal.RequestBounds | db/graph.go:290-312 | depth 5 and 10,000 results unless asked otherwise, at most 32 and 100,000; depth 6 and at most 32 for a path |
| GraphCache.CollectPairs | db/graph.go:477-489 | the edges of the documents that can be read |
| GraphCache.BuildAll | db/graph.go:464-496 | snapshots of every edge collection, both directions, of the documents that can be read |
| GraphCache.LinkedIsEdge | db/graph.go:477-489 | the edges of a type are the pairs in the _from and _to of the documents of its collection |
| GraphCache.StepsIsFollowed | db/graph.go:222-246 | outgoing follows an edge from _from to _to, incoming the other way, and both either way |
| GraphCache.DistanceMeans | db/graph.go:316-337 | a distance is the length of the shortest chain of such documents |
| GraphCache.Graph.NoteEdgeMutation | db/graph.go:456-460 | the epoch moves exactly for edge collections |
| GraphCache.Graph.SetDoc | db/store.go:383-388 | storing a document keeps "equal epochs mean a current cache" |
| GraphCache.Graph.DeleteDoc | db/store.go:701-703 | so does deleting one |
| GraphCache.Graph.ForgetCollection | db/store.go:1507-1512 | forgetting a collection, with whatever has been stored in it, leaves the cache stale if and only if it was current and the collection held edges |
| GraphCache.ForgottenEdgeIsServed | db/store.go:1507-1517 | a cache, spelled out: one edge is stored and cached, its collection is forgotten, and the cache counts as current and holds the edge |
| GraphCache.Graph.RaiseEpoch | db/store.go:1513-1517 | raising the epoch afterwards restores the promise, whatever happened in between |
| GraphCache.Graph.EnsureGraph | db/graph.go:464-496 | afterwards the epoch says current and the cache answers for what could be read; it answers for the current edge documents if and only if it was current before or no unread document stands for an edge of its own |
| GraphCache.RebuildExact | db/graph.go:464-496 | snapshots of what can be read are snapshots of everything exactly when nothing unread stands for an edge of its own |
| GraphCache.Graph.Neighbors | db/graph.go:209-250 | over the documents the cache was built from, which are the current ones under the condition of EnsureGraph: outgoing gives the targets, incoming the sources, both either, sorted and without repetition |
| GraphCache.OneEdgeFollowed | db/graph.go:222-246 | one document from a to b: a has the neighbour b, b has a when followed backwards, and none forwards |
| GraphCache.Graph.Traverse | db/graph.go:279-368 | each vertex of those documents once, at its true distance, at the end of a chain of as many documents, within the clamped bounds, whatever was cached |
| GraphCache.Graph.Path | db/graph.go:382-451 | a shortest chain of those documents, or none when every chain exceeds the bound |
| Bson.SetFieldAppends | wire/bson.go:161-179 | reading fields in ascending key order builds the canonical map |
| BsonRoundTrip.Int32RoundTrip | wire/bson.go:60-67 | a 32-bit number reads back with its sign |
| BsonRoundTrip.Int64RoundTrip | wire/bson.go:69-76 | a 64-bit number within 2^53 does |
| BsonRoundTrip.CStringRoundTrip | wire/bson.go:88-97 | a NUL-free key reads back and the reader stands behind its NUL |
| BsonRoundTrip.StringRoundTrip | wire/bson.go:99-110 | a string reads back, NULs included |
| BsonRoundTrip.ElemReadsBack | wire/bson.go:435-518 | an element reads back as its type, key and value |
| BsonRoundTrip.FieldsReadBack | wire/bson.go:161-179 | after k fields the decoder holds those k, or has failed on an array that does not fit |
| BsonRoundTrip.DocReadsBack | wire/bson.go:359-383 | a document reads back exactly when its arrays fit, and its declared length is right |
| BsonRoundTrip.ArrayReadsBack | wire/bson.go:520-536 | so does an array, one level deeper than it was written |
| BsonRoundTrip.RoundTrip | wire/bson.go:126-383 | whatever the encoder accepts decodes to the same document, consuming every byte, if and only if no array lies at encode depth 100; otherwise it does not decode |
| BsonRoundTrip.DeepArrayIsLost | wire/bson.go:520-523 | a concrete document that encodes and then does not decode: an array under 100 nested documents |
| BsonBytes.ElementBytes | wire/bson.go:435-518 | an element is its type byte, the key, a zero byte and the value; a key with a zero byte is refused |
| BsonBytes.ValueBytes | wire/bson.go:385-433 | the bytes of each value, numbers least significant byte first and as two's complement, strings with their length |
| BsonBytes.ReservedDocuments | wire/bson.go:538-560 | which nested documents stand for other types: code with its scope, and those of one field with a reserved key |
| BsonBytes.LongBytes | wire/bson.go:403-433 | a number beyond 32 bits takes 64, its low word first |
| BsonBytes.DocumentBytes | wire/bson.go:359-383 | a document is its length, its elements and a zero byte; refused below depth 100 and over 2 GiB |
| BsonBytes.FieldBytes | wire/bson.go:359-383 | the elements are those of the fields, in order |
| BsonBytes.ArrayBytes | wire/bson.go:520-536 | an array is framed like a document, at its parent's depth, its length unchecked |
| BsonBytes.ItemBytes | wire/bson.go:520-536 | the keys of an array's items are their positions |
| BsonBytes.DecimalDigits | wire/bson.go:520-536 | written in decimal without a leading zero |
| BsonBytes.DecodesWhole | wire/bson.go:121-184 | nothing decodes unless it is as long as it says and ends in a zero byte |
| BsonBytes.LastValueWins | wire/bson.go:161-179 | a key that comes twice keeps its last value |
| BsonBytes.OtherTypes | wire/bson.go:227-353 | undefined reads as null and a symbol as a string; type bytes outside the model are refused |
| BsonMachine.Reader.NextCString | wire/bson.go:88-97 | the byte loop finds the first NUL |
| BsonMachine.Reader.NextDocument | wire/bson.go:143-184 | the element loop reads the document the productions describe, with the depth, length and mismatch errors |
| BsonMachine.Reader.NextArray | wire/bson.go:186-225 | the same for an array |
| BsonMachine.Reader.NextValue | wire/bson.go:227-353 | one value by its type byte |
| BsonMachine.DecodeBSON | wire/bson.go:121-136 | decodes, and rejects trailing bytes |
| BsonMachine.AppendDocument | wire/bson.go:359-383 | appends the document and patches its length in behind |
| BsonMachine.AppendArray | wire/bson.go:520-536 | appends the array at its parent's depth |
| BsonMachine.AppendElement | wire/bson.go:435-518 | appends type, key and value, or reports the error |
| BsonMachine.EncodeBSON | wire/bson.go:355-357 | encodes a whole document |
| Cursors.SplitFirstBatch | wire/commands.go:216-241 | batch and rest make up the result; the batch is the longest that fits 101 documents, or the number asked for, and 16 MiB, and never empty for that |
| Cursors.CursorRegistry.Register | wire/cursor.go:32-39 | a new id, never given out before |
| Cursors.CursorRegistry.Batch | wire/cursor.go:41-67 | the next page, with as many of the documents left as were asked for, 101 unless said; expiry after 600 seconds without use, and the end of a cursor |
| Cursors.CursorRegistry.Sweep | wire/cursor.go:83-92 | drops the cursors not used in time, and no others |
| Cursors.SweepAgrees | wire/cursor.go:83-92 | a sweep takes just the cursors a request would find expired |
| Cursors.CursorRegistry.Kill | wire/cursor.go:69-81 | removes the cursors; each live id is reported killed once, and every other mention of an id not found |
| Cursors.StepKeeps | wire/cursor.go:32-81 | after any request a live cursor has sent exactly what lies before its position, and one that is gone has sent everything unless it was killed or timed out while live; ids only grow |
| Cursors.ZeroMeansExhausted | wire/cursor.go:58-66 | a page is never empty and carries id 0 exactly when it completes the result |
| Cursors.PagingConserves | wire/commands.go:216-318 | first batch and all later pages are a prefix of the result, and once the cursor is gone they are all of it exactly when it was not killed or expired with something left to send, whatever else was served in between |
| Cursors.DrainAll | wire/cursor.go:41-67 | any batch sizes drain a cursor completely and in order |
| Hooks.BeginHook | db/hooks.go:179-196 | refuses a hook already in the chain or a chain too deep |
| HookLaws.DepthOfEight | db/hooks.go:179-196 | a hook may be entered down to the eighth level and no further, and never inside itself |
| Hooks.EnteredOk | db/hooks.go:179-196 | a hook begun in a sound chain extends it by one level and one new id |
| Hooks.ChainLength | db/hooks.go:179-196 | a sound chain has as many distinct hooks as its depth, and at most as many as the depth bound and the registrations; HookChains proves every chain in use sound |
| HookChains.MovedSound | db/hooks.go:199-304 | whichever thread moves, every frame on a thread or in the queue stays a chain of distinct registered hooks |
| HookChains.ChainsAreSound | db/hooks.go:179-196 | in every state of every schedule, every frame on a thread or in the queue is a chain of pairwise distinct registered hooks, at most 8 deep and at most as deep as there are registered ids |
| HookLaws.MatchingExact | db/hooks.go:161-177 | the hooks of a mutation are those registered for its moment and kind and for its collection, "*" or none, in the order of registration |
| HookLaws.MutationRuns | db/hooks.go:199-225 | an accepted mutation passes its before-hooks in order, is applied, and only then has its after-hooks ahead |
| HookLaws.HookEntered | db/hooks.go:179-196 | a hook does its actions in a frame of its own, one level down, before the next hook |
| HookLaws.ActionsIssue | db/triggers.go:274-338 | setting fields changes the document at hand before the event and takes an update of the collection after it; any other action is a mutation in the frame of its hook |
| HookLaws.VetoStops | db/hooks.go:199-212 | a before-hook that fails or may not begin takes its mutation with it |
| HookLaws.RefusedMutation | db/hooks.go:199-225 | a mutation the store refuses is an error to its caller, and nothing of it is left |
| HookLaws.FailedAction | db/hooks.go:199-225 | a failing action takes a before-hook's mutation with it, and ends only the hook after a mutation |
| HookLaws.ErrorUnwinds | db/hooks.go:199-225 | an error takes away the calls above the innermost after-hooks or the next mutation of the thread, and nothing else |
| HookLaws.QueueInOrder | db/hooks.go:227-304 | jobs leave the queue in the order they came, and nobody but the worker takes one |
| HookLaws.WorkerEnters | db/hooks.go:284-304 | the worker runs a job below the frame of the mutation that queued it |
| HookSchedules.StepPays | db/hooks.go:199-304 | whichever thread moves and whatever the store answers, attempts made, jobs queued and work still owed never grow together, and every step is paid for |
| HookSchedules.ScheduleBounded | db/hooks.go:199-304 | every interleaving of user threads and the worker is finite, and attempts for each request at most 1 + a + ... + a^8 mutations, where a is the number of actions of all hooks |
| HookSchedules.StuckExact | db/hooks.go:227-259 | a schedule can go no further if and only if everything is done, or the queue is full and the worker and every unfinished thread wait to put a job into it |
| HookSchedules.NeverDeadlocked | db/hooks.go:227-259 | no schedule deadlocks when all the jobs that could ever be queued fit into the queue |
| HookSchedules.QueueDeadlocks | db/hooks.go:250-254 | a schedule in which one user thread's 1025 inserts leave the worker waiting for itself |

## Left out

- Cryptography, zlib, CRC arithmetic, Argon2, HMAC and the header's fields: abstract inverse pairs, an uninterpreted checksum and an opaque header of fixed size.
- Operating-system calls: a full rewrite replaces the file at once and an append leaves a prefix of its bytes; an append that fails without a crash and is then retried is not a step.
- What the eager reopen path does (it reads every document and rebuilds the indexes; IndexAttach.AttachIndexes says when missing or unlisted texts lead to it, a record marked suspect does too) and the v1 migration. The flush steps set no suspect flag and always reopen by the normal path.
- Key and collection names longer than 65535 bytes, and records over 4 GB: RecordLog.Rec.Fits is the size a record needs to be written faithfully.
- IndexLog.OpenCollection: META carries the names of the collections here; the index definitions it lists are a parameter, asked to be those serialized with it, which the snapshot stages under one lock. JSON text of index payloads is any function with an inverse.
- A load made while a snapshot is staged is not kept when a later document of the same snapshot cannot be read (FlushProtocol.PrepareFlush).
- FlushCrash.StepExact: schema changes only mark the store dirty; reads by queries appear as loads of single documents.
- Write back-pressure, fsync, timers and the authentication, user and role paths.
- Collections.Collection.Upsert: assumes the old document can be read; Collections.Collection.UpsertUnread is the other case. An update or deletion that cannot read the document fails and changes nothing (FlushRuns.AfterUpdate, FlushRuns.AfterRemove).
- The order in which a snapshot lists documents is a parameter; the program sorts it.
- Matrix offsets are integers without the 32-bit bound.
- Numbers are integers in documents, filters and index keys: negative zero and NaN, which Go's equality and number formatting treat differently, are outside the model. In BSON, numbers that are not whole or exceed 2^53 are carried by their bits.
- Equality of two objects or two arrays: Go's comparison panics there, so Filters.WellFormed asks equality operands to be scalars.
- Filters.Match: its result on an ill-formed filter is left open, since the program visits map entries in random order and may meet the error or not.
- Filters.MatchOps: `$regex` and `$options` are not well-formed in the model, so their outcome is left open.
- Planner.PlanCandidates: asks each indexed field to hold one scalar, null or nothing in every document, and asks for no null in `$in` lists; PlanMeaning.ArrayDisagrees, PlanMeaning.FanOutDisagrees and PlanMeaning.NullInListDisagrees are inputs on which index and scan differ otherwise.
- Finder.Gathered: the same two conditions as Planner.PlanCandidates.
- Finder.Find: the same two conditions; it returns ids, standing for the documents stored under them, and the sort by `_id` is by the id a document is stored under.
- Finder.FindByIndexOrder: the same two conditions; it covers the case in which the index order replaces the sort. Sorting by arbitrary fields (`sortBy`, `sortByPartial`), skip, limit, projection and `countIndexed` are not modelled.
- Finder.Materialize: worker threads are runs of the chunk loop in any order; they share nothing but the slot each one fills.
- BsonRoundTrip.RoundTrip: the extended types (ObjectID, dates, binary, regular expressions, timestamps, decimals and the reserved `$` documents that stand for them) and 64-bit integers beyond 2^53 are errors in the model.
- BsonMachine.Reader.NextValue: the type bytes of those extended types fail.
- BsonMachine.DecodeBSON: an input that holds one of them fails as a whole.
- BsonMachine.AppendElement: the reserved `$` documents, dates and binary values are errors.
- BsonMachine.EncodeBSON: a document that holds one of them fails as a whole.
- Edge permissions, edge validation beyond non-empty ends, and per-vertex properties of the graph.
- HookSchedules.StepPays: registration and removal of hooks while a cascade runs, closing the store, and trigger templates (`resolveVal`), which only decide an answer of the store. A hook written in Go is taken to issue at most the mutations it lists, as a trigger does.
- Repair, key rotation, sessions, the administration pages, HTTP and the wire protocol's framing.
