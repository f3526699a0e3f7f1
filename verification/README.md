# brisedb in Dafny

brisedb is a storage engine: an append-only hash index on disk with lock-free readers, nested transactions over it, a
write-ahead log with a group-commit flusher, replication by snapshot and stream, replicated append-only blob volumes
and a byte-bounded read cache. Most of what its comments promise has one form: this fast or crash-tolerant structure
behaves like a plain map. This project models the structures and proves that form, for all inputs and all runs.

Every class method is proved against a function of the old state; every protocol is a state machine whose steps may
interleave freely, and its theorems quantify over all legal runs from the initial state. `dafny verify dfyconfig.toml`
checks the whole project.

## How the modules fit together

| module | models |
|---|---|
| `Bytes`, `Expiry`, `EntryCodec` | byte order, expiry stamps, the on-disk index entry, both paths of its reader |
| `Utf8` | what becomes of a string that goes into JSON and out again |
| `IndexLog` | what an index file means: a log of entries, a bucket table pointing at newest entries, the map they stand for |
| `LogScan` | the linear scan of an index file, whole or torn |
| `BucketSizing`, `HashIndex` | the index class over real bytes: open, get, set, delete, both scans, compaction |
| `IndexProtocol` | the same file under concurrency and crashes: writer micro-steps, lock-free readers, process deaths |
| `Transactions`, `Sessions` | nested transactions as values, and the session code that implements them |
| `Recovery`, `Database` | index, TTL cache and log as one serial machine, and the database code that implements it |
| `WalFlusher` | the flusher goroutine as a state machine of micro-steps, and as a class |
| `Replication` | register, fuzzy snapshot, queue, for any number of replicas on clocks of their own |
| `Volumes`, `LruCache`, `VolumePool` | volume files, drives, replicated groups, failover, the cache |
| `ShardLock` | ordered acquisition of the 64 shard locks by operations on keys |
| `Glob` | key patterns |

The layers meet in plain values. `HashIndex` proves that the byte-level index is a map; `Database` starts from that
map. `Database` proves that each of its writes is one `Recovery` write step and that the replayed replication stream is
the view; `Sessions` proves that each session call is one `Transactions` step. `IndexProtocol` and `HashIndex` share
the definition of the file (`IndexLog`), and an uninterrupted protocol operation writes the class's bytes.

## Results that hold only under a condition

Several promises the code keeps exactly when a condition holds. Each of these is proved in both directions.

- What is stored under a key is found if and only if the key is shorter than 65536 bytes; the length field is cut to 16
  bits (`EntryCodec.ReadsBackIffShortKey`, `IndexLog.StoredKeyFoundIff`).
- After a first crash, the linear scan of a small index agrees with lookups if and only if nothing of the interrupted
  operation reached the file, or all of its entry did and that entry changes nothing
  (`IndexProtocol.ScanAgreesAfterFirstCrashIff`, with a failing run in `IndexProtocol.OneByteFailsScan`). Lookups
  themselves are always right (`IndexProtocol.DiskIsBeforeOrAfter`).
- A database recovers from its log after every run over a set of keys if and only if every key of the set is valid
  UTF-8 and none makes a log line of 65536 bytes (`Recovery.RunsRecoverIff` for any encoding, `Recovery.JsonRecoversIff`
  for JSON). Other keys are written under another name, and a longer line keeps the database from opening
  (`Recovery.InvalidKeyIsLost`, `Recovery.AnglesBlockOpening`).
- Within such a set, replaying the log of a run agrees with the index if and only if the replay guard is harmless. The
  comment says expired SETs are skipped; the code reads the nanosecond stamp as seconds, so for stamps of a real clock
  it skips nothing (`Recovery.RecoveryAgrees`, `Recovery.RealStampsAreHarmless`), and with small stamps it can bring an
  overwritten value back (`Recovery.GuardCanResurrect`). With the tail of the log lost in a crash,
  `Recovery.LostTailFallsBackIff` says which keys fall back; a crash while the log is rewritten loses none
  (`Recovery.RewritingLosesNothing`).
- Replicas converge after every run over a set of keys and a set of values if and only if all of them are valid UTF-8
  (`Replication.ReplicasConvergeIff` for any encoding, `Replication.JsonConvergesIff` for JSON, with a failing write in
  `Replication.BinaryBlobDiffers`). Keys whose newest message a full queue refused are outside that promise, and do
  differ (`Replication.RefusedMessageDiverges`).
- A barrier about to be answered has everything in front of it on disk if and only if nothing was in front of it, or
  the mode syncs and no line of the shutdown's final batch is still unwritten. The comment promises it always
  (`WalFlusher.BarrierDurableIff`, with failing runs in `WalFlusher.BarrierMaySyncNothing` and
  `WalFlusher.BarrierCanOvertake`). In the same way a file swap separates the lines before it from those after it if and
  only if no line in front of it is unwritten when it is answered, which only the shutdown drain lets happen
  (`WalFlusher.FilesFollowSwapsIff`, `WalFlusher.SwapsCutExactly`, `WalFlusher.SwapCanOvertake`).
- Eviction leaves a lapsed key in the index if and only if a restart forgot it and it was neither written nor compacted
  away since; a restart that rebuilds the cache forgets every key that has lapsed by then (`Recovery.EvictionLeavesIff`,
  with a run in `Recovery.RebuildForgetsLapsed`).
- Every next write of a volume reads back from its address if and only if no write has failed with a byte written since
  the volume was opened (`Volumes.NextWritesReadBackIffClean`). Every next address of a replicated group is answered by
  every member if and only if no write to the group failed after the primary's first byte and before the last member's
  last (`VolumePool.MembersAnswerIffUnharmed`).
- The operations waiting for shard locks make progress if and only if no compaction, with every shard held, waits for a
  flusher that has exited (`ShardLock.ProgressIff`, with a failing run in `ShardLock.CompactionCanHang`).
- A root commit changes what its session reads of a key if and only if the key's buffered expiry has passed
  (`Transactions.RootCommitSeen`): a session's `Get` returns a buffered value whatever its expiry.
- `Get` and `TTL` are both documented to treat an expired key as absent. They differ on whether a key exists if and only
  if the session buffers it with an expiry that is not ahead, or it is committed and expires at this very instant
  (`Transactions.ExistenceDiffersIff`, with inputs in `Transactions.LapsedBufferIsRead` and
  `Transactions.StampInstantIsRead`).
- A bounded cache stays bounded unless a refresh brings a longer blob (`LruCache.LruCache.Set`); the pool never does
  that. The bucket count of a compaction is the promised power of two unless that does not fit 64 bits
  (`BucketSizing.NewBucketCount`).

Other places where code and comment differ, with the code followed: `Compact` sizes the new table by the entry counter,
not by the number of live entries; an absent key in a frame's expiry map cannot happen for a stored key, because frames
keep `store.Keys <= expiry.Keys <= store.Keys + deleted`, and the second half of that is what makes merging sound.

## Model

| member | source | states |
|---|---|---|
| `EntryCodec.EncodeIndexEntry` | pkg/brisedb/hashindex.go:216-237 | filling the pooled buffer in place, or a new one when it is too small, leaves the entry's layout in its first bytes, for any previous content |
| `EntryCodec.Layout` | pkg/brisedb/hashindex.go:216-237 | at which offset each field of an entry lies, and in which byte order |
| `EntryCodec.ReadEntryAt` | pkg/brisedb/hashindex.go:253-313 | the read-ahead path and the two-read path compute the same decoding function, with the same errors, at every position of every file |
| `EntryCodec.ReadsBack` | pkg/brisedb/hashindex.go:216-313 | wherever an entry's bytes lie and whatever surrounds them, reading there returns the entry and its size |
| `EntryCodec.ReadsBackIffShortKey` | pkg/brisedb/hashindex.go:216-313 | an encoded entry reads back if and only if its key is under 65536 bytes |
| `Utf8.KeptIffValid` | pkg/brisedb/brise.go:348-353 | a string comes through its JSON form unchanged if and only if it is valid UTF-8 |
| `Utf8.ValidIffEncoded` | pkg/brisedb/brise.go:348-353 | the valid strings are exactly the encodings of sequences of Unicode scalar values |
| `Utf8.SanitizeTwice` | pkg/brisedb/brise.go:348-353 | what has come through once comes through unchanged ever after |
| `IndexLog.ChainStep` | pkg/brisedb/hashindex.go:325-346 | the head of a slot decodes to its newest entry, whose next offset is strictly smaller and is the head of the log before it; on the slot's keys the log means that shorter log with the entry applied |
| `IndexLog.SameSlotIff` | pkg/brisedb/hashindex.go:191-195 | two keys share a slot exactly if their hashes differ by a multiple of the number of slots |
| `IndexLog.ChainEnd` | pkg/brisedb/hashindex.go:325-346 | a zero head means no key of the slot is in the map |
| `IndexLog.Grow` | pkg/brisedb/hashindex.go:349-377 | bytes appended behind the log, such as part of an entry, change nothing the file stands for |
| `IndexLog.PublishRepresents` | pkg/brisedb/hashindex.go:201-208 | writing the one bucket slot turns an appended entry into the newest of the log and changes no other slot, entry or header byte |
| `IndexLog.AppendAndPublish` | pkg/brisedb/hashindex.go:349-403 | append plus bucket write maps a file of a log to a file of the log with one more entry, and a gapless one to a gapless one |
| `IndexLog.InitialRepresents` | pkg/brisedb/hashindex.go:148-184 | a freshly initialised file passes the header check and stands for the empty log |
| `IndexLog.DiskGetFinds` | pkg/brisedb/hashindex.go:325-346 | a lookup that knows only the bytes finds what the log's map holds |
| `IndexLog.LongKeyIsLost` | pkg/brisedb/hashindex.go:226-346 | after an update of a key of 65536 bytes or more, whatever the index held, no lookup finds the key |
| `IndexLog.LongKeyEffect` | pkg/brisedb/hashindex.go:226-346 | what such an update does to every lookup: the entry reads back as another one under a shorter key, which it shadows exactly if the two keys share the slot; all other lookups stay as they were |
| `IndexLog.StoredKeyFoundIff` | pkg/brisedb/hashindex.go:226-346 | a lookup right after a set finds what was stored if and only if the key is under 65536 bytes |
| `LogScan.ScanVisits` | pkg/brisedb/hashindex.go:447-455 | stepping by decoded sizes visits the entries laid out from a position, in order, then goes on with what follows |
| `LogScan.ScanOfLog` | pkg/brisedb/hashindex.go:216-313 | the linear scan of an index never interrupted returns exactly the appended entries, stops at the end of the file and spells out the log's map |
| `LogScan.ScanOfTornLog` | pkg/brisedb/hashindex.go:439-455 | with any number of bytes of one more entry behind laid-out entries: nothing written, those entries; all written, that entry too; anything between, a failed scan |
| `BucketSizing.SmearStep` | pkg/brisedb/hashindex.go:532-534 | or-ing a number with itself shifted by k doubles a run of k leading one bits, up to its width |
| `BucketSizing.Smear` | pkg/brisedb/hashindex.go:530-534 | the loop turns every 64-bit number into all ones below its top bit |
| `BucketSizing.NewBucketCount` | pkg/brisedb/hashindex.go:524-536 | for every 64-bit counter value: the default, or the least power of two not below the doubled count, or 0 exactly when that power does not fit 64 bits |
| `HashIndex.ScansAgree` | pkg/brisedb/hashindex.go:439-514 | two scans of one map call back with the same triples, each exactly once, whatever their order |
| `HashIndex.YieldsIff` | pkg/brisedb/hashindex.go:426-521 | a scan calls back with a triple exactly if the map holds it and its stamp, if any, has not passed |
| `HashIndex.HashIndex.OpenFile` | pkg/brisedb/hashindex.go:86-184 | any bytes: opens exactly when there is a header with the right magic and a table as long as the header says, with the fields the header gives; if the bytes stand for a log, cleanly closed or not, the index does; an empty file is initialised |
| `HashIndex.HashIndex.LoadBuckets` | pkg/brisedb/hashindex.go:133-146 | the array in memory becomes the table in the file, failing exactly when the file is too short for it |
| `HashIndex.HashIndex.Get` | pkg/brisedb/hashindex.go:325-346 | returns what the map of the log holds, for any hash function |
| `HashIndex.HashIndex.WriteAndPublish` | pkg/brisedb/hashindex.go:359-376 | the three writes of an update, for a key of any length: what they leave in file, table and append position |
| `HashIndex.HashIndex.Prepend` | pkg/brisedb/hashindex.go:353-376 | publishes one entry with the given fields, keeping file, table and log in step; fails, changing nothing, exactly when the file cannot grow that far |
| `HashIndex.HashIndex.PrependLong` | pkg/brisedb/hashindex.go:353-376 | with a key that does not fit the length field, the same writes, after which no lookup finds the key |
| `HashIndex.HashIndex.Set` | pkg/brisedb/hashindex.go:349-377 | the map gains or replaces exactly this key; a key of 65536 bytes or more is lost, and what that does to every other lookup is stated |
| `HashIndex.HashIndex.Delete` | pkg/brisedb/hashindex.go:380-403 | the map loses exactly this key, and the counter never goes below zero; a key of 65536 bytes or more stays unfound |
| `HashIndex.HashIndex.Latest` | pkg/brisedb/hashindex.go:446-455 | the last-wins pass fails exactly when the scan of the file does, and otherwise gathers the map its entries spell out |
| `HashIndex.HashIndex.ForEachSmall` | pkg/brisedb/hashindex.go:439-469 | lists each live entry of the scanned map exactly once; fails exactly when the linear scan does |
| `HashIndex.HashIndex.YieldChain` | pkg/brisedb/hashindex.go:481-511 | one chain adds each live key of its slot once, with its newest version, and no other key |
| `HashIndex.HashIndex.ForEachLarge` | pkg/brisedb/hashindex.go:476-514 | the first-wins chain walk lists each live entry of the map `Get` computes exactly once, torn file or not |
| `HashIndex.HashIndex.ListedIsContents` | pkg/brisedb/hashindex.go:426-514 | in an index never interrupted, both strategies go by the map `Get` computes |
| `HashIndex.HashIndex.ForEach` | pkg/brisedb/hashindex.go:426-434 | whichever strategy the counter selects, the live part of that map, each key once |
| `HashIndex.HashIndex.Close` | pkg/brisedb/hashindex.go:605-612 | rewriting the header stores the counter and changes nothing the file stands for |
| `HashIndex.HashIndex.CopyLive` | pkg/brisedb/hashindex.go:544-562 | the new index holds exactly the listed entries; fails exactly when they do not fit |
| `HashIndex.HashIndex.Compact` | pkg/brisedb/hashindex.go:523-602 | the new map is the part of the scanned one live at `now`, the counter is its size, the table has the promised size; a failure leaves everything as it was and happens only when the scan fails or the result is too large |
| `HashIndex.HashIndex.Adopt` | pkg/brisedb/hashindex.go:578-601 | after the swap, file, table, counters and log are those of the compacted index |
| `IndexProtocol.StepInv` | pkg/brisedb/hashindex.go:349-403 | every micro-step of the writer, every reader step and every crash with reopening keeps the file a faithful image of the published log |
| `IndexProtocol.RunInv` | pkg/brisedb/hashindex.go:349-403 | so does every run |
| `IndexProtocol.OperationIsAppendAndPublish` | pkg/brisedb/hashindex.go:349-403 | an operation nothing interrupts writes exactly the bytes of append plus publish |
| `IndexProtocol.FollowLeads` | pkg/brisedb/hashindex.go:332-345 | one iteration of a lookup keeps it on the way to its answer and at a strictly smaller offset |
| `IndexProtocol.ReadsAreLinearizable` | pkg/brisedb/hashindex.go:325-403 | in every interleaving, a lookup returns what the map held when it loaded its bucket head |
| `IndexProtocol.LookupsFinish` | pkg/brisedb/hashindex.go:325-346 | in every reachable state, whatever the writer has left unfinished, a lookup running alone ends, with that answer |
| `IndexProtocol.DiskIsBeforeOrAfter` | pkg/brisedb/hashindex.go:116-146 | in every reachable state, over any number of crashes, the bytes alone answer as the map before the operation in progress, and after its last write as the map after it |
| `IndexProtocol.RunsRefineMap` | pkg/brisedb/hashindex.go:349-403 | every run, crashes included, is a run of a plain map with a map to fall back to: lookups find the one, the bytes on disk answer as the other |
| `IndexProtocol.ScanAfterCleanCrashes` | pkg/brisedb/hashindex.go:439-455 | over any number of crashes that each left nothing or a whole entry, the linear scan fails exactly when the file ends in part of an entry, and otherwise spells out every whole entry, those never published included |
| `IndexProtocol.ScanAgreesAfterFirstCrashIff` | pkg/brisedb/hashindex.go:439-455 | exactly when a linear scan after a first crash agrees with lookups |
| `IndexProtocol.OneByteFailsScan` | pkg/brisedb/hashindex.go:439-455 | in every index there is a run, one byte into an append, after which the linear scan fails |
| `Transactions.RecordMeans` | pkg/brisedb/session.go:175-223 | buffering a write keeps the frame the meaning of its list of writes |
| `Transactions.MergeMeans` | pkg/brisedb/session.go:30-44 | a merged frame means the parent's writes followed by the child's, values and expiries |
| `Transactions.ApplyFrameRuns` | pkg/brisedb/session.go:46-126 | a root commit equals running the frame's writes directly |
| `Transactions.ErasesAborted` | pkg/brisedb/session.go:24-133 | for every trace of operations, balanced or not, the committed view is the surviving writes run directly, and every open frame means its own writes |
| `Transactions.BalancedRunsErase` | pkg/brisedb/session.go:24-133 | a balanced run of nested blocks commits what the writes outside rolled-back blocks would, and leaves no frame open |
| `Transactions.NestedCommitUnseen` | pkg/brisedb/session.go:30-44 | a commit into a parent changes no value or lifetime the session reads |
| `Transactions.RootCommitSeen` | pkg/brisedb/session.go:46-172 | a root commit changes what the session reads of a key if and only if its buffered expiry has passed; lifetimes never |
| `Transactions.ReadsOwnWrites` | pkg/brisedb/session.go:24-172 | after every sequence of operations a session reads what its surviving writes and then those of its open transactions would leave |
| `Transactions.TtlTells` | pkg/brisedb/session.go:418-456 | whole seconds up to a stamp ahead, with the bounds written out; -1 exactly for a key without stamp; -2 for everything else |
| `Transactions.ExistenceDiffersIff` | pkg/brisedb/session.go:135-457 | exactly when reading a key and asking for its lifetime disagree on whether it exists |
| `Transactions.LapsedBufferIsRead` | pkg/brisedb/session.go:137-441 | in any session, a value buffered with a past expiry is returned while its lifetime says there is none |
| `Transactions.StampInstantIsRead` | pkg/brisedb/session.go:155-457 | a committed value is returned at the instant of its stamp while its lifetime says there is none |
| `Sessions.Session.BeginTransaction` | pkg/brisedb/session.go:19-21 | one `Begin` step of the transaction model |
| `Sessions.Session.RollbackTransaction` | pkg/brisedb/session.go:131-133 | one `Rollback` step; refused exactly with no transaction open |
| `Sessions.Session.CommitTransaction` | pkg/brisedb/session.go:24-127 | one `Commit` step; index, cache, log and stream move together; refused exactly with no transaction open |
| `Sessions.MergeFrames` | pkg/brisedb/session.go:30-44 | the three merge loops compute the merge, in any iteration order |
| `Sessions.Session.Set` | pkg/brisedb/session.go:175-208 | one write step, buffered or direct; while a transaction is open nothing shared changes |
| `Sessions.Session.SetEX` | pkg/brisedb/session.go:211-250 | one write step with an expiry; refused exactly for a lifetime that is not positive; while a transaction is open nothing shared changes |
| `Sessions.Session.SetBlob` | pkg/brisedb/session.go:267-306 | a direct write even inside a transaction: the committed view gains blob and stamp at once |
| `Sessions.Session.Delete` | pkg/brisedb/session.go:389-417 | one delete step, buffered or direct; while a transaction is open nothing shared changes |
| `Sessions.Session.Get` | pkg/brisedb/session.go:137-172 | the innermost frame that mentions the key decides, then the live committed value |
| `Sessions.Session.TTL` | pkg/brisedb/session.go:422-456 | the number of whole seconds to a stamp ahead, -1 for a key without one, -2 when absent or lapsed, decided by the innermost frame first |
| `Sessions.Overrides` | pkg/brisedb/session.go:486-500 | the gathered maps decide every key as the stack does, in any iteration order |
| `Sessions.Session.Count` | pkg/brisedb/session.go:483-530 | the number of keys for which `Get` returns the value, at any nesting depth |
| `Database.BriseDb.Put` | pkg/brisedb/session.go:184-207 | the view gains the value and stamp; log and stream gain the one record and message of this write, and index, TTL cache and log make one write step |
| `Database.BriseDb.Remove` | pkg/brisedb/session.go:398-416 | the view loses the key, log and stream gain its delete; for a key the index does not hold nothing changes at all |
| `Database.BriseDb.Stage` | pkg/brisedb/session.go:56-74 | every stored key is staged exactly once, with its blob in the volume and its expiry resolved |
| `Database.BriseDb.CommitFrame` | pkg/brisedb/session.go:46-126 | the view becomes the frame applied to it, while log and stream, written in any order of the maps, say the same with one record per stored and per deleted key |
| `Database.BriseDb.Snapshot` | pkg/brisedb/brise.go:558-590 | the messages say, for every key, its live value and stamp, and nothing about the rest; each of them quotes the view |
| `Database.BriseDb.ApplyReplicationEntry` | pkg/brisedb/brise.go:594-614 | the replica's view makes the write the message decodes to and its log gains the one matching record; nothing is fanned out |
| `Database.BriseDb.EvictExpired` | pkg/brisedb/brise.go:243-255 | exactly the keys whose cached stamp has passed leave index and cache, all others stay in both as they were: one eviction step of the recovery model |
| `Database.BriseDb.Compact` | pkg/brisedb/brise.go:280-336 | the index keeps exactly the keys not lapsed, the new log lists each of them once: one compaction step |
| `Database.BriseDb.ReplayWal` | pkg/brisedb/brise.go:259-276 | succeeds if and only if no log line reaches 65536 bytes, and then is one replaying restart, guard and encoding included; otherwise exactly the records before the first such line are applied |
| `Database.BriseDb.ApplyEntry` | pkg/brisedb/brise.go:538-554 | one record's effect on index and cache |
| `Database.BriseDb.RebuildExpiry` | pkg/brisedb/brise.go:220-227 | the cache holds exactly the stamped keys not lapsed, with their stamps: one rebuilding restart |
| `Recovery.StepInv` | pkg/brisedb/brise.go:220-336 | over keys the encoding leaves alone, every write, eviction, compaction and restart keeps log, index and cache in step |
| `Recovery.RunInv` | pkg/brisedb/brise.go:220-336 | so does every serial run: a cache entry is the key's stamp or a lapsed leftover of a key the index lost, and the newest record of a key is what the index holds or has lapsed |
| `Recovery.EvictionIsInvisible` | pkg/brisedb/brise.go:243-255 | after any run, under any encoding, eviction changes no read now or later |
| `Recovery.EvictionLeavesIff` | pkg/brisedb/brise.go:220-276 | after any run, through any encoding, the lapsed keys an eviction leaves in the index are exactly those a restart forgot and that were neither written nor compacted away since |
| `Recovery.EvictionIsComplete` | pkg/brisedb/brise.go:243-255 | in a run over keys the encoding leaves alone and without a rebuilding restart it leaves none |
| `Recovery.RebuildForgetsLapsed` | pkg/brisedb/brise.go:220-227 | a run in which a key that lapsed before a rebuilding restart outlives every later eviction |
| `Recovery.RecoveryAgrees` | pkg/brisedb/brise.go:175-336 | after any run over keys the encoding leaves alone, replaying the log into an empty or the surviving index shows the index's view at every later time, if and only if the guard is harmless |
| `Recovery.RunsRecoverIff` | pkg/brisedb/brise.go:175-353 | for any encoding and line length: every run over a set of keys can be opened again, shows its writes and is restored by its log whenever the guard is harmless, if and only if the encoding leaves each key alone and no record of one makes a line of 65536 bytes |
| `Recovery.JsonRecoversIff` | pkg/brisedb/brise.go:259-353 | with JSON that is: if and only if the keys are valid UTF-8 and their lines short |
| `Recovery.InvalidKeyIsLost` | pkg/brisedb/brise.go:348-353 | the one-byte key 0xFF does not recover |
| `Recovery.ChangedKeyIsLost` | pkg/brisedb/brise.go:259-276 | a key the encoding changes is lost with the index, and over the surviving index a key nobody wrote appears |
| `Recovery.AnglesBlockOpening` | pkg/brisedb/brise.go:264-275 | after one write to a key of 11000 angle brackets the database does not open |
| `Recovery.RealStampsAreHarmless` | pkg/brisedb/brise.go:270 | with stamps the guard cannot reach, nothing is skipped |
| `Recovery.GuardCanResurrect` | pkg/brisedb/brise.go:270 | a run after which replay shows a value that had been overwritten |
| `Recovery.LostTailFallsBackIff` | pkg/brisedb/brise.go:173-190 | after any run, with any prefix of the log replayed over the surviving index, through any encoding: exactly those keys fall back for which a surviving record reads back and shows something else than the newest record of the whole log |
| `Recovery.ReplayAgreesIff` | pkg/brisedb/brise.go:173-276 | the same per key for any database in step, over the surviving or an empty index |
| `Recovery.LostIndexFallsBackIff` | pkg/brisedb/brise.go:173-190 | the same with the index lost as well |
| `Recovery.RewritingLosesNothing` | pkg/brisedb/brise.go:280-336 | a crash while the log is being rewritten loses nothing: replaying any prefix of the new log leaves the view alone |
| `Recovery.MaintenanceIsInvisible` | pkg/brisedb/brise.go:175-336 | eviction, compaction and both restarts change no read from then on |
| `Recovery.RunsShowTheirWrites` | pkg/brisedb/brise.go:175-336 | every run shows, from its end on, what its writes alone would show in a plain map |
| `WalFlusher.StepKeeps` | pkg/brisedb/brise.go:382-534 | no micro-step loses, duplicates or reorders a line |
| `WalFlusher.StepInv` | pkg/brisedb/brise.go:382-534 | every micro-step keeps the promises of its mode: what is synced, what is owed, who has been told |
| `WalFlusher.FlusherIsFifo` | pkg/brisedb/brise.go:348-534 | in every reachable state, mid-flush included, lines taken and lines queued are the enqueue order; in mode Always every caller told so far has its line on disk |
| `WalFlusher.ExitLosesNothing` | pkg/brisedb/brise.go:487-506 | an exited flusher has written exactly what was enqueued before its last look at the queue, and synced its last file; in a syncing mode all of it is on disk |
| `WalFlusher.FilesFollowSwapsIff` | pkg/brisedb/brise.go:449-533 | in every run each file holds, or is going to hold, exactly the lines enqueued between two swaps, if and only if no swap is answered over lines not yet written |
| `WalFlusher.SwapsCutExactly` | pkg/brisedb/brise.go:449-533 | before shutdown, whenever the flusher waits with an empty queue, the files are the enqueued lines cut at the swaps |
| `WalFlusher.SwapCanOvertake` | pkg/brisedb/brise.go:489-496 | a shutdown run in which a line enqueued before a swap is destined for the file after it |
| `WalFlusher.FilesHoldWritesBetweenSwaps` | pkg/brisedb/brise.go:449-460 | in every run, shutdown included, there is one closed file per answered swap, and each holds the lines written between two of them |
| `WalFlusher.TickSyncsAll` | pkg/brisedb/brise.go:439-486 | in mode EverySec a waiting flusher has everything it took on disk, or knows that it has not and the next tick puts it there |
| `WalFlusher.LimitsHold` | pkg/brisedb/brise.go:509-526 | in every reachable state the queue holds at most 1024 messages and a batch of the main loop at most 512 lines |
| `WalFlusher.BarrierDurableIff` | pkg/brisedb/brise.go:449-469 | in all three modes and every reachable state, exactly when a barrier or swap about to be answered has everything before it on disk |
| `WalFlusher.BarrierMaySyncNothing` | pkg/brisedb/brise.go:461-467 | a run in mode Never in which an answered barrier has synced nothing |
| `WalFlusher.BarrierCanOvertake` | pkg/brisedb/brise.go:489-496 | a run in which a barrier is answered with a line in front of it unwritten |
| `WalFlusher.Flusher.WriteBatch` | pkg/brisedb/brise.go:421-431 | the lines of the batch go into the buffered writer in order |
| `WalFlusher.Flusher.FlushAndSync` | pkg/brisedb/brise.go:432-447 | flush, then sync as the mode asks |
| `WalFlusher.Flusher.SignalBatch` | pkg/brisedb/brise.go:410-419 | the callers are told one by one |
| `WalFlusher.Flusher.FlushBatch` | pkg/brisedb/brise.go:531-532 | write, flush, sync and signal are a legal run in this order |
| `WalFlusher.Flusher.AnswerSpecial` | pkg/brisedb/brise.go:449-469 | flush, sync as the mode asks, answer, switch files: a legal run of the steps for which the file results hold |
| `WalFlusher.Flusher.Turn` | pkg/brisedb/brise.go:471-533 | one turn of the loop on a non-empty queue is a legal run back to waiting, and takes at least one message |
| `WalFlusher.Flusher.DrainAndExit` | pkg/brisedb/brise.go:487-506 | the shutdown branch is a legal run that ends with queue and batch empty |
| `Replication.StepInv` | pkg/brisedb/replication.go:29-43 | every step keeps what the replica will hold once all messages arrive indistinguishable from the primary, for keys not dropped and writes the encoding leaves alone |
| `Replication.RunInv` | pkg/server/server.go:303-353 | so does every interleaving of writes, fan-out in the commit's own order, eviction, registration, fuzzy scan and delivery |
| `Replication.ReplicaConverges` | pkg/server/server.go:303-353 | once drained, a replica of a run whose writes the encoding leaves alone shows what the primary shows, at every time from the later of the two hosts' clocks on, for every key whose newest message no full queue refused |
| `Replication.KeepingUpConverges` | pkg/server/server.go:303-353 | a drained replica whose queue never was full when a message was sent agrees on every key |
| `Replication.ReplicasConvergeIff` | pkg/brisedb/session.go:581-592 | for any encoding: every drained run over a set of keys and of values converges, if and only if the encoding leaves each of them alone |
| `Replication.JsonConvergesIff` | pkg/brisedb/session.go:581-592 | with JSON that is: if and only if they are valid UTF-8 |
| `Replication.BinaryBlobDiffers` | pkg/brisedb/session.go:581-592 | one write of a one-byte blob that is not UTF-8 leaves the drained replica different |
| `Replication.RefusedMessageDiverges` | pkg/brisedb/replication.go:29-43 | a run of one write more than a queue holds, drained, in which the replica shows the value before the last |
| `Replication.ReorderInv` | pkg/brisedb/session.go:119-124 | a commit may send its messages in another order than it applied them: exchanging those of different keys keeps the invariant |
| `Replication.StepSeenAt` | pkg/brisedb/replication.go:17-43 | seen from one of many replicas, each step of the cluster is a step of its own protocol, no step, or its end |
| `Replication.EveryReplicaConverges` | pkg/server/server.go:303-353 | with any number of replicas that come and go, each drained one converges on writes the encoding leaves alone, whatever the others' queues refuse |
| `Replication.ReplicationManager.MakeChannel` | pkg/server/server.go:306-309 | a new, empty channel; every cluster served before is served still |
| `Replication.ReplicationManager.Register` | pkg/brisedb/replication.go:17-21 | a manager that keeps the queues of a cluster keeps those of the cluster after this replica's registration; no channel is emptied |
| `Replication.ReplicationManager.Unregister` | pkg/brisedb/replication.go:23-27 | it keeps those of the cluster after this replica has hung up |
| `Replication.ReplicationManager.Fanout` | pkg/brisedb/replication.go:29-43 | every registered channel with room gains the entry, full ones are left alone: the cluster's fan-out step for all its replicas at once |
| `Volumes.RecordReadsBack` | pkg/brisedb/volume.go:63-118 | a record reads back whatever surrounds it |
| `Volumes.RecordLayout` | pkg/brisedb/volume.go:63-78 | a record is the length, highest byte first, then the bytes |
| `Volumes.ReadStays` | pkg/brisedb/volume.go:104-118 | what could be read stays readable, unchanged, whatever is appended |
| `Volumes.WritesReadBackIffEndIsSize` | pkg/brisedb/volume.go:63-118 | every next write reads back from its address exactly when the believed end is the size of the file |
| `Volumes.NextWritesReadBackIffClean` | pkg/brisedb/volume.go:50-118 | over every history of writes, failed writes and reopenings, every next write reads back exactly when none has failed with a byte written since the last opening |
| `Volumes.CutWriteBreaksNext` | pkg/brisedb/volume.go:63-78 | a write cut off after some bytes of its record breaks later addresses exactly when it wrote any |
| `Volumes.VolumeManager.constructor` | pkg/brisedb/volume.go:154-218 | fresh drives, one empty volume each, the default size limit for 0 |
| `Volumes.VolumeManager.CreateVolume` | pkg/brisedb/volume.go:222-233 | an empty volume under a new identifier becomes the drive's current one |
| `Volumes.VolumeManager.AppendTo` | pkg/brisedb/volume.go:63-78 | the address names the old end; all earlier addresses keep their bytes, and records never overlap |
| `Volumes.VolumeManager.Write` | pkg/brisedb/volume.go:289-310 | the next drive in turn, a new volume exactly when the current one is full, all earlier addresses kept |
| `Volumes.VolumeManager.WriteToVolume` | pkg/brisedb/volume.go:265-285 | the chosen volume, created when new, all earlier addresses kept |
| `Volumes.VolumeManager.Read` | pkg/brisedb/volume.go:337-352 | any address ever returned yields its exact bytes |
| `Volumes.VolumeManager.Reopen` | pkg/brisedb/volume.go:154-218 | the restart scan keeps every volume and every address, with identifiers still fresh |
| `LruCache.LruCache.constructor` | pkg/brisedb/lrucache.go:38-47 | an empty cache of any byte bound |
| `LruCache.LruCache.New` | pkg/brisedb/lrucache.go:38-47 | no cache for a bound of 0, else an empty one of that bound |
| `LruCache.LruCache.Get` | pkg/brisedb/lrucache.go:51-64 | returns the cached blob and moves it to the front, the rest of the list keeping its order |
| `LruCache.WithoutKeepsOrder` | pkg/brisedb/lrucache.go:51-64 | taking an address out of the list leaves the others in their order |
| `LruCache.LruCache.EvictLru` | pkg/brisedb/lrucache.go:134-144 | drops the back entry from list, map and byte count, if there is one |
| `LruCache.LruCache.MakeRoom` | pkg/brisedb/lrucache.go:88-91 | ends, with the longest prefix of the list that leaves room |
| `LruCache.LruCache.Set` | pkg/brisedb/lrucache.go:69-97 | for any blob: list and map stay in bijection and the byte count exact; a refresh moves the entry to the front, keeps the order of the rest and evicts nothing, an insertion no more than it must, an oversized blob is ignored; a bounded cache stays bounded exactly unless a refresh puts in a blob too long for the room left |
| `VolumePool.NewGroupMirrored` | pkg/brisedb/volumepool.go:293-315 | a new group starts identical, empty, on all members and disturbs no stored blob |
| `VolumePool.WriteMirrored` | pkg/brisedb/volumepool.go:104-138 | writing all members keeps every group's files byte-identical and all addresses readable, the new one included |
| `VolumePool.AnyMemberAnswers` | pkg/brisedb/volumepool.go:167-208 | any member answers an address as the primary does |
| `VolumePool.AdoptedMirrored` | pkg/brisedb/volumepool.go:84-96 | registering local volumes as groups of their own disturbs no group and no stored blob |
| `VolumePool.VolumePool.constructor` | pkg/brisedb/volumepool.go:67-99 | a pool over the registry and files of an earlier run registers exactly the loaded groups and the local volumes, answers every address that run issued, gives out only unused identifiers, and keeps the given limits |
| `VolumePool.VolumePool.GetOrCreateGroup` | pkg/brisedb/volumepool.go:275-316 | the active group exactly while its local volume has room, else a new registered one; it has as many members as copies are asked for, or backends exist, and they are the first backends in order |
| `VolumePool.VolumePool.Write` | pkg/brisedb/volumepool.go:104-138 | every member of the group gains exactly the record and alone answers its address, with the local backend down as well; files stay identical, all earlier addresses keep their blobs |
| `VolumePool.WrittenEverywhere` | pkg/brisedb/volumepool.go:112-137 | once every member has written the record, each of them alone answers the primary's address |
| `VolumePool.VolumePool.WriteMembers` | pkg/brisedb/volumepool.go:112-135 | exactly the members' files gain the record |
| `VolumePool.VolumePool.Read` | pkg/brisedb/volumepool.go:167-208 | cached and uncached reads agree; with one member up, any issued address yields its blob, and the cache then holds it |
| `VolumePool.VolumePool.ReadMembers` | pkg/brisedb/volumepool.go:184-197 | failover finds the stored blob whenever some member answers |
| `VolumePool.MembersAnswerIffUnharmed` | pkg/brisedb/volumepool.go:104-138 | over every history of a group with failing writes: each member alone answers every next address, if and only if each write failed before the primary's first byte or reached every member whole |
| `VolumePool.InStepIffUnharmed` | pkg/brisedb/volumepool.go:104-138 | exactly then the members' files have the length the primary believes; no later write makes up for a failure |
| `VolumePool.MissedWriteSilences` | pkg/brisedb/volumepool.go:118-134 | after any history, one write that the primary made and another member missed breaks the promise |
| `ShardLock.ShardsCover` | pkg/brisedb/keyedmu.go:20-62 | every operation locks in increasing order and covers the shard of every key it touches |
| `ShardLock.ShardsExact` | pkg/brisedb/keyedmu.go:20-62 | and no more: all 64 shards for eviction and compaction, the shards of its keys for every other operation |
| `ShardLock.AdmittedIff` | pkg/brisedb/keyedmu.go:27-30 | a reader is kept out by writers alone, every other operation by whoever holds its next shard |
| `ShardLock.LockOrder` | pkg/brisedb/keyedmu.go:34-48 | computes the lock list of a commit: exactly the shards of its keys, each once, in increasing order |
| `ShardLock.LockAllOrder` | pkg/brisedb/keyedmu.go:58-62 | computes the lock list of the global operations: 0 to 63 in order |
| `ShardLock.StepInv` | pkg/brisedb/keyedmu.go:27-69 | no step, readers admitted past a writer in line included, lets two processes hold a shard unless both read |
| `ShardLock.SomeoneAhead` | pkg/brisedb/keyedmu.go:27-69 | from any waiting process, following who waits for whom reaches one that can step, writers in line blocking readers included |
| `ShardLock.ProgressIff` | pkg/brisedb/keyedmu.go:27-69 | in every reachable state with an unfinished operation that needs a shard, one of those can step if and only if no compaction waits for a flusher that has exited |
| `ShardLock.CompactionCanHang` | pkg/brisedb/brise.go:326-332 | such a state is reachable |
| `ShardLock.AccessIsCovered` | pkg/brisedb/session.go:76-103 | in every reachable state an operation at work holds the shard of every key it touches |
| `ShardLock.AccessIsExclusive` | pkg/brisedb/brise.go:243-255 | in every reachable state two operations at work on keys of one shard both only read |
| `Glob.MatchGlob` | pkg/brisedb/session.go:615-644 | accepts exactly when the string splits into one piece per pattern character, each fitting its character; always ends |
| `Glob.MatchStar` | pkg/brisedb/session.go:618-630 | the backtracking loop accepts exactly when some suffix matches the rest of the pattern |
| `Glob.StarStar` | pkg/brisedb/session.go:619-621 | collapsing adjacent stars changes no match |

## Left out

- io_uring rings and file readers: not called by the engine.
- TCP and HTTP servers, clients, command dispatch, CLI, configuration, Range parsing and pub/sub: I/O plumbing and easy members. Of the server only the order inside the replication handler is modelled.
- JSON syntax of log and replication entries: an entry is a value, its encoding is what becomes of its key and value and how long its line is. `Utf8` gives the first for Go's encoder, and a lower bound of the second.
- FNV: the hash and the shard function are arbitrary functions, so nothing depends on their bits.
- Clocks are integer parameters that never go back, stamps are unbounded integers; fsync timing and operating-system errors are left out, except that an index file may not outgrow 63-bit offsets. The sticky log error belongs to those.
- `Persist`, which writes neither log nor stream, and `SetBlobStream`, which does not fan out: the code gives no recovery or replication guarantee for them. The pool's direct streaming path into the local manager goes with the latter.
- Concurrent writers to one key: log and stream are written after the shard lock is released, so the serial machines of `Recovery`, `Database` and `Replication` have one writer at a time. The comment that the chain scan is a consistent snapshot under concurrent writes is not guaranteed by the code and not stated.
- Database compaction is taken with the log queue drained and no stale temporary index file.
- Accuracy of the index's entry counter: the code does not keep it equal to the number of live keys; both restart paths are allowed at any time instead.
- Crashes inside the initialisation of an index file, other than that opening a cut-short file fails, and torn eight-byte bucket writes: a bucket write is taken as atomic.
- Keys, Scan and their pagination: easy members over the full listing.
- Registry files and statistics of volumes, pool and cache: bookkeeping.
- HashIndex.HashIndex.Prepend: writes entry, bucket and memory in one call; the order of the three and their interleaving with readers and crashes are in `IndexProtocol`, whose runs have no compaction and no closing of the index.
- HashIndex.HashIndex.OpenFile: a header that announces more buckets than memory holds makes the source panic, here it is an unreadable file.
- HashIndex.HashIndex.ForEach: callbacks never stop the scan.
- HashIndex.HashIndex.Compact: writing, syncing and renaming the temporary file are one step; no crash is taken inside it.
- Sessions.Session.TTL: divides nanoseconds exactly, where the source goes through a 64-bit float; beyond 2^24 seconds a remainder within half an ulp of the next second is reported one second higher there.
- Sessions.Session.CommitTransaction: volume, index and log errors halfway through a commit, and in the single writes, do not occur.
- Database.BriseDb.Put: the index is a map and a blob's address its position in one append-only volume; the byte-level index and the volumes are proved separately. The 64 TTL maps are one map. Index and volume errors do not occur.
- Database.BriseDb.Compact: lists the index as a never-interrupted one does.
- Database.BriseDb.RebuildExpiry: the scan of the index succeeds. After a torn append the scan of a small index fails (`IndexProtocol.OneByteFailsScan`), and then the database does not open.
- Recovery.RunsShowTheirWrites: a restart that cannot scan its index is not a step, as for `Database.BriseDb.RebuildExpiry`; one that cannot read its log is not a step either, and `Recovery.RunsRecoverIff` says when that happens.
- Volumes.VolumeManager.Reopen: continues each drive with any of its volumes, where the source takes the last by name; identifiers and offsets are unbounded. All volume files are known to the manager, so the late opening of a volume by identifier does not occur.
- VolumePool.VolumePool.Write: serialized writes that succeed on every member, backends distinct, members written in turn; what failing writes do is in `VolumePool.MembersAnswerIffUnharmed`, on values. Existing local volumes are read as the source reads unregistered ones.
- Replication.ReplicaConverges: one direction only for dropped messages: a key whose newest message was dropped may still agree by chance. A connection starts with an empty replica; one that reconnects with an old store keeps keys deleted meanwhile.
- WalFlusher.FlusherIsFifo: the buffered writer spills whole lines, where the source may spill part of one.
- LruCache.LruCache.Set: the byte count does not wrap, since the bytes are held in memory.
- ShardLock.ProgressIff: apart from compaction's wait, an operation at work never waits.
- ShardLock.LockOrder: sorts by insertion in place of the library sort.
