# Fleare, verified

Fleare is a sharded in-memory key-value store with a batched write-ahead log, lazy expiry of keys,
consistent-hash routing and commands that edit JSON documents by dotted path. This project models that core in
Dafny and proves what it guarantees over whole runs, and exactly where it does not.

`dafny verify dfyconfig.toml` checks everything.

## How the model is built

| file | part of the program |
|---|---|
| `Base.dfy` | options, bytes, 64-bit wrap-around |
| `Ring.dfy` | the consistent-hash ring: class `ConsistentHash`, its meaning as clockwise distance |
| `Store.dfy` | one shard's memory: classes `Object` and `Memory`, runs with sweeps |
| `LogFormat.dfy` | record framing and the tolerant reader |
| `PlainCodec.dfy` | no part of the program: a concrete record encoding that meets the assumption made of protobuf |
| `Wal.dfy` | one shard's log: class `WalShard` with its goroutine loop |
| `Replay.dfy`, `Durability.dfy` | replay key by key; one shard as a state machine; durability and crashes |
| `Commands.dfy`, `Lists.dfy`, `Maps.dfy` | the commands as methods on memory and log; what they do to stored lists and maps |
| `System.dfy`, `Recovery.dfy` | all shards together; class `ShardManager` |
| `Session.dfy` | the lives of a one-shard server, one after the other: recovery, commands, goroutine, shutdown |
| `Json.dfy`, `JsonPath.dfy`, `JsonMerge.dfy`, `JsonRef.dfy` | documents, path operations, merge and reference expansion as functions with their laws |
| `JsonHeap.dfy` | the same operations on nested mutable maps, changed in place |
| `Query.dfy` | the query parser of LIST.FIND |

Each imperative part is a class or a method with loops, proved against a function; the laws are about the
functions. Things outside the program are parameters, with their assumptions in one predicate each:

- `LogFormat.Codec`: the record encoding (protobuf), the checksum (CRC-32C, section 12.1 of RFC 3720) and UTF-8
  validity. `Faithful` assumes that encoding round-trips and refuses exactly keys that are not valid UTF-8; a
  refused record is dropped, as in the program. `PlainCodec.PlainIsFaithful` exhibits an encoding that is Faithful.
- No record that is framed reaches 4 GiB, where its length field would wrap: `Fits`, asked only of the records that
  occur (a step of the state machine that frames a record, a list of records in a file).
- The ring hash is any function. Colliding ids do no harm to the routing of a running server; `Legal` says when
  they harm additions and removals.
- `Lists.ListCodec`, `Maps.MapCodec`: the JSON text of lists and maps; `RoundTrips` is asked of the ones at hand only.
  `Lists.TextListsRoundTrip` exhibits such a codec.
- Clock readings, timers, arrival of entries and iteration order of maps are inputs chosen freely. Recovery may read
  the clock anew, twice, for every record (`Reading`, `Clock`); TTL.EXPIRE reads it three times.

Objects are shared as in the program: TTL.EXPIRE, MAP.DEL and LIST.GPOP put a pointer on the log channel and the
object is read only when the record is framed. The state machine lets every such change show in any set of
waiting records (`shared`); the command methods compute that set from the real pointers.

## What holds, and what does not

- A key is recovered as it was if and only if it is `Kept`: it was deleted, or it is in memory with the deadline that
  replay makes of the logged one. For a key whose deadline in memory is the logged one (every key, in a life without
  LIST.GPOP on a list with a deadline and without a TTL.EXPIRE that takes over a second) this means: there is no
  deadline, or it is ahead of the clock and the clock does not tick between the two readings. A key that lost its
  deadline in memory but not in the log behaves the other way round. A record whose deadline has come is brought back
  as a permanent key.
- A crash at any byte equals a clean shutdown at an earlier moment if and only if each first part of the final records
  was once all there was. In a life without a slow TTL.EXPIRE that is so if and only if no command changed, through a
  shared object, a record that was still waiting; a run in which one did is given.
- A TTL.EXPIRE whose new deadline passes before its second lookup drops the key without logging that.
- A file cut right behind a header is an error, and stops the recovery of later shards. The order in which shard
  files are read matters if and only if some file ends in an error and another one would change its shard.
- A torn tail is not removed when the file is reopened. Everything appended behind it is lost, unless the torn record,
  filled up with the appended bytes, passes length, checksum and decoding. Then that record is recovered - the torn one
  itself if exactly the missing bytes were appended - and reading goes on behind it, wherever that is in what was
  appended.
- "Sync every N batches" is decided on the total number of records: a flush syncs if and only if that total, counted
  since the log was opened, is a multiple of N, which may never happen.
- The ring is a faithful picture of its members throughout a history if and only if no node is added whose hash is
  taken and none removed whose hash is another member's.
- GET still answers in the second in which TTL, EXPIRE and the sweep already treat a key as gone.
- The number of keys that STATUS reports counts keys that are due but not yet swept or looked up.
- Both rings agree if and only if at least one shard is configured. With none the log still has shard files, and
  recovery dies of the first record in them that needs a shard.
- Merging is not JSON Merge Patch (section 2 of RFC 7396): null overwrites. It is associative on exactly the
  `Regroupable` triples.
- A list that ends in a null behind other elements cannot be popped; LIST.GPOP takes the null, and leaves an empty list
  where LIST.POP deletes the key.
- MAP.DEL of a field that a map of one field does not have deletes the map, with its other field.
- TTL drops a key whose deadline overflowed the clock, though GET, EXPIRE and the sweep would keep it for good.
- A complete record that cannot be read is always an error. Only what a torn write can leave at the end of a file is
  passed over.
- With another number of shards than the files were written with, each record still goes to the shard that owns its key
  now, as far as the files are read.
- JSON.SETREF leaves its reference at a path if and only if neither the document nor a shorter path of the map is in the
  way.

Where the program's comments say "every N batches" and "tolerate torn tail", the model follows the code.

## Model

| member | source | states |
|---|---|---|
| Ring.NearestExists | internal/helper/consistent_hash.go:56-68 | any key hash has a nearest node clockwise on a non-empty ring |
| Ring.ConsistentHash.AddNode | internal/helper/consistent_hash.go:35-40 | the array is the sorted old array with the new hash, the map has the node under it |
| Ring.ConsistentHash.RemoveNode | internal/helper/consistent_hash.go:43-54 | one occurrence of the hash leaves the array, the hash leaves the map |
| Ring.ConsistentHash.Search | internal/helper/consistent_hash.go:63 | bisection finds the boundary between smaller and not smaller hashes |
| Ring.ConsistentHash.GetNode | internal/helper/consistent_hash.go:57-68 | the node at the least clockwise distance from the key's hash, whenever array and map hold the same hashes; empty name on an empty ring or a stale hash |
| Ring.RepresentsIffLegal | internal/helper/consistent_hash.go:35-54 | array and map hold exactly the members, strictly sorted, at every moment of a history if and only if no node is added whose hash is taken and none removed whose hash is another's |
| Ring.ApplyRepresentsIff | internal/helper/consistent_hash.go:35-54 | the same for one operation |
| Ring.RunKeepsAscending | internal/helper/consistent_hash.go:35-54 | after any history at all the array is sorted, so bisection is sound |
| Ring.HistoriesAgree | internal/helper/consistent_hash.go:35-54 | any two legal histories with the same final members end with the same ring |
| Ring.RingDependsOnMembersOnly | internal/helper/consistent_hash.go:35-54 | two rings that picture the same members are the same |
| Ring.AddMovesOnlyToNew | internal/helper/consistent_hash.go:35-40 | adding a node gives it exactly the keys it is nearest to and moves no other key |
| Ring.RemoveMovesOnlyItsOwn | internal/helper/consistent_hash.go:43-54 | removing a node moves only the keys it owned |
| Ring.AddThenRemoveRestores | internal/helper/consistent_hash.go:35-54 | adding a fresh node and removing it restores the whole ring |
| Ring.DoubleAddLeavesAStaleHash | internal/helper/consistent_hash.go:35-54 | the shortest illegal history: a node added twice and removed once leaves a hash without a node |
| Store.LifetimeIsHonoured | internal/store/mem.go:57-132 | a lifetime set with a value, or by EXPIRE with two clock readings, runs from the last reading: TTL counts down to the second, and GET, EXPIRE and the sweep end when they should |
| Store.NoLifetimeMeansForGood | internal/store/mem.go:48-132 | a key stored without a lifetime, or whose lifetime was taken away, answers -1 to TTL and is never found over; with a lifetime neither holds |
| Store.LastWriteIsRead | internal/store/mem.go:29-132 | GET answers what was last written, a new lifetime leaves kind and value alone, a deleted key is absent for every operation |
| Store.OtherKeysStay | internal/store/mem.go:29-132 | an operation on one key never shows under another |
| Store.TakesOutIff | internal/store/mem.go:29-149 | exactly when each operation removes a key that is over |
| Store.OverflowingLifetime | internal/store/mem.go:57-132 | a lifetime past the 64-bit clock is over for TTL at once and never for GET, EXPIRE and the sweep |
| Store.Memory.Length | internal/store/mem.go:23-27 | the number of keys, those that are due included, as a 32-bit integer |
| Store.Memory.Get | internal/store/mem.go:29-46 | answers the object unless the clock is past its deadline, then drops it |
| Store.Memory.Set | internal/store/mem.go:48-55 | stores a fresh object without deadline |
| Store.Memory.SetWithTTL | internal/store/mem.go:57-73 | stores a fresh object whose deadline is now plus a positive lifetime, else none |
| Store.Memory.Delete | internal/store/mem.go:75-84 | removes the key and reports whether it was there |
| Store.Memory.TTL | internal/store/mem.go:86-107 | remaining seconds, -1 without deadline, -2 when absent or over (then dropped) |
| Store.Memory.Expire | internal/store/mem.go:109-132 | changes the deadline in the object itself, or drops a key already due |
| Store.Memory.CleanupExpired | internal/store/mem.go:134-149 | removes exactly the due keys, in any order, and counts them in 32 bits |
| Store.SweepsAreUnobservable | internal/store/mem.go:29-149 | sweeps inserted anywhere in any run change no answer but GET in a leftover key's deadline second, DELETE's report about a leftover key, and the length when there are leftover keys (unless a multiple of 2^32 of them), each exactly |
| Store.GetAndTTLDisagreeAtTheDeadline | internal/store/mem.go:39-104 | in the deadline second GET answers and TTL says gone |
| LogFormat.TornTail | internal/wal/wal.go:387-438 | for every cut of a whole-frame file the reader reports exactly the whole frames, and errs only right behind a header |
| LogFormat.ParseOfFrames | internal/wal/wal.go:307-438 | a file of whole frames is read back entry for entry |
| LogFormat.ParseFramesThen | internal/wal/wal.go:397-436 | whole frames are read first, whatever follows |
| LogFormat.FrameLayout | internal/wal/wal.go:322-335 | a frame is the length of checksum and data, the checksum, and the data, in this order |
| LogFormat.UnreadableEndsReading | internal/wal/wal.go:397-436 | behind whole frames reading ends at the first record that cannot be read, with exactly the error that fits: bad length, checksum, decoding, or a file cut right behind a header; silently only on a torn rest |
| LogFormat.CleanIffIntact | internal/wal/wal.go:397-436 | for any bytes: reading ends without an error if and only if they are readable records and then a torn rest or nothing |
| LogFormat.ChangedRecordIsAnError | internal/wal/wal.go:422-424 | a record whose data were changed so that the checksum differs is a checksum error, and nothing behind it is read |
| LogFormat.BE32RoundTrip | internal/wal/wal.go:326-410 | the big-endian header fields round-trip |
| LogFormat.WholeFramesExist | internal/wal/wal.go:387-438 | every cut has a number of whole frames before it |
| LogFormat.AppendBehindATornTail | internal/wal/wal.go:215 | for a tear at any byte and anything appended: all of it is lost if and only if the completed torn record is not readable; otherwise exactly what is recovered |
| LogFormat.TornRecordCompleted | internal/wal/wal.go:397-436 | with exactly the missing bytes appended, the torn record is recovered, and everything behind it as if there had been no tear |
| LogFormat.BehindATornRecord | internal/wal/wal.go:397-436 | once the torn header is complete, the appended bytes must fill its length and carry its checksum to be read at all |
| LogFormat.ShortRecordsBehindATornLength | internal/wal/wal.go:408-414 | with records under 256 bytes a tear inside the length field always ends reading with an error |
| PlainCodec.PlainIsFaithful | internal/wal/wal.go:307-320 | what is assumed of the record encoding can be met, for any checksum and any notion of valid keys |
| PlainCodec.PlainRunRecovers | internal/wal/wal.go:260-438 | with such an encoding real runs meet the assumptions of the durability theorems |
| Wal.EveryNSyncsIff | internal/wal/wal.go:333-357 | for any batches of any entries: something is synced if and only if a non-empty batch brings the running record total to a multiple of N |
| Wal.SyncedUpToTheLastSuchBatch | internal/wal/wal.go:351-366 | the synced prefix of the file ends exactly behind the last such batch |
| Wal.EveryNMayNeverSync | internal/wal/wal.go:333-357 | with the record total once off a multiple of N, batches of N records each are never synced |
| Wal.RemainderIsMod | internal/wal/wal.go:356 | the remainder used is the remainder |
| Wal.WithDefaults | internal/wal/wal.go:60-84 | a given option survives, a missing batch size becomes 1 MiB and a missing N becomes 10 |
| Wal.NothingIsSynced | internal/wal/wal.go:351-366 | under the policy that never syncs no flush of a batch syncs anything |
| Wal.EveryBatchIsSynced | internal/wal/wal.go:351-366 | under the every-batch policy nothing flushed stays unsynced |
| Wal.WalShard.constructor | internal/wal/wal.go:214-236 | the shard starts empty behind the existing file |
| Wal.WalShard.Send | internal/wal/wal.go:171-185 | an accepted entry goes to the end of the channel |
| Wal.WalShard.EncodeAppend | internal/wal/wal.go:307-338 | the batch grows by the entry's frame and the record count by one, or nothing if the encoding refuses |
| Wal.WalShard.Drain | internal/wal/wal.go:270-293 | taking and framing one entry is the framing step of the pipeline and keeps conservation |
| Wal.WalShard.Flush | internal/wal/wal.go:340-370 | the batch moves to the file; synced exactly when forced or when the policy says so |
| Wal.WalShard.FlushPipe | internal/wal/wal.go:340-370 | flushing is the flush step of the pipeline |
| Wal.WalShard.DrainLoop | internal/wal/wal.go:285-297 | the inner loop: goes back to the head only with a full batch or an empty channel, else at the end; takes one entry per turn; for any codec and any entries |
| Wal.WalShard.Iterate | internal/wal/wal.go:264-304 | one outer iteration ends below the batch target; a batch whose time was up is in the file, so is one that was full before the channel was empty, and no other; on a closed channel it takes at least one entry |
| Wal.WalShard.Run | internal/wal/wal.go:260-305 | for any surroundings: accepted entries are kept once each and in order, the batch is below its target at every loop head and never exceeded it by more than one of the records framed; after an iteration that began late everything framed is in the file, and nothing is written before its time or the target; on a closed channel it ends within one iteration per waiting entry plus one, and frames each entry as it was if nobody writes into objects |
| Wal.WalShard.Close | internal/wal/wal.go:238-253 | everything accepted is framed and in the file, with its contents at closing if nobody writes into objects meanwhile, and synced unless the policy is SyncNever |
| Replay.ReplayedDeadline | internal/shard/shard_manager.go:118-119 | a deadline ahead of the first clock reading is moved later by exactly the time between the two readings; one that has come by the first reading is dropped |
| Replay.DeadlineIsKeptIff | internal/shard/shard_manager.go:118-119 | a deadline is kept as it is if and only if it is none, or ahead with equal readings |
| Replay.ReplayByLast | internal/shard/shard_manager.go:107-125 | recovery, with its own clock readings for every record, leaves under each key what its last record says |
| Replay.ReplayByLastWord | internal/shard/shard_manager.go:109-124 | the same for records of any kind, on top of any memory: updates without an object and unknown operations are passed over |
| Replay.ParseLogged | internal/wal/wal.go:315-320 | records with keys that are not UTF-8 are missing from the file, all others are read back |
| Durability.ExecuteAgrees | commander/common/set.go:41-47 | every command keeps memory and the last record of every key in agreement, whatever waiting records share objects |
| Durability.SetDeadlineAgrees | commander/ttl_cmd/expire_cmd.go:58-74 | the same for TTL.EXPIRE with its three clock readings, which logs the live object or drops the key unlogged |
| Durability.MapFieldAgrees | commander/map_cmd/map_del.go:58-83 | the same for MAP.DEL of a field |
| Durability.ListGPopAgrees | commander/list_cmd/list_gpop.go:78-85 | the same for LIST.GPOP, recording that the log keeps a deadline that memory lost |
| Durability.NextKeepsInv | internal/wal/wal.go:260-370 | every command, framing, flush, crash and restart keeps the shard invariant |
| Durability.ReadAfterCommand | commander/common/delete.go:40-49 | what GET answers under any key at any later time after each command: its effect under its own key, and nothing under others |
| Durability.WhatIsLogged | commander/common/delete.go:40-49 | each command logs at most one record, exactly when it should, about its own key and saying what memory has by then (LIST.GPOP: with the old deadline) |
| Durability.SyncedSurvives | internal/wal/wal.go:340-370 | what has been synced survives every crash |
| Durability.UnsyncedMayBeLost | internal/wal/wal.go:340-370 | any later part of the file may be gone after a crash |
| Durability.ReplayMatchesMemoryIff | internal/shard/shard_manager.go:107-125 | replaying all records gives a key back as memory has it if and only if it is Kept |
| Durability.RunIsDurable | internal/shard/shard_manager.go:107-125 | end to end for any run of one shard: after closing, recovery matches memory per key if and only if the key is Kept |
| Durability.KeptMeans | internal/shard/shard_manager.go:107-125 | what Kept comes to in terms of the logged deadline and the clock readings |
| Durability.GentleRunIsDurable | internal/shard/shard_manager.go:107-125 | in one life without LIST.GPOP on a deadline and slow TTL.EXPIRE: if and only if the last logged deadline is none, or ahead with equal clock readings |
| Durability.CrashIsEarlierShutdown | internal/wal/wal.go:260-438 | if no command changed a waiting record, any written prefix holds exactly the records of an earlier moment of the run, and recovers its memory per key if and only if Kept |
| Durability.CrashSafeByRecords | internal/wal/wal.go:260-438 | any life that ends flushed is safe against a cut at every byte if and only if each first part of the final records was, at some moment, all there was |
| Durability.CrashSafeIff | internal/wal/wal.go:260-438 | such a life in which every TTL.EXPIRE logs within a second is safe if and only if no command changed a waiting record |
| Durability.SlowExpireMayBeHarmless | commander/ttl_cmd/expire_cmd.go:58-74 | without that restriction the condition on commands is too strong: a safe run whose last record was changed by a TTL.EXPIRE that logged nothing |
| Durability.GPopLeavesDeadlineInLog | commander/list_cmd/list_gpop.go:80-85 | LIST.GPOP clears the deadline in memory and logs it |
| Durability.SharedObjectsBreakPrefixes | commander/map_cmd/map_del.go:80-82 | a run from an empty shard and a cut of its file that is recovered to a memory the run never had |
| Durability.ExpireIsLoggedIff | commander/ttl_cmd/expire_cmd.go:58-74 | TTL.EXPIRE logs the new deadline if and only if it has not passed at the second lookup |
| Commands.StoreAndLog | commander/common/set.go:41-47 | SET and its like are the write step, logged in a fresh object |
| Commands.DeleteKey | commander/common/delete.go:40-49 | DELETE logs only if the key was there |
| Commands.RemoveKey | commander/map_cmd/map_del.go:48-51 | MAP.DEL of a whole key logs a deletion in any case |
| Commands.ExpireKey | commander/ttl_cmd/expire_cmd.go:58-74 | the deadline changes in the live object, shows in waiting entries that share it, and that object is logged if the second lookup finds it; three clock readings |
| Commands.MapDeleteField | commander/map_cmd/map_del.go:53-84 | deletes a one-field map, else changes the live object and logs it; error paths change nothing |
| Commands.MapDelIsAStep | commander/map_cmd/map_del.go:53-84 | MAP.DEL is one step of the state machine |
| Commands.ListGetPop | commander/list_cmd/list_gpop.go:55-93 | stores the shorter list afresh, changes the old object and logs that |
| Commands.ListGPopIsAStep | commander/list_cmd/list_gpop.go:55-93 | LIST.GPOP is one step of the state machine |
| Maps.MapDelMeans | commander/map_cmd/map_del.go:53-84 | a map of one field goes as a whole, any other loses just the named field and keeps its deadline; the record logged agrees |
| Maps.LosesAnotherFieldIff | commander/map_cmd/map_del.go:75-83 | a field that was not named is lost if and only if it was the only one |
| Lists.ListPush | commander/list_cmd/list_push.go:57-81 | appends the arguments to the stored list, stores and logs it; a value that is no list is an error |
| Lists.ListPop | commander/list_cmd/list_pop.go:55-93 | answers and removes the last element, deletes the key with the last one, does not pop a null |
| Lists.ListStepsAndErrors | commander/list_cmd/list_pop.go:55-93 | both are steps of the state machine; exactly when each fails (a text that is no list; for a pop also a value of another kind), and that nothing is written then |
| Lists.GPopTakesTop | commander/list_cmd/list_gpop.go:72-85 | LIST.GPOP takes the last element of any list, null or not, and keeps the key with an empty list |
| Lists.PopsAgreeIff | commander/list_cmd/list_gpop.go:72-85 | both pops leave the same memory if and only if the list is longer than one and does not end in a null |
| Lists.PushThenPops | commander/list_cmd/list_push.go:57-81 | pushing non-null values and popping as often returns them reversed and restores the list or its absence, if the lists on the way round-trip |
| Lists.PopIsStuckIff | commander/list_cmd/list_pop.go:70-93 | a pop changes nothing, and answers nothing, exactly when the list ends in a null behind other elements |
| Lists.TextListsRoundTrip | commander/list_cmd/list_push.go:72 | list codecs that round-trip exist |
| System.RecoverAllByShard | internal/wal/wal.go:376-385 | any files, damaged or not, any order: a shard is replayed from its own file if and only if every file read before ends without an error, and left alone otherwise |
| System.RecoveryOrderIrrelevant | internal/wal/wal.go:376-385 | any two orders of undamaged shard files recover the same memory |
| System.DamagedFileStopsLaterShards | internal/wal/wal.go:380-382 | in any order, after a file that ends in an error no shard is recovered |
| System.DamagedRecordStopsRecovery | internal/wal/wal.go:376-438 | a complete record that cannot be read, or an impossible length, anywhere behind whole frames: its shard gets the records before it, later shards nothing |
| System.RecoverAllByKey | internal/shard/shard_manager.go:107-125 | for any files, also written with another number of shards: each record goes to the owner of its key, whichever file it is in, and tells in no other memory |
| System.MissingFileIsNoError | internal/wal/wal.go:388-394 | a missing file is read as an empty one |
| System.OrderMattersIff | internal/wal/wal.go:376-385 | the order of the files matters if and only if one file ends in an error and another one changes its shard |
| System.NextServerKeepsInv | internal/shard/shard_manager.go:69-72 | every routed action keeps all shard invariants and every key in its own shard |
| System.ServerIsDurable | internal/shard/shard_manager.go:107-125 | end to end for all shards, any interleaving and any file order, per key if and only if Kept |
| Recovery.AtoiOfItoa | internal/shard/shard_manager.go:43 | a shard id determines its number |
| Recovery.IdsAreDistinct | internal/shard/shard_manager.go:40-52 | there are as many shards as configured |
| Recovery.RingOfRepresents | internal/shard/shard_manager.go:41-52 | the ring built by the constructor has exactly the shard ids if these have distinct hashes |
| Recovery.RingOfIsSound | internal/shard/shard_manager.go:41-52 | with any hash its array is sorted, array and map hold the same hashes, and its nodes are shard ids |
| Recovery.RingsAgreeIff | internal/wal/wal.go:60-119 | store and log route by the same ring if and only if the configured number is positive |
| Recovery.OwnerIsAShard | internal/shard/shard_manager.go:69-72 | every key is routed to an existing shard if and only if there is one, with any hash |
| Recovery.RoutedToTheServing | internal/helper/consistent_hash.go:57-68 | in terms of hashes alone: a key goes to the one shard whose id comes first clockwise, of several with that hash to the one added last |
| Recovery.NeedsShardIff | internal/shard/shard_manager.go:109-124 | the records that need a shard are those that can change a memory |
| Recovery.RingServerIsDurable | internal/shard/shard_manager.go:24-125 | end to end with the real routing and any hash, each key in the shard nearest clockwise |
| Recovery.ReadRecord | internal/wal/wal.go:398-429 | one step of the reader agrees with the meaning of the rest of the file |
| Recovery.ReplayRecord | internal/shard/shard_manager.go:112-123 | one record replayed into one memory, with two clock readings |
| Recovery.ShardManager.constructor | internal/shard/shard_manager.go:24-59 | one empty memory and one ring node per shard id |
| Recovery.ShardManager.GetShardByKey | internal/shard/shard_manager.go:69-72 | the memory of the shard that is nearest clockwise from the key's hash, or none if no shard is configured |
| Recovery.ShardManager.Callback | internal/shard/shard_manager.go:109-124 | one record changes only the owner's memory, by the replay step; without shards the program survives exactly the records that need none |
| Recovery.ShardManager.RecoverShard | internal/wal/wal.go:387-438 | replays exactly the entries the file parses to, and ends as the file does, or dies of one that needs a shard where there is none |
| Recovery.ShardManager.RecoverMemory | internal/wal/wal.go:376-385 | for any configured count: all files of the log in some order, a missing one as empty, stopping at the first error; without shards it survives exactly if no record read needs one |
| Session.ServeTurn | internal/wal/wal.go:264-304 | at its turn the goroutine flushes a batch that is late or full, or else frames the next entry, if any |
| Session.ServeEvent | internal/wal/wal.go:146-185 | every command and every turn of the goroutine, on the real objects, is the step of the state machine that was asked for |
| Session.Shutdown | internal/wal/wal.go:238-253 | closing behind a script appends the waiting records to the file, none lost or reordered, with the contents they have |
| Session.RestartIsCrash | internal/shard/shard_manager.go:24-125 | recovery of a closed log and a new log behind it are the crash step that loses nothing |
| Session.LiveOnce | internal/shard/shard_manager.go:24-125 | one life on the real objects, from the closed file of the life before to the closed file it leaves, continues the run of the state machine |
| Session.ClosedIsDurable | internal/shard/shard_manager.go:107-125 | recovery of a closed file reads all records of the run, and finds each key as memory had it if and only if Kept |
| Session.LiveAndRestart | internal/shard/shard_manager.go:24-125 | any number of lives on the real objects, each with recovery, any script, goroutine and shutdown, and one more recovery: the commands run are those of the scripts in their order, the file holds the frames of all that was logged, and each key is back as it was if and only if Kept |
| Json.JoinOfSplit | commander/json_cmd/json_add.go:145 | splitting a path at dots loses nothing |
| Json.SplitIff | commander/json_cmd/json_add.go:145 | a path is cut at every dot and nowhere else: the one list of dotless keys that spells it |
| JsonPath.FailsIffBlocked | commander/json_cmd/json_add.go:161-173 | insertion and removal fail exactly when a proper prefix of the path names a value that is no object |
| JsonPath.ReadAfterAdd | commander/json_cmd/json_add.go:144-176 | what every path reads after an insertion: below, above and beside |
| JsonPath.ReadAfterRemove | commander/json_cmd/json_remove.go:107-137 | what every path reads after a removal; the path itself is absent |
| JsonPath.RemoveIsIdempotent | commander/json_cmd/json_remove.go:107-137 | removing twice is removing once |
| JsonPath.LastAddWins | commander/json_cmd/json_add.go:144-176 | a second insertion at the same path hides the first |
| JsonPath.RemoveUndoesAdd | commander/json_cmd/json_remove.go:107-137 | removal undoes an insertion if and only if the path was absent and its parent there |
| JsonPath.PutsCommute | commander/json_cmd/json_refset.go:106-116 | insertions of non-object values at distinct paths commute, also prefix-related and failing ones |
| JsonPath.ObjectValuesNeedNotCommute | commander/json_cmd/json_add.go:144-176 | with object values they need not |
| JsonPath.SetRefOrderIrrelevant | commander/json_cmd/json_refset.go:106-116 | JSON.SETREF builds the same document for every iteration order of the reference map |
| JsonPath.ReadAfterSetRefs | commander/json_cmd/json_refset.go:106-116 | a path of the map reads its reference afterwards if and only if no other value of the document and no shorter path of the map is in the way, and nothing otherwise |
| JsonPath.SetRefsLeaveOthers | commander/json_cmd/json_refset.go:106-116 | beside the paths of the map nothing changes |
| JsonHeap.AddNestedKey | commander/json_cmd/json_add.go:144-176 | the in-place walk refines insertion; on an invalid path no node has changed |
| JsonHeap.RemoveNestedKey | commander/json_cmd/json_remove.go:107-137 | the in-place walk refines removal; on an invalid path no node has changed |
| JsonHeap.ReadNestedKey | commander/json_cmd/json_get.go:228-255 | the lookup loop refines reading; the empty path is the document |
| JsonHeap.ResolveReference | commander/json_cmd/json_get.go:169-226 | the in-place walk refines one reference expansion |
| JsonHeap.ReadRefs | commander/json_cmd/json_get.go:160-167 | the list of references, the store asked anew for each, stopped by the first error |
| JsonHeap.SetRefs | commander/json_cmd/json_refset.go:106-116 | the loop over the reference map gives the document of every order; strict mode fails exactly on a reference that is missing when its turn comes |
| JsonMerge.MergeObjects | commander/json_cmd/json_merge.go:123-147 | the two loops and the recursion compute the field-by-field merge, in any order, and terminate |
| JsonMerge.ReadAfterMerge | commander/json_cmd/json_merge.go:123-147 | what every path reads after a merge, from what it read in both documents |
| JsonMerge.MergeIsIdempotent | commander/json_cmd/json_merge.go:123-147 | merging a document into itself changes nothing |
| JsonMerge.MergeUnit | commander/json_cmd/json_merge.go:123-147 | the empty object is a unit on both sides |
| JsonMerge.MergeBackChangesNothing | commander/json_cmd/json_merge.go:123-147 | merging the result back into the update gives the result: it has everything the update has |
| JsonMerge.MergeAbsorbsRepetition | commander/json_cmd/json_merge.go:123-147 | sending the same update twice is sending it once |
| JsonMerge.MergeKeepsSecond | commander/json_cmd/json_merge.go:123-147 | the second operand swallows the first if and only if it covers it |
| JsonMerge.MergeIsAssociativeIff | commander/json_cmd/json_merge.go:123-147 | associative if and only if, wherever a non-object stands between two objects, the last covers the first |
| JsonMerge.MergeIsNotAlwaysAssociative | commander/json_cmd/json_merge.go:131-144 | a triple on which the grouping shows |
| JsonRef.ResolveIsReadThenAdd | commander/json_cmd/json_get.go:169-226 | expansion is a read followed by an insertion at the derived path, with its exact success condition |
| JsonRef.RefReadIsAChain | commander/json_cmd/json_get.go:160-226 | the list, one read and insertion after the other, in the document as it is by then; it succeeds exactly if no path dangles, and stops at the first that does |
| JsonRef.ReferencedDocumentIsFound | commander/json_cmd/json_get.go:160-226 | each expanded path leaves its document at the derived path, up to derived fields, unless a later one is expanded over it |
| JsonRef.GetExpandsWhatSetRefPut | commander/json_cmd/json_refset.go:106-116 | JSON.GET expands what JSON.SETREF put if the store has the document, and fails otherwise |
| JsonRef.RefReadOnlyAddsDerivedFields | commander/json_cmd/json_get.go:160-226 | erasing fields that start with an underscore gives the same document before and after, also for chains and stopped lists, whatever the store answers for each |
| JsonRef.RefReadKeepsPlainReads | commander/json_cmd/json_get.go:160-255 | a reader that avoids derived fields finds the same values up to derived fields |
| Query.Parse | internal/utils/utils.go:140-156 | the two loops compute the parse |
| Query.NoQueryIff | internal/utils/utils.go:140-156 | a text is no query exactly if no operator character stands where one is looked for: anywhere behind the "$", or at the start |
| Query.ParsedConcatenates | internal/utils/utils.go:140-156 | field, operator and value concatenate back to the query, and the operator is one of the seven |
| Query.FieldQueryRoundTripsIff | internal/utils/utils.go:141-147 | a printed field query parses back if and only if it is printable |
| Query.PlainQueryRoundTripsIff | internal/utils/utils.go:148-154 | a printed plain query parses back unless its value makes the operator longer |

## Left out

- Rejected enqueues: commands ignore the error when a log channel stays full; runs here have their records accepted, and memory and log change as one step.
- Goroutine interleavings inside one memory operation, and serving while recovery runs: operations are atomic, recovery comes first.
- Recovery behind a torn tail: a crash in the state machine leaves whole records (`TornTail` says which); what a log that goes on behind a tear reads as is `LogFormat.AppendBehindATornTail`, outside the runs.
- Records of 4 GiB and more: their length field wraps; the theorems ask that the records framed stay below.
- Durability.CrashSafeIff: asks that TTL.EXPIRE takes at most a second from setting a deadline to logging it, because otherwise it is false (`Durability.SlowExpireMayBeHarmless`); the condition for all lives is in `Durability.CrashSafeByRecords`.
- Session.LiveAndRestart: one shard, with the goroutine's turns between commands; for more shards see `Recovery.RingServerIsDurable`, on values.
- Disk, sync and log construction failures, buffer pools and the buffered writer behind the file: writes succeed.
- Command argument checks, key length, responses and error texts, and the parsing of stored JSON text around the path operations: JSON.ADD and its like appear as the path function plus a write step.
- `LIST.FIND` evaluation beyond its query parser, NUM and STR commands: number parsing and formatting of the Go library.
- A referenced JSON null is stored as a nil map, which prints like null but whose further navigation reports another error text: modelled as null.
- JsonMerge.MergeObjects: a nil map (a stored JSON null) merges as the empty object and is written so.
- The merge and the maps of memory and ring are values held in fields and variables: sharing of sub-maps between a merge result and its inputs is not modelled, as the result is only printed.
- Sockets, request framing, users, sessions, counters, configuration and logging.
