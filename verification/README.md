# CacheX, modelled and proved in Dafny

CacheX is an in-memory cache with least-recently-used eviction and time-to-live expiry,
split into independently locked shards, saved to a snapshot file, and served over a
line-based protocol. This project models its core and proves what the parts promise,
one on top of the other:

- **One cache.** `RecencyList` and `CacheEngine` are the doubly linked list and the hash
  index on the heap; every method is proved to do what one step of a plain ordered list
  (`CacheModel.Step`) does. `Runs`, `Inclusion` and `Expiry` prove properties of every
  sequence of such steps.
- **Shards.** `Sharding` routes by an arbitrary hash; `ShardedEngine` is the heap version;
  `Scan` interleaves the shard-by-shard scans with other clients; `ShardHash` is the
  64-bit finaliser.
- **Snapshots.** `Snapshot` is the printer and the validating parser over an input stream
  with its end-of-file and failure flags; `SnapshotFormat`, `SnapshotGrammar`,
  `SnapshotTruncation`, `Restore` and `Persistence` prove the round trip, which bytes are
  accepted, detection of cut files, what a load brings back, and how deadlines cross two
  clocks. `AtomicSave` is the protocol of
  temporary files and renames, with failures and crashes at any step.
- **Serving.** `Framing` cuts arbitrarily chunked reads into lines and `LineLimit` says what
  the limit on their length amounts to, `Protocol` parses a line, `CommandHandler` executes
  it, `Session` composes these with what other clients do in between, `Wire` follows the
  replies back to the client. `CommandEngine` and `ConnectionEngine` are the heap versions,
  loop by loop. `ServerLifecycle` interleaves the accept loop with its workers.

`ShardedCacheIsSound`, `RepliesAreSound` and `SentRepliesAreSound` put the parts together:
whatever the hash, the shard count, the capacities, the bytes the client sends and their
chunking, the snapshots loaded and the operations of other clients between two commands,
every reply about a key says that nothing is there, or exactly what a plain map with
deadlines has there after the same operations, and the latter for certain while the key's
shard has evicted nothing. `SurvivesRestart` follows a key through SAVE, a restart with
another layout, LOAD and GET; `AcceptedIff` says which files a load accepts; and
`HandlesExactly` which lines a stream of bytes amounts to.

Conventions: `now` is the one steady-clock reading of an operation, in nanoseconds;
durations are milliseconds; a key or value is a sequence of characters, of which bytes are
a special case; a run is a list of steps that grows at its end, so a theorem about every
run is an induction over it.

## Where the code and its documentation differ

The model follows the code. In each case the promise is false as documented, a lemma shows
an input for which it fails, and another states exactly when it holds.

- "Never resurrect one that should be gone" (`src/persistence.cpp:182-183`): a wall clock
  that measures less time than really passed brings dead keys back.
  `ResurrectionByClock`, `NoneResurrectedIff`.
- "Hard cap on worker threads" (`include/cachex/server.hpp:41`): the active count is
  capped; threads that have given their place back but are not yet joined come on top.
  `LimitDoesNotCapThreads`, `ThreadsCappedIff`.
- Rounding up is meant to keep `:0` from being reported for a readable key
  (`docs/PROTOCOL.md`, section 6): a key with less than a millisecond left is reported as
  `:0`. `ZeroWhileAlive`, `TtlReply`.
- A request line of more than 65 536 bytes including its terminator is refused
  (`docs/PROTOCOL.md`, section 2): the terminator is not counted, so a line of 65 536 bytes
  and its newline is never refused; and only an unfinished line is checked, after the
  terminated ones were taken, so up to one read more can pass, depending on how the bytes
  are chunked. `NewlineNotCounted` and `OverlongLineServed` are the inputs;
  `ChunkingSafeIff` says which streams no chunking gets refused, `SomeChunkingServesIff`
  which streams some chunking gets served, and so which are refused for certain.
- "Every reply is one line" (`docs/PROTOCOL.md`, section 4): a value loaded from a snapshot
  may hold newlines. `LoadedValueSpansLines` is the input; `CommandOneLineIff` tells from
  the store and the command whether the reply will be on one line, `SessionCountableIff`
  for a whole session, and `ClientReadsReplies` what keeps newlines out.
- A truncated file is rejected (`src/persistence.cpp:197-198`): an empty snapshot without
  its last newline is accepted, with no entries. `MissingLastNewline`,
  `TruncationRejectedIff`.
- Expired entries are indistinguishable from absent ones (`src/cache.cpp:99-101`): in a
  bounded cache they take up room, and a live key can be evicted for lack of it.
  `ExpiredEntriesOccupyCapacity`, `LazyAlikeIff`.

## Model

| member | source | states |
|---|---|---|
| RecencyList.RecencyList.constructor | include/cachex/recency_list.hpp:42-81 | a new list is well linked and empty |
| RecencyList.RecencyList.LinkFirst | src/recency_list.cpp:7-18 | linking a detached node in front keeps the chain well linked in both directions and touches no entry |
| RecencyList.RecencyList.Unlink | src/recency_list.cpp:12-20 | joining a node's neighbours takes exactly that node out of the chain, which stays well linked |
| RecencyList.RecencyList.InsertNewest | src/recency_list.cpp:7-10 | a new node with the entry is in front of the old chain; every other node keeps its identity, order and entry |
| RecencyList.RecencyList.MarkUsed | src/recency_list.cpp:12-18 | the splice moves that very node to the front, a no-op when it is there, and keeps all other nodes in order |
| RecencyList.RecencyList.Remove | src/recency_list.cpp:20 | the node and its entry leave the chain, the rest stays in order |
| RecencyList.RecencyList.Update | src/cache.cpp:45-46 | writing through a handle changes that entry in place and nothing else |
| RecencyList.RecencyList.Oldest | src/recency_list.cpp:22 | the entry at the far end |
| RecencyList.RecencyList.PopOldest | src/recency_list.cpp:24 | exactly the last entry goes |
| RecencyList.RecencyList.Clear | src/recency_list.cpp:26 | the list is empty and well linked |
| CacheEngine.Cache.constructor | src/cache.cpp:20 | a new cache stands for the empty list with that capacity |
| CacheEngine.Cache.KeysListed | include/cachex/cache.hpp:185-189 | listed keys are distinct and are exactly the indexed ones |
| CacheEngine.Cache.Located | src/cache.cpp:37-77 | an index entry leads to the one node with its key, and removing that position is removing the key |
| CacheEngine.Cache.Peek | src/cache.cpp:94-97 | an index lookup answers as a search of the list |
| CacheEngine.Cache.Remove | src/cache.cpp:72-77 | list and index lose the same key |
| CacheEngine.Cache.EvictOldest | src/cache.cpp:79-91 | list and index lose the last entry, counted as an eviction |
| CacheEngine.Cache.Rewrite | src/cache.cpp:45-47 | an overwrite keeps the node, replaces value and deadline, and moves it to the front |
| CacheEngine.Cache.Promote | src/cache.cpp:115 | a hit moves the entry to the front unchanged |
| CacheEngine.Cache.Insert | src/cache.cpp:56-58 | a new key goes to the front of the list and into the index |
| CacheEngine.Cache.Shrink | src/cache.cpp:67-69 | the loop evicts from the end until the capacity is met |
| CacheEngine.Cache.Store | src/cache.cpp:37-70 | list and index end as the list model of a store |
| CacheEngine.Cache.Set | src/cache.cpp:22-24 | refines the model's set at every clock value, the clock being unread |
| CacheEngine.Cache.SetTtl | src/cache.cpp:26-35 | refines the model's set with a deadline; a duration of zero or less erases |
| CacheEngine.Cache.FindLive | src/cache.cpp:93-108 | absent, reclaimed and counted, or live and untouched |
| CacheEngine.Cache.Recall | src/cache.cpp:111-120 | a read hits exactly when the key is resident and live, moves it to the front, and reclaims it when expired |
| CacheEngine.Cache.Get | src/cache.cpp:110-121 | refines the model's get: value and new state |
| CacheEngine.Cache.GetInto | src/cache.cpp:123-134 | as get, and a miss leaves the caller's buffer alone |
| CacheEngine.Cache.Ttl | src/cache.cpp:136-158 | refines the model's query, which reclaims but never reorders |
| CacheEngine.Cache.EraseResident | src/cache.cpp:166-173 | a resident key goes either way, and is counted as expired exactly when it was not visible |
| CacheEngine.Cache.Erase | src/cache.cpp:160-174 | refines the model's erase: true only for a visible key |
| CacheEngine.Cache.Contains | src/cache.cpp:176-179 | true exactly for a resident unexpired key; nothing changes |
| CacheEngine.Cache.Clear | src/cache.cpp:181-184 | list and index are empty, the counters stand |
| CacheEngine.Cache.Count | include/cachex/cache.hpp:137 | the size of the index is the length of the list |
| CacheEngine.Cache.ExportEntries | src/cache.cpp:186-209 | walking the links exports the live entries in recency order, all against one instant |
| CacheModel.ExportLive | src/cache.cpp:186-209 | an export is the live part of the list, entry by entry and in order |
| Runs.TrimIsTake | src/cache.cpp:67-69 | the trimming loop keeps the newest entries that fit and counts the others as evicted |
| Runs.StoreShape | src/cache.cpp:37-70 | a store puts the entry in front of the others; from a within-capacity state it evicts at most once, and never for a resident key |
| Runs.StepShape | src/cache.cpp:22-209 | every operation leaves the list, drops one key, stores one entry in front, or empties it |
| Runs.StepLookup | src/cache.cpp:22-184 | unbounded, an operation changes what is found under each key as that rewrite says |
| Runs.RunSane | src/cache.cpp:37-184 | in every reachable state keys are distinct and the capacity is respected |
| Runs.SeenAfterRead | src/cache.cpp:110-209 | reading changes nothing that can be read, now or later; erasing takes away its own key and nothing else |
| Runs.SeenAfterWrite | src/cache.cpp:22-91 | what is written can be read until its duration is over and not after, if the cache can hold anything; another key is as before or was evicted |
| Runs.OnlyUseReorders | src/cache.cpp:37-209 | a read that hits and a write bring their entry to the front; every other operation leaves the list in its order |
| Runs.UsedIsStored | src/cache.cpp:37-134 | the keys that move to the front are exactly those written or read with a hit |
| Runs.ListIsLastUseOrder | src/recency_list.cpp:7-18 | in every reachable state the list is strictly ordered by the number of the last step that used the key |
| Runs.EvictionDropsLast | src/cache.cpp:60-91 | an eviction happens only for a new key meeting a full list, and drops exactly its last entry |
| Runs.VictimIsLeastRecentlyUsed | src/cache.cpp:79-91 | on every run an evicted key was unused longer than every other resident key, all of which stay |
| Runs.StepConserves | src/cache.cpp:26-184 | one operation's account of entries stored, kept, evicted, expired, erased and cleared balances |
| Runs.Conservation | src/cache.cpp:26-184 | on every run, new-key stores equal size plus evictions plus expired removals plus visible erases plus entries cleared |
| Inclusion.TakeBoth | src/cache.cpp:67-69 | when the larger of two included lists must evict so must the smaller, and inclusion and gap survive |
| Inclusion.ChangesCompare | src/cache.cpp:37-209 | on included caches an operation rewrites both lists alike, or only the larger, and the smaller's answer is a miss or equal |
| Inclusion.StepIncluded | src/cache.cpp:37-209 | one operation keeps inclusion, equal entries and the bounded gap |
| Inclusion.CapacityInclusion | src/cache.cpp:37-209 | on every run the smaller cache's list is a subsequence of the larger's, the gap never exceeds the capacity difference, and every answer is a miss or equal |
| Inclusion.NoEvictionNoLoss | src/cache.cpp:37-209 | a bounded cache that has evicted nothing holds and answers exactly what an unbounded one does |
| Expiry.EagerChange | src/cache.cpp:93-108 | against a list already rid of expired entries, answers agree and only reclaiming differs |
| Expiry.StepAgreesIff | src/cache.cpp:14-209 | from agreeing states one operation answers alike, and the live entries agree afterwards if and only if no live entry was evicted while an expired one stayed |
| Expiry.LazyIsEagerIff | src/cache.cpp:14-209 | on every run with a nondecreasing clock, lazy and eager caches of equal capacity agree throughout if and only if no step adds a key to a full list whose last entry is live while another is expired |
| Expiry.LazyAnswersAsEager | src/cache.cpp:14-209 | up to the first such step no answer tells the two apart |
| Expiry.DisplacedKey | src/cache.cpp:60-91 | at such a step the oldest key is lost to the lazy cache and still visible in the eager one |
| Expiry.DisplacedTells | src/cache.cpp:60-91 | and an operation at that very instant is answered differently |
| Expiry.LazyAlikeIff | src/cache.cpp:14-209 | on every run, no answer to any operation at any later instant ever tells lazy from eager expiry, if and only if no step evicts a live entry while an expired one stays |
| Expiry.ExpiredEntriesOccupyCapacity | tests/ttl_test.cpp:326-345 | with room for two, an expired key stays and a live one is lost, which an eager cache keeps |
| Expiry.ExportIsMap | src/cache.cpp:186-209 | an export lists each live entry of the map once |
| Expiry.UnboundedRun | src/cache.cpp:14-184 | on every run the visible entries of the list are those of the map that deletes on time |
| Expiry.LazyExpiryInvisible | src/cache.cpp:93-209 | on every run an unbounded cache answers every operation as a map that deletes each entry when its deadline arrives |
| ShardHash.Xor30Inverse | src/sharded_cache.cpp:16 | the first shift-xor is undone by repeating it until it leaves the word |
| ShardHash.Mul1Inverse | src/sharded_cache.cpp:17 | the first multiplier has an inverse modulo 2^64 |
| ShardHash.Xor27Inverse | src/sharded_cache.cpp:18 | the second shift-xor is undone |
| ShardHash.Mul2Inverse | src/sharded_cache.cpp:19 | the second multiplier has an inverse modulo 2^64 |
| ShardHash.Xor31Inverse | src/sharded_cache.cpp:20 | the third shift-xor is undone |
| ShardHash.UnmixMix | src/sharded_cache.cpp:16-21 | the finaliser can be undone |
| ShardHash.MixUnmix | src/sharded_cache.cpp:16-21 | every word is reached |
| ShardHash.MixBijective | src/sharded_cache.cpp:10-22 | the finaliser is a bijection on 64-bit words |
| ShardHash.KnownOutputs | src/sharded_cache.cpp:13-21 | over the states of splitmix64 the finaliser gives the known outputs of that generator |
| ShardHash.SelectionKeepsHashes | src/sharded_cache.cpp:10-22 | two keys share a selection hash exactly when they share the library's hash |
| ShardHash.SelectionIsMixed | src/sharded_cache.cpp:10-22 | the selection hash is the mixed 64-bit word itself |
| Sharding.SameShardIff | src/sharded_cache.cpp:61-63 | two keys share a shard if and only if the number of shards divides the difference of their hashes, and a hash below that number is the number of its shard |
| Sharding.ShardsIndependent | src/sharded_cache.cpp:61-99 | every shard runs as a cache of its own on the operations routed to it |
| Sharding.AnswersIndependent | src/sharded_cache.cpp:61-93 | an answer about a key is that of its own cache on its own subtrace |
| Sharding.StepPlaced | src/sharded_cache.cpp:65-99 | one operation keeps every key in its own shard and every shard within its capacity |
| Sharding.KeysStayHome | src/sharded_cache.cpp:61-99 | in every reachable state each key lives only in the shard its hash selects |
| Sharding.UnboundedIsFlat | src/sharded_cache.cpp:61-93 | for any hash and count, an unbounded sharded cache answers single-key operations as one unsharded cache |
| Sharding.ShardedCacheIsSound | src/sharded_cache.cpp:61-99 | for any hash, count and capacities, every answer is a miss or what a map with deadlines answers, and never a false miss while the key's shard has evicted nothing |
| Sharding.SharesSum | src/sharded_cache.cpp:48-58 | what the first n shards get of the total |
| Sharding.CapacitySplit | src/sharded_cache.cpp:40-59 | the capacities sum to the total, differ by at most one, the first shards taking the remainder; none is zero unless the total is, which gives one shard; and there are as many shards as were asked for and can be fed |
| Sharding.SizeCountsKeys | src/sharded_cache.cpp:101-107 | with every key in its own shard the shard sizes add up to the number of distinct resident keys |
| ShardedEngine.PlanLimits | src/sharded_cache.cpp:40-59 | the loop computes those capacities, reducing the count when the total cannot feed it |
| ShardedEngine.MakeShards | src/sharded_cache.cpp:32-38 | caches that share no list or node, each empty |
| ShardedEngine.ShardedCache.Unbounded | src/sharded_cache.cpp:32-38 | the requested number of empty unbounded shards, at least one |
| ShardedEngine.ShardedCache.Bounded | src/sharded_cache.cpp:40-59 | empty shards of the split capacities |
| ShardedEngine.ShardedCache.ShardFor | src/sharded_cache.cpp:61-63 | the cache of the shard that the key's hash selects, which is the one of that number when the hash is below the count |
| ShardedEngine.ShardedCache.SameHomeIff | src/sharded_cache.cpp:61-63 | two keys are kept in the same cache if and only if the number of caches divides the difference of their hashes |
| ShardedEngine.ShardedCache.Set | src/sharded_cache.cpp:65-70 | changes only the key's shard, and the whole as the sharded model |
| ShardedEngine.ShardedCache.SetTtl | src/sharded_cache.cpp:72-75 | as above, with a duration |
| ShardedEngine.ShardedCache.Get | src/sharded_cache.cpp:77-79 | refines the sharded model's get, touching one shard |
| ShardedEngine.ShardedCache.GetInto | src/sharded_cache.cpp:81-83 | refines the sharded model's read into a buffer |
| ShardedEngine.ShardedCache.Erase | src/sharded_cache.cpp:85-87 | refines the sharded model's erase |
| ShardedEngine.ShardedCache.Contains | src/sharded_cache.cpp:89-91 | answers as the sharded model; nothing changes |
| ShardedEngine.ShardedCache.Ttl | src/sharded_cache.cpp:93 | refines the sharded model's query |
| ShardedEngine.ShardedCache.Clear | src/sharded_cache.cpp:95-99 | every shard is emptied, counters and capacities stand |
| ShardedEngine.ShardedCache.Size | src/sharded_cache.cpp:101-107 | the sum of the shard sizes |
| ShardedEngine.ShardedCache.ExportEntries | src/sharded_cache.cpp:122-132 | the shards' exports one after another, each at its own clock reading |
| Scan.ReachedGood | include/cachex/sync_cache.hpp:113-116 | under every interleaving with a scan, keys stay in their shards and shards within capacity |
| Scan.RecordOrigin | src/sharded_cache.cpp:122-132 | each record was a resident live entry of its key's shard when that shard was copied |
| Scan.NoKeyTwice | src/sharded_cache.cpp:122-132 | under every interleaving no key is exported twice |
| Scan.ResidentThroughout | src/sharded_cache.cpp:122-132 | a key not written during a scan and resident at some moment of it was resident, with the same value and deadline, at every earlier moment |
| Scan.UntouchedIsGathered | src/sharded_cache.cpp:122-132 | such a key, unexpired, has been copied once its shard was visited |
| Scan.UntouchedAppearsOnce | src/sharded_cache.cpp:122-132 | such a key is in the finished export exactly once, with its value |
| Scan.SizeWithinCapacity | src/sharded_cache.cpp:101-107 | under every interleaving the scanned size, and the number of records, never exceed the capacity of the shards visited |
| Scan.SizeWithinTotal | src/sharded_cache.cpp:40-107 | nor the total capacity that was asked for, whatever the number of shards |
| Scan.ScanIsExport | src/sharded_cache.cpp:122-132 | an export taken beside other clients is the export of a cache at rest, the one made of the shards as they were when visited, keys in place and capacities kept |
| Scan.FinishedScan | src/sharded_cache.cpp:122-132 | a finished one of a well-formed cache of the same layout |
| Scan.ScannedSize | src/sharded_cache.cpp:101-107 | a finished one reports the number of keys in the shards as it saw them |
| Decimal.ValueOfDec | src/persistence.cpp:109-116 | a printed number reads back as itself |
| Decimal.PlaceValue | src/persistence.cpp:170-204 | in a numeral each digit counts for its place |
| Decimal.DigitTable | src/persistence.cpp:109-116 | the ten digits |
| Snapshot.WriteRecord | src/persistence.cpp:111-120 | one record as lengths, remaining time, payload and newline |
| Snapshot.WriteBody | src/persistence.cpp:111-121 | the loop writes every record in order |
| Snapshot.Write | src/persistence.cpp:109-121 | header, count and records make up the whole file |
| Snapshot.ReadHeader | src/persistence.cpp:167-191 | the header reads with their stream flags decide as the header parser, which accepts what `SnapshotGrammar` says |
| Snapshot.ReadRecords | src/persistence.cpp:199-240 | the loop accepts exactly when every record parses, with the records in order |
| Snapshot.Parse | src/persistence.cpp:156-240 | the loader's parsing half decides as the decoder, which accepts what `SnapshotGrammar` says |
| SnapshotFormat.ReadsInt | src/persistence.cpp:170-187 | a printed number followed by a non-digit is read back and nothing after it is consumed |
| SnapshotFormat.ReadsSizes | src/persistence.cpp:203-223 | a written record line passes the sign, newline and length checks |
| SnapshotFormat.ReadsRecord | src/persistence.cpp:202-240 | a written record with arbitrary key and value is read back, leaving what follows |
| SnapshotFormat.ReadsRecords | src/persistence.cpp:202-240 | all written records are read back, leaving nothing |
| SnapshotFormat.ReadsHeader | src/persistence.cpp:167-195 | a written header is read back and its count passes the file-size bound |
| SnapshotFormat.RoundTrip | src/persistence.cpp:109-240 | every saved file whose numbers fit 64 bits decodes to exactly its time stamp and records |
| SnapshotFormat.OversizedRejected | src/persistence.cpp:170-213 | a saved file with a number that does not fit, be it stamp, count, length or time, is rejected |
| SnapshotFormat.RoundTripOrRejected | src/persistence.cpp:109-240 | every file ever written decodes to what was written or is rejected, and which of the two is decided by its numbers alone |
| SnapshotGrammar.ReadsField | src/persistence.cpp:170-204 | white space and a numeral, signed or not, that fits its type is read as its number, and nothing after it is consumed |
| SnapshotGrammar.FieldRead | src/persistence.cpp:170-204 | whatever is read as a number is such a field |
| SnapshotGrammar.ReadsSpelled | src/persistence.cpp:202-240 | a record is read back however its numbers are written |
| SnapshotGrammar.RecordRead | src/persistence.cpp:202-240 | whatever is read as a record is three such numbers, a newline, as many bytes of key and value, and a newline |
| SnapshotGrammar.SpelledIsAccepted | src/persistence.cpp:156-240 | a file of magic word, version 1, stamp, count and that many records is accepted as what it spells |
| SnapshotGrammar.AcceptedIsSpelled | src/persistence.cpp:156-240 | every accepted file is of that form, and what was read is what it spells |
| SnapshotGrammar.AcceptedIff | src/persistence.cpp:156-240 | a load accepts a file, with these contents, if and only if its bytes are of that form |
| SnapshotGrammar.WrittenIsSpelled | src/persistence.cpp:109-121 | the file of a save is of that form and lists the key, the value and the remaining time, or -1, of every exported entry |
| SnapshotTruncation.CutRecords | src/persistence.cpp:202-240 | records read from a cut stream are those of the whole one, with the cut part still unread |
| SnapshotTruncation.TruncationDetected | src/persistence.cpp:167-240 | every proper prefix of a saved file but one is rejected |
| SnapshotTruncation.MissingLastNewline | src/persistence.cpp:191-195 | that one, an empty snapshot without its last newline, decodes to no entries |
| SnapshotTruncation.TruncationRejectedIff | src/persistence.cpp:167-240 | a cut file is rejected if and only if it is not that one |
| Restore.ReplayIsRun | src/persistence.cpp:247-265 | loading into a cache that a run has reached is running the load's own operations on |
| Restore.LoadSteady | src/persistence.cpp:247-265 | and that run reads a steady clock if the load does |
| Restore.SurvivorsAreKept | src/persistence.cpp:247-264 | the number reported as loaded is that of the records with time left |
| Restore.RecordCarries | src/persistence.cpp:111-258 | an entry written and restored has the same key and value, a deadline exactly if it had one, and then the whole milliseconds left at the export less those on disk from the moment it is set |
| Restore.LatestIsFirst | src/persistence.cpp:242-265 | of a key that occurs more than once, a load keeps what the first surviving record in the file says |
| Restore.LatestOrigin | src/persistence.cpp:242-265 | and nothing else |
| Restore.TakeWithout | src/persistence.cpp:247-265 | entries beyond the capacity do not matter for what one more record leaves |
| Restore.RestoreOne | src/persistence.cpp:247-265 | restoring a record puts it in front of what its shard already holds, in place of what it holds of that key, cut to capacity |
| Restore.RestoredShard | src/persistence.cpp:242-265 | loading any records, repeated keys included, into an empty cache of any layout leaves each shard the first surviving record of each key routed to it, in file order, as many as fit |
| Restore.RestoredHome | src/persistence.cpp:242-258 | a shard's own records restore its outliving entries in recency order: key, value, and the time that was left less the time on disk |
| Restore.RestoredFromExport | src/sharded_cache.cpp:122-132 | of a whole export only a shard's own part comes back to it |
| Restore.ReplayRestores | src/persistence.cpp:242-265 | replaying a cache's export into the same layout gives every shard its outliving entries in their original order, each with what is left of its time from the moment it is set |
| Restore.SaveThenLoadHome | src/persistence.cpp:93-269 | the same from the bytes of a file saved beside other clients: each shard as it was when the save came to it, keys, values and deadlines |
| Restore.SaveThenLoad | src/persistence.cpp:93-269 | a file saved beside other clients, loaded into an empty cache of any hash, shard count and capacities, leaves each shard the records routed to it with time left, in file order, as many as fit |
| Restore.LoadedOrigin | src/persistence.cpp:93-269 | nothing is made up: every loaded entry was live in its key's own shard when the save came to it, with the same key and value, and a deadline by what was left of it |
| Restore.UntouchedComesBack | src/persistence.cpp:93-269 | nothing is lost but by time or for lack of room: a key nobody writes during the save comes back with its value, and a deadline exactly if it had one |
| Persistence.ApplyOne | src/persistence.cpp:247-264 | one record is set with the time it has left, or skipped when none is |
| Persistence.ApplyNext | src/persistence.cpp:247-264 | one turn of the loop takes the cache and the count from one stage of the replay to the next |
| Persistence.Apply | src/persistence.cpp:247-265 | the reverse loop makes the cache the replay of the records and counts each as loaded or expired |
| Persistence.Load | src/persistence.cpp:146-269 | a missing file succeeds with nothing, a malformed one leaves the cache as it was, any other is replayed whole |
| Persistence.SaveText | src/persistence.cpp:93-130 | a save's bytes are the file text of the export taken first |
| Persistence.DeadlineDrift | src/persistence.cpp:179-184 | if both clocks advance together a restored deadline is off by more than -2 ms and less than +1 ms beyond the two uncounted gaps, or -1 and +2 for a file on disk across the epoch |
| Persistence.LoadedDeadlines | src/persistence.cpp:93-269 | so is the deadline of every entry of every shard after a save beside other clients and a load into any layout |
| Persistence.NeverExtended | src/persistence.cpp:179-184 | whatever the wall clock did, a restored entry has no more time left than when saved |
| Persistence.NoneResurrectedIff | src/persistence.cpp:179-184 | a load resurrects nothing if and only if the wall clock measured at least the whole milliseconds that passed |
| Persistence.ResurrectionByClock | src/persistence.cpp:182-183 | clocks in step resurrect nothing; a wall clock set back by a minute brings back a key that died a minute ago less a millisecond |
| AtomicSave.TempNamesDistinct | src/persistence.cpp:71-75 | two saves share a temporary name exactly when process and serial agree, and none is the snapshot's path |
| AtomicSave.StepInv | src/persistence.cpp:93-144 | every step keeps names and inodes apart and every open save's file equal to what it has written |
| AtomicSave.ShownIsFrozen | src/persistence.cpp:132-134 | a file the path has ever named is never written again |
| AtomicSave.StepSnapshot | src/persistence.cpp:132-139 | a step leaves the snapshot alone or replaces it by one whole save |
| AtomicSave.SnapshotIsAtomic | src/persistence.cpp:93-144 | in every interleaving of saves, failures and crashes the snapshot is its previous contents or the complete bytes of the save that renamed last |
| AtomicSave.OnlyBegunBytes | src/persistence.cpp:97-101 | whatever is published was the bytes of some save that began |
| AtomicSave.NoLeftovers | src/persistence.cpp:93-144 | in every interleaving a temporary file that was not there at the start is that of a save under way or of a process that crashed: success and failure alike leave none behind |
| AtomicSave.OpenedFileKeepsContents | src/persistence.cpp:149-164 | a reader that opened the snapshot reads the same bytes whatever saves do afterwards |
| ServerLifecycle.StepCount | src/net/server.cpp:126-180 | every step, failed thread creation included, keeps the active count exact and within the limit |
| ServerLifecycle.StepJoins | src/net/server.cpp:182-215 | every step keeps each thread either pending once or finished and joined once |
| ServerLifecycle.ActiveCountExact | src/net/server.cpp:92-184 | in every interleaving the active count is the connections served or being set up, is at most the limit, and a raised flag means the place was given back |
| ServerLifecycle.RefusedIffFull | src/net/server.cpp:126-133 | a client is turned away exactly when as many connections as are allowed are being served |
| ServerLifecycle.RunJoinsEveryThread | src/net/server.cpp:138-141 | when the loop has returned every thread has finished and was joined exactly once, and the count is zero |
| ServerLifecycle.NeverJoinedTwice | src/net/server.cpp:186-215 | no thread is joined twice, and only finished ones are |
| ServerLifecycle.NeverStuck | src/net/server.cpp:92-215 | until it returns, the loop or the very thread it waits for can take a step |
| ServerLifecycle.ShutdownEnds | src/net/server.cpp:201-215 | once the loop is left every step brings the return closer |
| ServerLifecycle.ThreadsAlive | src/net/server.cpp:166-170 | unjoined threads are those serving plus those that gave their place back |
| ServerLifecycle.ThreadsCappedIff | include/cachex/server.hpp:41-44 | threads stay within the connection limit throughout if and only if every thread is started with fewer than that many workers listed |
| ServerLifecycle.LimitDoesNotCapThreads | src/net/server.cpp:126-170 | whatever the limit, any number of unjoined threads can be alive at once |
| Framing.NewlineConcat | src/net/line_buffer.cpp:15-19 | the first newline of a concatenation |
| Framing.LinesConcat | src/net/line_buffer.cpp:7-31 | later bytes only continue the unfinished line |
| Framing.LineBuffer.constructor | include/cachex/line_buffer.hpp:20-40 | a new buffer holds nothing |
| Framing.LineBuffer.Append | src/net/line_buffer.cpp:7-13 | the bytes are added at the end |
| Framing.LineBuffer.NextLine | src/net/line_buffer.cpp:15-31 | takes exactly the first line and its terminator off, a carriage return before the newline being part of it, or changes nothing when there is no newline |
| Framing.LineBuffer.FindNewline | src/net/line_buffer.cpp:16 | the position of the first newline |
| Framing.OneReplyPerLine | src/net/connection.cpp:46-75 | one reply per line, up to and including the line that ends the connection |
| Framing.FoldConcat | src/net/connection.cpp:67-76 | handling two runs of lines is handling the first, then the second unless the first ended it |
| Framing.ServingIsFold | src/net/connection.cpp:67-96 | of every stream in every split into reads, serving handles the lines one by one, all of them or those before one that really is over the limit, and sends their replies and nothing else but the refusal |
| Framing.ChunkingIndependent | src/net/connection.cpp:67-96 | when everything served fits the limit, every split into reads sends exactly the replies of folding over the whole stream's lines |
| Framing.ServedSentAt | src/net/connection.cpp:46-75 | the reply sent for a line is what handling it earns after the lines before it |
| Framing.HandlesExactly | src/net/connection.cpp:67-96 | of a stream of lines, each ended by a newline or by a carriage return and a newline, in every split into reads the handler is given exactly those lines in order, all or those before one refused for its length |
| Framing.HandsOver | src/net/connection.cpp:72-76 | a buffered line of any length is handed over without its terminator of either kind, and what follows is served as if it had come first |
| LineLimit.BytewiseCatches | src/net/connection.cpp:78-90 | byte by byte, a line over the limit is always caught |
| LineLimit.ChunkingSafeIff | src/net/connection.cpp:78-90 | every split of a stream is served without a line-length error if and only if everything served is within the limit |
| LineLimit.NewlineNotCounted | src/net/connection.cpp:81 | a line of exactly the limit, its newline one byte over it, is never refused |
| LineLimit.OverlongLineServed | src/net/connection.cpp:78-94 | a line over the limit is served when the rest of it arrives with its newline |
| LineLimit.ServedLinesFit | src/net/connection.cpp:25-96 | whatever the chunking, a line served has fewer bytes than the limit and one read together |
| LineLimit.DeliverServes | src/net/connection.cpp:25-96 | and up to that length there is a chunking that serves it |
| LineLimit.SomeChunkingServesIff | src/net/connection.cpp:25-96 | some split of a stream is served without the error if and only if no line served is longer than that and the rest is within the limit; otherwise every split is refused |
| Protocol.SkipSeps | src/net/protocol.cpp:17-19 | the inner loop skips exactly the separators in front |
| Protocol.SkipWord | src/net/protocol.cpp:23-26 | the inner loop skips exactly the word in front |
| Protocol.Tokenize | src/net/protocol.cpp:13-30 | the loop finds the tokens of the line |
| Protocol.TokensOfRender | src/net/protocol.cpp:13-30 | however words are spaced by spaces and tabs, they are the tokens |
| Protocol.RenderOfTokens | src/net/protocol.cpp:13-30 | every line is its tokens, spaced in some such way |
| Protocol.ToUpper | src/net/protocol.cpp:32-40 | each letter raised, everything else as it was |
| Protocol.UpperTable | src/net/protocol.cpp:32-40 | letter by letter, the alphabet, and nothing else changes |
| Protocol.ParsesNumeralIff | src/net/protocol.cpp:70-78 | a text parses to a number if and only if it is an optional minus sign and digits that denote it and it fits 64 bits |
| Decimal.SignedDenotes | src/net/protocol.cpp:70-78 | the decimal form of a number denotes it |
| Protocol.NameInAnyCase | src/net/protocol.cpp:111-172 | a command's name in any letter case, or DEL, denotes that command |
| Protocol.OnlyNames | src/net/protocol.cpp:111-172 | and nothing else does |
| Protocol.CommandTable | src/net/protocol.cpp:111-172 | the documented names |
| Protocol.ParserRoundTrip | src/net/protocol.cpp:105-175 | any command, its name in any letter case, its time to live in any numeral, its arguments spaced at will, parses back to exactly that command |
| Protocol.PrintedRoundTrip | src/net/protocol.cpp:105-199 | in particular with the name of the command and the time to live in decimal |
| Protocol.ParserSound | src/net/protocol.cpp:105-175 | every accepted line is such a spelling: the name or DEL, nonempty separator-free arguments, and a numeral of a time to live in range |
| Protocol.RefusedWords | src/net/protocol.cpp:105-175 | the error is about an empty line, an unknown name or the number of arguments if and only if there is no word, the first is no name, or the name does not take that many |
| Protocol.RefusedTtl | src/net/protocol.cpp:125-142 | and about a time to live if and only if the fourth word of a SET denotes no 64-bit number, a negative one, or one above ten years |
| Protocol.BlankIff | src/net/protocol.cpp:13-30 | a line has no word if and only if it is all spaces and tabs |
| Protocol.ParseLine | src/net/protocol.cpp:105-175 | the parser by its loops decides as the function |
| CommandHandler.ReplyTells | src/net/command_handler.cpp:5-74 | for every store and command, with what can be read under the key given: GET replies its value or nil, EXISTS and DELETE one or zero, TTL nil, no expiry or the seconds, and the others their fixed replies |
| CommandHandler.AskingKeeps | src/net/command_handler.cpp:18-43 | GET, EXISTS and TTL change nothing that anyone can read, now or later, and EXISTS nothing at all |
| CommandHandler.DeleteRemoves | src/net/command_handler.cpp:23-24 | DELETE takes its key away and no other |
| CommandHandler.SetWrites | src/net/command_handler.cpp:8-16 | SET makes its value readable for its number of seconds and not a nanosecond longer, or for good; another key is as before or was evicted |
| CommandHandler.SetThenGet | src/net/command_handler.cpp:8-21 | a GET after a SET replies the value if and only if the shard can hold anything and the time is not up |
| CommandHandler.DiskReplies | src/net/command_handler.cpp:48-67 | how SAVE and LOAD fail, and that they then change nothing; a missing file loads nothing |
| CommandHandler.TtlReply | src/net/command_handler.cpp:29-43 | the reported seconds are the least that cover the remaining milliseconds, and zero exactly when less than one is left |
| CommandHandler.ZeroWhileAlive | src/net/command_handler.cpp:36-40 | half a millisecond before its deadline a key is readable and reported as zero |
| CommandHandler.SaveWritesAll | src/net/command_handler.cpp:48-58 | SAVE changes no entry, its file decodes to exactly the exported records, and its reply is their number |
| CommandHandler.SaveThenLoadCommands | src/net/command_handler.cpp:48-67 | SAVE then LOAD replays exactly the exported records and counts those restored |
| CommandHandler.SurvivesRestart | src/net/command_handler.cpp:18-67 | SAVE, a restart with any hash, shard count and capacities, LOAD, GET: a key with time left for the disk and room answers with its very value until its remaining time is up, for good if it had no deadline |
| CommandEngine.ExecuteSet | src/net/command_handler.cpp:8-16 | the heap cache stores as the operation of a SET does, seconds made milliseconds |
| CommandEngine.ExecuteGet | src/net/command_handler.cpp:18-21 | the heap cache reads as the operation of a GET does, and the reply is the value that could be read, or nil |
| CommandEngine.ExecuteDelete | src/net/command_handler.cpp:23-24 | the heap cache erases, and the reply is one exactly when the key could be read |
| CommandEngine.ExecuteExists | src/net/command_handler.cpp:26-27 | the reply is one exactly when the key can be read, and nothing changes |
| CommandEngine.ExecuteTtl | src/net/command_handler.cpp:29-43 | the heap cache is queried, and the reply tells what could be read under the key |
| CommandEngine.ExecuteSave | src/net/command_handler.cpp:48-58 | the file written and the reply are the model's, with both ways to fail; no cache changes |
| CommandEngine.ExecuteLoad | src/net/command_handler.cpp:60-67 | the heap cache becomes the model's replay of the file, or stays as it was on failure |
| CommandEngine.Execute | src/net/command_handler.cpp:5-74 | the dispatch on the heap does to caches, file and reply what the function on values does |
| CommandEngine.HandleLine | src/net/connection.cpp:46-65 | parsing, executing on the heap cache and replying is one step of the session on values |
| ConnectionEngine.Connection.constructor | src/net/connection.cpp:21-23 | a new connection has sent nothing and holds an empty buffer |
| ConnectionEngine.Connection.Handle | src/net/connection.cpp:46-65 | one line changes the heap cache as the session and sends its one reply |
| ConnectionEngine.Connection.Next | src/net/connection.cpp:72-75 | takes exactly the first buffered line, if there is one, and handles it |
| ConnectionEngine.Connection.Drain | src/net/connection.cpp:72-76 | the inner loop handles every complete buffered line, or stops at the one that ends the connection |
| ConnectionEngine.Connection.Turn | src/net/connection.cpp:68-90 | after draining, an unfinished line over the limit is answered with the error and ends the connection |
| ConnectionEngine.Connection.Fill | src/net/connection.cpp:25-44 | one read is appended; an interrupted one adds nothing |
| ConnectionEngine.Connection.Round | src/net/connection.cpp:68-95 | one turn of the outer loop is one unfolding of serving |
| ConnectionEngine.Connection.ServeWith | src/net/connection.cpp:67-96 | the outer loop, for any account of what handling a line does |
| ConnectionEngine.Connection.Serve | src/net/connection.cpp:67-96 | served on the heap, a connection leaves cache and replies as serving a session on values does, and its buffer never holds more than one line limit plus one chunk |
| Session.CommandRuns | src/net/command_handler.cpp:5-74 | a command, SAVE and LOAD included, changes the cache by a run of operations and nothing else |
| Session.LineRuns | src/net/connection.cpp:46-65 | a line changes the cache by its command's operations and those of other clients after it |
| Session.FoldRuns | src/net/connection.cpp:46-76 | serving lines is a run of all these operations on the sharded cache |
| Session.TraceSteady | src/net/connection.cpp:46-76 | and that run reads a steady clock |
| Session.ReplySound | src/net/command_handler.cpp:5-43 | after any run, the reply to a command about a key is sound in that sense |
| Session.SoundAfterLines | src/net/connection.cpp:46-76 | after any lines, the reply to the next line about a key is sound |
| Session.RepliesAreSound | src/net/connection.cpp:25-96 | with or without persistence, whatever was loaded, whatever bytes arrive in whatever chunks and whatever others do between commands, the next reply about a key tells that nothing is there or what a map with deadlines has there after the same operations, and the latter for certain while the key's shard has evicted nothing |
| Session.SentRepliesAreSound | src/net/connection.cpp:25-96 | so is every reply already sent, each for its own line |
| Session.GoesOnIff | src/net/connection.cpp:46-65 | a session goes on after a line exactly when the reply could be sent and the line is not QUIT in some letter case, which is answered first |
| Session.MalformedKeeps | src/net/connection.cpp:49-54 | a malformed line is answered with an error and changes nothing |
| Wire.LinesArePlain | src/net/line_buffer.cpp:15-31 | a stream has as many lines as newlines, and none holds one |
| Wire.OneLineIff | src/net/protocol.cpp:201-224 | a reply is on one line if and only if the value, token or report it quotes is |
| Wire.CommandOneLineIff | src/net/command_handler.cpp:5-74 | of all commands on all stores, exactly a GET of a visible value with a newline is not answered on one line |
| Wire.LineOneLineIff | src/net/connection.cpp:46-65 | the same for a line, parsed or refused |
| Wire.SessionCountableIff | src/net/connection.cpp:25-96 | in every session, however its bytes are chunked, the client receives as many lines as replies if and only if none of the lines served is such a GET |
| Wire.SavePlain | src/net/command_handler.cpp:48-58 | what is saved from a cache without newlines is a file without them |
| Wire.RepliesAreLines | src/net/protocol.cpp:201-224 | replies on one line each are read back by the client as exactly those lines |
| Wire.CountableIff | src/net/protocol.cpp:201-224 | the client receives as many lines as replies if and only if every reply is on one line |
| Wire.LineTellsReply | src/net/protocol.cpp:201-224 | a reply that is not an error is told by its line from every other reply |
| Wire.DocumentedErrors | src/net/protocol.cpp:56-175 | the wording of the errors for an empty line, a negative time to live, an unknown command with at most 32 characters of it repeated, and a failed save or load |
| Wire.HeardAsSent | docs/PROTOCOL.md:82-94 | a client that reads the documented replies by their first byte hears exactly the reply that was sent, or that it is an error |
| Wire.LineSends | src/net/connection.cpp:46-65 | if neither cache nor file holds a newline in a value, a line earns a reply on one line and leaves it so |
| Wire.ClientReadsReplies | src/net/connection.cpp:46-96 | then, whatever bytes arrive in whatever chunks, SAVE and LOAD included, the bytes sent back split into lines in which such a client hears exactly the replies |
| Wire.LoadedValueSpansLines | src/net/command_handler.cpp:18-67 | a loaded value makes its reply longer by one line per newline |

## Left out

- Sockets, `poll`, `accept`, `send` and `recv`: reads are arbitrary chunks or interruptions, a send succeeds or ends the session, `poll` and `accept` have every outcome.
- Mutexes and condition variables: each `SyncCache` method is one atomic step.
- Hash tables and the library's string hash: a map, and an arbitrary function from keys to numbers.
- Widths of the clocks, of `size_t` counters and of the save serial: unbounded integers; the snapshot parser's and the protocol parser's 32- and 64-bit limits are modelled.
- Durability: a crash ends a process between steps, it does not lose written bytes; at the start the snapshot and leftover temporary files of its saves are files of their own, other names may be linked at will.
- Error wording of a failed save or load: a parameter of the reply's text; which check rejected a file is not recorded.
- `PeriodicSaver`: a timed loop around the save that `AtomicSave` already allows at any moment.
- `keys_by_recency`, the sums of counters over shards, `empty`, `capacity`: loops of the kind already shown.
- Program entry points, option parsing, the client program, benchmarks, and the setup of the listening socket.
- ConnectionEngine.Connection.Serve: one client on the heap at a time; what other clients do between its commands is in `Session`, on values.
- AtomicSave.SnapshotIsAtomic: a step machine on values rather than code, since what matters is the interleaving; the same holds for `Scan` and `ServerLifecycle`.
- Session.RepliesAreSound: other clients act between two commands of this one, not between the records of its LOAD; the same holds for `SentRepliesAreSound`.
