# Falcon Cache: a verified model

This project models the parts of Falcon Cache that decide what its users get and
how much memory it takes, and proves what the code promises about them.

* **The cache engine** (`crates/falcon-storage/src/cache.rs`), at three levels.
  `ShardSpec` gives what each critical section of a shard does to the table, the
  byte and TTL counters and the statistics. `Shards.Shard` and
  `Engine.CacheEngine` are the engine's loops, run by one thread at a time and
  proved against those functions. `Interleaving` is one shard under any
  interleaving of writers, readers, deleters and sweeps: a thread is a program
  counter, an eviction holds the lock over many steps, the lock-free read of the
  byte mirror may return any value published since the reader's own publish, and a
  sweep's read of the TTL mirror may be as stale. `Sequential` proves that runs of
  one operation at a time are among its runs. `Cluster` is the whole engine, one
  such machine per shard; `ClusterHistory` proves it one flat map, and `Sweeps`
  that the background sweep reclaims under interleaving.
* **The wire protocol** (`crates/falcon-wire`): `Protocol` and `Codec` are the
  frames and the incremental decoder over a buffer consumed in place; `Dispatch`
  is what one request does; `Conn` is the drain / read / dispatch loop with its
  batch cap, authentication latch and memoised keyspace; `Chunking` says how the
  cutting of a stream into reads and the batch cap matter; `Service` puts the
  sharded engine behind it.
* **The pieces around them**: memory ceiling to keyspace budget to shard budget
  (`Sizing`), expiry arithmetic (`Keyspace`), the sweep's rotation
  (`EngineRuns`), percent-decoding and token comparison (`Auth`), Base64
  (`Base64`).

What the program takes from its environment is an input every theorem is proved
for: clock readings, the hash of a key, the iteration order of a hash table, the
random start of a sampling window, the thread schedule, how a stream is cut into
reads, the detected memory ceiling. 64-bit counters and stamps are unbounded
here; the sweep cursor wraps, lengths are cut to their fields, and expiry
arithmetic saturates, as in the code.

## Where the code does not do what is said of it

* A malformed frame discards every request drained just before it, so for such a
  stream the batch cap and the cutting into reads do change what is executed,
  although `crates/falcon-wire/src/conn.rs:44-52` says the cap never changes
  semantics. `Chunking.CapIndependentExactly` says exactly for which streams
  neither matters, `Chunking.ChunkingIndependentExactly` the same for each cap on
  its own, and `Chunking.PingDiscarded` is a stream for which the cap does.
* With authentication off an AUTH frame is not always OK, as
  `crates/falcon-wire/src/protocol.rs:24-25` has it: only an empty token is.
* The `expired` counter exceeds the Expired removals by the lookups that lost the
  race to drop an entry they had both seen expired
  (`crates/falcon-storage/src/cache.rs:704-709`). `ShardTheorems.LostRaceOvercounts`
  is such a run; the two agree when one operation runs at a time.
* The comment at `crates/falcon-storage/src/cache.rs:304-308` allows a lagging
  mirror to defer an eviction to the next write. It cannot: the memory bound holds
  with arbitrarily stale reads, as long as a thread sees its own publish.
* A keyspace that is not UTF-8 gets UnknownKeyspace from the connection loop and
  BadRequest from `dispatch_kv`.
* On the wire the reply to a SET and a hit on an empty value are the same bytes.
* Overwriting an expired entry is neither counted nor notified as a removal
  (`ShardTheorems.ExpiredOverwritten` is such a run); the accounting theorems follow
  the code in this, and `ShardTheorems.UnreportedExactly` says exactly when an entry
  leaves without a report.
* Below a ceiling of 320 MiB the fixed fallback takes the place of auto-sizing and
  leaves less headroom; below 256 MiB it exceeds the ceiling.

## Model

| member | source | states |
|---|---|---|
| ShardTheorems.MemoryBound | crates/falcon-storage/src/cache.rs:604-644 | In every state of every interleaved run, with any stale mirror reads, key bytes + value bytes + 96 an entry are at most the budget plus what unfinished inserts stored, each the size of a put of the history; above the budget only while the last inserter is still evicting; with no insert in flight neither the table nor any entry is above it |
| ShardTheorems.EvictionEndsWithinBudget | crates/falcon-storage/src/cache.rs:765-834 | Under interleaving the rounds guard stays positive and an eviction lets go of the lock only within budget |
| ShardTheorems.RemovalAccounting | crates/falcon-storage/src/cache.rs:541-551 | At every step keys created = present + deleted + Evicted + Expired removals; no removal is notified more often than made; a notifying thread does not hold the shard's lock; the TTL count is exact |
| ShardTheorems.QuiescentAccounting | crates/falcon-storage/src/cache.rs:836-847 | With nothing in progress each removal was notified exactly once with its cause, hits and misses are the gets answered with a value and without one, evictions is exact, expired = Expired removals + lost races |
| ShardTheorems.HitsAndMisses | crates/falcon-storage/src/cache.rs:653-714 | At every step the hit and miss counters, with answers settled but not yet counted, are the Hit and Miss events of the history |
| ShardTheorems.LostRaceOvercounts | crates/falcon-storage/src/cache.rs:684-714 | A run in which one expiry is counted twice |
| ShardTheorems.UnreportedExactly | crates/falcon-storage/src/cache.rs:619-628 | Over any run an entry, past its expiry or not, leaves unreported exactly when a put or delete displaced it; otherwise one removal is reported, as Expired exactly when the remover's clock had reached its expiry |
| ShardTheorems.OverwriteUnreported | crates/falcon-storage/src/cache.rs:619-628 | The locked half of an insert over a present entry, however expired, adds no removal, notice, expiry or creation |
| ShardTheorems.ExpiredOverwritten | crates/falcon-storage/src/cache.rs:612-641 | A run in which an expiry goes by unreported |
| ShardTheorems.HistoryIsFlat | crates/falcon-storage/src/cache.rs:604-732 | The settled history of every run is one a flat map that may lose entries allows, and the table holds exactly that map |
| ShardTheorems.GetIsExact | crates/falcon-storage/src/cache.rs:653-714 | A get's answer is settled at one point between its start and end: a value is that of the latest put then, untouched since and unexpired at the clock it read; nothing means any such put had expired |
| MachineInvariants.BoundedStep | crates/falcon-storage/src/cache.rs:745-757 | Each step keeps: since any published value within budget, only inserts published later account for the excess |
| MachineInvariants.HintWithinBudget | crates/falcon-storage/src/cache.rs:750-752 | Trusting a stale in-budget mirror value and skipping eviction keeps the bound |
| MachineInvariants.OwnedStep | crates/falcon-storage/src/cache.rs:745-757 | Each step keeps: over budget, the most recent inserter is still evicting and no later published value is below the current one |
| MachineInvariants.SoundStep | crates/falcon-storage/src/cache.rs:241-262 | Each step keeps both counters equal to what the table holds and both mirrors equal to the counters, and the lock held by exactly the thread that thinks so |
| MachineHistory.NoticesStep | crates/falcon-storage/src/cache.rs:541-551 | Each step keeps every removal either notified or held by one thread |
| MachineHistory.ReportedStep | crates/falcon-storage/src/cache.rs:541-551 | Each step keeps the removals made equal to the losses of the settled history, in order |
| MachineHistory.CountersStep | crates/falcon-storage/src/cache.rs:704-709 | Each step keeps keys created, evictions, expiries and the number of lookups, with what threads have yet to count, equal to what happened |
| MachineHistory.ScoredStep | crates/falcon-storage/src/cache.rs:653-714 | Each step keeps hits and misses, with what threads have yet to count, equal to the answers of the history |
| MachineHistory.LinearStep | crates/falcon-storage/src/cache.rs:604-732 | Each step is one a flat lossy map allows and keeps the table equal to it, both outcomes of the expired re-check included |
| MachineHistory.HonestStep | crates/falcon-storage/src/cache.rs:653-714 | Each step keeps what a lookup is about to return equal to the event that settled it, and what an insert in flight added equal to the size of a put |
| History.HitServesLatestPut | crates/falcon-storage/src/cache.rs:646-674 | In any allowed history a hit serves the latest put, with no delete, loss or overwrite since, before its expiry |
| History.MissHasReason | crates/falcon-storage/src/cache.rs:684-714 | A miss of a key put and untouched since means its expiry had passed at that get's clock |
| Cluster.KeysStayHome | crates/falcon-storage/src/cache.rs:452-456 | In every engine run each key is held and answered only by the shard its hash selects |
| Cluster.RoutedByMask | crates/falcon-storage/src/cache.rs:452-456 | That shard is the hash masked with one less than the shard count |
| ClusterHistory.EngineAnswersAreFlat | crates/falcon-storage/src/cache.rs:604-732 | In every state of every engine run the events of all shards, in the order they were settled, are a history one flat lossy map allows; the shards together hold exactly that map; each shard saw exactly the events of its own keys |
| ClusterHistory.EngineGetIsExact | crates/falcon-storage/src/cache.rs:653-714 | What a get on the engine returns is settled at one place of that one history after the get began: a value is that of the latest put there, untouched and unexpired at the clock it read; nothing means any such put had expired |
| Cluster.NotifierHoldsNoLock | crates/falcon-storage/src/cache.rs:855-880 | A thread that notifies, a sweep of many shards included, holds no lock of any shard |
| Sweeps.SweepReclaims | crates/falcon-storage/src/cache.rs:887-916 | Under any interleaving a sweep that begins after an entry expired, skipping on a mirror value no older than that or not, does not end before the entry is dropped or rewritten |
| Sweeps.EngineRotationReclaims | crates/falcon-storage/src/cache.rs:560-573 | A rotation of interleaved sweeps, from any cursor, leaves no entry of any shard that had expired when it began, but for those dropped or rewritten since |
| Cluster.EngineMemoryBound | crates/falcon-storage/src/cache.rs:493-525 | With no insert in flight the key bytes, value bytes and 96 an entry of all shards together never exceed capacity_bytes, even if it is below the shard count |
| Cluster.EntryFitsShare | crates/falcon-storage/src/cache.rs:493-525 | No entry held at rest is larger than its shard's equal part of capacity_bytes |
| Cluster.ShardBudgets | crates/falcon-storage/src/cache.rs:500-502 | The shards' budgets use capacity_bytes up to less than a byte a shard, and exceed it only where a byte a shard does |
| Cluster.NodeMemoryBound | crates/falcon-core/src/node.rs:28-64 | The auto-sized keyspaces built from any configurations, repeated names included, under any interleaving together stay 256 MiB below a detected ceiling of at least 320 MiB |
| Entries.ChargeExactly | crates/falcon-storage/src/cache.rs:458-460 | What is charged for a table is its key bytes, its value bytes and 96 for each entry |
| ShardSpec.UpdateKeeps | crates/falcon-storage/src/cache.rs:612-641 | An insert keeps both counters exact, charges key, value and 96 bytes less what it overwrites, and its subtraction cannot underflow |
| ShardSpec.CountExactly | crates/falcon-storage/src/cache.rs:822-826 | Counting a cause counts how often it occurs |
| ShardSpec.DropKeeps | crates/falcon-storage/src/cache.rs:718-732 | A removal keeps both counters exact, and neither saturating update saturates |
| ShardSpec.SweepComplete | crates/falcon-storage/src/cache.rs:887-911 | A sweep, or its skip on a zero TTL count, leaves no expired entry and takes only expired ones |
| Eviction.LastRemovalNecessary | crates/falcon-storage/src/cache.rs:769-834 | A pass removes nothing if and only if it begins within budget, and its last removal was necessary |
| Eviction.CauseIsExact | crates/falcon-storage/src/cache.rs:796-820 | A removal is called Expired exactly when the entry had expired at the pass's clock |
| Eviction.CoveringSampleIsExactLru | crates/falcon-storage/src/cache.rs:790-834 | With a sample covering the table, a live victim goes only when no expired entry is left, and everything still there was used more recently |
| Eviction.EvictionSparesWorkingSet | crates/falcon-storage/src/cache.rs:769-834 | No pass drops a live key with at most sample - 2 keys stamped after it when sample - 1 entries fit the budget |
| ShardRuns.StepKeeps | crates/falcon-storage/src/cache.rs:604-732 | Every operation keeps counters exact, stamps distinct and the shard within budget |
| ShardRuns.InsertEvictsExactly | crates/falcon-storage/src/cache.rs:745-757 | An insert removes nothing if and only if what it leaves in the shard is within its budget |
| ShardRuns.WorkingSetHits | crates/falcon-storage/src/cache.rs:745-834 | Over any run, an accessed, undeleted, unexpired key is a hit on its value after at most sample - 2 distinct other keys were stamped |
| WorkingSetLimit.WorkingSetTight | crates/falcon-storage/src/cache.rs:745-834 | For every sample size one more distinct key can displace it |
| ShardRuns.CountersAreRemovals | crates/falcon-storage/src/cache.rs:836-845 | One operation at a time, evictions and expired are exactly the removals reported |
| ShardRuns.HitsAreAnswers | crates/falcon-storage/src/cache.rs:653-714 | Over any run hits counts the gets answered with a value and misses the others |
| Sequential.SequentialRunsAreRuns | crates/falcon-storage/src/cache.rs:604-732 | Every run of one operation at a time is a run of the interleaved machine, ending idle in the same state |
| Shards.Shard.Store | crates/falcon-storage/src/cache.rs:612-641 | The locked half of an insert: the new table, the bytes charged by key, value and 96, mirrors in step |
| Shards.Shard.Insert | crates/falcon-storage/src/cache.rs:604-644 | Stamp, store and evict: the shard ends within budget, in the state those leave |
| Shards.Shard.LookupLocked | crates/falcon-storage/src/cache.rs:684-714 | The re-check under the write lock, for whatever it finds: a live value is a hit, anything else a miss and an expiry |
| Shards.Shard.Delete | crates/falcon-storage/src/cache.rs:718-732 | Deletes, reports presence, keeps counters and mirrors |
| Shards.Shard.Evict | crates/falcon-storage/src/cache.rs:745-847 | From any valid state ends within budget by a pass each of whose rounds its window allows, and counts it |
| Shards.Shard.SampleOne | crates/falcon-storage/src/cache.rs:787-820 | Whatever the table order and start, a round always picks, from the window that wraps round from there: its first expired entry, else its least recently stamped |
| Eviction.WrappedIsWindow | crates/falcon-storage/src/cache.rs:791-801 | A window wrapping round the end of the table lists distinct entries |
| Eviction.WindowExactly | crates/falcon-storage/src/cache.rs:787-801 | Over all orders and starts the windows a round can read are exactly the lists of distinct entries of the right length |
| Shards.Shard.Reap | crates/falcon-storage/src/cache.rs:887-916 | Drops exactly the expired entries, skipping a shard with none that can expire |
| Engine.CacheEngine.constructor | crates/falcon-storage/src/cache.rs:493-525 | A valid empty engine of the computed shard count, whose shards' budgets use the capacity up to less than a byte a shard, with a sample of at least one |
| EngineRuns.InsertWithinShare | crates/falcon-storage/src/cache.rs:493-525 | With that shard count and budget an insert removes nothing if and only if what its shard then holds is within an equal part of the capacity |
| Engine.CacheEngine.Insert | crates/falcon-storage/src/cache.rs:604-644 | An insert step of the key's own shard, no other touched, its removals notified in order, none exactly when the shard stays within budget |
| Engine.CacheEngine.Get | crates/falcon-storage/src/cache.rs:653-714 | Answers the present unexpired value, drops and notifies an expired one |
| Engine.CacheEngine.ReapSome | crates/falcon-storage/src/cache.rs:870-880 | Sweeps exactly the next shards from the cursor, each once, moves the cursor on with wrap, and reports what it reclaimed |
| Engine.CacheEngine.ReapExpired | crates/falcon-storage/src/cache.rs:855-862 | Leaves no entry expired at its shard's clock reading |
| Engine.CacheEngine.Statistics | crates/falcon-storage/src/cache.rs:582-600 | Each statistic is the total over the shards of what it is named for; the bytes are key bytes, value bytes and 96 an entry, within the budgets |
| Engine.CacheEngine.TrackedTtlKeys | crates/falcon-storage/src/cache.rs:950-955 | The sum of the mirrors is the number of entries with an expiry |
| Engine.CacheEngine.CountTtlKeysByScan | crates/falcon-storage/src/cache.rs:962-975 | The scan gives that same number |
| EngineRuns.RotationVisitsOnce | crates/falcon-storage/src/cache.rs:870-880 | A rotation of ticks visits each shard exactly once from any cursor, even as it wraps at the word size |
| EngineRuns.RotationLength | crates/falcon-storage/src/cache.rs:560-573 | A rotation is eight ticks, or one a shard where there are fewer than eight |
| EngineRuns.RotationReclaims | crates/falcon-storage/src/cache.rs:560-573 | After a rotation, among any other operations, every entry expired at its start is gone or rewritten |
| Sizing.ShardCountExactly | crates/falcon-storage/src/cache.rs:430-450 | The shard count is the greatest power of two that is four at most, or keeps to 512, to fewer than eight a core and to 1 MiB a shard |
| Sizing.ShardCountSafe | crates/falcon-storage/src/cache.rs:430-450 | The shard count is a power of two in 4..512, and above 4 each shard has at least 1 MiB |
| Sizing.ShardCountServesCores | crates/falcon-storage/src/cache.rs:430-445 | From 512 MiB there are at least four shards for each core, up to 512, and fewer than twice that |
| Sizing.ShardCountMonotone | crates/falcon-storage/src/cache.rs:430-445 | More cores never give fewer shards |
| Sizing.HeadroomExactly | crates/falcon-core/src/resources.rs:173-204 | Auto-sizing applies, and leaves 256 MiB, exactly from a ceiling of 320 MiB, and then takes the smaller of 70% and what the 256 MiB leave; below it the choice is 256 MiB, which exceeds the ceiling exactly below 256 MiB |
| Sizing.ResolveOtherwise | crates/falcon-core/src/resources.rs:187-204 | An explicit size in MiB wins; with nothing detected the choice is 256 MiB |
| Sizing.Build | crates/falcon-core/src/node.rs:26-86 | One keyspace per name, from its last configuration, auto-sized ones sharing one budget |
| Sizing.BuiltExactly | crates/falcon-core/src/node.rs:36-76 | Each keyspace has the sample and time to live of the last configuration of its name, and its size in MiB or an equal share with all that leave theirs open |
| Sizing.AutoKeyspacesShareOneBudget | crates/falcon-core/src/node.rs:28-45 | The auto-sized budgets of any configurations add up to at most the ceiling less 256 MiB |
| Keyspace.ExpiryExactly | crates/falcon-core/src/keyspace.rs:48-65 | A write asking for s > 0 seconds expires at the smaller of now + 1000 s and 2^64 - 1 ms, one asking for none at now + the default capped likewise; a zero one, own or default, gives exactly the code for never, and no other does |
| Keyspace.Keyspace.PutWithTtl | crates/falcon-core/src/keyspace.rs:48-65 | The engine takes one insert step with that expiry, in seconds a thousandfold |
| Keyspace.NeverServedLate | crates/falcon-core/src/keyspace.rs:48-65 | No hit on a put with s > 0 seconds to live, or a positive default, reads a clock at or past now + 1000 s, or now + the default, capped at 2^64 - 1 |
| Keyspace.ServedExactly | crates/falcon-core/src/keyspace.rs:45-65 | With no other put of the key since, a get is a hit, on that value, if and only if its own clock is before the expiry and no delete, eviction or expiry by a clock past it took the value; no other event or clock matters |
| Keyspace.TtlOverRuns | crates/falcon-core/src/keyspace.rs:45-65 | The same, in seconds, for the one history of all shards in every state of every interleaved engine run |
| Protocol.EncodeRequest | crates/falcon-wire/src/protocol.rs:89-98 | Appends exactly the frame of the request, leaving what was there |
| Protocol.EncodeResponse | crates/falcon-wire/src/protocol.rs:100-134 | Appends exactly the reply |
| Protocol.RequestOnTheWire | crates/falcon-wire/src/protocol.rs:18-25 | A request byte for byte, and the opcode numbers |
| Protocol.RepliesOnTheWire | crates/falcon-wire/src/protocol.rs:27-41 | Every reply byte for byte |
| Protocol.LengthsLittleEndian | crates/falcon-wire/src/protocol.rs:7-11 | A length field is its number's bytes, least significant first |
| Protocol.RepliesReadBack | crates/falcon-wire/src/protocol.rs:100-134 | Concatenated replies read back as those replies, in order |
| Protocol.RepliesCollide | crates/falcon-wire/src/protocol.rs:100-134 | Two responses have the same bytes exactly when equal, or Ok and a hit on an empty value |
| Protocol.SendableExactly | crates/falcon-wire/src/protocol.rs:108-112 | A reply reads back exactly when its payload is shorter than 4 GiB |
| Codec.DecodeOne | crates/falcon-wire/src/codec.rs:19-89 | Splits one frame off the front, or leaves the buffer untouched and says why |
| Codec.DecodeEncoded | crates/falcon-wire/src/codec.rs:19-89 | A frame followed by any tail decodes to its fields and leaves exactly the tail |
| Codec.DecodeSound | crates/falcon-wire/src/codec.rs:61-88 | The bytes a success consumes are the encoding of its result, at least 12 of them |
| Codec.RoundTripExactly | crates/falcon-wire/src/protocol.rs:89-98 | Encoding and decoding round-trip exactly when the keyspace is at most 65535 bytes and key and value at most 64 MiB |
| Codec.UniquelyDecodable | crates/falcon-wire/src/codec.rs:19-89 | A byte string starts with at most one frame |
| Codec.DecodeStable | crates/falcon-wire/src/codec.rs:19-57 | Success and Malformed are unchanged by bytes arriving later |
| Codec.DecodeExactly | crates/falcon-wire/src/codec.rs:19-57 | Success iff the buffer starts with a frame, waiting iff it is a proper prefix of one, Malformed iff neither |
| Dispatch.OneResponseEach | crates/falcon-wire/src/conn.rs:160-206 | One response per request, sent in request order |
| Dispatch.OutputReadsBack | crates/falcon-wire/src/conn.rs:160-209 | The output parses back uniquely into the responses |
| Dispatch.AuthLatches | crates/falcon-wire/src/conn.rs:102-106 | Authentication is never taken back |
| Dispatch.NothingBeforeAuth | crates/falcon-wire/src/conn.rs:171-185 | A connection authenticates exactly when some request presents the token; before that all answers are Unauthorized and the store is untouched |
| Dispatch.AuthAnswers | crates/falcon-wire/src/conn.rs:171-181 | Wherever it comes in a run, AUTH is Ok exactly on the configured token and leaves the store alone, and afterwards the connection is authenticated exactly if it was at first or some request so far presented the token |
| Dispatch.ResponseAt | crates/falcon-wire/src/conn.rs:160-206 | The response in each place is that of serving its request after all the ones before it |
| Dispatch.GetAnswersLastWrite | crates/falcon-wire/src/conn.rs:260-284 | Over any engine that does nothing worse than lose values, a pipelined GET answers the last SET of its key in the keyspace it names, or NotFound, NotFound after a DEL, and never NotFound after a SET if the engine loses nothing; writes under other names do not count |
| Dispatch.ServeExactly | crates/falcon-wire/src/conn.rs:171-258 | Every answer of an authenticated connection by the numbers on the wire: caps on key and value, PING, and a GET, SET or DEL on exactly the keyspace it names or "cache", UnknownKeyspace exactly when that is not UTF-8 or not configured |
| Dispatch.DispatchExactly | crates/falcon-wire/src/conn.rs:245-258 | Plain dispatch likewise, with BadRequest for a keyspace that is not UTF-8 |
| Dispatch.ServeRefinesDispatch | crates/falcon-wire/src/conn.rs:193-258 | The loop's resolution equals plain dispatch except UnknownKeyspace for BadRequest on a non-UTF-8 keyspace |
| Dispatch.BatchRefinesDispatch | crates/falcon-wire/src/conn.rs:166-206 | The same for whole batches: same effects, same responses but those |
| Conn.FramesOfSent | crates/falcon-wire/src/conn.rs:121-136 | Requests a client encodes one after another are found as exactly those, in order, before whatever follows |
| Conn.Connection.DrainInput | crates/falcon-wire/src/conn.rs:121-136 | Takes the frames of one drain in place, at most 1024, and stops short of that only for a partial or malformed frame |
| Conn.Connection.DispatchBatch | crates/falcon-wire/src/conn.rs:160-209 | With the memo, serves a batch as its requests one by one without it |
| Conn.Connection.Handle | crates/falcon-wire/src/conn.rs:120-220 | The whole connection for any sequence of reads |
| Chunking.ChunkingIndependence | crates/falcon-wire/src/conn.rs:120-220 | Without a malformed frame, every cutting into reads and every batch cap serves every frame once, in order, with the same output and effects |
| Chunking.ExecutesPrefix | crates/falcon-wire/src/conn.rs:121-136 | For every cap a prefix is served, then one BadRequest if a malformed frame follows; fewer frames than the cap are lost |
| Chunking.NeverWaitsWithWork | crates/falcon-wire/src/conn.rs:138-158 | Whenever the connection waits, every frame complete in the bytes so far has been answered |
| Chunking.ReadWhole | crates/falcon-wire/src/conn.rs:121-136 | A malformed stream read whole is executed in full batches only |
| Chunking.ChunkingIndependentExactly | crates/falcon-wire/src/conn.rs:129-134 | With a given cap a stream is served alike under all cuttings if and only if the cap is one, or it has no malformed frame or begins with one |
| Chunking.CapIndependentExactly | crates/falcon-wire/src/conn.rs:44-52 | A stream is served alike under all caps and cuttings if and only if it has no malformed frame or begins with one |
| Chunking.CapMatters | crates/falcon-wire/src/conn.rs:121-136 | Any other stream, read whole, has all its good frames executed with a cap of one and none with a cap above their number |
| Chunking.PingDiscarded | crates/falcon-wire/src/conn.rs:129-134 | A ping before a bad header: answered with a cap of one, discarded with the real one |
| Service.EngineLossy | crates/falcon-wire/src/conn.rs:260-284 | The sharded engine behind the wire does nothing worse than lose values, whatever its clocks, hashes and victims |
| Service.GetOverWire | crates/falcon-wire/src/conn.rs:260-284 | From SET to GET over the wire in one keyspace: the value exactly while the engine holds it and its default time to live has not ended at the clock read, and NotFound otherwise |
| Service.PassExists | crates/falcon-storage/src/cache.rs:765-834 | From any state with exact counters some legal eviction pass ends within budget |
| Service.PutIsStep | crates/falcon-core/src/keyspace.rs:45-65 | A SET is one insert step of the keyspace's engine, on the key's shard, with the keyspace's own expiry |
| Service.ConnectionKeepsBudgets | crates/falcon-wire/src/conn.rs:120-220 | Whatever bytes arrive, malformed or not and however cut, every keyspace keeps exact counters and every shard its budget |
| Auth.ConstantTimeEq | crates/falcon-core/src/auth.rs:20-29 | True exactly on equal byte strings |
| Auth.PercentDecode | crates/falcon-core/src/auth.rs:38-71 | The loop computes the specified decoding |
| Auth.UnescapeInvertsEncoders | crates/falcon-core/src/auth.rs:38-80 | Inverts every encoder that escapes at least % and +, in either case, whatever else it escapes |
| Auth.UnescapeFixedExactly | crates/falcon-core/src/auth.rs:54-65 | A string passes through unchanged exactly when it has no + and no well-formed escape |
| Base64.Encode | crates/falcon-api/src/rest/simple.rs:92-119 | The nested loops compute the specified encoding |
| Base64.DecodeInverts | crates/falcon-api/src/rest/simple.rs:92-119 | A decoder written from section 4 of RFC 4648 inverts it on every octet string |
| Base64.EncodeInjective | crates/falcon-api/src/rest/simple.rs:92-119 | Different octet strings encode differently |
| Base64.EncodedLength | crates/falcon-api/src/rest/simple.rs:92-119 | Four symbols for each three octets or part of three |
| Base64.PaddingOnlyAtEnd | crates/falcon-api/src/rest/simple.rs:108-117 | Padding stands only at the end, one for each octet missing from the last group |

## Left out

- Sockets, TLS, timeouts, the connection cap, task scheduling and shutdown; a failed write or an idle timeout ends a connection early, which the loop here does not.
- Buffer capacity management, zero-copy slices and reference counts: no observable effect.
- The CLI, the client, configuration and profile files, REST routing and health JSON.
- Reading cgroup and meminfo files: the detected ceiling is an input.
- UTF-8 validation: an arbitrary predicate on keyspace names; percent-decoding stops at the bytes.
- The random generator and the pacing of the sweep: every window start and every spacing of ticks is allowed instead.
- Recency under interleaving: two readers may store their stamps in either order, so the least-recently-used theorems are about one operation at a time; memory, accounting and answers are proved for all interleavings.
- Other connections between two requests of one: behind the wire the engine is run by one connection, while the interleaved engine has any number of threads.
- Timing of the token comparison.
- Overflow of 64-bit stamps and counters, and of an explicit capacity in MB beyond the machine word in a debug build.
