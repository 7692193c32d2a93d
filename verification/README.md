# A verified model of the backend components

This project models the five components of the C backend that hold real logic: the in-memory cache, the
key-value store with its write-ahead log and transactions, the message queue with its consumer threads, the
rate limiter, circuit breaker and token text form, and the HTTP message reader and writer.  Each component
has two layers.  A value layer says what one locked region does to the state and proves what holds over whole
runs, in every interleaving.  An object layer rewires linked nodes, hash buckets, arrays and counters in place,
as the program does, and every method there is proved to take the step that the value layer gives it.  Objects
that share state are put together in `Sessions.dfy` (a store with any number of open transactions) and
`QueueThreads.dfy` (a queue with any number of consumer threads): an operation on one of them leaves all the others
as they are, and the objects follow the model through every run.

Time is a `now` argument that never goes backwards.  One locked region is one atomic step; threads are any
interleaving of such steps.  `dafny verify dfyconfig.toml` checks everything.

| file | what it holds |
|---|---|
| `Common.dfy` | result codes, bytes, C strings, the string hash |
| `CacheModel.dfy`, `CacheRuns.dfy`, `CacheLaws.dfy`, `LruInclusion.dfy` | the cache as a value; whole runs; what puts, deletes and clears mean for later reads; LRU inclusion between two caches |
| `CacheHeap.dfy` | the doubly linked list and the hash chains over the same nodes |
| `Wal.dfy`, `DatabaseModel.dfy` | log bytes and replay; the store with open transactions in any interleaving |
| `ChainedTable.dfy`, `Database.dfy`, `Sessions.dfy` | bucket chains in place; store and transaction objects; all of them together |
| `QueueModel.dfy`, `QueueRuns.dfy`, `QueueProgress.dfy` | queue, publishers and consumers as a transition system; whole runs; what gets delivered, drained and finished |
| `MessageQueue.dfy`, `QueueThreads.dfy` | the linked queue and a consumer thread as objects; all threads together |
| `RateLimiter.dfy`, `CircuitBreaker.dfy` | limiter and breaker, as objects and over whole runs |
| `Text.dfy`, `Token.dfy` | decimal numbers; the token text form |
| `Http.dfy`, `HttpRoundTrip.dfy`, `HttpRequests.dfy` | reader and writer; the written reply and what the reader recovers of it; requests |

## Where code and documents disagree

The model follows the code.

- The documents call the rate limiter a token bucket (README.md:48) and a sliding window (IMPLEMENTATION.md:61).
  The code keeps a fixed window per client.  `RateLimiter.RateBound` and `RateLimiter.PeakReached` give the exact
  worst case, and `RateLimiter.SlidingWindowIff` says for which settings it still is a sliding window.
- The documents promise ACID transactions and durability (README.md:22-23).  Commits are not logged and a checkpoint
  empties the log without saving the table.  `DatabaseModel.CommitDurableIff` and
  `DatabaseModel.CheckpointDurableIff` say exactly when durability survives, `DatabaseModel.LostCommit` shows a
  run that loses a commit, and `DatabaseModel.CrashRecovery` proves the promise for what is logged.
- Isolation levels are stored and never consulted.  `DatabaseModel.NoDirtyRead` holds at every level;
  `DatabaseModel.RepeatableReadIff` says exactly when a read can be repeated, and
  `DatabaseModel.NonRepeatableRead` shows one that cannot.

## Model

| member | source | states |
|---|---|---|
| Common.HashKey | src/cache/cache.c:34-41 | the hashing loop computes the 32-bit djb2 hash of the signed characters of the key |
| Common.HashIs | src/cache/cache.c:34-41 | the hash of any key is 5381 followed by its signed characters, read to base 33, modulo 2^32 |
| CacheModel.Newest | src/cache/cache.c:82-94 | position of the entry of a key with the largest insertion number, or none exactly when no entry has the key |
| CacheModel.LeastUsed | src/cache/cache.c:135-147 | the head-most entry among those with the fewest accesses |
| CacheRuns.MissMeansExpired | src/cache/cache.c:78-98 | a lookup that fails proves that every entry of the key, shadowed or not, is expired |
| CacheRuns.StepInv | src/cache/cache.c:187-327 | every operation keeps: size within capacity, insertion numbers unique, all but the newest entry of each key expired for good |
| CacheRuns.RunAgrees | src/cache/cache.c:187-327 | in every run from the empty cache the entries agree with the history of puts, deletes, clears and evictions |
| CacheRuns.ReadsLatest | src/cache/cache.c:242-274 | in every run a get returns exactly the latest put of the key that was not deleted, cleared, evicted or expired; no older value reappears |
| CacheRuns.LatestIsLastPut | src/cache/cache.c:187-240 | what the history calls latest has the value, time to live and time stamp of the last put operation of the key |
| CacheRuns.RunTracked | src/cache/cache.c:71-76 | in every run the list is ordered by last touch under LRU and by insertion under LFU, and access counts equal hits since insertion |
| CacheRuns.VictimGoesFirst | src/cache/cache.c:132-149 | the victim goes before every other entry: oldest last touch under LRU; fewest hits, then latest insertion, under LFU |
| CacheRuns.EvictionChoice | src/cache/cache.c:132-161 | in every run a put evicts exactly when the cache is full and the key has no live entry, and evicts the entry that goes before all others |
| CacheRuns.StatsAddUp | src/cache/cache.c:248-255 | over any run hits, misses and evictions are the numbers of such events |
| CacheLaws.DeleteReportsIff | src/cache/cache.c:276-293 | a delete removes something exactly when a get at the same moment would hit, and otherwise changes nothing |
| CacheLaws.GoneStaysGone | src/cache/cache.c:242-327 | in every run, under either policy: after a delete of the key or a clear, with no later put of it, every get of the key misses |
| CacheLaws.PutThenGet | src/cache/cache.c:187-274 | after any run and a put, a get hits with the value put until the time to live has passed and misses from then on |
| CacheLaws.OtherKeysKept | src/cache/cache.c:187-293 | a read, or a write of another key, changes what a later get of a key returns only if a put evicts that very entry |
| LruInclusion.FindIsLive | src/cache/cache.c:78-98 | a lookup in the LRU cache and in the plain recency list find the same entry |
| LruInclusion.StepRefines | src/cache/cache.c:187-327 | every operation of an LRU cache does to its entries what one step of a plain recency list does |
| LruInclusion.WithinFirst | src/cache/cache.c:132-161 | a key held by the smaller of two included lists has the same first entry in both |
| LruInclusion.ListStepIncluded | src/cache/cache.c:132-293 | inclusion of two recency lists, and the bound on their difference in fill, survive every operation |
| LruInclusion.RunIncluded | src/cache/cache.c:132-293 | the inclusion invariant holds after any common run of two LRU caches |
| LruInclusion.Inclusion | src/cache/cache.c:132-293 | for any operations, with or without time to live, and capacities C <= C': the smaller cache's entries are a subsequence of the larger's, each of its hits is a hit of the larger with the same value, so the larger never has fewer hits |
| CacheHeap.HeapCache.RemoveFromList | src/cache/cache.c:43-55 | unlinking a node in place leaves the list without it, links consistent in both directions |
| CacheHeap.HeapCache.AddToHead | src/cache/cache.c:57-69 | linking a node in front, head and tail included |
| CacheHeap.HeapCache.MoveToHead | src/cache/cache.c:71-76 | the node comes to the front, the others keep their order |
| CacheHeap.HeapCache.FindEntry | src/cache/cache.c:78-98 | walking the hash chain finds the newest entry of the key in the list, or nothing when it has expired |
| CacheHeap.HeapCache.RemoveFromChain | src/cache/cache.c:100-120 | the entry, and only it, leaves its hash chain |
| CacheHeap.HeapCache.RemoveEntry | src/cache/cache.c:100-130 | the entry leaves chain and list together; list and chains hold the same nodes, each in its bucket, size is their number |
| CacheHeap.HeapCache.FindVictim | src/cache/cache.c:132-149 | the scan returns the tail under LRU and the head-most least used node under LFU |
| CacheHeap.HeapCache.EvictIfNeeded | src/cache/cache.c:151-161 | the loop ends, removes one victim from a full cache and none otherwise, and leaves room |
| CacheHeap.HeapCache.constructor | src/cache/cache.c:163-171 | an empty cache with twice as many buckets as entries |
| CacheHeap.HeapCache.AddToChain | src/cache/cache.c:227-231 | the entry goes to the front of the chain of its bucket; all other chains stay |
| CacheHeap.HeapCache.Insert | src/cache/cache.c:216-236 | a new entry heads both its chain and the list |
| CacheHeap.HeapCache.Update | src/cache/cache.c:196-212 | a live entry is rewritten in place and moved only under LRU |
| CacheHeap.HeapCache.Store | src/cache/cache.c:187-240 | the locked region of a put takes the put step of the value layer |
| CacheHeap.HeapCache.PutWithTtl | src/cache/cache.c:187-240 | parameter errors change nothing; otherwise the put step |
| CacheHeap.HeapCache.Put | src/cache/cache.c:183-185 | a put without expiry |
| CacheHeap.HeapCache.Serve | src/cache/cache.c:256-268 | a hit counts the access, moves the entry only under LRU and copies the value |
| CacheHeap.HeapCache.Get | src/cache/cache.c:242-274 | status, value, counters and list are those of the get step |
| CacheHeap.HeapCache.Delete | src/cache/cache.c:276-293 | takes the delete step, and reports success exactly when a get at the same moment would hit |
| CacheHeap.HeapCache.Exists | src/cache/cache.c:295-305 | answers whether a lookup would find the key, changing nothing |
| CacheHeap.HeapCache.Clear | src/cache/cache.c:307-327 | nothing is left in list or chains; counters stay |
| CacheHeap.FirstInChain | src/cache/cache.c:78-98 | the first entry of a key in its chain is the newest entry of the key in the list |
| Wal.ApplyAllAt | src/database/database.c:445-450 | after a sequence of writes a key holds what its last write left, or its old value if it was not written |
| Wal.U32RoundTrip | src/database/database.c:21-28 | a 32-bit header field reads back as the number modulo 2^32 |
| Wal.HeaderFields | src/database/database.c:21-28 | the reader finds magic, type and both sizes where the writer put them |
| Wal.HeaderLayout | src/database/database.c:21-28 | the header of a record byte by byte: magic number, type 0 or 1, eight zero bytes, key size with terminator, value size, least significant byte first |
| Wal.PayloadLayout | src/database/database.c:247-265 | behind the header stand the key, its terminator and the value, and nothing else |
| Wal.HasRecordIff | src/database/database.c:434-435 | recovery goes on exactly where at least 24 bytes are left that start with the four magic bytes |
| Wal.ReadsRecord | src/database/database.c:437-450 | for any bytes: type 0 is a put and type 1 a delete of the C string behind the header, the value is found by the announced key size, any other type does nothing |
| Wal.DecodeSteps | src/database/database.c:434-438 | recovery goes on behind the payload that the header announces |
| Wal.DecodeRecord | src/database/database.c:434-451 | the record of a write in front of any bytes decodes to that write followed by what the rest decodes to |
| Wal.DecodeEncode | src/database/database.c:427-453 | recovery reads back exactly the logged writes, in order, whatever unusable bytes follow them |
| Wal.EncodeAppend | src/database/database.c:247-265 | appending a record is appending its write |
| Wal.ReplayIdempotent | src/database/database.c:427-453 | replaying any complete log onto the table it produced changes nothing |
| Wal.CutLog | src/database/database.c:434-435 | a log cut at a record boundary or inside a header recovers exactly its complete records |
| Wal.CutInsidePayload | src/database/database.c:437-438 | a log cut inside a payload makes the reader rely on bytes that are not there |
| Wal.AppendedBehindTornMagic | src/database/database.c:434-435 | behind a header torn inside its magic number everything a later process appends is lost |
| Wal.TearIff | src/database/database.c:434-438 | behind a header torn after n bytes, what a later process appends is recovered in every case exactly when n is 0 |
| DatabaseModel.CanRunIff | src/database/database.c:324-393 | any interleaving in which each handle is begun while free and used while open can happen, and no other; commit and rollback free the handle |
| DatabaseModel.CommitOrder | src/database/database.c:324-393 | in every interleaving, from any state, the table is the initial map with direct writes and committed write sets applied in lock order; an open write set holds its own writes only |
| DatabaseModel.TxnIdsAdvance | src/database/database.c:332-334 | every begin, and nothing else, takes the next transaction id |
| DatabaseModel.UncommittedInvisible | src/database/database.c:339-377 | leaving out everything some never-committing transactions did changes neither table, log nor any other write set |
| DatabaseModel.NoDirtyRead | src/database/database.c:379-388 | no read depends on another transaction's uncommitted writes |
| DatabaseModel.SerialAt | src/database/database.c:339-363 | after any run a key holds what the last write or commit to reach it left, or its old value if none did |
| DatabaseModel.RepeatableReadIff | src/database/database.c:379-388 | across any run of everybody else a read repeats exactly when the key is in the own write set, nothing reached the key, or the last thing to reach it put the same value back |
| DatabaseModel.NonRepeatableRead | src/database/database.c:379-388 | two reads of one transaction differ when another one commits in between, at every isolation level |
| DatabaseModel.CommitPublishesView | src/database/database.c:339-388 | what a transaction reads just before its commit is what everyone reads just after |
| DatabaseModel.LogIs | src/database/database.c:241-312 | after any run the log bytes encode the direct writes since the last checkpoint |
| DatabaseModel.RecoveryYields | src/database/database.c:427-453 | after any run recovery yields those writes and nothing else |
| DatabaseModel.CrashRecovery | src/database/database.c:241-312 | without commit and checkpoint a crash at any point loses nothing, logged deletes of absent keys included |
| DatabaseModel.AnyNumberOfCrashes | src/database/database.c:206-225 | one process after another on the same log, each crashing between any two operations, commits and checkpoints included: the next finds the direct writes since the last checkpoint in order and nothing of any transaction |
| DatabaseModel.CommitDurableIff | src/database/database.c:339-363 | a commit survives a crash exactly when it changes no value |
| DatabaseModel.CheckpointDurableIff | src/database/database.c:410-425 | a checkpoint keeps the store recoverable exactly when the table is empty |
| DatabaseModel.LostCommit | src/database/database.c:339-363 | begin, put, commit: the committed value is gone after a crash |
| ChainedTable.HashTable.constructor | src/database/database.c:71-76 | an empty map over empty buckets |
| ChainedTable.HashTable.Find | src/database/database.c:129-145 | the chain walk finds the entry of the key exactly when the map has the key |
| ChainedTable.HashTable.Get | src/database/database.c:129-151 | map lookup |
| ChainedTable.HashTable.Put | src/database/database.c:96-127 | map update, in place or at the front of the bucket; size is the number of keys |
| ChainedTable.HashTable.Unlink | src/database/database.c:163-170 | bypasses one entry and leaves every other chain alone |
| ChainedTable.HashTable.Delete | src/database/database.c:153-181 | map removal, reporting whether the key was there |
| Database.Database.constructor | src/database/database.c:183-191 | an empty store without a log, next transaction id 1 |
| Database.Database.Put | src/database/database.c:241-272 | logs and applies the write as one step of the model; parameter errors change nothing |
| Database.Database.Get | src/database/database.c:274-282 | reads the table |
| Database.Database.Delete | src/database/database.c:284-312 | logs the delete even of an absent key and removes it, as one step of the model |
| Database.Database.Checkpoint | src/database/database.c:410-425 | empties the log and keeps the table in memory only |
| Database.Database.Recover | src/database/database.c:427-453 | the record loop computes the replay of the whole log |
| Database.Database.Begin | src/database/database.c:324-337 | a transaction with a new, empty write set that shares nothing with anything, and the next id |
| Database.Transaction.Put | src/database/database.c:374-377 | changes only the transaction's own write set |
| Database.Transaction.Get | src/database/database.c:379-388 | own write set first, then the table |
| Database.Transaction.Delete | src/database/database.c:390-393 | withdraws the own put and never deletes from the table |
| Database.Transaction.PublishBucket | src/database/database.c:347-353 | putting one bucket of the write set overrides the table by exactly the visited keys |
| Database.Transaction.Commit | src/database/database.c:339-363 | walking the 64 buckets into the 1024-bucket table is map override, in whatever order keys are met |
| Database.Transaction.Rollback | src/database/database.c:365-372 | nothing of the transaction reaches the store |
| Sessions.Sessions.Put | src/database/database.c:241-272 | a direct write leaves every open transaction as it is and is one step of the model |
| Sessions.Sessions.Begin | src/database/database.c:324-337 | a new transaction joins without touching the others |
| Sessions.Sessions.TxnPut | src/database/database.c:374-377 | changes one write set; store and other transactions stay valid and unchanged |
| Sessions.Sessions.TxnDelete | src/database/database.c:390-393 | the same for withdrawing a put |
| Sessions.Sessions.TxnGet | src/database/database.c:379-388 | reads the transaction's view of the shared state |
| Sessions.Sessions.Commit | src/database/database.c:339-363 | publishes one write set; the other transactions stay valid and unchanged |
| Sessions.Sessions.Rollback | src/database/database.c:365-372 | drops one write set and nothing else |
| Sessions.Sessions.Perform | src/database/database.c:241-393 | every action the model allows can be performed on the objects, with the model's effect |
| Sessions.Sessions.PerformAll | src/database/database.c:241-393 | store and transactions follow the model through any run with any number of open transactions, whatever the isolation level |
| QueueModel.Slot | src/mqueue/mqueue.c:92-95 | the scan stops before the first message of strictly lower priority |
| QueueRuns.StepLocated | src/mqueue/mqueue.c:135-178 | every step keeps each message in one place and moves it as the history says |
| QueueRuns.StepInOrder | src/mqueue/mqueue.c:86-133 | every step keeps the queue ordered by priority and, among equals, by time of entry |
| QueueRuns.ExactlyOnePlace | src/mqueue/mqueue.c:135-178 | in every interleaving a published message is queued, held by one consumer, consumed or cleared, with the topic, payload and priority it was published with, and published = queued + held + consumed + cleared |
| QueueRuns.HandledAtMostOnce | src/mqueue/mqueue.c:151-163 | no message is handled twice; a consumed one was handled once |
| QueueRuns.HandledByTopic | src/mqueue/mqueue.c:151-169 | whatever is taken, handled, counted or re-queued is a message as it was published before, and a handler only sees messages of the topic its consumer's last subscription named |
| QueueRuns.TakesFirst | src/mqueue/mqueue.c:121-133 | what is taken precedes everything left in the queue, in every run |
| QueueRuns.PublicationOrder | src/mqueue/mqueue.c:221-240 | without re-queueing, time of entry is order of publication |
| QueueRuns.TakesEarliestOfHighest | src/mqueue/mqueue.c:86-133 | without re-queueing a take returns the earliest published message of the highest priority present |
| QueueRuns.FifoLaw | src/mqueue/mqueue.c:107-133 | without priorities, until a clear, what was queued or enters leaves in that order |
| QueueRuns.BoundedWait | src/mqueue/mqueue.c:107-133 | a message with p messages ahead leaves on exactly the (p+1)-th later take, whatever is published or re-queued meanwhile |
| QueueRuns.NoRequeueOfTopic | src/mqueue/mqueue.c:163-169 | with every consumer on one topic, its messages enter the queue only by publication |
| QueueRuns.TopicLeavesInOrder | src/mqueue/mqueue.c:151-169 | with every consumer on one topic, that topic's messages leave in publication order |
| QueueRuns.StoppedTakesNothing | src/mqueue/mqueue.c:272-282 | a stopped consumer takes nothing more and keeps what it holds until it is consumed or re-queued |
| QueueProgress.OnePass | src/mqueue/mqueue.c:135-178 | one pass over the first k messages can always be made: it handles those of the consumer's topic in order, counts each, and leaves the others in order behind the rest of the queue |
| QueueProgress.Drains | src/mqueue/mqueue.c:135-178 | a consumer to whose topic all n queued messages belong empties the queue in n rounds of take, handle and count, and raises the count by n |
| QueueProgress.NewcomerDrains | src/mqueue/mqueue.c:242-270 | so does whoever subscribes to that topic, from any state |
| QueueProgress.Delivers | src/mqueue/mqueue.c:86-240 | everything published to a topic can be delivered to its subscriber: each message once, with its payload, by priority and then in order of publication |
| QueueProgress.SpinsIff | src/mqueue/mqueue.c:163-169 | in every run: a message of another topic at the head comes straight back to it, and the consumer makes no progress, exactly when it is alone or has a strictly higher priority than the next one |
| QueueProgress.Unsubscribes | src/mqueue/mqueue.c:272-303 | from any state a consumer can be stopped, finish what it holds and leave; what it held is counted or put back |
| QueueProgress.AfterStop | src/mqueue/mqueue.c:272-282 | after a stop anywhere in a run, until the name subscribes anew, it takes nothing, and what it held stays with it until it is consumed or put back |
| QueueProgress.Lifecycle | src/mqueue/mqueue.c:242-303 | in every run a name subscribes only while away, takes only between its subscription and its stop, and leaves only once stopped |
| QueueProgress.ClearedForGood | src/mqueue/mqueue.c:353-371 | a message that is queued when the queue is cleared is discarded for good and never handled |
| QueueProgress.EventsTell | src/mqueue/mqueue.c:135-240 | in every run each event is the one its action asked for, and published messages are numbered in order |
| MessageQueue.MQueue.constructor | src/mqueue/mqueue.c:180-192 | an empty queue |
| MessageQueue.MQueue.FindSlot | src/mqueue/mqueue.c:89-95 | the scan returns the insertion point and the node before it |
| MessageQueue.MQueue.Splice | src/mqueue/mqueue.c:97-106 | splicing in place inserts the node there, tail included |
| MessageQueue.MQueue.Append | src/mqueue/mqueue.c:107-116 | appending in place, head included |
| MessageQueue.MQueue.EnqueueNode | src/mqueue/mqueue.c:86-119 | the linked queue holds the enqueued sequence; tail is its last node and size its length |
| MessageQueue.MQueue.DequeueNode | src/mqueue/mqueue.c:121-133 | takes the first node out, or none from an empty queue |
| MessageQueue.MQueue.Publish | src/mqueue/mqueue.c:221-240 | parameter errors change nothing; otherwise one message enters and is counted |
| MessageQueue.MQueue.Clear | src/mqueue/mqueue.c:353-371 | nothing is left; counters stay |
| MessageQueue.ConsumerThread.constructor | src/mqueue/mqueue.c:242-270 | subscribing adds an active, idle consumer |
| MessageQueue.ConsumerThread.Take | src/mqueue/mqueue.c:140-152 | takes the first node of the list exactly when the thread is active and the queue is not empty, as one step of the model |
| MessageQueue.ConsumerThread.Dispatch | src/mqueue/mqueue.c:154-169 | handles the message exactly when its topic is the thread's own, puts the node of any other back in the list, as one step of the model |
| MessageQueue.ConsumerThread.CountConsumed | src/mqueue/mqueue.c:157-160 | counts the handled message and lets go of it |
| MessageQueue.ConsumerThread.Stop | src/mqueue/mqueue.c:272-276 | unsubscribing only clears the active flag of the thread |
| QueueThreads.Threads.Publish | src/mqueue/mqueue.c:221-240 | publishing leaves every thread and what it holds as it is |
| QueueThreads.Threads.Subscribe | src/mqueue/mqueue.c:242-270 | a new thread joins without touching the others |
| QueueThreads.Threads.Take | src/mqueue/mqueue.c:140-152 | one thread takes a node nobody else holds; the others stay valid and unchanged |
| QueueThreads.Threads.Dispatch | src/mqueue/mqueue.c:154-169 | one thread handles or re-queues its node; the others stay valid and unchanged |
| QueueThreads.Threads.CountConsumed | src/mqueue/mqueue.c:157-160 | one thread counts its message; the others stay valid and unchanged |
| QueueThreads.Threads.Leave | src/mqueue/mqueue.c:283-303 | a stopped, idle thread leaves; the others stay |
| QueueThreads.Threads.Clear | src/mqueue/mqueue.c:353-371 | clearing the queue leaves held nodes with their threads |
| QueueThreads.Threads.Perform | src/mqueue/mqueue.c:135-371 | every action the model allows can be performed on the objects, with the model's effect |
| QueueThreads.Threads.PerformAll | src/mqueue/mqueue.c:135-371 | queue and threads follow the model through any run with any number of consumers |
| RateLimiter.Limiter.constructor | src/distributed/distributed.c:237-243 | no client is known |
| RateLimiter.Limiter.FindEntry | src/distributed/distributed.c:267-274 | the list walk finds the entry of the client, and the one before it, exactly when the client is known |
| RateLimiter.Limiter.PushFront | src/distributed/distributed.c:276-283 | a new entry heads the linked list |
| RateLimiter.Limiter.Unlink | src/distributed/distributed.c:310-317 | bypasses one entry in place and leaves the rest linked |
| RateLimiter.Limiter.Allow | src/distributed/distributed.c:260-300 | admits exactly when the count of the running window, or 0 when it has run out, is below maxRequests; the new window follows, other clients keep theirs |
| RateLimiter.Limiter.Reset | src/distributed/distributed.c:302-329 | the client is forgotten, or reported unknown |
| RateLimiter.ClientIndependence | src/distributed/distributed.c:260-329 | the answers a client gets equal those in the run restricted to its own calls |
| RateLimiter.ResetForgets | src/distributed/distributed.c:302-329 | after a reset a client is treated as if it had never called |
| RateLimiter.FromWindow | src/distributed/distributed.c:286-298 | from a window on, admissions are what is left in it plus the full windows that fit |
| RateLimiter.PeakIs | src/distributed/distributed.c:286-298 | the peak in closed form: maxRequests for every full window of windowMs + 1, plus maxRequests, or 2 * maxRequests - 1 with a remainder |
| RateLimiter.RateBound | src/distributed/distributed.c:260-300 | any closed span of length L admits at most the peak, hence at most maxRequests * (L / (windowMs + 1) + 2), and at most twice maxRequests in one window |
| RateLimiter.PeakReached | src/distributed/distributed.c:260-300 | for every setting and length some run admits exactly the peak |
| RateLimiter.SlidingWindowIff | src/distributed/distributed.c:286-298 | no span of one window exceeds maxRequests in any run exactly when maxRequests <= 1 or windowMs is 0 |
| CircuitBreaker.CircuitBreaker.constructor | src/distributed/distributed.c:341-348 | a closed breaker without failures |
| CircuitBreaker.CircuitBreaker.Admit | src/distributed/distributed.c:356-374 | refuses exactly when open and not later than timeout after the last failure; an open breaker half-opens otherwise |
| CircuitBreaker.CircuitBreaker.RecordSuccess | src/distributed/distributed.c:387-398 | closes only a half-open breaker |
| CircuitBreaker.CircuitBreaker.RecordFailure | src/distributed/distributed.c:400-413 | counts, remembers the time and opens at the threshold |
| CircuitBreaker.StateIs | src/distributed/distributed.c:356-413 | in every interleaving and for every threshold, state, count and last failure are what the events alone say |
| CircuitBreaker.RefusedIff | src/distributed/distributed.c:364-371 | in every run a call is refused exactly when there have been enough failures since the last close and the timeout after the last one is not over |
| CircuitBreaker.FailureCount | src/distributed/distributed.c:387-413 | in every interleaving of admissions and late reports the count equals the failures since creation or the last close, and CLOSED means below the threshold |
| CircuitBreaker.ClosedBelowIff | src/distributed/distributed.c:341-413 | that equivalence holds in all runs exactly for thresholds of at least one |
| CircuitBreaker.NoStartDuringTimeout | src/distributed/distributed.c:364-371 | after a failure at t that leaves the breaker open no callback starts up to t + timeout |
| CircuitBreaker.FindProbe | src/distributed/distributed.c:364-396 | an open breaker that closes had a call started past the timeout, then a success with no failure in between |
| CircuitBreaker.RecoveryNeedsProbe | src/distributed/distributed.c:364-396 | the same for every run from creation |
| CircuitBreaker.ProbeCloses | src/distributed/distributed.c:364-396 | a probe past the timeout answered by a success closes the breaker and clears the count |
| Text.ValueOfDecimal | src/distributed/distributed.c:196-196 | printed decimal numbers read back as the same number |
| Text.DecimalDigits | src/distributed/distributed.c:196-196 | digits are written most significant first, without leading zeros |
| Token.TextFits | src/distributed/distributed.c:192-198 | a token with a user id of at most 127 characters is printed whole, in at most 169 characters |
| Token.TextReads | src/distributed/distributed.c:192-198 | read off its two colons the text says user id, time of creation and time to live, in this order |
| Token.ScansNumber | src/distributed/distributed.c:207-207 | space, at most one sign and digits scan as their number: saturated, and negated modulo 2^64 |
| Token.ScannedForm | src/distributed/distributed.c:207-207 | nothing else scans as a number |
| Token.DeserializeReads | src/distributed/distributed.c:200-216 | for any text of the form the reader accepts, whoever wrote it: the token is its user id and its two numbers in this order |
| Token.AcceptedForm | src/distributed/distributed.c:200-216 | the reader accepts no other text |
| Token.RoundTripIff | src/distributed/distributed.c:192-216 | a token survives its text form exactly when its user id has 1 to 127 characters and no colon |
| Http.StrStr | src/http/http_parser.c:59-62 | the search returns the first occurrence at or after a position, or none |
| Http.HttpRequest.constructor | src/http/http_parser.c:30-35 | an empty request |
| Http.HttpRequest.ParseTarget | src/http/http_parser.c:74-96 | the target split at its first question mark |
| Http.HttpRequest.CountHeaderLines | src/http/http_parser.c:103-112 | the counting loop counts the lines of the header block |
| Http.HttpRequest.ParseLine | src/http/http_parser.c:123-141 | name up to the first colon, value without leading space, or no header without a colon |
| Http.HttpRequest.FillHeaders | src/http/http_parser.c:114-146 | one slot per line, filled from the front by the lines that have a colon |
| Http.HttpRequest.ParseHeaderBlock | src/http/http_parser.c:98-157 | headers up to the blank line, body from behind it up to the given length |
| Http.HttpRequest.Parse | src/http/http_parser.c:53-160 | status and every field on every error path, for any buffer and any length that covers the head, text beyond the length included |
| Http.FewerHeadersThanLines | src/http/http_parser.c:114-146 | the filling loop never runs past the counted slots |
| Http.InBoundsIff | src/http/http_parser.c:244-272 | with truncating formatted writes, every write stays inside the computed buffer exactly for status lines of up to 258 bytes, or 260 without a body |
| Http.UntruncatedIff | src/http/http_parser.c:244-272 | the whole message is written exactly for status lines of up to 257 bytes, or 258 with a body |
| Http.CutReply | src/http/http_parser.c:255-276 | replies with a status line of 258 to 260 bytes and no body are cut, and the length reported for them is at least the buffer size |
| Http.Format | src/http/http_parser.c:256-266 | a formatted write truncates to the room left, terminates, and counts its text whole |
| Http.HttpResponse.constructor | src/http/http_parser.c:187-193 | default message OK |
| Http.HttpResponse.AddHeader | src/http/http_parser.c:209-221 | appends the field; parameter errors change nothing |
| Http.HttpResponse.SetBody | src/http/http_parser.c:223-240 | replaces the body |
| Http.HttpResponse.ComputeSize | src/http/http_parser.c:245-250 | the size loop sums 256, the field lines, the body and 4 |
| Http.HttpResponse.FormatHead | src/http/http_parser.c:255-263 | status line and field lines in order, or none when a piece would start behind the end |
| Http.HttpResponse.Serialize | src/http/http_parser.c:242-279 | for every response: a length exactly when all writes are in bounds, always that of the whole message; the buffer holds status line, field lines, blank line and body, or all that fits before a terminator |
| HttpRoundTrip.SignedRoundTrip | src/http/http_parser.c:256-256 | a written status reads back as the same signed number and holds no space |
| HttpRoundTrip.StatusLineReads | src/http/http_parser.c:255-257 | of any written reply, read off its first two spaces and its line end: the protocol, the number of the status, the message |
| HttpRoundTrip.FieldsAt | src/http/http_parser.c:259-263 | each field stands on its own line, in order, as name, colon, space, value |
| HttpRoundTrip.MessageEnds | src/http/http_parser.c:265-272 | behind the fields stand an empty line and the body, and nothing else |
| HttpRoundTrip.LineEndsAt | src/http/http_parser.c:107-108 | a line without CR ends at the first line end after its start |
| HttpRoundTrip.ReadBackIff | src/http/http_parser.c:123-141 | a field comes back unchanged exactly when its name has no colon and its value does not start with space |
| HttpRoundTrip.BlankLineAt | src/http/http_parser.c:98-100 | the first blank line after a block of lines is the one that ends it |
| HttpRoundTrip.BlockReads | src/http/http_parser.c:103-146 | for any lines, with or without a colon, the reader's loops find the header of each once, in order |
| HttpRoundTrip.ReadsFields | src/http/http_parser.c:98-157 | of any response with fields the reader recovers each field as one line reads back, and the body whole |
| HttpRoundTrip.ReadsNoFields | src/http/http_parser.c:98-157 | without fields the blank line is missed: only an empty body comes back |
| HttpRoundTrip.RoundTripIff | src/http/http_parser.c:242-279 | fields and body come back from the written message exactly when the response is readable (sections 2.1 and 5 of RFC 9112) |
| HttpRequests.MethodNames | src/http/http_parser.c:18-28 | exactly the seven names are methods; any other word is the unknown one |
| HttpRequests.MethodTexts | src/http/http_parser.c:5-28 | the text of every method reads back as that method |
| HttpRequests.VersionNames | src/http/http_parser.c:78-84 | exactly three words are versions; any other leaves the version as it was |
| HttpRequests.TargetSplits | src/http/http_parser.c:87-96 | the target is cut at the first question mark and nothing of it is lost |
| HttpRequests.LongTarget | src/http/http_parser.c:66-72 | a target longer than 2047 characters is cut there and its next 15 characters are taken for the version |
| HttpRequests.ReadsRequestLine | src/http/http_parser.c:53-96 | any request line within the limits yields its method, version and target, whatever follows it |
| HttpRequests.ReadsRequest | src/http/http_parser.c:53-160 | any request with header lines yields its method, version, target, the header of each line with a colon, and its body |
| HttpRequests.ReadIntoUsed | src/http/http_parser.c:74-157 | a used object takes on the message and keeps what the message lacks: version, query, headers, body; a rejected message leaves it untouched |

## Left out

- Stub modules that return constants, the web server's sockets and threads, and the HTTP status tables: no behaviour to prove.
- Service registry, retry delays and metrics, token validation, statistics getters and header lookup: easy list or arithmetic members.
- Placeholders: indexes, compaction, acknowledge, reject, delivery guarantees and retries.
- Memory: `malloc`, `free` and running out of memory; nodes are allocated and never freed, and null handles of cache, store, queue, limiter and breaker are not passed.
- Locks and condition variables: a locked region is atomic; wake-ups, joins and fairness are not modelled: `QueueProgress` says what can be done from every state, not that a scheduler does it (a re-queue does not signal waiters).
- The clock: `now` never goes backwards, so unsigned age subtraction cannot wrap; a put reads the clock once instead of up to twice inside its locked region.
- Counters are unbounded: 64-bit statistics and transaction ids, and 32-bit failure and request counts, do not wrap.
- CacheHeap.HeapCache.constructor: requires a capacity of at least one, because with zero the program divides by a bucket count of zero.
- Database.Database.Recover: requires complete payloads (`Wal.Complete`); the program goes on with memory it did not read, and `Wal.CutInsidePayload` shows which cuts that excludes.  Failed and short writes are left out.
- DatabaseModel.AnyNumberOfCrashes: crashes fall between two operations; what a crash inside the write of a header does to later writes is `Wal.CutLog`, `Wal.AppendedBehindTornMagic` and `Wal.TearIff`.
- Wal.AppendedBehindTornMagic: says that everything is lost only for headers torn inside the magic number; a header torn later is misread together with the next record, and `Wal.TearIff` says only that writes behind it are not safe.
- Opening, closing and destroying the store, queue and limiter as operations; opening appears as the recovered state in `DatabaseModel.AnyNumberOfCrashes`.
- Message ids and timestamps: a message carries its publication number instead.
- CircuitBreaker.CircuitBreaker.Admit: the callback itself is a parameter of the run, its result arriving as a later report.
- Http.HttpRequest.Parse: assumes a NUL right behind the buffer when none is inside it, and requires a length between the head and the end of the buffer (`Http.LengthFits`); outside of it the program's unsigned body length wraps or reads past the buffer.
- Text is a sequence of characters, one for each byte; the results hold for any characters, so in particular for those.
