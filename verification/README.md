# Verified models of the pseudo-core cache, the task pipelines and the transforms

This project models the stateful parts of the repository in Dafny and proves what they keep over
whole runs: the write-back page cache of `pseudo_core_tech` and the daemon core that drives it, the
GPU manager's worker pool and batch loop, the lock-free task ring of the microkernel, the Haar
transform, the load predictor, the hot-block scheduler and the block ring. `dafny verify dfyconfig.toml`
checks all of it.

| file | what it models |
|---|---|
| `Config`, `Options`, `Arith` | build constants, the option type, residues with a symbolic modulus |
| `Fnv`, `FnvValues` | the bucket hash: its loop, the bijection of a round, offsets one byte apart, known values |
| `PageFile`, `LruSpec` | the backing file as bytes, and the cache on values |
| `Coherence`, `Recency` | the cache against a store without a cache, and which pages are resident |
| `Cache`, `CacheRuns` | the cache on the heap with its chains and recency list, and a whole life of it |
| `SharedLinks`, `SharedRecency`, `SharedTeardown`, `SharedScan` | cache_get and cache_destroy with the single pair of links that the C structure has |
| `Daemon`, `CoreRun`, `DaemonStop` | the walk over a segment, the loop of one core over counter, cache, file and ring, and its end as written |
| `RingCache` | the block ring |
| `ThreadPool`, `PoolStop` | the worker pool, and which tasks are taken, after stop too |
| `Batching`, `Pipeline`, `Shutdown`, `LoopEnd` | the batch loop, the manager made of it and the pool, its shutdown, and when the loop can end |
| `TaskQueue`, `TaskRing`, `TaskRingLimits` | the task ring used by one thread, with one producer and many consumers, and how late a consumer may be |
| `Wavelet`, `WaveletLaws` | the multi-level transform and its inverse, loops and laws |
| `LoadPredictor`, `AutocorrLaws` | the autocorrelation predictor, and what it measures |
| `HotScheduler`, `HotOrder` | the hot tables with migration, and which blocks they hold |

## How to read it

**The page cache** has three forms. `LruSpec` says on values what one request does. `Cache` does it on
the heap, with nodes, a bucket array and dirty flags, and every method is proved to take the abstract
value where `LruSpec` takes it. `Coherence` and `Recency` prove the properties on values, and
`CacheRuns.Replay` joins all three: from creation to destruction the heap cache hands out the pages of
a store without a cache, and leaves its file. In `Cache` a node has a pair of links for the bucket
chain and another for the recency list, and the tail's predecessor is saved before the tail goes. So
`Cache`, `CacheRuns` and `CoreRun` are about the structure as intended. The code uses one pair of links
for both (`pseudo_core_tech/cache.h:28-35`) and reads freed nodes (`cache.c:131-133`, `cache.c:193-196`).
`SharedLinks` models cache_get with that pair and `SharedTeardown` cache_destroy; what they prove is listed
below.

**The pool, the batch loop and the task ring** are step systems. `Exec` runs any sequence of labels, so
a lemma about `Exec` holds in every interleaving; a stretch of code under one mutex is one step, and in
the task ring each shared access is one. Some state parts are history only (`pushed`, `finished`,
`late`, `log`, `claims`) and never decide a step.

**Where the code falls short** the code's behaviour is kept and the exact condition proved:

- With the single pair of links cache_get serves every run over a set of pages as a plain store does if
  and only if no two of them share a bucket (`SharedLinks.SharedLinksFaithfulIff`), and a segment of the
  daemon has too many pages for this. Until then the pair is exactly the recency list
  (`SharedRecency.LinksShowRecency`). A daemon core's own scan reads freed memory at its 8193rd access.
- cache_destroy walks each bucket through links that belong to the recency list by then. Reading two
  pages of different buckets and destroying the cache is enough for it to read a freed node
  (`SharedTeardown.TwoReadsDie`). From cache_init to cache_destroy all runs over a set of pages are
  right, pages handed out and final file, if and only if there is at most one page
  (`SharedTeardown.AlwaysRightIff`); and a single run over pages in buckets of their own is, if and only
  if it asks for one page only (`SharedTeardown.LifeRightIff`). A run
  over distinct pages is if and only if they share one bucket (`SharedScan.ScanLifeIff`), so core 0 of the
  daemon does not end well from its second iteration on (`DaemonStop.CoreStopsIff`).
- cache_evict on a list of one node leaves `lru_head` pointing to it: the list stays sound if and only
  if it had not exactly one (`Cache.Cache.Evict`).
- A write-back that does not write the whole page loses the rest of it, since the dirty flag is cleared
  anyway. An evicted page survives if and only if the file already held what was not written
  (`Coherence.EvictKeepsPageIff`); the final flush gives the plain store's file if and only if that holds
  of every dirty page and the file reaches its length (`Coherence.FlushReachesPlainIff`).
- What a core writes to the file directly is overwritten when the cache writes the same page back,
  so no compressed block survives the core's run (`CoreRun.Run`).
- `stop_` is set without the mutex: a worker can sleep through the broadcast if and only if at that
  moment one has found its wait predicate false and has not yet blocked (`ThreadPool.SleepsThroughStopIff`).
- After stop a worker takes at most one more task, and can take one if and only if it is past the loop test
  (`ThreadPool.OneTaskAfterStop`, `PoolStop.TakesMoreIff`).
- The inner batch loop ignores `batchingActive_`. Without submissions its batch can be dispatched if and
  only if batch and queue together fill it (`Batching.DispatchedIff`). While it waits, shutdown's waitAll
  can never return if and only if the loop has the only worker and a batch has been dispatched
  (`Shutdown.ShutdownHangsIff`). A batch can be processed while the loop runs if and only if there are two
  workers (`Shutdown.BatchFinishedIff`). The loop itself can end, without submissions, if and only if it is not
  filling a batch for which the commands are too few (`LoopEnd.LoopEndsIff`).
- A compare-and-swap on a raw ring index is safe if and only if at most 255 heads are advanced between
  a consumer's head read and its swap (`TaskRingLimits.HeadBehindTailIff`). The id is read after the swap.
  Ids are always those of the claimed positions if and only if there is at most one consumer
  (`TaskRingLimits.AlwaysRightIffLone`), or else if and only if swaps are that timely and no head is
  advanced between swap and read (`TaskRingLimits.AlwaysRightIff`).
- `decompress` overwrites averages it has not read. What it makes of any coefficients is
  `WaveletLaws.DecompressesToIff`; at lengths that are even and divisible by 2^(levels-1) it inverts
  `compress` exactly on the sequences whose every element i from the second on, up to half the length, is
  the mean of elements 2i and 2i+1 (`WaveletLaws.InPlaceRoundTripIff`). With inverse levels that read a
  copy exactly those lengths come back (`WaveletLaws.RoundTripIff`).

## Model

| member | source | states |
|---|---|---|
| Fnv.HashFunc | pseudo_core_tech/cache.c:21-31 | the hash loop computes the bucket index, which is below HASH_SIZE |
| Fnv.StepIsBijective | pseudo_core_tech/cache.c:26-29 | for every byte a round of FNV-1a is a bijection of the 64-bit states, with its inverse given |
| Fnv.FoldInjective | pseudo_core_tech/cache.c:26-29 | reading the same bytes keeps different hash states different |
| Fnv.OffsetsOneByteApart | pseudo_core_tech/cache.c:21-31 | two offsets that differ in exactly one byte have different 64-bit hashes |
| FnvValues.HashOfA | pseudo_core_tech/cache.c:22-29 | the hash of the one-byte string "a" is the published 64-bit FNV-1a value, from the published offset basis |
| FnvValues.IndexOf0 | pseudo_core_tech/cache.c:21-31 | the bucket of offset 0 is 419 |
| FnvValues.IndexOf4096 | pseudo_core_tech/cache.c:21-31 | the bucket of offset 4096 is 1488 |
| PageFile.PaddedReadIsPageAt | pseudo_core_tech/cache.c:126-146 | a short read filled up with zeros is the page as a reader of the file sees it |
| PageFile.PageAtAfterPwrite | pseudo_core_tech/cache.c:180-191 | writing a page changes that page and no other, also past the end of the file |
| PageFile.SamePagesSameFile | pseudo_core_tech/cache.c:201-226 | files of one length that show the same pages are equal byte by byte |
| Coherence.ServeCoherent | pseudo_core_tech/cache.c:72-166 | if an evicted page is written back in full, one request keeps the agreement of cache and file with a plain store, and hands out the plain store's page or fails without effect |
| Coherence.EvictAgrees | pseudo_core_tech/cache.c:168-199 | evicting with a full write-back keeps the agreement |
| Coherence.RunCoherent | pseudo_core_tech/cache.c:72-199 | in every run on aligned pages in which evicted pages are written back in full, whatever reads fail, every page handed out is the one a store without a cache would read |
| Coherence.FlushReachesPlain | pseudo_core_tech/cache.c:201-226 | writing the dirty pages back in full, in any order, leaves exactly the plain store's file |
| Coherence.FlushReachesPlainIff | pseudo_core_tech/cache.c:201-226 | with writes that fail or are short, the flush leaves the plain store's file if and only if the file already held what was not written of each dirty page, and it reaches the plain store's length |
| Coherence.EvictKeepsPageIff | pseudo_core_tech/cache.c:180-191 | eviction keeps the page on file if and only if the file already held every byte that pwrite did not write |
| Coherence.FailedWriteBackLosesPage | pseudo_core_tech/cache.c:180-191 | a run in which a failed write-back makes a later read return old contents |
| Recency.ResidentIsRecent | pseudo_core_tech/cache.c:78-166 | after any run the resident offsets are the first `capacity` distinct offsets of the served requests, latest first, in list order |
| Recency.ResidentIffRecent | pseudo_core_tech/cache.c:154-171 | a page is resident if and only if fewer than `capacity` other pages were used since its last use |
| Recency.StackProperty | pseudo_core_tech/cache.c:154-171 | if all reads succeed, the contents at one capacity are a prefix of the contents at any larger one |
| Recency.StackPropertyServed | pseudo_core_tech/cache.c:107-171 | so are they whatever reads fail, if the same requests are served |
| Recency.TouchTake | pseudo_core_tech/cache.c:81-91 | moving to the front commutes with truncating to the capacity |
| Cache.Cache.constructor | pseudo_core_tech/cache.c:57-70 | an empty, valid cache with counters at zero |
| Cache.Cache.Lookup | pseudo_core_tech/cache.c:73-107 | on a chain with links of its own, the walk finds the node of the offset if and only if it is in the cache |
| Cache.Cache.MoveToFront | pseudo_core_tech/cache.c:81-92 | on a list with links of its own, relinking keeps the whole invariant, and the list is the old one with this node moved to the front |
| Cache.Cache.GetCached | pseudo_core_tech/cache.c:76-106 | with separate links, a hit takes the abstract cache where the specification's hit takes it |
| Cache.Cache.Evict | pseudo_core_tech/cache.c:168-199 | with separate links and the predecessor saved: the tail leaves its chain, is written back if dirty, and leaves the list, and an empty list stays empty; the structure stays sound if and only if the list had not exactly one node |
| Cache.Cache.GetMissing | pseudo_core_tech/cache.c:107-166 | with separate links and no read of freed nodes, a miss, with failed read and eviction, takes the abstract cache where the specification's miss takes it |
| Cache.Cache.Get | pseudo_core_tech/cache.c:72-166 | with separate links: keeps the heap invariant (chains and list hold the same nodes, each in its bucket, links inverse, count exact and bounded) and refines the specification |
| Cache.Cache.Destroy | pseudo_core_tech/cache.c:201-235 | with separate links: every entry is flushed exactly once, in bucket order, and the cache is empty |
| Cache.FlushChain | pseudo_core_tech/cache.c:205-224 | along chain links of their own, one bucket's walk writes its dirty pages back in chain order and touches no other node |
| CacheRuns.FillPage | pseudo_core_tech/cache.h:28-35 | the caller's write to the page it holds is the specification's fill |
| CacheRuns.Replay | pseudo_core_tech/cache.c:57-235 | with separate links and full write-backs: creation, any requests with in-place writes, destruction give the results and the final file of a store without a cache |
| SharedLinks.SharedLinksFaithfulIff | pseudo_core_tech/cache.c:76-158 | with one pair of links every run over a set of pages is served correctly if and only if no two of them share a bucket |
| SharedLinks.StaleRunFails | pseudo_core_tech/cache.c:121-152 | four requests on two pages of one bucket that return stale data |
| SharedLinks.DirectFaithful | pseudo_core_tech/cache.c:76-158 | pages in buckets of their own are served as by the plain store |
| SharedLinks.ScanFaults | pseudo_core_tech/cache.c:193-196 | a run over distinct pages is served up to the capacity, and the next access reads a freed node |
| SharedLinks.FailedReadFaultsIff | pseudo_core_tech/cache.c:127-142 | a failed read is followed by a read of the node just freed if and only if the lookup did not find the page; a page found reads no file |
| SharedLinks.TooManyCollide | pseudo_core_tech/cache.c:21-31 | more pages than buckets: two share one |
| SharedRecency.MoveListed | pseudo_core_tech/cache.c:81-91 | on a proper list the move's assignments move any node to the front and leave a proper list, links inverse and ends true |
| SharedRecency.InsertListed | pseudo_core_tech/cache.c:118-153 | so does the insertion of a node whose bucket is empty |
| SharedRecency.LinksShowRecency | pseudo_core_tech/cache.c:72-158 | after every run over pages in buckets of their own the single pair of links leads from head to tail and back through the pages asked for, each once, in the order of last use |
| SharedTeardown.LinkedNodesFault | pseudo_core_tech/cache.c:205-224 | if the first node of one bucket has the first node of another as its `next`, the bucket walks read a freed node |
| SharedTeardown.TwoReadsDie | pseudo_core_tech/cache.c:107-224 | reading two pages of different buckets, then cache_destroy: wrong for every file and capacity |
| SharedTeardown.OnePageLives | pseudo_core_tech/cache.c:72-226 | every run on one page, to the end, gives the plain store's pages and file |
| SharedTeardown.LifeRightIff | pseudo_core_tech/cache.c:72-226 | a run over pages in buckets of their own, ended by cache_destroy, gives the plain store's pages and file if and only if it asks for one page only |
| SharedTeardown.AlwaysRightIff | pseudo_core_tech/cache.c:57-226 | with one pair of links all runs over a set of pages, ended by cache_destroy, give the plain store's pages and file if and only if there is at most one page |
| SharedScan.ScanLifeIff | pseudo_core_tech/cache.c:72-226 | a run over distinct pages within the capacity, ended by cache_destroy, gives the plain store's pages and file if and only if all the pages share one bucket |
| Daemon.NextOffset | pseudo_core_tech/pseudo_core_daemon.c:106-109 | the offset of the counter's block, and the counter one further modulo 2^64, other cores' counters unchanged |
| Daemon.SegmentsDisjoint | pseudo_core_tech/pseudo_core_daemon.c:108-109 | blocks of different cores never overlap and lie in their core's segment |
| Daemon.CoverageIff | pseudo_core_tech/pseudo_core_daemon.c:107-109 | every window of n iterations visits each of n blocks once, wraparound included, if and only if n divides 2^64 |
| Daemon.DaemonCovers | pseudo_core_tech/pseudo_core_daemon.c:162-166 | so do the daemon's 16384 blocks |
| Daemon.ScanOrder | pseudo_core_tech/pseudo_core_daemon.c:104-112 | after t steps of a cyclic scan the recency order is the last min(t, n) pages, latest first |
| Daemon.CyclicScan | pseudo_core_tech/pseudo_core_daemon.c:104-112 | if all reads succeed, a cyclic scan of n pages misses on every access if n exceeds the capacity, and otherwise on the first n only |
| Daemon.DaemonAlwaysMisses | pseudo_core_tech/pseudo_core_daemon.c:104-112 | if all reads succeed, every access of a daemon core from a fresh start misses |
| Daemon.DaemonNotFaithful | pseudo_core_tech/pseudo_core_daemon.c:162-166 | with shared links some run over a daemon segment is served wrongly |
| Daemon.DaemonScanFaults | pseudo_core_tech/pseudo_core_daemon.c:104-112 | with shared links a core's own scan reads a freed node at access 8193 and not before |
| DaemonStop.CoreStopsIff | pseudo_core_tech/pseudo_core_daemon.c:104-142 | with shared links a core's run of up to 8192 iterations, ended by cache_destroy, is right if and only if its blocks share one bucket; so for core 0 not from the second iteration on |
| CoreRun.ProcessBlock | pseudo_core_tech/pseudo_core_daemon.c:120-125 | the loop leaves every byte of the copied block xor the core's number: core 0 its bytes, core 1 every even byte one more and every odd byte one less |
| CoreRun.ProcessedTwice | pseudo_core_tech/pseudo_core_daemon.c:122-125 | processing a block twice gives the page back |
| CoreRun.TurnCoherent | pseudo_core_tech/pseudo_core_daemon.c:112-132 | with evicted pages written back in full, one iteration gets the plain file's page, and its direct write of up to a block keeps cache and file in agreement with the file that was never written |
| CoreRun.RewrittenKeepsPages | pseudo_core_tech/pseudo_core_daemon.c:112-132 | a file whose pages are read and rewritten unchanged shows the same pages |
| CoreRun.Run | pseudo_core_tech/pseudo_core_daemon.c:98-144 | with separate links and full write-backs, a core's whole loop: counter advanced by the iterations, every block handed to the ring is the visited page processed byte by byte, no page of the file has changed and nothing of the direct writes is left, and from counter 0 all accesses miss if all reads succeed |
| RingCache.Ring.Init | pseudo_core_tech/ring_cache.c:10-18 | a fresh zeroed ring at position 0 |
| RingCache.Ring.CacheToRing | pseudo_core_tech/ring_cache.c:20-34 | keeps: position is (k mod N) blocks, and the last min(k, N) blocks are whole, each in the slot of its turn; a missing block or buffer is ignored |
| RingCache.NeverFull | pseudo_core_tech/ring_cache.c:27-33 | the overflow branch is never taken, and the position wraps to the next slot |
| RingCache.SlotsDistinct | pseudo_core_tech/ring_cache.c:27-30 | among the last N writes no two share a slot |
| ThreadPool.NoLostWakeup | Video/GPUOptimizer/src/thread_pool.cpp:17-50 | in every interleaving before stop, spurious wakeups included, while a worker sleeps the queued tasks are at most the pending notifications plus the workers on their way to the queue |
| ThreadPool.AllAsleepNotified | Video/GPUOptimizer/src/thread_pool.cpp:17-50 | if all workers sleep before stop, every queued task has a notification still to come |
| ThreadPool.TasksPartitioned | Video/GPUOptimizer/src/thread_pool.cpp:17-50 | in every run each task is in exactly one of queued, held by one worker, finished; the queue's front is the next in order |
| ThreadPool.OneTaskAfterStop | Video/GPUOptimizer/src/thread_pool.cpp:36-50 | after stop no worker takes more than one further task |
| PoolStop.TakesFrontIff | Video/GPUOptimizer/src/thread_pool.cpp:36-47 | with the mutex free and a task queued, a worker comes by its own steps to hold the front task if and only if it is at the wait, or before stop at the loop test; so after stop a queued task is still taken |
| PoolStop.AcquireOutcome | Video/GPUOptimizer/src/thread_pool.cpp:41-46 | a worker with the mutex leaves if and only if stop is set and nothing is queued, and dozes if and only if neither holds |
| PoolStop.TakesMoreIff | Video/GPUOptimizer/src/thread_pool.cpp:36-50 | once stop is set a worker can take a further task, in some continuation, if and only if it is past the loop test |
| PoolStop.OneTaken | Video/GPUOptimizer/src/thread_pool.cpp:36-50 | for every worker of every pool a run in which it takes its one task after stop |
| PoolStop.PendingCounts | Video/GPUOptimizer/src/thread_pool.cpp:9-23 | in every run the notifications still to come are the pushes less the notifications made; stop is set once and broadcast once |
| ThreadPool.WaitAllMeans | Video/GPUOptimizer/src/thread_pool.cpp:29-34 | when waitAll returns, a task is finished if and only if no worker is running it |
| ThreadPool.WaitAllReturnsIff | Video/GPUOptimizer/src/thread_pool.cpp:29-34 | in every reachable state waitAll returns if and only if no worker is about to block and every task is finished or held |
| ThreadPool.WaitAllMissesRunning | Video/GPUOptimizer/src/thread_pool.cpp:29-34 | waitAll can return while a task runs |
| ThreadPool.SleepsThroughStopIff | Video/GPUOptimizer/src/thread_pool.cpp:9-15 | after the destructor's broadcast some continuation has a sleeping worker if and only if at the broadcast some worker had found the wait predicate false and had not yet blocked |
| ThreadPool.WorkerSleepsForEver | Video/GPUOptimizer/src/thread_pool.cpp:9-50 | a run in which this happens to the only worker |
| ThreadPool.RunInv | Video/GPUOptimizer/src/thread_pool.cpp:3-50 | every step keeps the four parts of the pool's invariant |
| Batching.CommandQueue.Push | Video/GPUOptimizer/src/command_queue.cpp:3-7 | appends one command |
| Batching.CommandQueue.TryPop | Video/GPUOptimizer/src/command_queue.cpp:9-15 | takes the oldest command, or reports that there is none |
| Batching.SubmitCommand | Video/GPUOptimizer/src/gpu_manager.cpp:64-66 | submission on the queue object is the submit step of the batch loop's step system |
| Batching.Collect | Video/GPUOptimizer/src/gpu_manager.cpp:73-80 | one turn of the inner loop on the queue object, with a command, an empty queue or a full batch, is its inner step |
| Batching.BatchesConserve | Video/GPUOptimizer/src/gpu_manager.cpp:64-89 | in every interleaving the dispatched batches, the partial batch and the queue are the submitted commands in order, and every dispatched batch is full |
| Batching.BatchContents | Video/GPUOptimizer/src/gpu_manager.cpp:68-89 | the j-th batch is the j-th run of `size` commands |
| Batching.DrainedRemainder | Video/GPUOptimizer/src/gpu_manager.cpp:72-80 | with the queue drained the partial batch has (submitted mod size) commands |
| Batching.PartialBatchStuck | Video/GPUOptimizer/src/gpu_manager.cpp:73-80 | without submissions a partial batch is never dispatched, whether batching is active or not |
| Batching.DispatchedIff | Video/GPUOptimizer/src/gpu_manager.cpp:72-87 | without submissions the batch being filled can be dispatched if and only if it and the queue together hold a full batch |
| Batching.OneMoreBatch | Video/GPUOptimizer/src/gpu_manager.cpp:68-89 | once batching is stopped no continuation, submissions included, dispatches more than the batch being assembled |
| Batching.StoppedDispatchesIff | Video/GPUOptimizer/src/gpu_manager.cpp:68-89 | and some continuation dispatches one if and only if one is being assembled |
| Pipeline.RunInv | Video/GPUOptimizer/src/gpu_manager.cpp:25-89 | every run of the manager keeps the pool's invariant, the batch loop's, and the link between tasks and batches |
| Pipeline.SubmitAlways | Video/GPUOptimizer/src/gpu_manager.cpp:64-66 | a command can be submitted at any time, whatever pool and loop are doing, and joins the end of the command queue |
| Pipeline.PoolStepIff | Video/GPUOptimizer/src/gpu_manager.cpp:25-89 | the manager's pool takes exactly the steps it would take alone, but for the pushes, which are the manager's, and the end of the loop's task, which needs the loop to have ended |
| Pipeline.CommandPlaced | Video/GPUOptimizer/src/gpu_manager.cpp:64-89 | in every run every submitted command is in exactly one place: the command queue, the partial batch, or its batch, whose task is queued, held by one worker or finished |
| Pipeline.OneWorkerProcessesNothing | Video/GPUOptimizer/src/gpu_manager.cpp:32-36 | with at most one worker nothing finishes while the batch loop runs, every dispatched batch stays queued, and then waitAll cannot return |
| Shutdown.ShutdownHangsIff | Video/GPUOptimizer/src/gpu_manager.cpp:41-54 | in every reachable state before stop whose partial batch waits on an empty command queue: without submissions shutdown's waitAll never returns, in any continuation, if and only if there is one worker and a batch has been dispatched |
| Shutdown.QueueEmptied | Video/GPUOptimizer/src/thread_pool.cpp:36-50 | with a second worker the pool's queue can be emptied while the batch loop runs, by the workers' own steps and notified wakeups only |
| Shutdown.BatchFinishedIff | Video/GPUOptimizer/src/gpu_manager.cpp:32-36 | for any batch size some run finishes a batch while the batch loop runs if and only if there are two workers or more |
| Shutdown.HangReached | Video/GPUOptimizer/src/gpu_manager.cpp:25-89 | for any batch size a run on one worker that reaches such a state |
| LoopEnd.LoopEndsIff | Video/GPUOptimizer/src/gpu_manager.cpp:41-89 | in every reachable state with the loop on a worker, the loop's task can finish without further submissions if and only if the loop is not filling a batch for which batch and queue hold too few commands |
| TaskQueue.Queue.Init | CPU/microkernel/task_scheduler.c:28-42 | an empty queue with all slots reset |
| TaskQueue.Queue.Enqueue | CPU/microkernel/task_scheduler.c:45-65 | appends unless 255 tasks are queued, and then changes nothing and returns -1 |
| TaskQueue.Queue.Dequeue | CPU/microkernel/task_scheduler.c:68-85 | takes the oldest task and frees its slot, or returns -1 |
| TaskQueue.Queue.TryDequeue | CPU/microkernel/task_scheduler.c:88-115 | with no other thread around the swap succeeds and the call is a dequeue |
| TaskQueue.Queue.QueuedTasks | CPU/microkernel/task_scheduler.c:118-125 | the modular difference is the number of queued tasks |
| TaskQueue.Pushed | CPU/microkernel/task_scheduler.c:45-65 | the full test holds exactly at 255 tasks; writing at the tail appends to the stretch from head to tail |
| TaskQueue.Popped | CPU/microkernel/task_scheduler.c:68-85 | advancing the head drops the first of the stretch, wrapped or not |
| TaskRing.RunSafe | CPU/microkernel/task_scheduler.c:45-115 | with fewer than 256 head advances between head read and swap: head never passes tail, each position is claimed by one consumer, and the id returned is the one enqueued there unless the slot was reused first |
| TaskRing.RightIffNotReused | CPU/microkernel/task_scheduler.c:45-115 | if no id is enqueued twice, in every such run the id returned is the one enqueued at the claimed position if and only if the slot was not reused before the read |
| TaskRing.SwapClaimsNext | CPU/microkernel/task_scheduler.c:88-100 | a timely successful swap claims the next position in enqueue order, and its slot still holds what was enqueued |
| TaskRing.FindsTaskIff | CPU/microkernel/task_scheduler.c:90-96 | by a head that is still the head a thread finds a task if and only if one is queued; by any head, if and only if the tail is no multiple of 256 positions from it |
| TaskRing.SwapSucceedsIff | CPU/microkernel/task_scheduler.c:97-99 | a swap succeeds if and only if a multiple of 256 heads were advanced since the head read, so a timely one if and only if none was; a failed one changes no shared state |
| TaskRing.FindsRoomIff | CPU/microkernel/task_scheduler.c:48-55 | the producer finds room if and only if fewer than 255 tasks are queued |
| TaskRingLimits.HeadBehindTailIff | CPU/microkernel/task_scheduler.c:88-100 | head stays behind tail in all runs if and only if the bound on advances between head read and swap is at most 256 |
| TaskRingLimits.LateSwap | CPU/microkernel/task_scheduler.c:96-100 | a run with one more advance in which a stale swap succeeds on an empty ring, and an id is returned where none was enqueued |
| TaskRingLimits.ReusedSlotMisread | CPU/microkernel/task_scheduler.c:98-100 | for two or more consumers, a run with one advance between swap and read in which a consumer returns the id of a task 256 positions after the one it claimed |
| TaskRingLimits.AlwaysRightIffLone | CPU/microkernel/task_scheduler.c:88-100 | every id returned is the one enqueued at the claimed position, in all runs and for any bound on swaps, if and only if there is at most one consumer |
| TaskRingLimits.AlwaysRightIff | CPU/microkernel/task_scheduler.c:88-100 | for any number of consumers, it is in all runs within the two limits on advances if and only if the limit before the swap is at most 256 and that between swap and read is 0 |
| Wavelet.CompressLevel | Video/GPUOptimizer/src/wavelet_compressor.cpp:13-19 | one level writes averages, then details, and leaves the rest of the output |
| Wavelet.Compress | Video/GPUOptimizer/src/wavelet_compressor.cpp:9-23 | the loops compute the recursive transform, and what is behind the input's pairs in the output untouched, all of it without a level |
| Wavelet.DecompressLevel | Video/GPUOptimizer/src/wavelet_compressor.cpp:29-35 | one inverse level in place, each step reading what earlier steps wrote |
| Wavelet.Decompress | Video/GPUOptimizer/src/wavelet_compressor.cpp:25-38 | the loops compute the in-place inverse from the coarsest level up |
| Wavelet.CoarsestIs | Video/GPUOptimizer/src/wavelet_compressor.cpp:26 | the coarsest size is the largest that 2^(levels-1) times fits, for any length |
| WaveletLaws.BackwardForward | Video/GPUOptimizer/src/wavelet_compressor.cpp:9-38 | inverse levels that read a copy undo the forward levels, whatever stands behind |
| WaveletLaws.RoundTrip | Video/GPUOptimizer/src/wavelet_compressor.cpp:9-38 | decompressing a compressed sequence of a suitable length gives it back exactly, with inverse levels that read a copy |
| WaveletLaws.RoundTripIff | Video/GPUOptimizer/src/wavelet_compressor.cpp:9-38 | all sequences of a length come back if and only if it is even and divisible by 2^(levels-1) |
| WaveletLaws.SomeSignalLost | Video/GPUOptimizer/src/wavelet_compressor.cpp:9-38 | for every other length a sequence that does not come back |
| WaveletLaws.OverwriteReads | Video/GPUOptimizer/src/wavelet_compressor.cpp:30-35 | an in-place level reads every detail unchanged but, from the second step on, takes an element of its own result for the average |
| WaveletLaws.DecompressesToIff | Video/GPUOptimizer/src/wavelet_compressor.cpp:25-38 | for any coefficients of any length, decompress as written gives x if and only if x keeps what is behind the finest level, starts with the front value plus and minus a detail, and has each later pair made of its own element at half the index |
| WaveletLaws.InPlaceRoundTripIff | Video/GPUOptimizer/src/wavelet_compressor.cpp:25-38 | at lengths that are even and divisible by 2^(levels-1), decompress as written returns the original if and only if each element i from the second up to half the length is the mean of elements 2i and 2i+1 |
| WaveletLaws.InPlaceLosesFour | Video/GPUOptimizer/src/wavelet_compressor.cpp:25-38 | a sequence of four elements that does not come back |
| WaveletLaws.EnergyKept | Video/GPUOptimizer/src/wavelet_compressor.cpp:10-22 | the sum of squares is the sum over the levels l of 2^l times the squared details of level l, plus 2^levels times the squared averages, with the powers written out |
| WaveletLaws.SumKept | Video/GPUOptimizer/src/wavelet_compressor.cpp:10-22 | 2^levels times the sum of the final averages is the sum of the input, with the power written out |
| LoadPredictor.Predictor.AddSample | CPU/profiler/load_predictor.c:24-27 | overwrites the slot of the counter and nothing else, and advances the counter modulo 2^64 |
| LoadPredictor.Predictor.Autocorrelation | CPU/profiler/load_predictor.c:30-43 | the loops compute the autocorrelation of the deviations from the mean, which `AutocorrLaws` says over the samples |
| LoadPredictor.Predictor.Predict | CPU/profiler/load_predictor.c:46-52 | the last sample times the correlation at lag one, never larger than the last sample in absolute value |
| LoadPredictor.LaggedBelowEnergy | CPU/profiler/load_predictor.c:36-41 | the lagged sum never exceeds the energy, and stays strictly below it at a positive lag |
| LoadPredictor.AutocorrBounded | CPU/profiler/load_predictor.c:30-43 | the value lies in [-1, 1], strictly inside at every positive lag; at lag 0 it is 1 unless the history is constant, and then 0 |
| AutocorrLaws.AutocorrFromMoves | CPU/profiler/load_predictor.c:30-43 | for samples that vary, twice their spread times what the value falls short of 1 is the sum of the squared moves over the lag plus the squared deviations of the first and the last `lag` samples |
| AutocorrLaws.LagsSumToMinusHalf | CPU/profiler/load_predictor.c:30-43 | for samples that vary, the values at lags 1 to n-1 add up to -1/2 |
| AutocorrLaws.AutocorrZero | CPU/profiler/load_predictor.c:31-42 | at a lag not below the history size, and at any lag over samples that are all the same, the value is 0 |
| LoadPredictor.LastIsNewest | CPU/profiler/load_predictor.c:24-49 | the slot read as the last sample is the one written last, also when the counter has just wrapped |
| HotScheduler.Scheduler.ReportAccess | pseudo_core_tech/scheduler.c:16-34 | the search loop and insertion change the core's own table as specified, and no other; `HotOrder.ReportEnters` says how |
| HotScheduler.Scheduler.ShouldMigrateNow | pseudo_core_tech/scheduler.c:36-52 | the summing loop decides the migration condition |
| HotScheduler.Scheduler.GetMigratedTask | pseudo_core_tech/scheduler.c:54-67 | the last unit of the first other core with one leaves that table, or nothing changes |
| HotScheduler.ShouldMigrateIff | pseudo_core_tech/scheduler.c:36-52 | the condition without its division: the other cores hold at least three times the own count plus 18 units |
| HotScheduler.MigrationFinds | pseudo_core_tech/scheduler.c:54-67 | a core that should migrate finds a unit on another core |
| HotScheduler.MigrationCount | pseudo_core_tech/scheduler.c:36-67 | repeating test and removal stops after exactly max(0, T - (3q + 17)) removals and never changes the own table |
| HotScheduler.TablesBounded | pseudo_core_tech/scheduler.c:16-34 | in every run a table has at most 64 units and no block twice |
| HotOrder.ReportEnters | pseudo_core_tech/scheduler.c:19-32 | a reported block is in the table afterwards unless it is new and the table holds 64 units; its unit has one report more, or is new, last and has one; all other units stay as and where they are |
| HotOrder.ListsFirstReports | pseudo_core_tech/scheduler.c:16-34 | in every run without migration from a core its table lists the first 64 blocks reported on it, in order of first report |
| HotScheduler.HotIsCount | pseudo_core_tech/scheduler.c:16-67 | in every run a unit's `hot` is the number of reports of its block on its core since the report that inserted it, across migrations and re-insertions |

## Left out

- WaveletLaws.InPlaceRoundTripIff: other lengths, where the result also depends on what the output vector held before compress; there `WaveletLaws.DecompressesToIff` says what the coefficients give.
- Daemon.CyclicScan: failed reads; which pages are resident then is `Recency.ResidentIsRecent` with `Recency.ResidentIffRecent`, over the requests that were served.
- SharedLinks.ScanFaults: after a read of a freed node nothing is said about the run, since C gives it no meaning.
- CoreRun.Run: the cache with separate links, one core and its own ring. The daemon's two cores share the file, where their segments are disjoint (`Daemon.SegmentsDisjoint`), and the static ring buffer, which the second core's start replaces. The compressed block is a parameter of at most one block, which is what the code's buffer holds; a direct write that fails or is short is a shorter parameter.
- CacheRuns.Replay: the structure with separate links, requests on aligned pages, evicted and flushed pages written in full. What the single pair of links does is `SharedLinks` and `SharedTeardown`, what other write-backs do `Coherence.EvictKeepsPageIff` and `Coherence.FlushReachesPlainIff`.
- Cache.Cache.Get: the structure with separate links; the page is one field of the node that the caller assigns as a whole, not an array of bytes; the counters of hits and misses are kept per cache, not for the process.
- Wavelet.Decompress: `1 << (levels - 1)` for more than 31 levels.
- TaskRing.RunSafe: memory is sequentially consistent, there is one producer, and a slot is its id; priority and status are in `TaskQueue` only. Task names are left out.
- TaskQueue.Queue.Enqueue: priority has no effect on the order in the code either.
- Shutdown.ShutdownHangsIff: the reset of the queue and of the pool that follow waitAll, so what a late batch loop would find there.
- HotScheduler.HotIsCount: `hot` is unbounded and `last_seen` is left out; each call is one step.
- HotScheduler.Scheduler.GetMigratedTask: the result 0 means both block 0 and no unit, as in the code.
- LoadPredictor.Predictor.Predict: a history of size 0, for which the code divides by zero.
- Floats are reals: nothing is said about rounding or overflow of floating point.
- The hash reads the bytes of an offset in little-endian order, as on the usual hosts.
- MAX_CACHE_ENTRIES is 8192 (`pseudo_core_tech/config.h:8`); the default of 1024 in `cache.h` is not in force.
- Mutexes of the cache and the scheduler, allocation failure, timestamps, log and statistics output.
- Signals, fork, delays and the PID file of the daemon.
- Liveness of the pool beyond the wakeup bound: that a notified worker is ever scheduled.
- The statistics, optimizer and configuration classes of the GPU manager, which compute nothing from the commands.
- zstd compression, plugins, audio, I/O and power settings, adapters, user interface and hardware access.
