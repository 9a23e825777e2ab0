# A Dafny model of the stateful components of clueless-task-manager

The project models five components of the C program and proves what their callers rely on.

* **The open-addressing hash map** (`src/core/hash_map.c`): a class over an array of slots, with the
  probe loops, the tombstones, the doubling at 3/4 load and the halving at 1/4 load. `SlotTable.dfy`
  holds the reasoning about the slot array as a value, `HashMap.dfy` the class, `HashMapRuns.dfy` whole
  runs of calls, `HashMapIter.dfy` the iterator and `HashInt.dfy` the integer hash.
* **The process list** (`src/core/list.c`, `src/metrics/process_manager.c`): the circular doubly linked
  list with its sentinel and shared counter, and the mark / scan / sweep refresh that runs over it.
  `ProcessList.dfy` and `ProcessManager.dfy` are the imperative code, `Reconcile.dfy` is the same refresh
  on values, with the theorems about it; `RefreshSpec.dfy` says what a refresh does in terms of the
  listing alone.
* **The ring buffer and the sampler** (`src/core/ring_buffer.c`, `src/metrics/sampler.c`): the ring as a
  value (`RingModel.dfy`) and as a block of bytes (`RingBuffer.dfy`), and the worker, control and reader
  threads as interleaved steps around one mutex (`Sampler.dfy`); `SamplerRuns.dfy` says what any run does
  in terms of the steps taken.
* **The playback protocol** (`src/sound.c`): the decoder, the 32-bit ring indices, the eventfd and the
  audio callback as interleaved steps, one byte at a time (`Playback.dfy`).
* **The CPU usage arithmetic** (`src/metrics/cpu.c`), with 64-bit wrap-around (`Cpu.dfy`), and its use over
  a window of the sampler (`CpuSampling.dfy`).

`Prelude.dfy` and `Remainders.dfy` hold the sets and the modular arithmetic that the others share.

## Where the code and its promises differ

* `hash_map_put` compares a second or later tombstone on its probe path with the key
  (`src/core/hash_map.c:147-152`), and `hash_map_resize` hashes tombstones (`src/core/hash_map.c:109`).
  The model keeps both. The key that the placeholder's bytes happen to read as during a call is the
  parameter `junk`, which is arbitrary; `NullCopy` stands for the copy through a null value pointer that
  follows when it equals the key. `Put` returns it exactly when the load limit is not reached, the key is
  `junk` and a second tombstone is met; `NullCopyHappens` reaches it, and a run in which no put uses its
  `junk` as key never does.
* `hash_map_remove` returns 1 for a removed key and 0 for an absent one, unlike its header comment.
* `process_list_refresh` truncates names to 32 bits. A name that truncates to 0 is never found, so each
  one read successfully would add a record (`PidZeroAddsTwice`). The theorems assume that no read of pid 0
  succeeds, which holds as there is no `/proc/0`, and is exactly what keeps the pids well formed
  (`DistinctExactly`).
* A `sampler_start` that overlaps the join in `sampler_stop` revives the old worker
  (`OverlapGivesTwoWorkers`). This is the only way to more than one thread: there is never more than one
  to join if and only if no start creates a worker while a stop waits in its join (`OverlapExact`), so a
  caller is safe who does not start before stop has returned.
* The end test of `refill_ringbuffer` compares raw 32-bit indices. The finish callback means that the
  whole file has been played, in every interleaving, exactly when the number of bytes is below 2^32 or
  leaves a remainder of at least the ring size less a frame (`FinishExact`); for any other file `EndsEarly`
  builds a run in which it comes too soon, with a decoder that returns all it is asked for until the file
  ends and an audio side that asks for any number of bytes. All theorems hold for that decoder and for one that may return less at any time (`shortReads`).
  Playback order and the absence of lost wake-ups need no such
  condition. The callback may come while the audio side still holds the last bucket, already copied out
  of the ring, and it may come again after that.
* A frame larger than the local buffer (more than 4096 channels) is never asked for
  (`FramesFitLocalBuffer`); the model of playback starts from frames that fit.
* `cpu_total_usage` is the busy share of the interval, rounded up, exactly when the product by 100000 does
  not overflow (`UsageCorrectIff`, `OverflowMisreports`).

## Model

| member | source | states |
|---|---|---|
| SlotTable.AbsentAtEmpty | src/core/hash_map.c:198-209 | a probe that ends on an empty slot has proved the key absent, because no slot between a live key's home and its slot is empty |
| SlotTable.ChainsAfterWrite | src/core/hash_map.c:115-116 | any write that leaves its slot occupied keeps every probe chain |
| SlotTable.Fill | src/core/hash_map.c:161-182 | a new key written to a slot that is not live, reached over occupied slots, adds exactly that entry and keeps chains, distinct keys and the count |
| SlotTable.Bury | src/core/hash_map.c:225-233 | a tombstone over a live entry removes exactly its key and keeps every probe chain |
| SlotTable.NotAllLive | src/core/hash_map.c:111-113 | pigeonhole: while live entries do not fill the table there is a slot that is not live |
| HashMaps.HashMap.constructor | src/core/hash_map.c:29-57 | a new map is empty, valid and of minimum capacity |
| HashMaps.HashMap.Resize | src/core/hash_map.c:87-124 | growing or shrinking keeps exactly the live entries and restores the probe chains, wherever tombstones hash to; at most one tombstone is left, and one is left exactly if the old table had one and no live entry copied later filled the slot its last one went to; every old slot is scanned once |
| HashMaps.HashMap.CopyEntries | src/core/hash_map.c:107-118 | the copy loop, with the same on the new table and the slots scanned |
| HashMaps.HashMap.CopyEntry | src/core/hash_map.c:107-118 | one turn of the copy loop: an entry, tombstones included, goes to the first slot from its home that is not live, and an empty slot changes nothing |
| HashMaps.HashMap.ProbeForCopy | src/core/hash_map.c:111-113 | the inner probe stops, at the first slot on its path that is not live, while there is one |
| HashMaps.CopySlot | src/core/hash_map.c:107-118 | copying one old slot, live or tombstone, to the first slot from its home that is not live keeps the new table equal to the copied prefix |
| HashMaps.GrowBounds | src/core/hash_map.c:137-141 | doubling at the load limit restores the load bounds and leaves room |
| HashMaps.RemoveBounds | src/core/hash_map.c:235-240 | when a removal shrinks the table, the count > 0 guard holds, the clamp to the minimum does nothing, and the load bounds hold again |
| HashMaps.HashMap.ProbeForPut | src/core/hash_map.c:143-164 | the probe loop stops within capacity slots at the key, or at the first slot of its path that is not live (which exists even when no slot is empty), or at a second tombstone that reads as the key, exactly when there is one |
| HashMaps.HashMap.StoreAt | src/core/hash_map.c:166-183 | the write updates or adds exactly one entry and keeps the map valid |
| HashMaps.HashMap.GrowIfLoaded | src/core/hash_map.c:137-141 | the table doubles exactly at three quarters of its load, keeps its contents, and then the probe of this put meets no second tombstone |
| HashMaps.HashMap.Put | src/core/hash_map.c:126-184 | put refines a map update; which slot it writes (tombstones are reused, no other live entry is touched); when it grows; and exactly when it copies through a null pointer |
| HashMaps.HashMap.Lookup | src/core/hash_map.c:196-209 | the probe loop of get and remove finds the key's slot if and only if the key is in the map, within capacity slots |
| HashMaps.HashMap.Get | src/core/hash_map.c:186-210 | get returns the value the map holds for the key, or nothing |
| HashMaps.HashMap.Remove | src/core/hash_map.c:212-253 | the result says whether the key was present; exactly that key goes; only its slot becomes a tombstone unless the table shrinks; when it shrinks |
| HashMaps.HashMap.ShrinkIfSparse | src/core/hash_map.c:235-241 | the shrink after a removal keeps the contents and halves the table exactly at a quarter of its load |
| HashMapRuns.PutCost | src/core/hash_map.c:137-141 | a put costs at most 8 scanned slots, growth included, once what is put aside is counted |
| HashMapRuns.RemoveCost | src/core/hash_map.c:233-241 | a removal costs at most 8 scanned slots, shrinking included |
| HashMapRuns.Step | src/core/hash_map.c:126-253 | one call on a map that agrees with the calls so far returns what they imply and still agrees |
| HashMapRuns.RunFrom | src/core/hash_map.c:126-253 | a whole run of calls: every answer is right and the resize work is at most 8 slots a mutation |
| HashMapRuns.Run | src/core/hash_map.c:126-253 | any run on a new map: get returns the last value put since the last removal, remove says whether there is one, all resizes together scan at most 8 slots a put or remove, capacity and count keep the load bounds, and no run ends early unless a put uses the key the placeholder reads as |
| HashMapRuns.CorrectAt | src/core/hash_map.c:126-253 | call by call: each answer depends only on the calls before it |
| HashMapRuns.NullCopyHappens | src/core/hash_map.c:146-152 | with integer keys and hash_int: two puts, two removals and a put of the key the placeholder reads as end in a copy through a null pointer |
| HashMapIters.HashMapIter.Next | src/core/hash_map.c:302-322 | next hands out the head of the remaining live entries and moves on, or reports the end and stays there |
| HashMapIters.FreshIteratorLists | src/core/hash_map.c:278-322 | what is left to a fresh iterator lists the entries of the map, each once |
| HashMapIters.DrainRest | src/core/hash_map.c:302-322 | calling next until -1 hands out everything that was left, in slot order |
| HashMapIters.Drain | src/core/hash_map.c:278-322 | draining a fresh iterator over an unmodified map yields every live entry exactly once, as many as the count, and every later call returns -1 |
| HashInts.HashIntValue | src/core/hash_map.c:260-267 | the hash of any int is the key times 2654435761, plus 2^64 for a negative key: the product never wraps |
| HashInts.CapacityIsPow2 | src/core/hash_map.c:11-11 | every capacity the map can have is a power of two, at least 16 |
| HashInts.OddFactor | src/core/hash_map.c:12-12 | an odd multiplier does not affect divisibility by a power of two |
| HashInts.SameHome | src/core/hash_map.c:260-267 | two keys share a home slot if and only if they are congruent modulo the capacity |
| HashInts.ConsecutiveKeysSpread | src/core/hash_map.c:260-267 | a table's worth of consecutive pids has pairwise distinct home slots |
| ProcessLists.ProcessList.constructor | src/core/list.c:5-11 | an initialised head is an empty ring with counter 0 |
| ProcessLists.ProcessList.Count | src/core/list.c:13-16 | the shared counter is the number of nodes |
| ProcessLists.ProcessList.AddNode | src/core/list.c:18-39 | the node becomes the first of a well-formed ring, and only it and its neighbours change |
| ProcessLists.ProcessList.DeleteNode | src/core/list.c:41-61 | exactly this node leaves the ring, its links are cleared, and only it and its neighbours change |
| ProcessManagers.MarkProcessesInactive | src/metrics/process_manager.c:12-27 | every record becomes inactive and nothing else changes |
| ProcessManagers.FindProcessByPid | src/metrics/process_manager.c:54-74 | the walk finds the first record with the pid, and nothing for pid 0 |
| ProcessManagers.UpdateExisting | src/metrics/process_manager.c:123-137 | a listed record is updated in place, active exactly if the read succeeded |
| ProcessManagers.TryAdd | src/metrics/process_manager.c:138-164 | a readable new process becomes a fresh active record at the front; otherwise the list is untouched |
| ProcessManagers.ScanEntry | src/metrics/process_manager.c:99-164 | one directory entry does to the list what the value model says, with the same callbacks and the same early returns |
| ProcessManagers.ScanDirectory | src/metrics/process_manager.c:98-166 | so does the whole directory, and records only join at the front |
| ProcessManagers.SweepOne | src/metrics/process_manager.c:40-49 | one turn of the safe loop unlinks exactly an inactive node and leaves the saved next node linked |
| ProcessManagers.RemoveInactiveProcesses | src/metrics/process_manager.c:29-52 | the sweep keeps exactly the active nodes, in order, in a well-formed ring, and reports the others as removed |
| ProcessManagers.ProcessListRefresh | src/metrics/process_manager.c:76-172 | the refresh keeps the ring well formed at every return, does what the value model says, callbacks included; a pid listed before and after keeps its record, and every record was in the list or is newly allocated |
| Reconcile.Find | src/metrics/process_manager.c:54-74 | the index returned is the first that holds the pid, and -1 means no record does |
| Reconcile.ScanOneKeeps | src/metrics/process_manager.c:99-164 | one entry keeps: pids distinct, active exactly if the last read succeeded, mirror in step, callbacks announced |
| Reconcile.ScanOneFatal | src/metrics/process_manager.c:109-153 | an entry causes an early return exactly if strtol rejects it, or an unknown process fails with anything but ENOENT |
| Reconcile.StopsAtFatal | src/metrics/process_manager.c:99-164 | the scan handles exactly the entries before the first one that causes an early return |
| Reconcile.SweepKeepsActive | src/metrics/process_manager.c:40-49 | the sweep keeps exactly the active records |
| Reconcile.SweepReplays | src/metrics/process_manager.c:40-49 | replaying the removed callbacks takes exactly the swept pids away |
| Reconcile.RefreshExact | src/metrics/process_manager.c:76-172 | after success the pids are exactly those whose last read succeeded, all active, each with the data of that read |
| Reconcile.RefreshReplays | src/metrics/process_manager.c:29-52 | at every return the pids are distinct and replaying the callbacks over the old pids gives exactly the new ones, none added while present or removed while absent |
| Reconcile.RefreshAnnounces | src/metrics/process_manager.c:122-164 | a pid is announced as added or updated exactly if it could be read, so every listed pid has been |
| Reconcile.RefreshResult | src/metrics/process_manager.c:91-172 | a refresh fails to open exactly if /proc cannot be opened, fails internally exactly if an entry is fatal, and an early return takes no pid away |
| RefreshSpecs.ScanOneExactly | src/metrics/process_manager.c:99-164 | one entry keeps: records and callbacks are exactly those the entries so far call for |
| RefreshSpecs.CallbackCounts | src/metrics/process_manager.c:29-164 | of each pid, over the entries before the first fatal one: one added or updated callback for each read that succeeds, added exactly once if the pid was not listed and is read, removed exactly once if it was listed or read and its last read failed, in a refresh that succeeds |
| RefreshSpecs.RefreshIs | src/metrics/process_manager.c:76-172 | the whole outcome from the listing alone, early returns included: which records, in which order, with which data and flags, and the callbacks in order |
| RefreshSpecs.SweepInOrder | src/metrics/process_manager.c:40-49 | the sweep keeps records in their order |
| RefreshSpecs.ListedByName | src/metrics/process_manager.c:106-121 | for names below 2^32, the pids after a success are exactly the names whose last read succeeded |
| Reconcile.HistoryDistinct | src/metrics/process_manager.c:76-172 | after any history of refreshes, aborted or not, pids are distinct |
| Reconcile.SelfStabilises | src/metrics/process_manager.c:95-171 | two lists with any histories hold the same pids and data once both succeed on the same listing |
| Reconcile.DistinctExactly | src/metrics/process_manager.c:61-63 | at every return, early or not, the pids are distinct and other than 0 if and only if no read of pid 0 succeeded among the entries handled |
| Reconcile.PidZeroAddsTwice | src/metrics/process_manager.c:61-63 | why no read of pid 0 may succeed: such names are added again and again |
| RingModel.PushRemembers | src/core/ring_buffer.c:59-70 | advancing and writing appends to the history the ring remembers |
| RingModel.RewriteRemembers | src/metrics/sampler.c:40-47 | writing the newest slot again replaces the end of the history |
| RingModel.PeekRemembers | src/core/ring_buffer.c:72-92 | peek(k) is the k-th most recent item exactly if k is below both the number of items and the capacity |
| RingModel.PeekDistinct | src/core/ring_buffer.c:89-91 | different offsets are different slots |
| RingBuffers.PeekedRangesDisjoint | src/core/ring_buffer.c:89-91 | different offsets name disjoint byte ranges inside the block |
| RingBuffers.RingBuffer.constructor | src/core/ring_buffer.c:29-49 | a new ring remembers nothing |
| RingBuffers.RingBuffer.Advance | src/core/ring_buffer.c:59-70 | advance hands out the byte offset of the next slot with its stale bytes and forgets only what was there |
| RingBuffers.RingBuffer.Store | src/core/ring_buffer.c:69-69 | the caller's write through that pointer sets the newest item and no other |
| RingBuffers.RingBuffer.Peek | src/core/ring_buffer.c:72-92 | the bytes at the offset returned are the item that many back, and nothing is returned exactly if it is gone |
| Samplers.WorkerKeepsMutex | src/metrics/sampler.c:29-57 | no worker step lets two threads stand inside the lock |
| Samplers.WorkerKeepsSamples | src/metrics/sampler.c:40-47 | a worker step keeps the ring in step with the history, and moves it only while no reader has pointers into it |
| Samplers.StepSafe | src/metrics/sampler.c:25-211 | every step of every thread keeps mutual exclusion and the history, however control calls overlap |
| Samplers.RunSafe | src/metrics/sampler.c:25-211 | so does every run |
| Samplers.GetValueSeesHistory | src/metrics/sampler.c:183-211 | the function is applied to the newest sample and the one exactly window captures earlier, and EAGAIN is returned exactly if window + 1 samples are not there |
| SamplerRuns.HistoryIsCaptures | src/metrics/sampler.c:33-47 | in every run the history is the items captured, every one in order, and one stale item more while a worker captures |
| SamplerRuns.AnswersFollow | src/metrics/sampler.c:183-211 | in every run, for every thread: a call answers for the window it was begun with, out of the captures made by then: EAGAIN exactly if they are fewer than window + 1 or the window is 100 or more, otherwise the newest and the one exactly window captures earlier |
| SamplerRuns.CallbacksFollow | src/metrics/sampler.c:33-55 | in every run a worker ends exactly if it saw the sampler stopped, and a callback is due, for the item captured, exactly after a capture that succeeded |
| SamplerRuns.CallbackReadsItsCapture | src/metrics/sampler.c:49-52 | with control calls one at a time, a callback that reads any window gets the capture it was called for as newest, if it gets a value |
| SamplerRuns.RunningFollows | src/metrics/sampler.c:117-169 | in every run is_running says whether the last start came after the last stop |
| SamplerRuns.ControlsFollow | src/metrics/sampler.c:117-169 | in every run a start or stop call is where its own steps have brought it, and a stop joins exactly if it stopped a started sampler |
| SamplerRuns.CallMoves | src/metrics/sampler.c:183-211 | any window but 0 may be asked for, and a call goes on unless it waits for the lock |
| SamplerRuns.WorkerMoves | src/metrics/sampler.c:33-55 | a live worker goes on unless it waits for the lock or its callback, whatever its capture yields |
| SamplerRuns.ControllerMoves | src/metrics/sampler.c:117-169 | start and stop can be called whenever the thread makes no call, and go on unless they wait for the lock or the worker |
| Samplers.StepSingle | src/metrics/sampler.c:25-169 | however calls overlap, every step keeps a single unjoined worker, unless it is a start that creates one while a stop waits in its join |
| Samplers.RevivalDoubles | src/metrics/sampler.c:117-163 | such a start leaves two threads that have not been joined |
| Samplers.StepSerial | src/metrics/sampler.c:25-169 | with control calls one at a time, every step keeps a single worker and a current callback |
| Samplers.OneWorker | src/metrics/sampler.c:117-169 | never more than one live worker; is_running means exactly one, the only thread not yet joined |
| Samplers.OverlapExact | src/metrics/sampler.c:117-169 | in any run, however calls overlap, there is never more than one thread to join if and only if no start creates a worker while a stop waits in its join |
| Samplers.OneWorkerDespiteOverlap | src/metrics/sampler.c:117-169 | and then there is never more than one live worker, and is_running means exactly one |
| Samplers.StopReturnsStopped | src/metrics/sampler.c:145-169 | when stop returns, is_running is 0 and no control call is under way |
| Samplers.StoppedIsQuiet | src/metrics/sampler.c:161-166 | then every worker has ended and been joined |
| Samplers.QuietUntilStart | src/metrics/sampler.c:145-169 | and no capture or callback occurs until the next start |
| Samplers.NothingAfterStop | src/metrics/sampler.c:145-169 | from the first state on: after a run that ends in the return of a stop, nothing is captured and no worker or callback takes a step until the next start |
| Samplers.StoppingWorkerEnds | src/metrics/sampler.c:33-55 | once is_running is 0 each step of a worker brings it nearer to its end |
| Samplers.CallbackSeesItsCapture | src/metrics/sampler.c:49-52 | a callback that reads takes a lock it does not hold and sees the capture it was called for as newest |
| Samplers.OverlapGivesTwoWorkers | src/metrics/sampler.c:154-163 | a start during the join of a stop leaves two live workers |
| Playback.WrappedSlot | src/sound.c:68-69 | a wrapped index names the right slot because 2^17 divides 2^32 |
| Playback.FramesExact | src/sound.c:110-117 | a refill asks for as many frames as fit both the ring and the local buffer of 8192 bytes, and no more |
| Playback.RefillsAreFull | src/sound.c:98-126 | in every run what a refill writes fits the local buffer, and another frame would not have fitted it or the ring, or the file has no more |
| Playback.FramesFitLocalBuffer | src/sound.c:112-119 | frames are asked for exactly if one fits the local buffer |
| Playback.StepFifo | src/sound.c:62-126 | every step of either side keeps the ring's bytes, indices and occupancy right |
| Playback.PlaybackExact | src/sound.c:62-126 | shipped, in hand and unread bytes are, in order, the bytes decoded into the ring, for streams of any length, and the ring is never over-full |
| Playback.DequeueExact | src/sound.c:62-66 | an audio callback takes as much as the ring holds or its own buffer has room for, whichever is less, and nothing exactly if that is nothing |
| Playback.WholeCallback | src/sound.c:48-82 | a whole audio callback, whatever refills come in between, ships exactly that many next bytes of the file |
| Playback.SignalsFollow | src/sound.c:71-162 | in every run the eventfd counts the signals since it was last read, and one read takes them all |
| Playback.EndTestExact | src/sound.c:133-136 | exactly for which sizes the end test on wrapped indices is right for every number of unread bytes up to a bound |
| Playback.RoomForAFrame | src/sound.c:112-119 | a refill asks for nothing exactly if less than a frame is free |
| Playback.StepInvariant | src/sound.c:62-162 | every step keeps: not finished means data in the ring, a signal pending or owed, or a refill under way |
| Playback.NoLostWakeUp | src/sound.c:64-162 | so it holds in every reachable state, for streams of any length |
| Playback.FinishMeansPlayed | src/sound.c:133-141 | for the files below, when the finish callback fires every byte has left the ring, shipped or in hand |
| Playback.RankPays | src/sound.c:48-162 | from any state, the steps of a run besides audio callbacks that take nothing are at most a rank fixed by the bytes and signals left |
| Playback.RunsAreShort | src/sound.c:48-162 | so every interleaving has at most 17 steps a byte and 6 more, besides audio callbacks that take nothing |
| Playback.AlwaysMoves | src/sound.c:48-162 | until playback has finished some step other than an audio callback that takes nothing is possible, with buckets of any given size |
| Playback.AtRestMeansFinished | src/sound.c:133-162 | a run that can only go on with audio callbacks that take nothing has fired the finish callback |
| Playback.CanFinish | src/sound.c:133-162 | from every reachable state that has not finished, some continuation with buckets of any one size fires the finish callback |
| Playback.FillUp | src/sound.c:55-162 | for any file, a schedule of refills that read all they can and audio callbacks, which ends with the ring a frame short of full |
| Playback.EndsEarly | src/sound.c:133-141 | for every other file, a run in which the finish callback comes before the ring is empty, though every read returns all that is asked for or all that is left |
| Playback.FinishExact | src/sound.c:133-141 | so the finish callback means "played" in every interleaving if and only if the file is below 2^32 bytes or its size modulo 2^32 is at least the ring size less a frame |
| Cpus.UsageOfDeltas | src/metrics/cpu.c:91-110 | wrapped counters give the true deltas between later snapshots |
| Cpus.BusyOrIdle | src/metrics/cpu.c:9-12 | the interval is the idle time and the deltas of the six busy counters |
| Cpus.UsageIsBusyShare | src/metrics/cpu.c:91-110 | usage is the busy share times 100000, rounded up, within 0 to 100000 |
| Cpus.UsageCorrectIff | src/metrics/cpu.c:108-109 | and it is that share exactly if the product does not overflow |
| Cpus.IdleMisreported | src/metrics/cpu.c:108-109 | an idle interval that overflows by less than its length is reported as fully busy |
| Cpus.OverflowMisreports | src/metrics/cpu.c:108-109 | there is such an interval |
| Cpus.NoInterval | src/metrics/cpu.c:96-106 | the call fails exactly if neither snapshot has counted anything modulo 2^64, and leaves the output parameter alone if both have counted the same |
| Cpus.UsageBetween | src/metrics/cpu.c:91-110 | usage over two adjoining intervals lies between the two usages, despite the rounding |
| Cpus.WindowUsage | src/metrics/cpu.c:91-110 | usage over any window lies within the bounds of the single-step usages |
| CpuSampling.SampledUsage | src/metrics/sampler.c:195-210 | so does the usage a thread reads through the sampler, in every interleaving |

## Left out

* The user interfaces, `src/core/io.c`, `src/core/log.c` and `src/core/linux/platform.c`: calls into libraries.
* `cpu_read`, `mem_read`, `process_read` and their text scanning: file input; a process read is an outcome given with the directory entry, a capture an arbitrary item.
* The memory accessors: `src/metrics/mem.c:71-73` resets what was parsed, so nothing deep holds of them.
* Process accessors, state names and error texts: settled by reading one branch.
* Allocation failure, null arguments, the freeing of memory and errno beyond ENOENT and EAGAIN. `hash_map_put` has a failure path that empties a tombstone (`src/core/hash_map.c:173-176`), which the model does not have.
* Copies of keys and values by size: keys and values are Dafny values and compare_func is equality, so an update through another representation of an equal key is not told apart.
* The long double load tests are exact for the capacities in question and written with integers; 64-bit overflow of a capacity is not modelled.
* LIST_ENTRY: the record and its embedded node are one object; that a head's record fields are never used is visible in the code but not a theorem.
* Callbacks that are not supplied: the events are the places where a supplied callback is called.
* Reconcile.RefreshExact: assumes that no read of pid 0 succeeds, because there is no `/proc/0`; see `DistinctExactly` and `PidZeroAddsTwice`.
* Sampler, controllers, readers and playback are state machines over values, not classes: interleaving needs every step to be separate. A failing `pthread_join`, a callback that calls stop and weak memory order are not modelled.
* Samplers.CallbackSeesItsCapture: the wait for the lock is bounded only if the scheduler is fair, which is not modelled.
* Playback setup and teardown, and the return of a failing `pw_stream_dequeue_buffer`, which changes nothing. The eventfd may be read by the loop thread at any time, which allows more interleavings than the program has.
* Playback.NoLostWakeUp: states that work is always pending, and `AtRestMeansFinished` that playback finishes when none is left; that the audio server calls again, and finds data when there is some, is up to the server.
* Ring buffers of capacity 0.
