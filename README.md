# Buffer replacement policies in Dafny

This project models the policy engine of the BufferReplacement simulator. A
policy replays a sequence of page requests against a buffer of at most
`bufferSize` frames. It counts the misses (the simulated disk I/O) and logs one
step after every request. Five strategies decide which resident page a miss
evicts:

- FIFO evicts the oldest load.
- LRU evicts the least recently used page.
- MRU evicts the most recently used page.
- GCLOCK sweeps a clock hand backwards over the frames, decrementing reference
  counters until it finds a 0.
- CLOCK is GCLOCK with the reference value kept to a bit.

The model has two layers:

- **Values** (modules `Seqs`, `Rules`, `Simulation`). A policy's state is
  `State(buffer, refs, io, cursor)`. The buffer is a sequence with its head at
  index 0, as in the source's deque. `refs` maps pages to reference values, and
  `Ref` reads 0 for a page it does not mention. `Step` performs one request under
  a strategy, `Run` replays the first `k` requests, and `Trace` is the log of that
  replay.
- **Objects** (modules `Structure` and `PolicyEngine`). `Page` is a class with a
  mutable reference value. `Policy` is a class with the source's fields: the
  buffer, the I/O counter, the step log and the clock hand. Its methods work the
  way the source's methods do, and each is proved to perform the value-level
  step on the ghost `Model()` of the object. So `Execute` is proved to perform
  `Run` and to log `Trace`.

The Java subclasses (FIFO, LRU, MRU, GCLOCK, CLOCK) become one class with a
`strategy` field. GCLOCK's `pageRequest` is shared by CLOCK and differs only in
`IncrementReference`, so CLOCK and GCLOCK share `ClockRequest` and the value-level
`ClockStep`, with a `clamped` flag for CLOCK's increment (`Bump`).

The properties proved about the values are in these modules:

- `Properties`: the log's entries are the states after each request, the miss
  counts are monotone and bounded, the buffer length follows the miss count, the
  buffer never holds a page twice, and CLOCK's values stay bits.
- `Orders`: LRU holds the most recently used distinct pages in order of last use,
  FIFO holds the newest loads, and MRU evicts the page requested just before the
  miss.
- `Rules`: the clock sweep terminates, bounds its own length, finds a victim with
  value 0, and gives CLOCK its second chance.
- `Examples`: small replays worked out by hand.

Two details follow the code rather than what one might expect of a clock:

- GCLOCK's load into a spare frame puts the page at the head of the deque
  (`addFirst` at `src/policy/GCLOCK.java:47`), so the hand, which starts at the
  last frame, first reaches the oldest load.
- The constructors (`src/policy/Policy.java:24-31`, `src/policy/GCLOCK.java:25-29`)
  do not check `bufferSize`. The model requires `bufferSize >= 1` (see Left out).

The log snapshot is defined twice, on purpose. `PolicyEngine.Pairs` reads the
`Page` objects in the buffer, as `buffer.toString()` does. `Simulation.Snapshot`
computes the same pairs from a state value, so that `Trace` can be stated without
the heap. `Policy.Log` proves that the two agree at every step.

## Model

| member | source | states |
|---|---|---|
| Structure.Page.constructor | src/structure/Page.java:14-18 | a new page has the given identifier and reference value 0 |
| Structure.Page.IncrementReference | src/structure/Page.java:35-39 | the value grows by one and the new value is returned |
| Structure.Page.DecrementReference | src/structure/Page.java:46-53 | a positive value drops by one, 0 stays 0, and the new value is returned |
| Structure.Page.ResetReference | src/structure/Page.java:58-61 | the value becomes 0 |
| PolicyEngine.CreateSequence | src/policy/Policy.java:78-93 | one element per identifier, with that identifier; two requests share a page exactly when their identifiers are equal; every page is new with value 0 |
| PolicyEngine.Pairs | src/policy/Policy.java:53 | the printed buffer: each resident page paired with its reference value, in buffer order |
| PolicyEngine.Policy.constructor | src/policy/Policy.java:24-31 | empty buffer, no misses, empty log, hand on the last frame, and the invariant holds |
| PolicyEngine.Policy.Execute | src/policy/Policy.java:33-57 | after resetting every value to 0, the final state is `Run` of the whole sequence from the reset state, and the log gains exactly `Trace` of it |
| PolicyEngine.Policy.Replay | src/policy/Policy.java:42-56 | the loop performs `Run` of the whole sequence and appends its `Trace` |
| PolicyEngine.Policy.Request | src/policy/Policy.java:45-55 | one loop turn performs `Step` and appends the `Record` of the new state |
| PolicyEngine.Policy.Log | src/policy/Policy.java:48-55 | the appended entry is the step number, the page with its value, the buffer snapshot and the miss count |
| PolicyEngine.Policy.ResetReferences | src/policy/Policy.java:36-39 | every page of the sequence has value 0 afterwards |
| PolicyEngine.Policy.PageRequest | src/policy/Policy.java:59-69 | a request under the policy's strategy performs `Step` on the model and keeps the invariant |
| PolicyEngine.Policy.FifoRequest | src/policy/FIFO.java:24-47 | the buffer becomes `FifoBuffer` of the old one, io grows by the miss, and the hand and log are untouched |
| PolicyEngine.Policy.LruRequest | src/policy/LRU.java:24-49 | the buffer becomes `LruBuffer` of the old one, io grows by the miss, and the hand and log are untouched |
| PolicyEngine.Policy.MruRequest | src/policy/MRU.java:25-50 | the buffer becomes `MruBuffer` of the old one, io grows by the miss, and the hand and log are untouched |
| PolicyEngine.Policy.ClockRequest | src/policy/GCLOCK.java:32-71 | the request performs `ClockStep` on the model (CLOCK's increment when the strategy is CLOCK) |
| PolicyEngine.Policy.Evict | src/policy/GCLOCK.java:52-70 | the sweep's victim frame now holds the new page, the values are those the sweep leaves, and the hand is one tick past the victim |
| PolicyEngine.Policy.FindVictim | src/policy/GCLOCK.java:54-70 | the loop stops with the hand on `Sweep`'s victim, having decremented exactly as `SweepRefs` says |
| PolicyEngine.Policy.ToArray | src/policy/GCLOCK.java:52 | a fresh array holding the buffer's pages in order |
| PolicyEngine.Policy.IncrementReference | src/policy/GCLOCK.java:94-97 | the page's value becomes `Bump` of its old value (CLOCK: only 0 is raised, and 1 is returned); no other page changes |
| PolicyEngine.Policy.DecrementReference | src/policy/GCLOCK.java:105-108 | the page's value drops by one, floored at 0; no other page changes |
| PolicyEngine.Policy.Tick | src/policy/GCLOCK.java:78-86 | the hand moves one frame back, wrapping from 0 to `bufferSize - 1` |
| PolicyEngine.Policy.GetIO | src/policy/Policy.java:101-104 | returns the miss count |
| PolicyEngine.Policy.GetSteps | src/policy/Policy.java:112-115 | returns the log |
| Rules.FifoBuffer | src/policy/FIFO.java:24-47 | a hit keeps the length; a miss adds one page until the buffer is full |
| Rules.LruBuffer | src/policy/LRU.java:24-49 | a hit keeps the length; a miss adds one page until the buffer is full |
| Rules.MruBuffer | src/policy/MRU.java:25-50 | a hit keeps the length; a miss adds one page until the buffer is full |
| Rules.FifoAdmits | src/policy/FIFO.java:24-47 | after a FIFO request the page is resident, nothing is duplicated, the buffer stays within capacity and no other page enters |
| Rules.LruAdmits | src/policy/LRU.java:24-49 | the same for LRU, including the hit that moves the page to the head |
| Rules.MruAdmits | src/policy/MRU.java:25-50 | the same for MRU, including the eviction of the head |
| Rules.ReplaceAdmits | src/policy/GCLOCK.java:61-63 | writing the new page into a full buffer's victim frame keeps it duplicate-free and admits only that page |
| Rules.Tick | src/policy/GCLOCK.java:78-86 | the new position is a frame, and one step forward from it is the old position |
| Rules.Bump | src/policy/CLOCK.java:22-31 | GCLOCK adds one; CLOCK raises 0 to 1 and keeps any other value; the result is at least 1 |
| Rules.Sweep | src/policy/GCLOCK.java:52-70 | the sweep ends, on a frame of the buffer, after examining at least one frame |
| Rules.SweepPasses | src/policy/GCLOCK.java:67-69 | passing a page with a positive value decrements it and continues from the next frame to the same victim |
| Rules.SweepFinds | src/policy/GCLOCK.java:56-64 | the victim's value is 0 when it is evicted; pages outside the buffer are untouched; no buffered value grows |
| Rules.SweepCounts | src/policy/GCLOCK.java:54-70 | the victim is the last frame examined; each frame passed lowers the total by exactly 1; at most total + 1 frames are examined |
| Rules.ClockSweepBounded | src/policy/CLOCK.java:9-11 | with bits only, a sweep examines at most `bufferSize + 1` frames and leaves only bits |
| Rules.ClockSweepClears | src/policy/GCLOCK.java:54-70 | with bits only, every frame the sweep examines ends with bit 0 |
| Rules.ClockSweepSecondChance | src/policy/GCLOCK.java:15-19 | with bits only, every frame passed over before the victim had its bit set |
| Rules.RefSumLower | src/policy/GCLOCK.java:67-69 | decrementing a resident page's value lowers the buffer's total, so the sweep terminates |
| Rules.SweepRefs | src/policy/GCLOCK.java:67-69 | the values after the sweep's decrements; the sweep never raises the buffer's total value |
| Simulation.ClockStep | src/policy/GCLOCK.java:32-71 | the invariant holds; io grows exactly on a miss; the length grows by one on a miss until full |
| Simulation.ClockStepSpec | src/policy/GCLOCK.java:32-71 | the requested page is bumped; other non-resident pages keep their values; resident values never grow; a hit or a load into a spare frame keeps the hand; a full miss replaces a page the sweep brought to 0 and leaves the hand one tick past it |
| Simulation.ClockAdmits | src/policy/GCLOCK.java:44-64 | a clock request keeps the buffer duplicate-free and admits only the requested page |
| Simulation.Miss | src/policy/FIFO.java:26-33 | a request costs one I/O exactly when its page is not resident, and none otherwise (the `++io` after the `contains` check, `src/policy/GCLOCK.java:36-42` alike) |
| Simulation.Step | src/policy/Policy.java:59-69 | every strategy keeps the invariant and counts a miss exactly when the page is not resident |
| Simulation.StepLength | src/policy/Policy.java:62-65 | a hit keeps the buffer's length; a miss adds a page unless the buffer is full |
| Simulation.StepAdmits | src/policy/Policy.java:59-69 | every strategy keeps the buffer duplicate-free and admits only the requested page; the deque strategies leave values and hand alone |
| Simulation.Run | src/policy/Policy.java:42-56 | replaying any prefix keeps the invariant |
| Simulation.Trace | src/policy/Policy.java:42-56 | the log has one entry per request replayed |
| Simulation.RunNext | src/policy/Policy.java:43-56 | one more request steps the state reached so far and appends that request's record |
| Simulation.Snapshot | src/policy/Policy.java:53 | one (page, reference value) pair per buffered page |
| Simulation.SnapshotAt | src/policy/Policy.java:53 | pair `i` is the buffer's `i`-th page with its current reference value |
| Simulation.Record | src/policy/Policy.java:48-55 | the logged entry carries the requested page's current value and one snapshot pair per buffered page |
| Simulation.ZeroRefs | src/policy/Policy.java:36-39 | every page of the sequence has value 0, and no other page is mentioned |
| Simulation.Initial | src/policy/Policy.java:24-31 | the state of a freshly constructed policy satisfies the invariant |
| Properties.TraceRecords | src/policy/Policy.java:42-56 | entry `i` of the log records request `i + 1` and the state reached after it |
| Properties.RunIoBounds | src/policy/Policy.java:42-56 | a replay of `k` requests adds between 0 and `k` misses |
| Properties.RunIoGrows | src/policy/Policy.java:42-56 | replaying more requests never lowers the miss count |
| Properties.TraceIoBounds | src/policy/Policy.java:48-55 | the count logged at step `i + 1` lies between the starting count and the starting count plus `i + 1` |
| Properties.TraceIoFinal | src/policy/Policy.java:48-55 | no logged count exceeds the final count |
| Properties.TraceIoMonotone | src/policy/Policy.java:48-55 | logged counts never decrease |
| Properties.TraceIoSteps | src/policy/Policy.java:48-55 | consecutive logged counts differ by exactly 1 on a miss and 0 on a hit |
| Properties.LengthTracksIo | src/policy/Policy.java:62-65 | from an empty buffer, the buffer holds min(misses, capacity) pages |
| Properties.RunNoDup | src/policy/Policy.java:42-56 | no strategy ever buffers a page twice |
| Properties.ClockRunBits | src/policy/CLOCK.java:22-31 | under CLOCK every reference value stays 0 or 1 |
| Properties.ClockTraceBits | src/policy/CLOCK.java:9-11 | under CLOCK every value the log shows is 0 or 1 |
| Orders.LastUse | src/policy/LRU.java:24-49 | the index of a request for the page |
| Orders.LastUseIsLast | src/policy/LRU.java:24-49 | no request for the page follows that index |
| Orders.Recency | src/policy/LRU.java:24-49 | the distinct requested pages, each exactly once |
| Orders.RecencyOrder | src/policy/LRU.java:24-49 | `Recency` lists pages by decreasing last use |
| Orders.LruHitOnRecency | src/policy/LRU.java:26-31 | an LRU hit on the most recent pages gives the most recent pages after the request |
| Orders.LruMissOnRecency | src/policy/LRU.java:34-48 | an LRU miss on the most recent pages gives the most recent pages after the request |
| Orders.LruHoldsMostRecent | src/policy/LRU.java:24-49 | from an empty buffer, LRU holds exactly the `bufferSize` most recently used distinct pages, by last use |
| Orders.Loads | src/policy/FIFO.java:33-46 | one load per miss among the requests replayed |
| Orders.FifoOnLoads | src/policy/FIFO.java:33-46 | a FIFO miss on the newest loads gives the newest loads including the new one |
| Orders.FifoHoldsNewestLoads | src/policy/FIFO.java:24-47 | from an empty buffer, FIFO holds exactly the `bufferSize` newest loads, newest first; hits change nothing |
| Orders.MruEvictsPrevious | src/policy/MRU.java:45-49 | a miss on a full MRU buffer evicts the page requested just before it |
| Examples.FifoExample | src/policy/FIFO.java:24-47 | A B C A D with three frames ends with D C B after 4 misses |
| Examples.LruExample | src/policy/LRU.java:24-49 | A B C A D with three frames ends with D A C after 4 misses |
| Examples.MruExample | src/policy/MRU.java:25-50 | A B C A D with three frames ends with D C B after 4 misses |
| Examples.ClockFirstThree | src/policy/GCLOCK.java:32-49 | after A B A with two frames: B A resident, GCLOCK's A at 2, CLOCK's A at 1 |
| Examples.GclockSweepForC | src/policy/GCLOCK.java:54-70 | GCLOCK's sweep for C passes A twice and evicts B |
| Examples.ClockSweepForC | src/policy/GCLOCK.java:54-70 | CLOCK's sweep for C clears both bits and evicts A |
| Examples.GclockExample | src/policy/GCLOCK.java:32-71 | A B A C with two frames ends with C A, all values drained but C's |
| Examples.ClockExample | src/policy/CLOCK.java:22-31 | the same requests under CLOCK end with B C |
| Examples.FreshPolicy | src/policy/Policy.java:24-56 | a newly constructed policy, once executed, holds exactly `Run` from the empty buffer with all values 0 and logs `Trace`: one entry per request, at most one miss per request, and min(io, bufferSize) resident pages |

## Left out

- Printing: `Main`, `Page.toString` and the string form of the log. A log entry
  keeps the values that the string shows: the step number, the page with its
  value, the buffer's pages with theirs, and the miss count.
- `getIdentifier` and `getReference` are modelled as plain reads without a
  contract of their own.
- Java's `int` overflow of a reference value or of the miss counter: the values
  are unbounded naturals.
- `bufferSize <= 0` is excluded by the constructor's precondition. The source
  accepts it, and a miss then skips the spare-frame branch and fails. FIFO and
  LRU fail at `removeLast` on the empty deque (`src/policy/FIFO.java:45`,
  `src/policy/LRU.java:47`). MRU fails at `removeFirst`
  (`src/policy/MRU.java:48`). GCLOCK and CLOCK start the hand at
  `bufferSize - 1 < 0` (`src/policy/GCLOCK.java:28`) and fail reading
  `bufferArray[cursorPos]` of the empty array (`src/policy/GCLOCK.java:56`). A
  run with no miss, such as an empty sequence, does not fail.
- `getSteps` returns a copy of the list; the model returns the log value, so no
  aliasing question arises.
- Rules.FifoBuffer, Rules.LruBuffer and Rules.MruBuffer state only the buffer's
  length in their own contract. What each rule keeps is proved by the `Admits`
  lemmas and by the `Orders` lemmas about it.
- Simulation.Run and Simulation.Trace state the invariant and the log length; the
  meaning of a replay is proved by the `Properties` lemmas.
- Simulation.Record states the logged value and the snapshot's length; that
  the step number, page and miss count are the ones given is read off its
  constructor, and `Properties.TraceRecords` proves which state each entry
  records. Stating the field equalities as an `ensures` made the replay loop's
  proof too costly.
- Simulation.Snapshot states its length; the pair at each index is the separate
  lemma `Simulation.SnapshotAt`, for the same reason.
- Concurrency: the source is single-threaded.
