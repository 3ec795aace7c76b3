# Circular queue monitor and page-replacement simulators

A model, with proofs, of the two sequential cores of an operating-systems
assignment:

- **`simulapc.cpp`** — `CircularQueueMonitor`, a producer/consumer queue
  over a circular buffer that doubles its capacity when an insertion fills
  it, halves it when a removal leaves it at most a quarter full, and writes
  one log line per resize.  `circular_queue.dfy` models the monitor as a
  class (`buffer` an array, `capacity`, `front`, `rear`, `count`,
  `producersDone`, and the log as the sequence of capacities written to
  it), with each critical section one atomic step.  Each method is proved
  against a specification function on an abstract view (the logical
  contents, the capacity, the log and the flag); traces of steps are then
  proved to deliver every produced item exactly once, in order, across any
  number of resizes.
- **`mvirtual.cpp`** — the hash page table with separate chaining
  (`page_table.dfy`, a class over an array of bucket lists) and the four
  page-replacement simulators: optimal (`optimal.dfy`), FIFO (`fifo.dfy`),
  LRU (`lru.dfy`) and clock (`clock.dfy`).  Each simulator is a method that
  keeps the loop of its C++ function and is proved to return the number of
  faults of a specification: a step function giving the frames after one
  reference, its iteration over a prefix of the reference string, and the
  per-reference fault flags.  Each step function is given its replacement
  rule as a lemma (FIFO evicts the oldest page, LRU the back of the
  most-recently-used list, optimal the frame used farthest ahead or never,
  clock the first frame from the hand with a clear use bit), and the frames
  are proved to stay duplicate-free and within `num_frames`.
  `fault_counting.dfy` holds what the simulators share: the fault count and
  the compulsory-miss bound (every policy faults at least once per distinct
  page).  LRU is also tied to an independent reference definition: its list
  is always the first `num_frames` distinct pages in order of most recent
  use.

`frames.size() < num_frames` compares an unsigned size with an `int`, so a
negative frame count converts to a bound that is never reached: the FIFO,
LRU and optimal simulators then never evict, and this is proved (each
faults exactly once per distinct page).  A frame count of 0 makes these
simulators read `front()`, `back()` or `[0]` of an empty container on their
first miss, so it is excluded by precondition.

The clock simulator marks an empty frame with page number -1, and the hit
scan compares every frame's page number with the reference, so a reference
to page -1 hits any frame whose page number is -1, whether never filled or
loaded with -1 earlier.  When no frame has page number -1, a reference to
-1 faults like any other and the replacement loop loads -1 into the victim
frame, which from then on looks empty.  The model keeps this behaviour and
`Clock.ClockEmptyMarkerHits` shows the hit; the compulsory-miss bound for
clock is stated for reference strings that do not contain -1.

## Model

| member | source | states |
|---|---|---|
| CircularQueue.Window | simulapc.cpp:33-34 | the logical contents: `count` items read from `front`, wrapping at the capacity, as the resize copy reads them |
| CircularQueue.WindowAppend | simulapc.cpp:61-63 | writing the item at `rear == (front + count) % capacity` appends it to the logical contents and leaves the earlier items in place |
| CircularQueue.WindowPop | simulapc.cpp:88-90 | the slot at `front` is the head of the logical contents, and advancing `front` with one item fewer leaves exactly the tail |
| CircularQueue.WindowFromZero | simulapc.cpp:33-39 | a buffer filled from slot 0 and read from `front = 0` holds its contents as a plain prefix |
| CircularQueue.RearAdvance | simulapc.cpp:62 | advancing `rear` by one slot keeps `rear == (front + count) % capacity` for the incremented count |
| CircularQueue.FrontAdvance | simulapc.cpp:89-90 | advancing `front` by one slot with one item fewer leaves `rear` equal to `(front + count) % capacity` |
| CircularQueue.Enqueued | simulapc.cpp:54-71 | the abstract enqueue: append, and double the capacity with one log line when the buffer fills (its properties are proved in `EnqueueKeepsShape`) |
| CircularQueue.Dequeued | simulapc.cpp:74-99 | the abstract dequeue: no item and no change when empty, else the head, halving with one log line at a quarter or less (properties in `DequeueKeepsShape`) |
| CircularQueue.MarkedDone | simulapc.cpp:102-106 | the abstract set_producers_done: the flag becomes true and nothing else changes |
| CircularQueue.EnqueueKeepsShape | simulapc.cpp:54-71 | enqueue appends the item, never shrinks the buffer, doubles it exactly when the insertion fills it, appends one log line carrying the new capacity exactly when it doubles and logs nothing otherwise, and keeps `1 <= capacity` and `count < capacity` |
| CircularQueue.DequeueKeepsShape | simulapc.cpp:74-99 | on an empty queue nothing changes and no item is returned; otherwise the head is returned, the tail stays in order, the capacity halves exactly when `capacity > 1` and at most a quarter remains, one log line carrying the new capacity is appended exactly when it halves and none otherwise, the capacity never grows, and `1 <= capacity`, `count < capacity` hold |
| CircularQueue.StepDelivers | simulapc.cpp:54-106 | one critical section neither loses nor duplicates items: queued plus offered equals handed out plus still queued |
| CircularQueue.RunDeliversInOrder | simulapc.cpp:54-106 | after any sequence of enqueues, dequeues and set_producers_done calls, the items queued at the start followed by the items produced equal the items delivered followed by those still queued: FIFO order, nothing lost or duplicated, across every resize |
| CircularQueue.StepKeepsShape | simulapc.cpp:54-106 | one critical section keeps `1 <= capacity` and `count < capacity`, appends one log line with the new capacity exactly when the capacity changes and none otherwise, and never clears `producers_done` |
| CircularQueue.RunKeepsShape | simulapc.cpp:54-106 | after any sequence of critical sections, `1 <= capacity`, `count < capacity`, the last log line names the current capacity, the log only grows at its end, and `producers_done` never returns to false |
| CircularQueue.FillDoublesOnce | simulapc.cpp:61-68 | filling an empty queue of capacity c with up to c items keeps the capacity and log until the c-th insertion, which doubles the capacity and logs 2c once |
| CircularQueue.Monitor.constructor | simulapc.cpp:50-51 | an empty queue of the initial capacity with `front == rear == 0`, an empty log and the flag clear |
| CircularQueue.Monitor.Resize | simulapc.cpp:29-44 | the copy into a fresh buffer preserves the logical contents in order, sets `front = 0`, `rear = count % new_capacity` and the new capacity, and appends exactly one log entry with that capacity |
| CircularQueue.Monitor.Enqueue | simulapc.cpp:54-71 | the new view is `Enqueued` of the old one (see `EnqueueKeepsShape`) and the monitor invariant `rear == (front + count) % capacity`, `count < capacity` is kept |
| CircularQueue.Monitor.Dequeue | simulapc.cpp:74-99 | the returned item and the new view are `Dequeued` of the old view (see `DequeueKeepsShape`); with an empty queue and producers done it returns no item and leaves buffer, indices and log as they were; the invariant is kept |
| CircularQueue.Monitor.SetProducersDone | simulapc.cpp:102-106 | only the flag changes, to true; contents, capacity, indices and log stay |
| PageTables.Find | mvirtual.cpp:41-46 | the first entry for the page in its bucket, or the bucket length when none; every entry before it is for another page |
| PageTables.RemoveEntries | mvirtual.cpp:55-57 | `remove_if`: an entry stays exactly when it is in the bucket and is not for the page |
| PageTables.RemoveEntriesKeepsBucket | mvirtual.cpp:53-58 | removing keeps every entry of bucket i hashing to i and at most one entry per page |
| PageTables.RemoveEntriesPages | mvirtual.cpp:53-58 | the bucket's valid pages lose exactly the removed page |
| PageTables.PageTable.constructor | mvirtual.cpp:30 | `size` empty buckets; no page is valid |
| PageTables.PageTable.HashFunction | mvirtual.cpp:33-35 | for a non-negative page the bucket index is in range, and a page below the table size is its own index |
| PageTables.PageTable.OnlyInItsBucket | mvirtual.cpp:38-49 | no bucket other than the page's hash bucket holds an entry for it |
| PageTables.PageTable.IsValid | mvirtual.cpp:61-69 | true exactly when the page is valid somewhere in the table |
| PageTables.PageTable.Insert | mvirtual.cpp:38-50 | the valid pages gain exactly the page; only its bucket changes, by setting the valid bit of the existing entry or appending one new valid entry; each bucket still holds at most one entry per page, all hashing to it |
| PageTables.PageTable.Remove | mvirtual.cpp:53-58 | the valid pages lose exactly the page; only its bucket changes, by dropping its entries; the bucket invariants are kept |
| FaultCounting.CompulsoryMisses | mvirtual.cpp:130 | when the first reference to every page faults, the fault count is at least the number of distinct pages |
| FaultCounting.OnlyCompulsoryMisses | mvirtual.cpp:130 | when exactly the first reference to each page faults, the fault count is the number of distinct pages |
| FaultCounting.HasRoom | mvirtual.cpp:148 | `frames.size() < num_frames` with the `int` converted to unsigned: room whenever the count is negative, else when the size is below it (the same test is at mvirtual.cpp lines 102 and 181) |
| Fifo.FifoStep | mvirtual.cpp:141-159 | one FIFO reference: a hit keeps the queue, a miss appends, first dropping the front when there is no room (rule proved in `FifoStepRule`) |
| Fifo.FifoMissWithRoom | mvirtual.cpp:148-150 | a miss with room appends the page at the back of the queue and adds it to the resident pages |
| Fifo.FifoMissFull | mvirtual.cpp:151-158 | a miss with no room happens only with all `num_frames` frames in use and evicts the front (oldest) page, appending the new one |
| Fifo.FifoStepRule | mvirtual.cpp:141-159 | a hit leaves the queue alone; a miss appends the page, evicting the oldest one exactly when there is no room; no duplicates, size within `num_frames` |
| Fifo.FifoInvariant | mvirtual.cpp:141-161 | the queue never holds a page twice, never outgrows `num_frames`, and holds only referenced pages |
| Fifo.FifoFirstReferenceFaults | mvirtual.cpp:143-145 | the first reference to a page always faults |
| Fifo.FifoCompulsory | mvirtual.cpp:141-161 | FIFO faults at least once per distinct page |
| Fifo.FifoKeepsAll | mvirtual.cpp:148-150 | with a negative frame count the queue holds every page referenced so far |
| Fifo.FifoUnbounded | mvirtual.cpp:148-150 | with a negative frame count FIFO faults exactly once per distinct page |
| Fifo.SimulateFifo | mvirtual.cpp:136-163 | returns the number of references whose page is not resident at their turn; between the number of distinct pages and the number of references; the queue and the resident set agree throughout |
| Lru.RemoveAll | mvirtual.cpp:175 | `list::remove`: the result never grows |
| Lru.RemoveAllMembers | mvirtual.cpp:175 | `list::remove` keeps exactly the entries that differ from the page |
| Lru.RemoveAllAbsent | mvirtual.cpp:175 | removing a page the list does not hold leaves it unchanged |
| Lru.RemoveAllNoDup | mvirtual.cpp:175 | removing keeps a list duplicate-free |
| Lru.RemoveAllPages | mvirtual.cpp:175 | removing drops exactly that page from the resident pages |
| Lru.RemoveAt | mvirtual.cpp:175 | in a duplicate-free list, removing the page at position p splices out that one position |
| Lru.PushFront | mvirtual.cpp:175-176 | moving a page to the front of a duplicate-free list keeps it duplicate-free and adds only that page |
| Lru.RecencyOrder | mvirtual.cpp:166-196 | reference definition: the distinct pages of a prefix, most recently used first, without duplicates and with exactly its pages |
| Lru.LruStepTakesRecent | mvirtual.cpp:171-192 | one LRU step on the first `num_frames` pages of the recency order gives the first `num_frames` pages of the recency order with the page moved to the front |
| Lru.LruIsRecency | mvirtual.cpp:171-194 | after any prefix the LRU list is exactly the first `num_frames` distinct pages in order of most recent use (all of them for a negative count) |
| Lru.LruStep | mvirtual.cpp:171-192 | one LRU reference: a hit moves the page to the front, a miss pushes it in front, first dropping the back when there is no room (rule proved in `LruStepRule`) |
| Lru.LruHitRule | mvirtual.cpp:173-177 | a hit moves the page to the front and keeps the resident pages and the length |
| Lru.LruFreeMissRule | mvirtual.cpp:181-183 | a miss with room pushes the page in front and evicts nothing |
| Lru.LruFullMissRule | mvirtual.cpp:184-191 | a miss with all frames in use evicts the back (least recently used) page and pushes the new page in front |
| Lru.LruStepRule | mvirtual.cpp:171-192 | the page ends at the front; hits keep the resident pages; a miss evicts the back page exactly when there is no room; no duplicates, size within `num_frames` |
| Lru.LruInvariant | mvirtual.cpp:171-194 | the list never holds a page twice, never outgrows `num_frames`, and holds only referenced pages |
| Lru.LruFirstReferenceFaults | mvirtual.cpp:173-183 | the first reference to a page always faults |
| Lru.LruCompulsory | mvirtual.cpp:171-194 | LRU faults at least once per distinct page |
| Lru.LruUnbounded | mvirtual.cpp:181-183 | with a negative frame count LRU faults exactly once per distinct page |
| Lru.SimulateLru | mvirtual.cpp:166-196 | returns the number of references whose page is not resident at their turn; between the number of distinct pages and the number of references; the list and the resident set agree throughout |
| Optimal.NextUse | mvirtual.cpp:110-118 | the position of the next reference to a page after i, or the end of the string when there is none |
| Optimal.VictimScan | mvirtual.cpp:106-127 | the victim loops as a recursion over the frames, with the farthest next use and its frame so far, stopping at the first frame never used again and falling back to 0 |
| Optimal.VictimScanRule | mvirtual.cpp:106-127 | from any state the scan's bookkeeping allows, it ends on a frame whose next use is latest (never counts as latest) and earlier than that of no frame before it |
| Optimal.Victim | mvirtual.cpp:105-127 | the frame to replace is in range, has the farthest next use (never used again counts as farthest), and is the lowest such index |
| Optimal.VictimPrefersUnused | mvirtual.cpp:119-123 | if some frame is never referenced again, the victim is the first such frame |
| Optimal.OptimalStep | mvirtual.cpp:96-129 | one optimal reference: a hit keeps the frames, a miss appends when there is room and otherwise overwrites the victim (rule proved in `OptimalStepRule`) |
| Optimal.OptimalStepRule | mvirtual.cpp:96-129 | a hit changes nothing; a miss with room appends; a miss without room happens with all `num_frames` frames in use and overwrites exactly the victim's frame; no duplicates, size within `num_frames` |
| Optimal.OptimalInvariant | mvirtual.cpp:94-131 | the frames never hold a page twice, never outgrow `num_frames`, hold only referenced pages, and with a negative count hold all of them |
| Optimal.OptimalFirstReferenceFaults | mvirtual.cpp:96-99 | the first reference to a page always faults |
| Optimal.OptimalCompulsory | mvirtual.cpp:94-131 | the optimal policy faults at least once per distinct page |
| Optimal.OptimalUnbounded | mvirtual.cpp:102-103 | with a negative frame count it faults exactly once per distinct page |
| Optimal.ChooseVictim | mvirtual.cpp:105-127 | the nested victim loops return the frame `Victim` specifies |
| Optimal.SimulateOptimal | mvirtual.cpp:90-133 | returns the number of references whose page is not resident at their turn, between the number of distinct pages and the number of references |
| Clock.FirstHolding | mvirtual.cpp:218-224 | the hit scan finds the first frame holding the page, or none |
| Clock.Sweep | mvirtual.cpp:230-242 | the replacement loop keeps `num_frames` frames and leaves the hand in range |
| Clock.SweepLength | mvirtual.cpp:230-242 | the loop runs at least once and at most once more than the number of set use bits |
| Clock.SweepTerminates | mvirtual.cpp:230-242 | the `while (true)` loop ends within `num_frames + 1` iterations |
| Clock.SweepFrames | mvirtual.cpp:231-240 | the faulted page lands in the frame the hand last stood on, with its use bit set; no other frame's page changes and no other use bit becomes set |
| Clock.FirstClearStep | mvirtual.cpp:237-241 | giving a second chance (clearing the bit under the hand and advancing) does not change which frame the loop stops at |
| Clock.SweepStopsAtFirstClear | mvirtual.cpp:230-242 | the loop stops at the first frame from the hand whose use bit is clear, or, when every bit is set, back where it started |
| Clock.PassedClearedStep | mvirtual.cpp:237-241 | a second chance given before the hand reaches the victim clears exactly the bit of the frame it passes |
| Clock.PassedClearedRevolution | mvirtual.cpp:230-242 | when every bit was set, the loop goes once round and leaves every bit but the victim's clear |
| Clock.SweepClearsPassed | mvirtual.cpp:230-242 | which bits the loop clears: when some bit was clear, a frame other than the victim keeps its bit exactly when the bit was set and the hand stopped before reaching it; when every bit was set, every bit but the victim's ends clear |
| Clock.ClockStep | mvirtual.cpp:215-242 | a reference keeps `num_frames` frames and the hand in range |
| Clock.ClockInit | mvirtual.cpp:210-213 | `num_frames` frames `{-1, false}` with the hand at 0 |
| Clock.ClockAfter | mvirtual.cpp:207-213 | from the initial empty frames, the frames vector always has `num_frames` entries and the hand stays below `num_frames` |
| Clock.ClockStepKeeps | mvirtual.cpp:215-242 | after a reference its page is held; frames holding pages hold distinct pages, all already referenced |
| Clock.ClockInvariant | mvirtual.cpp:211-244 | no page other than the empty marker -1 is held by two frames, and every such page held was already referenced |
| Clock.ClockFirstReferenceFaults | mvirtual.cpp:218-227 | the first reference to a page other than -1 always faults |
| Clock.ClockCompulsory | mvirtual.cpp:215-244 | clock faults at least once per distinct page when -1 is never referenced |
| Clock.ClockEmptyMarkerHits | mvirtual.cpp:218-226 | for any reference string, a reference to -1 does not fault whenever some frame's page number is -1, whether that frame was never filled or was loaded with -1 |
| Clock.ClockEmptyMarkerExample | mvirtual.cpp:218-226 | example: the string [-1] makes no fault, fewer than its one distinct page |
| Clock.MarkIfResident | mvirtual.cpp:216-224 | reports whether some frame holds the page, setting the use bit of the first such frame and changing nothing else |
| Clock.Replace | mvirtual.cpp:229-242 | the loop leaves frames and hand as `Sweep` specifies and makes at most `num_frames + 1` iterations |
| Clock.SimulateClock | mvirtual.cpp:205-246 | returns the number of references whose page no frame holds at their turn; at most the number of references, at least the number of distinct pages when -1 is not referenced |

## Left out

- Threads, the mutex and the two condition variables of `simulapc.cpp`: each critical section is one atomic step, and a wait becomes a precondition (`Dequeue` requires an item or producers done; `Enqueue` never has to wait because the buffer is never full between steps).
- `producer_function`, `consumer_function` and both `main` functions: sleeps, clocks, thread start-up, command-line parsing and console output.
- The log file: modelled as the sequence of capacities written to it, not as formatted text.
- `readReferences`: file input; the reference string is a parameter.
- CircularQueue.Monitor.Enqueue: `capacity * 2` is unbounded; the `size_t` wrap-around at 2^64 is not modelled.
- CircularQueue.Monitor.constructor: requires an initial capacity of at least 1; with 0 the source's `enqueue` waits at its `not_full` wait forever, so producers block forever.
- CircularQueue.Monitor.Dequeue: returns an optional item in place of a `bool` plus an out-parameter.
- PageTables.PageTable.Insert, PageTables.PageTable.Remove, PageTables.PageTable.IsValid: require a non-negative page and a positive table size; a negative page gives a negative bucket index and size 0 divides by zero.
- PageTables.PageTable.constructor: a negative size is not modelled (the vector constructor rejects it).
- The page table is built by the simulator's `main` but used by no simulator, so it is modelled on its own.
- Fifo.SimulateFifo, Lru.SimulateLru, Optimal.SimulateOptimal: require `num_frames != 0`, because the first miss would then read an element of an empty container; the `int` overflow of `page_faults` is not modelled.
- Clock.SimulateClock: requires `num_frames >= 1`, because with no frames the replacement loop reads `frames[0]` of an empty vector and takes `% 0`; the `int` overflow of `page_faults` is not modelled.
- Clock.ClockCompulsory: states the compulsory-miss bound only for reference strings without -1, since a reference to -1 hits an empty frame.
- The queue, list and unordered set of the FIFO and LRU simulators are modelled as sequences and a set of values, not as linked containers.
