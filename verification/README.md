# A model of fun's containers, histogram, buffers and iterators

This project models, in Dafny, the parts of the Go module `github.com/tychoish/fun` whose correctness does not show in
any single function body, and proves what their documentation and tests promise of them. `dafny verify dfyconfig.toml`
checks all of it. Nothing here was executed.

## What is modelled

* **Limits, QueueModel, Queue, QueueSystem** - `pubsub.Queue` with its limit trackers. `LinkedQueue.Queue` is the
  linked object, one method per stretch of code that runs with the lock held, and each method is proved to do what the
  function of the same name in `QueueModel` does to the monitor value. `QueueSystem` then lets any number of threads
  run those stretches in any order: an event is one stretch, a context ending, or a cancellation broadcast getting the
  lock, and a condition variable is the set of threads asleep on it. One invariant is kept by every event; the
  theorems about all runs are read off it.
* **Links, DequeModel, Deque, DequeSystem** - the same for `pubsub.Deque`, with its two ends, forced pushes, three
  conditions, sequence numbers and iterators that survive the removal of the element they stand on.
* **HdrIndex, Counts, Histogram, Windowed** - `dt/hdrhist`: the index arithmetic over shifts defined bit by bit; the
  histogram object with a ghost record of the recorded values, against which quantiles, minimum and maximum are
  proved; merge, export and import; the ring of windows with a ghost history of all the windows there have been.
* **Replace, Utf8, JsonString** - `strut.Mutable`: the in-place, overlapping replacement against the simple one, and the
  JSON string printer and parser over UTF-8.
* **Sorting, LinkedList** - `dt.List` with its element links, shared length and owner pointers, both sorts, and
  `dt.Heap`; `Sorting` says what they compute and why it is the same.
* **SimpleList, SplitOrder, OrderedContainers** - the list of package `adt`, whose sorts move elements without
  replacing them, which ties its merge sort keeps in order, and the ordered set and map that keep a hash into it.
* **RingBuffer, RateLimit, Chunks, Pool, PoolProgress, Shards** - `dt.Ring`, `pubsub.RateLimit`, and the shared-pull
  iterators of `irt`. `Pool` and `Shards` are state machines over the steps of their workers and shards.
* **RingIndex, Sequences, Wrappers** - arithmetic on wrapping indices, reversal and permutations of sequences, an
  option type.

The outside world comes in as parameters: a clock is a sequence of non-decreasing readings, a context or a timer a
sequence of answers, a consumer the number of elements it takes or the answer it gives, and a comparison function a
total preorder where the library called needs one. Integers are unbounded except where a range is stated;
`HdrIndex.StaysInRange` bounds what the histogram's index arithmetic computes for arguments in the stated range by the
32 and 64 bits the code has; counts and totals are not bounded. The burst credit is a real number. `bytes.Index` and
`bytes.Replace` are specified functions, and `slices.SortStableFunc` and `slices.SortFunc` are methods of which only
the contract is used. One class stands for the three tracker implementations, and the constant fields of a histogram
are one value, `HdrIndex.Config`.

## What came out of it

Where the code does something other than its comments say, the model follows the code.

* The two TODO questions in `dt/hdrhist/hdr.go` have an answer. The check at line 410 cannot fire
  (`HdrIndex.Config.SlotOf`). The one at line 488 fires exactly when the iterator has visited every slot without
  having seen the total (`Histogram.Iterator.Next`). While the total is the sum of the counts it does not
  (`Counts.SumIsSeen`). It does in an imported histogram with a negative count before a positive one
  (`Counts.ImportedRunsOff`), and in merging a histogram that holds something into itself, where the total grows with
  every slot (`Histogram.Hist.Merge`).
* `Merge` conserves the totals exactly when its scan neither runs off nor stops past the source's total, as it does
  behind counts 2 and -1, which merge as 2.
* The highest trackable value given to `hdrhist.New` can itself be recorded unless it is `subBucketCount <<
  unitMagnitude` doubled some number of times; then it is refused (`HdrIndex.TrackableValues`; 2048 with three digits
  is one). Every smaller value can be recorded. Above 2^62 the doubling in `New` leaves 64 bits before it covers the
  highest value (`HdrIndex.NoLimitReaches`).
* `hdrhist.Import` accepts negative counts and then builds a histogram whose total is not the sum of its counts:
  exporting and importing gives every count back, and the total exactly when no count is negative
  (`Histogram.RoundTrip`). `Max` of an empty histogram is the highest value equivalent to 0, not 0.
* The two `Signal` calls in `Queue.Pop` never wake anybody: the removal has already woken that condition.
* After `dt.List.SortMerge` of two or more elements, `Element.In` is false for every element of the list: they point
  at the list object the merge made. The elements left over when one half runs out are copies. `SortQuick` keeps both
  the elements and their membership.
* `adt`'s merge sort turns both halves round when it splits them off, so it is not always stable. Which ties keep
  their order depends on the two positions and the length alone (`SplitOrder.Kept`): two in different halves do, and
  two in one half do when they would not in that half turned round. The sort of a set is stable exactly when every tie
  is at such positions (`SplitOrder.StableIff`). `adt/ordered_set.go:21-24` calls `SortQuick` stable, but it uses
  `slices.SortFunc`, which promises nothing about ties: that makes it stable exactly when no two members compare equal
  (`Sorting.AnySortIsStableIff`).
* A `strut.Mutable` prints as a JSON string, and survives the JSON round trip, exactly when it is valid UTF-8.
  `UnmarshalJSON` says that `strconv.Unquote` handles all JSON escapes; of the strings JSON allows it rejects exactly
  those with an escaped solidus or an escaped surrogate, the escapes JSON has for characters above U+FFFF
  (`JsonString.AcceptedIff`). And it accepts texts that are none: with the escapes \a, \v, \x, \U and octal ones, with
  unescaped control characters, and with malformed UTF-8 (`JsonString.AcceptedIsJson`).
* A `dt.Ring` iterator keeps its place: ranging over it again goes on where the last loop stopped, and shows nothing
  after a complete pass.
* `irt.Shard` promises to let the input go when it is exhausted, when every shard has finished, when the context ends
  and when the outer loop stops early. The first three hold but for one family of runs: the outer loop breaks off in
  its first body and returns, nothing has been used by then, the context is alive, and the shard that was kept is
  pulled from after that and not to the end of the input. That starts the pull with nobody left to stop it
  (`Shards.PullIsLetGo`). The fourth is weaker than it reads: shards handed out before the loop stops may go on, and
  the input is let go when the last of them has finished (`Shards.EarlyStop`).

## Model

| member | source | states |
|---|---|---|
| Limits.Tracker.Add | pubsub/tracker.go:66-84 | on a valid tracker a slot below the quota is free and never refused, an accepted add at the quota trades one unit of credit for one of quota (their sum stays), and both refusals happen exactly at the hard limit and without a unit of credit |
| Limits.Tracker.Remove | pubsub/tracker.go:86-105 | the limits stay in order, a slot is free afterwards, and quota plus credit is within the hard limit from then on |
| Limits.RemovalGivesCredit | pubsub/tracker.go:86-105 | below the quota a removal lowers it by one exactly when less than half is in use, and gives as credit the unused share of the quota, up to what the hard limit leaves; credit shrinks only to that cap; at or above the quota only the length changes |
| Limits.Validate | pubsub/queue.go:394-408 | accepts exactly a positive hard limit not below the quota with non-negative credit; whatever it accepts starts a valid tracker with positive credit |
| Limits.ValidateKeeps | pubsub/queue.go:394-408 | given options are kept and zeros stand for the hard limit and for the quota; validating twice changes nothing; which error it is |
| Limits.LimitTracker.Add | pubsub/tracker.go:66-84 | the tracker object does exactly what the tracker value does, for all three implementations |
| Limits.LimitTracker.Remove | pubsub/tracker.go:86-105 | the tracker object takes one item off exactly as the tracker value does |
| Limits.BudgetOverRun | pubsub/tracker.go:49-105 | over any run quota plus credit changes only by removals, and from the first removal on never exceeds the hard limit |
| Limits.CreditAccounting | pubsub/tracker.go:49-105 | from any accepted options, after any run: 0 <= length <= quota <= hard limit, quota >= 1, credit >= 0, and the budget bound |
| Limits.BurstCapacity | pubsub/tracker.go:66-84 | k adds in a row are all accepted exactly when the hard limit has room for them and the credit pays for those beyond the quota |
| LinkedQueue.Queue.constructor | pubsub/queue.go:102-121 | a new queue is the empty monitor on its tracker |
| LinkedQueue.Queue.DoAdd | pubsub/queue.go:139-165 | the linked object refines the monitor: same refusals in the same order, the item at the back, both conditions woken, no other entry moved |
| LinkedQueue.Queue.Link | pubsub/queue.go:155-161 | hangs exactly one fresh entry on the back and leaves the earlier ones in place |
| LinkedQueue.Queue.PopFront | pubsub/queue.go:346-365 | unlinks the oldest entry, hands out its item, updates the tracker and wakes the right conditions |
| LinkedQueue.Queue.Unlink | pubsub/queue.go:346-365 | the list loses its first entry and the removed one keeps only the mark that it is gone |
| LinkedQueue.Queue.Pop | pubsub/queue.go:200-229 | non-blocking pop as the monitor has it; the two Signal calls never find a sleeper |
| LinkedQueue.Queue.Close | pubsub/queue.go:336-340 | closing wakes every sleeper and changes nothing else |
| LinkedQueue.Queue.WaitPush | pubsub/queue.go:173-195 | one stretch of WaitPush between lock and sleep or return |
| LinkedQueue.Queue.WaitPop | pubsub/queue.go:238-259 | one stretch of WaitPop, as the monitor has it |
| LinkedQueue.Queue.DrainLoop | pubsub/queue.go:273-307 | one round of the wait loop of Drain and Shutdown |
| LinkedQueue.Queue.DrainEnter | pubsub/queue.go:273-307 | the first stretch of Drain and Shutdown |
| LinkedQueue.Queue.After | pubsub/queue.go:463-468 | the entry after any cursor, popped or not, is the one with index max(i + 1, number popped), and there is none exactly when nothing is linked beyond |
| LinkedQueue.Queue.WaitNext | pubsub/queue.go:424-457 | one pull of the waiting iterator |
| LinkedQueue.Queue.TryNext | pubsub/queue.go:501-527 | one pull of the non-waiting iterator |
| QueueModel.SectionIsGood | pubsub/queue.go:139-307 | every stretch of every blocking call goes to sleep only when not ready, moves items only as it reports, and leaves no other sleeper ready |
| QueueModel.SectionAnswers | pubsub/queue.go:139-307 | what every stretch of every blocking call answers: what stands in its way, in the order of the checks, or else what the call is for - a push with room adds, a pop takes the oldest item, a Drain of an empty queue is done, an iterator yields the next item - and the tracker counts what moved |
| QueueModel.PushAnswers | pubsub/queue.go:139-165 | a push that does not wait is refused exactly for a drain, for being closed, or by the tracker, in that order; otherwise the item is at the back |
| QueueModel.PopAnswers | pubsub/queue.go:200-229 | a pop that does not wait takes the oldest item exactly when the queue is open and not empty |
| QueueModel.StepIsNext | pubsub/queue.go:424-527 | a pull goes to the oldest item still linked beyond the cursor, and yields nothing exactly when there is none; the iterator that never waits does so on an open queue |
| QueueModel.SleepersStayUnready | pubsub/queue.go:139-365 | what a stretch does to the sleep sets is enough to keep every other sleeper unready |
| QueueSystem.StepKeepsInv | pubsub/queue.go:126-527 | every event of any number of threads keeps the whole invariant: sleepers, drain count, items, cursors |
| QueueSystem.RunKeepsInv | pubsub/queue.go:126-527 | and so does every run |
| QueueSystem.NoLostWakeups | pubsub/queue.go:139-307 | in every reachable state a sleeping thread has nothing to do yet, or its cancellation broadcast is still pending |
| QueueSystem.ReadyCallsReturn | pubsub/queue.go:139-307 | a call whose wait is over is awake, and its next stretch returns exactly when it is ready or its context has ended |
| QueueSystem.CallsDoTheirWork | pubsub/queue.go:139-307 | in every reachable state, when a call goes on with nothing in its way a pop delivers the oldest item, a push with room is accepted, an iterator with an item ahead yields it, a Shutdown of an empty queue returns; with the queue closed or the context ended nothing goes in or out |
| QueueSystem.DirectCallsDoTheirWork | pubsub/queue.go:139-229 | and so do Push and Pop |
| QueueSystem.AcceptedIsDeliveredThenLive | pubsub/queue.go:139-365 | accepted items are always the delivered ones followed by the linked ones, in order |
| QueueSystem.DrainersRefusePushes | pubsub/queue.go:273-307 | nothing is accepted while a Drain or Shutdown is outstanding |
| QueueSystem.ClosedForever | pubsub/queue.go:336-340 | a closed queue stays closed, and nothing goes in or out any more |
| QueueSystem.ShutdownDeliversEverything | pubsub/queue.go:325-334 | once some Shutdown has returned nil the queue is closed and empty and every accepted item was delivered exactly once, in every continuation |
| QueueSystem.CallsComeAndGo | pubsub/queue.go:139-307 | at any time a thread outside a call can make any call, and ending its context brings it back from wherever any run has taken it by then |
| QueueSystem.DrainCanComplete | pubsub/queue.go:262-334 | a Drain or Shutdown of an open queue is never stuck: once the linked items have been popped it is awake and returns nil, everything accepted is delivered, and a Shutdown has closed the queue |
| QueueSystem.WaitPushIsFree | pubsub/queue.go:173-195 | WaitPush never fails for capacity and never spends credit |
| QueueSystem.IteratorsSkipNothing | pubsub/queue.go:424-527 | over any run an iterator yields strictly increasing indices, each the item accepted there, and skips no live item |
| LinkedDeque.Deque.constructor | pubsub/deque.go:43-51 | a new deque is the empty monitor on its tracker |
| LinkedDeque.Deque.LinkAfter | pubsub/deque.go:484-494 | the ring gains exactly one fresh element after the given one |
| LinkedDeque.Deque.Unlink | pubsub/deque.go:503-519 | the ring loses one element, which keeps only its number; its links are nil |
| LinkedDeque.Clear | pubsub/deque_element.go:32-38 | release drops item and links of an element outside the ring and leaves the ring alone |
| LinkedDeque.Deque.Add | pubsub/deque.go:470-497 | the linked object refines the monitor: checks, limit, number one beyond the end, link at that end; every iterator element held across the call can still be followed |
| LinkedDeque.Deque.Pop | pubsub/deque.go:503-519 | pop at either end as the monitor has it; every iterator element held across the call can still be followed |
| LinkedDeque.Deque.ForcePush | pubsub/deque.go:250-280 | forced push at either end as the monitor has it; every iterator element held across the call, the evicted one included, can still be followed |
| LinkedDeque.Deque.Close | pubsub/deque.go:193-196 | closing wakes all three conditions |
| LinkedDeque.Deque.WaitPush | pubsub/deque.go:304-324 | one stretch of a waiting push; every iterator element held across it can still be followed |
| LinkedDeque.Deque.WaitPop | pubsub/deque.go:521-534 | one stretch of a waiting pop; every iterator element held across it can still be followed |
| LinkedDeque.Deque.DrainLoop | pubsub/deque.go:148-183 | one round of the drain loop |
| LinkedDeque.Deque.DrainEnter | pubsub/deque.go:148-183 | the first stretch of Drain and Shutdown |
| LinkedDeque.Deque.NeighborOf | pubsub/deque.go:409-425 | along the link of a linked element, by scanning for a removed one: the nearest linked element beyond the cursor's number |
| LinkedDeque.Deque.ScanFront | pubsub/deque.go:420-424 | the forward scan stops at the first greater number |
| LinkedDeque.Deque.ScanBack | pubsub/deque.go:413-419 | the backward scan stops at the first smaller number |
| LinkedDeque.Deque.Pull | pubsub/deque.go:377-404 | one pull of a waiting or non-waiting iterator |
| DequeModel.StepIsNearest | pubsub/deque.go:409-425 | a pull yields the nearest linked element beyond the place, linked or removed, and nothing exactly when nothing lies beyond |
| DequeModel.LinkedNeighborIsAdjacent | pubsub/deque.go:409-412 | for a linked place the nearest element beyond is the adjacent one, so the two branches of neighbor agree |
| DequeModel.PushAndPopAtTheEnds | pubsub/deque.go:470-519 | a pop at the end of an accepted push gives the item back and restores the list; a pop at the other end takes what it would have taken before |
| DequeModel.EvictMakesRoom | pubsub/deque.go:250-280 | a full tracker means something to evict, and one eviction always makes room |
| DequeModel.ForcePushAlwaysSucceeds | pubsub/deque.go:250-280 | on an open deque a forced push always succeeds, evicting one element from the other end exactly when at capacity, the rest in order |
| DequeModel.SectionIsGood | pubsub/deque.go:148-534 | every stretch of every blocking call is good to all other sleepers on the three conditions |
| DequeModel.SectionAnswers | pubsub/deque.go:148-534 | what every stretch of every blocking call answers: what stands in its way, in the order of the checks, or else what the call is for, at its own end |
| DequeModel.PushAnswers | pubsub/deque.go:470-497 | a push that does not wait is refused exactly for a drain, for being closed, or by the tracker, in that order |
| DequeModel.PopAnswers | pubsub/deque.go:503-519 | a pop that does not wait takes the element at its end exactly when the deque is open and not empty |
| DequeSystem.PullWalksTombstones | pubsub/deque.go:377-425 | the neighbour of a removed element is the one it would reach if it had stayed in the list as a tombstone |
| DequeSystem.StepKeepsInv | pubsub/deque.go:119-534 | every event of any number of threads keeps the whole invariant |
| DequeSystem.RunKeepsInv | pubsub/deque.go:119-534 | and so does every run |
| DequeSystem.NoLostWakeups | pubsub/deque.go:433-455 | in every reachable state a sleeping thread has nothing to do yet, or its cancellation broadcast is still pending |
| DequeSystem.ReadyCallsReturn | pubsub/deque.go:433-455 | a call whose wait is over is awake, and its next stretch returns exactly when it is ready or its context has ended |
| DequeSystem.CallsDoTheirWork | pubsub/deque.go:148-534 | in every reachable state a call that goes on with nothing in its way does what it is for, at its own end; with the deque closed or the context ended nothing goes in or out |
| DequeSystem.DirectCallsDoTheirWork | pubsub/deque.go:250-519 | and so do pushes, pops and forced pushes; a forced push on an open deque is always accepted |
| DequeSystem.LinkedOrGoneOnce | pubsub/deque.go:470-519 | each accepted element is linked or has left, exactly once and never both; the linked numbers increase within [lo, hi] |
| DequeSystem.DrainersRefusePushes | pubsub/deque.go:148-183 | nothing is accepted while a Drain or Shutdown is outstanding |
| DequeSystem.ClosedForever | pubsub/deque.go:193-196 | a closed deque stays closed, and nothing goes in or out any more |
| DequeSystem.ShutdownDeliversEverything | pubsub/deque.go:136-146 | once some Shutdown has returned nil the deque is closed and empty and every accepted element has left exactly once |
| DequeSystem.CallsComeAndGo | pubsub/deque.go:148-534 | at any time a thread outside a call can make any call, and ending its context brings it back from wherever any run has taken it by then |
| DequeSystem.DrainCanComplete | pubsub/deque.go:125-183 | a Drain or Shutdown of an open deque is never stuck: once the linked elements have been popped, from either end, it is awake and returns nil, everything accepted has left, and a Shutdown has closed the deque |
| DequeSystem.IteratorsSkipNothing | pubsub/deque.go:377-425 | over any run an iterator's numbers are strictly monotone, its elements were accepted, and nothing still linked behind it was left out |
| HdrIndex.BitLenOf | dt/hdrhist/hdr.go:572-592 | the loop of shifts counts the bits of any value |
| HdrIndex.ShiftBy | dt/hdrhist/hdr.go:572-592 | one conditional shift drops k bits and counts them |
| HdrIndex.BitLenExact | dt/hdrhist/hdr.go:572-592 | 2^(n-1) <= x < 2^n: the bit length is exact |
| HdrIndex.Config.BucketIndexIs | dt/hdrhist/hdr.go:453-456 | or-ing in the mask sends every small value to bucket 0 and the others by their bit length |
| HdrIndex.Config.SlotOf | dt/hdrhist/hdr.go:402-460 | the slot of any value is canonical, so the range check never fires, and the value lies in its slot |
| HdrIndex.Config.SlotUnique | dt/hdrhist/hdr.go:453-460 | a canonical slot contains exactly the values mapped to it |
| HdrIndex.Config.CountsIndexOrder | dt/hdrhist/hdr.go:447-451 | the numbering of canonical pairs is strictly increasing, hence one-to-one |
| HdrIndex.Config.PairOfIsCanonical | dt/hdrhist/hdr.go:447-451 | and onto: every index stands for a canonical pair |
| HdrIndex.Config.PairOfInverse | dt/hdrhist/hdr.go:447-451 | the two directions are inverse |
| HdrIndex.Config.CountsLenIsProduct | dt/hdrhist/hdr.go:78-91 | the slots number exactly the code's (bucketCount + 1) * (subBucketCount / 2) |
| HdrIndex.Config.NextPairNextIndex | dt/hdrhist/hdr.go:475-502 | stepping the iterator's pair steps the index by one from 0 and stays within the buckets |
| HdrIndex.Config.FitsBelowLimit | dt/hdrhist/hdr.go:226-235 | an index fits the counts exactly when the value is below subBucketCount << (unitMagnitude + bucketCount - 1) |
| HdrIndex.Config.FitsInRange | dt/hdrhist/hdr.go:226-235 | of any value, negative ones included, the index fits the counts exactly from 0 to below that limit |
| HdrIndex.Config.IndexMono | dt/hdrhist/hdr.go:462-466 | v <= w implies index(v) <= index(w) |
| HdrIndex.Config.SameIndexIffEquivalent | dt/hdrhist/hdr.go:402-466 | two values share an index exactly when each lies in the other's equivalent range |
| HdrIndex.Config.ValueAtIndex | dt/hdrhist/hdr.go:421-451 | the value reported for an index is the least value of its slot |
| HdrIndex.CeilLog2IsLeast | dt/hdrhist/hdr.go:56-62 | the integer reading of the rounded-up logarithm: the least power that reaches the argument |
| HdrIndex.BucketsForIsLeast | dt/hdrhist/hdr.go:70-78 | the bucket loop finds the least number of buckets that covers the highest value |
| HdrIndex.ConfiguredMeans | dt/hdrhist/hdr.go:46-92 | New's sub-buckets resolve the digits asked for, with the least power of two that does, its unit is the largest power of two not above the lowest value, and its limit is the first to cover the highest |
| HdrIndex.TrackableValues | dt/hdrhist/hdr.go:226-235 | every value below the highest can be recorded; the highest itself exactly when it is not a limit |
| HdrIndex.HighestIsRefused | dt/hdrhist/hdr.go:226-235 | a highest value that is refused: 2048 with three digits |
| HdrIndex.Resolution | dt/hdrhist/hdr.go:402-437 | the highest equivalent value exceeds v by less than the lowest trackable value or by less than v / 10^sigfigs |
| HdrIndex.StaysInRange | dt/hdrhist/hdr.go:46-92 | for arguments in range the limit fits 64 bits; for any 64-bit value the bucket, the sub-bucket and the index, and the number of slots, fit 32; for a trackable value the end of its slot fits 64 |
| HdrIndex.NoLimitReaches | dt/hdrhist/hdr.go:70-78 | for a highest value above 2^62 no limit that fits 64 bits covers it, so the doubling loop of New overflows |
| Histogram.New | dt/hdrhist/hdr.go:46-92 | null exactly for a precision outside 1..5; otherwise an empty histogram of that configuration |
| Histogram.Hist.RecordValues | dt/hdrhist/hdr.go:226-235 | succeeds exactly from 0 to below the limit, adds n to the one slot of v and to the total, and records v n times; total and counts stay as far apart as they were |
| Histogram.Hist.RecordValue | dt/hdrhist/hdr.go:195-197 | records one occurrence or refuses a negative or too large value |
| Histogram.Hist.RecordCorrectedValue | dt/hdrhist/hdr.go:204-222 | records the value and the values a stall of that length has hidden, none of which is refused; a negative or too large value is |
| Histogram.Hist.FillIn | dt/hdrhist/hdr.go:214-219 | the loop records exactly first, first - interval, ... down to the interval |
| Histogram.MissingIs | dt/hdrhist/hdr.go:210-219 | the values a stall has hidden start one interval below the value and go down by the interval to the last that is no less than it |
| Histogram.Hist.ValueAtQuantile | dt/hdrhist/hdr.go:238-255 | panics exactly when the scan runs off the counts before the rank is reached; for any recorded multiset it does not, the order statistic of that rank exists, and the report is its highest equivalent value: never below it, and within the resolution above it; to half a value the share q of what was recorded is at or below the report and no more lies below its slot; from 100 on it reports the largest value |
| Histogram.RankIsShare | dt/hdrhist/hdr.go:239-243 | the rank of a quantile from 0 to 100 is its share of the total to the nearest, and lies between none and all of it |
| Histogram.RankMono | dt/hdrhist/hdr.go:239-243 | a larger quantile never has a smaller rank, and from 100 on the rank is the total |
| Histogram.Hist.ValueAtRank | dt/hdrhist/hdr.go:245-254 | the same by rank, for every rank from 1 to the number of recorded values |
| Histogram.AnswerIsUnique | dt/hdrhist/hdr.go:245-254 | for any counts, total and rank the scan has one answer: the end of the slot with which the running count reaches the rank, 0 when the total is seen first, or the panic |
| Histogram.OrderStatisticExists | dt/hdrhist/hdr.go:238-255 | each rank from 1 to the total has exactly one order statistic, and it was recorded |
| Histogram.RankSlot | dt/hdrhist/hdr.go:238-255 | the slot of the r-th smallest value is where the running count first reaches r |
| Histogram.Hist.Maximum | dt/hdrhist/hdr.go:125-134 | panics exactly when the scan runs off the counts; otherwise the end of the last slot in use, which for recorded values is that of the largest, and that of 0 when empty |
| Histogram.Hist.Minimum | dt/hdrhist/hdr.go:137-147 | panics exactly for a positive total and empty slots; otherwise the start of the first slot in use, which for recorded values is that of the smallest, and 0 when empty |
| Histogram.Hist.Merge | dt/hdrhist/hdr.go:105-117 | from another histogram: counts as the slot-by-slot merge of the slots the scan reads has them; panics exactly when it runs off, and total' = total + from.total - dropped exactly when it does not stop past the total; from itself: panics exactly for a positive total, after doubling every count |
| Histogram.SelfMergeRunsOff | dt/hdrhist/hdr.go:105-117 | a histogram with one recorded value, merged into itself, panics |
| Histogram.MergeConserves | dt/hdrhist/hdr.go:105-117 | nothing is lost or invented by a merge between any two configurations |
| Histogram.MergeSameConfig | dt/hdrhist/hdr.go:105-117 | for equal configurations nothing is dropped and the counts add up pointwise |
| Histogram.MergeIsRecording | dt/hdrhist/hdr.go:105-117 | between any two configurations merging comes to the same counts as recording, value by value, what fits of each slot's lowest value |
| Histogram.Hist.Reset | dt/hdrhist/hdr.go:186-191 | every count and the total become zero |
| Histogram.Hist.Equals | dt/hdrhist/hdr.go:315-338 | true exactly for equal configuration, total and counts |
| Histogram.Import | dt/hdrhist/hdr.go:362-374 | null exactly for a bad precision or too few counts; otherwise the snapshot's counts and the sum of the positive ones as total, and the histogram of each slot's lowest value recorded so many times exactly when none is negative |
| Counts.SumOfPositiveIsSum | dt/hdrhist/hdr.go:366-372 | the total Import computes is the sum of the counts exactly when none is negative |
| Counts.NegativeCountIsMissed | dt/hdrhist/hdr.go:366-372 | counts 2 and -1 give a total of 2 |
| Counts.ImportedRunsOff | dt/hdrhist/hdr.go:366-372 | with that total the iterator's bounds check fires exactly when there is a negative count before a positive one, and it never stops past the total |
| Counts.NegativeFirstRunsOff | dt/hdrhist/hdr.go:366-372 | it does for counts -1 and 2 |
| Counts.SumIsSeen | dt/hdrhist/hdr.go:475-490 | when the total is the sum of the counts the check cannot fire; without negative counts the scan stops at exactly the total and leaves nothing behind |
| Counts.NegativeLastOvershoots | dt/hdrhist/hdr.go:475-490 | with counts 2 and -1 it stops one past the total |
| Histogram.RoundTrip | dt/hdrhist/hdr.go:351-374 | Import(Export(h)) has the configuration and every count of h whatever the counts; the total of a histogram that was recorded exactly when none is negative |
| Histogram.RoundTripAnswers | dt/hdrhist/hdr.go:351-374 | it answers every quantile as h does |
| Histogram.NegativeCountRunsOff | dt/hdrhist/hdr.go:351-374 | -1 recorded of 0 and 2 of 1: Max of the copy panics |
| Histogram.Iterator.Next | dt/hdrhist/hdr.go:475-502 | visits slots 0, 1, 2, ... in order, stops exactly when it has seen the whole total, and its bounds check fires exactly when it has visited every slot before that |
| Histogram.Iterator.Advance | dt/hdrhist/hdr.go:484-493 | the next pair is canonical, has the next index, and is out of bounds exactly behind the last slot |
| Windowed.NewWindowed | dt/hdrhist/window.go:14-27 | null exactly for its panics; otherwise n distinct empty histograms and one for merging, with no window closed yet |
| Windowed.WindowedHistogram.Merge | dt/hdrhist/window.go:31-37 | each slot of the result is the sum of that slot over the last n windows there have been, the current one included; none of them changes |
| Windowed.WindowedHistogram.Rotate | dt/hdrhist/window.go:41-45 | what the current window holds joins the history, and the current window is empty |
| Windowed.WindowedHistogram.Record | dt/hdrhist/window.go:9-9 | a value goes into the current window and no other |
| Windowed.LastWindowsAreHeld | dt/hdrhist/window.go:41-45 | a ring in which each window overwrites the slot Rotate picks holds exactly the last n windows, each in a slot of its own |
| Windowed.SumOfHeld | dt/hdrhist/window.go:31-45 | so the sum over its slots is the sum over the last n windows, at any time |
| Windowed.WindowedHistogram.SlotsHoldLastWindows | dt/hdrhist/window.go:31-45 | and this is the ring the object holds |
| Replace.IndexFromIsFirst | strut/mut.go:519-531 | the search answers a match, the first one, and -1 only when there is none |
| Replace.MatchesAreLeftmost | strut/mut.go:512-531 | the matches replaced are the leftmost ones without overlap, at most n; with fewer, or a negative n, none is left behind |
| Replace.CountMatches | strut/mut.go:517-531 | the counting loop finds the number of leftmost non-overlapping matches, at most n |
| Replace.SplicedLength | strut/mut.go:537-539 | the new length is exact |
| Replace.SplicedIsReplaced | strut/mut.go:512-550 | replacing at the matches found is the simple left-to-right replacement |
| Replace.ReplacedByItself | strut/mut.go:512-550 | replacing a pattern by itself changes nothing |
| Replace.ReplaceSameLength | strut/mut.go:578-593 | in-place overwriting equals the simple replacement, and nothing behind the text is written |
| Replace.FindMatches | strut/mut.go:602-610 | the positions of the leftmost non-overlapping matches, at most n |
| Replace.MoveMatch | strut/mut.go:614-627 | moving the tail and writing the replacement keeps everything in front of the match and behind the new end |
| Replace.BackStep | strut/mut.go:612-630 | the backward pass always has room to its left: nothing unread is overwritten, and one more match is done |
| Replace.ReplaceGrowing | strut/mut.go:596-636 | the backward overlapping pass equals the simple replacement |
| Replace.Mutable.Replace | strut/mut.go:512-550 | for every text, pattern, substitute, limit and capacity the text becomes its simple replacement; the storage stays exactly when there is nothing to do or the result fits and is no shorter |
| JsonString.MarshalJSON | strut/mut.go:843-879 | the loop prints the text rune by rune between quotes |
| JsonString.PrintedIsJson | strut/mut.go:843-879 | the output is a string by section 7 of RFC 8259 exactly when the text is valid UTF-8 |
| JsonString.PrintedIsEscaped | strut/mut.go:843-879 | whatever the text, everything that must be escaped is, in JSON's way |
| JsonString.UnmarshalJSON | strut/mut.go:884-895 | not a quoted string, or one that does not parse, is an error that leaves the text alone; otherwise the text is the unquoted content |
| Utf8.FormIsRune | strut/mut.go:871-874 | the decoder accepts the shortest form of every scalar value, |
| Utf8.RuneIsForm | strut/mut.go:871-874 | and nothing else |
| Utf8.ValidIsEncoded | strut/mut.go:871-874 | valid text is the encoding of the scalar values that decoding it answers, |
| Utf8.EncodedIsValid | strut/mut.go:871-874 | and of no others |
| JsonString.UnquotedPrinted | strut/mut.go:843-895 | parsing what was printed gives the text with every malformed byte replaced by U+FFFD |
| JsonString.RoundTrip | strut/mut.go:843-895 | the round trip restores the text exactly when it is valid UTF-8 |
| JsonString.AcceptedIff | strut/mut.go:884-895 | of the strings that section 7 of RFC 8259 allows exactly those with an escaped solidus or an escaped surrogate are rejected |
| JsonString.AcceptedMeans | strut/mut.go:884-895 | and what is accepted is parsed to the text, in UTF-8, of the code points the string stands for |
| JsonString.EncodedIsForm | strut/mut.go:884-895 | exactly the scalar values are encoded, each as its own UTF-8 form |
| JsonString.ShortEscape | strut/mut.go:884-895 | \u stands for the code point of its digits, and is rejected exactly for a bad digit or a surrogate |
| JsonString.LongEscape | strut/mut.go:884-895 | \U the same of eight digits |
| JsonString.ByteEscape | strut/mut.go:884-895 | \x stands for the byte of its two digits |
| JsonString.OctalEscape | strut/mut.go:884-895 | three octal digits stand for the byte they spell, if it is one |
| JsonString.LetterEscape | strut/mut.go:884-895 | the letters and what each stands for |
| JsonString.RejectedJson | strut/mut.go:884-895 | one rejected JSON string of each kind: the escaped solidus, and the two escapes of U+1F600 |
| JsonString.AcceptedIsJson | strut/mut.go:881-895 | of the texts that are accepted exactly those without an escape of Go's own, without an unescaped control character and in valid UTF-8 are JSON strings |
| JsonString.AcceptedNotJson | strut/mut.go:881-895 | one accepted text of each other kind: \x41, an unescaped tab, and the byte ff |
| Sorting.StableSortIsUnique | dt/list.go:448-460 | a sequence has only one stable sort |
| Sorting.MergeSortIsStable | dt/list.go:462-497 | splitting the front half off and giving ties to it makes the merge sort stable |
| Sorting.HeapSortIsStable | dt/heap.go:44-62 | pushing values in order into the heap sorts them stably |
| Sorting.ThreeSortsAgree | dt/list.go:438-497 | merge sort, heap insertion and any stable sort give the identical sequence, a permutation of the input |
| Sorting.AnySortIsStableIff | adt/ordered_set.go:21-24 | whatever else a sort does with ties, it is bound to be stable exactly when no two different values compare equal |
| LinkedList.List.constructor | dt/list.go:175-182 | a new list is a ring of its root alone |
| LinkedList.List.UncheckedAppend | dt/list.go:361-369 | links and length stay consistent: the ring and the items gain one at that place |
| LinkedList.List.UncheckedRemove | dt/list.go:371-381 | links and length stay consistent: the ring and the items lose that one, and the element belongs to no list |
| LinkedList.List.Append | dt/list.go:290-296 | links in exactly a detached element with a value, right after the given one; anything else changes nothing |
| LinkedList.List.PopElement | dt/list.go:184-192 | the root is answered by an empty element and nothing changes; a member is removed |
| LinkedList.List.PopFront | dt/list.go:68-68 | the first element and value, or an empty element exactly when the list is empty |
| LinkedList.List.PushBack | dt/list.go:58-58 | the value goes behind the others, in a new element |
| LinkedList.List.PushFront | dt/list.go:54-54 | the value goes in front of the others |
| LinkedList.Split | dt/list.go:475-482 | the larger front half is moved into a fresh list, the rest stays |
| LinkedList.MergeFronts | dt/list.go:484-492 | while both have elements the smaller front moves, ties to b; what is out followed by what is left is the merge |
| LinkedList.MergeLists | dt/list.go:484-497 | the merge of the two lists, in a fresh list; leftovers are copied into new elements |
| LinkedList.MergeSort | dt/list.go:462-473 | terminates and computes the merge sort of the items |
| LinkedList.List.SortMerge | dt/list.go:438-438 | the list holds the merge sort of its items; with two or more, no element sees itself as its member any more, and with fewer, elements and membership are untouched |
| LinkedList.List.SortQuick | dt/list.go:448-460 | for a total preorder the same sequence as SortMerge, with the same elements, still owned by the same list |
| LinkedList.Heap.Push | dt/heap.go:44-62 | the scan from the back puts the value behind everything it is not strictly before |
| LinkedList.Heap.Pop | dt/heap.go:70-70 | takes the first value, with an answer for the empty heap |
| LinkedList.Heap.Peek | dt/heap.go:74-74 | shows the first value and changes nothing |
| SimpleList.List.PushAfter | adt/simple_linked_list.go:19-29 | the ring and the items gain the element right after the given one, now owned by this list |
| SimpleList.List.PopElement | adt/simple_linked_list.go:21-32 | the root stays; a member leaves the ring, keeps its item and belongs to no list |
| SimpleList.List.SetItem | adt/simple_linked_list.go:23-23 | the item changes in place |
| SimpleList.ExtendPopped | adt/simple_linked_list.go:51-104 | the popping iterator, which pops one behind itself, moves every element over in order |
| SimpleList.Collect | adt/simple_linked_list.go:91-104 | the popping iterator takes every element out, in order |
| SimpleList.SplitHalves | adt/simple_linked_list.go:139-145 | both halves are turned round on the way into their lists |
| SimpleList.MergeBack | adt/simple_linked_list.go:151-162 | the emptied list receives the merge, ties to the left list |
| SimpleList.SortMerge | adt/simple_linked_list.go:130-163 | terminates with exactly the same elements, each with its item, in the order of the merge sort |
| SimpleList.MergeSorts | adt/simple_linked_list.go:130-163 | that order is sorted and a permutation |
| SimpleList.MergePermutes | adt/simple_linked_list.go:130-163 | a permutation whatever the comparison function |
| SplitOrder.StableIff | adt/simple_linked_list.go:130-163 | for values no two of which are the same the sort is stable exactly when every tie is at two positions that the splitting keeps in order; for any values it is stable then |
| SplitOrder.ClassSorted | adt/simple_linked_list.go:130-163 | the values equal to x come out in order when all pairs of them keep theirs and in reverse when all lose it; without repetitions, only then |
| SimpleList.MergeSortIsNotStable | adt/simple_linked_list.go:139-145 | not always stable: four equal values come out as second, first, fourth, third |
| SimpleList.SortQuick | adt/simple_linked_list.go:112-127 | exactly the same elements, each with its item, in sorted order; stably when no two different values compare equal |
| OrderedContainers.KeyIndex | adt/ordered_set.go:51-82 | the hash leads each key to the one list element that holds it |
| OrderedContainers.SameLength | adt/ordered_set.go:37-37 | the hash and the list have the same size |
| OrderedContainers.OrderedSet.Len | adt/ordered_set.go:37-37 | the length from the hash is the length of the list |
| OrderedContainers.OrderedSet.Check | adt/ordered_set.go:40-40 | true exactly for members |
| OrderedContainers.OrderedSet.Add | adt/ordered_set.go:70-82 | an old member changes nothing, a new one goes to the back; hash and list agree |
| OrderedContainers.OrderedSet.Delete | adt/ordered_set.go:51-65 | takes exactly that member out, also after a sort; hash and list agree |
| OrderedContainers.OrderedSet.SortQuick | adt/ordered_set.go:24-24 | sorted, the same members, and the hash still leads to the right elements; stably when no two members compare equal |
| OrderedContainers.OrderedSet.SortMerge | adt/ordered_set.go:28-28 | the same members, and the hash still leads to the right elements, whatever the comparison function; for a total preorder sorted, and stable exactly when every tie is at two positions that keep their order |
| OrderedContainers.OrderedMap.Len | adt/ordered_map.go:31-31 | the length of the list is the size of the hash |
| OrderedContainers.OrderedMap.Load | adt/ordered_map.go:42-49 | the value under the key, if there is one |
| OrderedContainers.OrderedMap.Set | adt/ordered_map.go:70-86 | an existing key keeps its place, a new one goes to the back |
| OrderedContainers.OrderedMap.Ensure | adt/ordered_map.go:90-97 | an existing key is not modified, a new one gets the zero value |
| OrderedContainers.OrderedMap.Delete | adt/ordered_map.go:52-64 | takes exactly that key out |
| OrderedContainers.PutThenLookup | adt/ordered_map.go:75-86 | setting a key changes what that key leads to and nothing else |
| OrderedContainers.DropThenLookup | adt/ordered_map.go:52-64 | deleting a key takes that key out and nothing else |
| RingBuffer.Setup | dt/ring.go:41-63 | on a zero ring an invariant violation exactly for a given size below 2 or above the maximum, otherwise an empty ring of that or the default size; on a ring in use nothing |
| RingBuffer.AfterBefore | dt/ring.go:67-69 | after and before step one slot around the ring, for every slot |
| RingBuffer.Ring.Push | dt/ring.go:103-115 | a push onto a full ring drops exactly the oldest item, any other push drops nothing |
| RingBuffer.Ring.UsedFrom | dt/ring.go:71-76 | from the start of the scan on, a slot is used exactly when it holds one of the last count pushes |
| RingBuffer.Ring.Pop | dt/ring.go:122-138 | the scan terminates and answers the oldest item, or nothing exactly when empty |
| RingBuffer.LastPushesAreKept | dt/ring.go:103-115 | of everything queued or pushed exactly the last size items are kept, in order |
| RingBuffer.ForwardShowsAll | dt/ring.go:143-143 | a whole walk forward shows the contents in order |
| RingBuffer.BackwardShowsAll | dt/ring.go:147-147 | a whole walk backward shows them reversed |
| RingBuffer.Walk.FIFO | dt/ring.go:143-143 | a fresh FIFO iterator has the contents in order ahead of it |
| RingBuffer.Walk.LIFO | dt/ring.go:147-147 | a fresh LIFO iterator has them in reverse |
| RingBuffer.Walk.Run | dt/ring.go:168-185 | a loop over the iterator shows what is left, in order, as far as the consumer goes; the next loop goes on from there |
| RateLimit.Trim | pubsub/iterators.go:37-39 | drops exactly the sends that have left the window |
| RateLimit.AwaitRoom | pubsub/iterators.go:35-51 | returns at the first reading with room for a send; at every reading before there was none, and each took one answer of the timer |
| RateLimit.Run | pubsub/iterators.go:14-57 | items go out in input order without loss, each at the reading after the first one with room; sends num apart are more than the window apart; it is left only at the end of the input, which never waits, by the context, by the consumer, or for want of a reading |
| RateLimit.NoStretchHoldsMore | pubsub/iterators.go:11-13 | no stretch of window length, wherever it starts, holds more than num sends |
| Chunks.Chunker.Take | irt/irt.go:975-983 | hands out the next element of the chunk, and nothing exactly at its end |
| Chunks.Chunker.Skip | irt/irt.go:989-991 | however much was consumed, the pull ends up at the boundary |
| Chunks.Chunk | irt/irt.go:959-994 | chunk k draws from exactly input[k * num .. min((k + 1) * num, n)] whatever was drawn before, and never starts empty |
| Chunks.DrainedChunksAreTheInput | irt/irt.go:959-994 | drained chunks put together are the input |
| Pool.StepKeepsCalls | irt/irt.go:825-843 | no interleaving lets two workers into the consumer, or anyone again after it has refused or panicked |
| Pool.StepConserves | irt/irt.go:894-925 | no step loses or doubles an element |
| Pool.PulledElementsReachOp | irt/irt.go:894-925 | when the workers have stopped every pulled element went to op exactly once, and from there to the consumer once unless op panicked or the sink was closed |
| Pool.UndisturbedRunDeliversAll | irt/irt.go:882-925 | without cancellation, refusal and panic every input element goes to the consumer exactly once |
| Pool.ResultsAreTheMap | irt/irt.go:882-888 | what the consumer then got is, as a multiset, op mapped over the input |
| Pool.AllAtOnce | irt/irt.go:894-925 | with enough input all the workers asked for, and at least one, can be on their way to op at once |
| Pool.CancelStopsPulls | irt/irt.go:912-916 | once cancelled, by whomever, the pool pulls no more than the elements whose pull was under way |
| Pool.CancelCancels | irt/irt.go:912-916 | the caller's cancellation is one of these |
| Pool.CancelledIff | irt/irt.go:912-920 | at any moment the pool is cancelled, or about to be, exactly when the caller has cancelled it or some worker has been told to stop: by the end of the input, a closed sink, a refusal or a panic |
| Pool.PanicIsRaised | irt/irt.go:903-921 | when the workers have stopped there is a panic to raise again exactly when there was one, in the input, in op or in the loop body |
| Pool.EarlyEndHasReason | irt/irt.go:894-925 | with input left the pool ends only by the caller's cancellation, a panic, or the consumer's refusal |
| PoolProgress.PoolEnds | irt/irt.go:894-925 | no interleaving takes more than 10 n + 4 num worker steps, and some worker can always move until all have stopped |
| Shards.StepKeepsPlace | irt/irt.go:1148-1189 | no step lets an element go to two iterations or to none |
| Shards.EachElementToOneShard | irt/irt.go:1148-1206 | over any interleaving each pulled element is with exactly one iteration of one shard or was dealt with by exactly one, and the countdown is the number of unfinished shards |
| Shards.AllShardsAreHandedOut | irt/irt.go:1149-1206 | no run hands out more shards than asked for, at least one, and an outer loop that goes through hands out all of them |
| Shards.FinishedIff | irt/irt.go:1176-1206 | a shard is taken off the countdown exactly by the end of an iteration over it, however that came, or by the outer loop's breaking off on it or before it |
| Shards.StoppedYieldsNothing | irt/irt.go:1168-1171 | once the pull has been stopped it yields nothing more |
| Shards.StepLetsGo | irt/irt.go:1168-1185 | every step keeps what is known about the release of the pull |
| Shards.PullIsLetGo | irt/irt.go:1168-1206 | when no shard is left, the context has ended or the input is exhausted, and no call of release is still to run, the input has been let go exactly unless a kept shard was first pulled after the outer loop had broken off in its first body and returned, and not pulled to the end since |
| Shards.LatePullIsNotLetGo | irt/irt.go:1198-1203 | such a run: the outer loop breaks off before any use, and the kept shard is pulled once afterwards; the input is let go only if that pull found it empty |
| Shards.EarlyStop | irt/irt.go:1198-1203 | when the outer loop has stopped early and the input is in use, it has been let go exactly when every shard handed out has finished or the context has ended, and no pull came too late |
| Shards.EarlyStopHoldsOn | irt/irt.go:1198-1203 | a run in which it is not: the outer loop stops at its second shard while the first is in use |
| Shards.CancelStopsShards | irt/irt.go:1159-1162 | after the end of the context no shard gets another element |
| Shards.CancelIsFinal | irt/irt.go:1159-1162 | the caller's cancellation is such an end |
| Shards.UndisturbedShardsTakeAll | irt/irt.go:1148-1206 | without cancellation and breaks the ended iterations have dealt with every element exactly once |

## Left out

- Real goroutines, `sync` internals, timers and the Go memory model: interleaving of lock-held stretches and an arbitrary monotone clock stand for them.
- Histogram.New: a lowest trackable value below 1 or above 2^44, whose slots do not fit 64 bits, and a highest one above 2^62, for which the doubling overflows.
- Windowed.NewWindowed: the same values, as it calls `New`; the index starts at 0 after its first `Rotate`, where the code starts it at -1 and rotates once.
- Windowed.WindowedHistogram: windows in which a caller has recorded a negative number of occurrences.
- HdrIndex.StaysInRange: counts and totals, which recording can drive beyond 64 bits.
- Histogram.Hist.ValueAtQuantile: the rank is rounded over exact reals, not over `float64`, so a quantile on the edge between two ranks may differ; a rank below 1 is answered with the first slot, recorded or not, as in the code.
- Histogram.Hist.Merge: two histograms imported from one snapshot, which share their counts in the code.
- Histogram.Import: a snapshot with more counts than its configuration has slots is taken without the rest, where the code keeps the longer slice.
- Histogram: `Mean`, `StdDev`, the percentile iterator and `CumulativeDistribution`, which are floating point; `Distribution` and `ByteSize`.
- Limits.Tracker.Remove: rounding of the `float64` credit.
- Limits.Validate: a `BurstCredit` that is not a number, which passes both comparisons and never runs out.
- LinkedQueue.Queue, LinkedDeque.Deque: `IteratorWaitPop` and the other compositions of one blocking call in a loop; `Len`; lazy initialisation.
- QueueSystem.Event, DequeSystem.Event: a broadcast that outlives the call it was started for may come at any time, which allows more runs than the code has.
- Replace.Mutable.Replace: a pattern or substitute that shares storage with the buffer; integer overflow of the new length.
- JsonString.UnmarshalJSON: `append` into the old storage.
- LinkedList.List: `Swap`, `IsSorted`, `Copy`, `Reset` and JSON; nil lists and elements; an uninitialised list, which the code sets up on first use; appending an element that some other list still holds.
- LinkedList.List.SortMerge, LinkedList.MergeSort: what becomes of a list object that shared its root before the sort.
- OrderedContainers: the mutex and `SyncMap` are a plain map; iteration concurrent with changes; JSON.
- RingBuffer.Ring: the `uint64` total does not wrap; `Head` and `Tail`; changes to the ring in the middle of a walk; JSON.
- RateLimit.Run: how long a timer waits; only its effect on the readings that follow.
- Chunks.Chunk: inner sequences consumed from another goroutine, which the code forbids; breaking off is in a chunk, after its draws.
- Pool: which of several panics is raised again; the two- and three-valued forms; a source that ignores the context and blocks.
- Shards: a panic of the input or of a loop body, which ends that iteration as a break does.
- `pubsub.Stream`, the broker, `srv`, `erc`, `wpa`, the `fn` wrappers, `confl`, `dt.Optional`, `dt.BinHeap`, `dt.Stack`, `strut` builders: thin composition, reflection, text output or library algorithms.
