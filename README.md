# LockFreeQueue: a verified sequential model

`LockFreeQueue` (lfQueue.h) is a fixed-capacity ring buffer of element pointers.
Producers and consumers coordinate through three counters and compare-and-swap
(CAS), with no lock:

- `header_` is the next slot to consume.
- `tailer_` is the next slot a producer claims.
- `guard_` bounds what consumers may see.

This project models the queue as one thread sees it. With one thread, every CAS
succeeds on the first try, and the queue behaves as a bounded first-in first-out
queue. A ring of `cap` slots holds at most `cap - 1` items.

Modules:

- `Fifo` (fifo.dfy) gives the queue's meaning as pure functions.
  - `Step` is one call. `Run` is a sequence of calls.
  - Lemmas about any sequence of calls: nothing is lost, duplicated or reordered
    (`RunIsFifo`); the item count balances (`RunCount`); the room is never
    exceeded (`RunStaysWithinRoom`); an empty queue fills to `cap - 1` items and
    then refuses (`FillsToRoomThenRefuses`).
- `LfQueue` (lf_queue.dfy) is the class `LockFreeQueue<Elem>`.
  - It has a `slots: array<Option<Elem>>` (`None` is the null pointer), the
    counters `head`, `tail` and `guard`, and the clamped capacity `cap`.
  - A ghost `contents` holds the abstract FIFO.
  - `Valid()` is the object invariant:
    - each counter lies in `[0, cap)` and `cap >= 4`;
    - `guard == tail`;
    - `|contents|` is the forward distance from `head` to `tail`;
    - the slot `d` steps after `head` holds `contents[d]`;
    - every other slot is null.
  - `Enqueue` and `Dequeue` keep the source's `do … while` retry loops. They call
    `Cas`, a model of the platform CAS macro. Each method's contract ties the
    new `contents` to `Fifo.Step`, so the `Run` lemmas apply to any sequence of
    calls.
  - Counters and capacities are 32-bit signed (`Int32`). Every `+ 1` on them is
    proved free of overflow.
- `QueueScenarios` (scenarios.dfy) contains client methods. Each one proves a
  concrete run from the class contracts alone:
  - capacity 4 with items A, B, C and D;
  - a requested capacity below 4;
  - a dequeue on a fresh queue.

## Model

| member | source | states |
|---|---|---|
| `LfQueue.LockFreeQueue.constructor` | lfQueue.h:30-38 | The capacity is the requested one, raised to 4 when it is below 4. All three counters start at 0, every slot is null, the abstract queue is empty, and the invariant holds. |
| `LfQueue.LockFreeQueue.Cas` | lfQueue.h:13-17 | Returns the counter's previous value. Stores `desired` exactly when that value equals `expected`. The other two counters are unchanged. |
| `LfQueue.LockFreeQueue.InternalIndex` | lfQueue.h:56 | C remainder by the capacity. A non-negative value lands in `[0, cap)`. A negative value lands in `(-cap, 0]`. A value inside the ring is unchanged. One lap past the end wraps back by `cap`. |
| `LfQueue.LockFreeQueue.IsEmpty` | lfQueue.h:50-52 | `head == guard` holds iff the abstract queue is empty. |
| `LfQueue.LockFreeQueue.IsFull` | lfQueue.h:54 | `internal_index(tail + 1) == head` holds iff the queue holds `cap - 1` items. |
| `LfQueue.LockFreeQueue.HoldsAtMostRoom` | lfQueue.h:52-54 | In a valid queue, the item count equals `(tail - head + cap) % cap` and is at most `cap - 1`. |
| `LfQueue.LockFreeQueue.Enqueue` | lfQueue.h:58-91 | When the queue is full, returns false and changes nothing. Otherwise it writes the item into the slot at the old `tail`, advances `tail` and `guard` by one mod `cap`, appends the item to the abstract queue and returns true. No other slot or counter changes, and the invariant is kept. |
| `LfQueue.LockFreeQueue.Dequeue` | lfQueue.h:93-129 | When the queue is empty, returns false with a null item and changes nothing. Otherwise it returns the item in the slot at the old `head`, which is the front of the abstract queue. It nulls that slot, advances `head` by one mod `cap` and returns true. No other slot or counter changes, and the invariant is kept. |
| `LfQueue.PushKeepsRing` | lfQueue.h:76-81 | Writing an item into the free slot at `tail` and advancing `tail` by one mod `cap` keeps the ring invariant and appends the item, provided the queue was not full. |
| `LfQueue.PopKeepsRing` | lfQueue.h:109-119 | The slot at `head` holds the front item. Nulling that slot and advancing `head` by one mod `cap` keeps the ring invariant and removes the front item. |
| `Fifo.RunIsFifo` | lfQueue.h:58-129 | For any sequence of calls, the items held at the start plus the accepted items, in call order, equal the items handed out, in order, followed by the items still held. |
| `Fifo.RunCount` | lfQueue.h:58-129 | The number of items held equals the starting count plus the accepted enqueues minus the successful dequeues. |
| `Fifo.RunStaysWithinRoom` | lfQueue.h:54 | A queue that starts with at most `cap - 1` items never holds more than `cap - 1`. |
| `Fifo.RunAppend` | lfQueue.h:58-129 | Running one sequence of calls and then another is the same as running their concatenation. |
| `Fifo.EnqueuesFit` | lfQueue.h:58-91 | Enqueues that fit within `cap - 1` items are all accepted and appended in order. |
| `Fifo.FillsToRoomThenRefuses` | lfQueue.h:54 | Starting empty, the first `cap - 1` enqueues are accepted and the next one is refused. |
| `QueueScenarios.FourSlots` | lfQueue.h:58-129 | With capacity 4, A, B and C are accepted and D is refused. One dequeue yields A, after which D is accepted. Then B, C and D come out in that order, and a final dequeue fails. |
| `QueueScenarios.SmallCapacityIsRaised` | lfQueue.h:33 | With any requested capacity below 4, three enqueues succeed and the fourth is refused. |
| `QueueScenarios.FreshQueueIsEmpty` | lfQueue.h:30-38 | A dequeue on a freshly built queue fails with a null item. |

## Left out

- Concurrency is left out: interleavings of several producers and consumers,
  linearizability and memory ordering. The model is sequential, so every CAS
  succeeds, each retry loop runs once, and `guard` always equals `tail`. The
  question of whether the `guard_` CAS at lfQueue.h:81 publishes the right slot
  when producers race is therefore not modelled.
- The platform CAS macros (`InterlockedCompareExchange`,
  `__sync_val_compare_and_swap`) are foreign intrinsics. `Cas` stands for them.
  `CAS2` is never used and is not modelled.
- The destructor and the heap allocation of the slot array are left out.
  Allocation failure for a huge capacity is not modelled either.
- The payload of `QueueElem` (`data` and the `origin` flag, with its
  `uint32` to `bool` conversion) is left out. The queue never looks inside an
  element, so elements are an opaque type parameter `Elem`.
- The non-null `assert(item)` in `enqueue` is enforced by the parameter's type:
  `Enqueue` takes an `Elem`, never `None`.
- The unused `QStatus` enum and the commented-out yield loop are not modelled.
  dtype.h, os/Win.h and logger.h are not part of this model.
- LfQueue.LockFreeQueue.InternalIndex: does not state the congruence of the
  result with `v` for values two or more laps away from the ring. Only the range
  and the one-lap cases are stated. The queue itself only calls it on
  `tail + 1` and `head + 1`, which lie in `[1, cap]`.
