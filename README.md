# Resource pool of threads-demo, modelled in Dafny

`Pool<R>` in `src/main/java/com/threads/demo/model/Pool.java` is a generic pool of reusable
resources. Its state is three things:

- a bounded FIFO buffer of available resources, an `ArrayBlockingQueue` of capacity
  `POOL_SIZE = 10`;
- a `HashSet` of managed resources, which holds both the available ones and the ones checked out;
- an open/closed lifecycle. The pool is open exactly when the queue reference is non-null.

The operations are `open`, `isOpen`, `close`, `closeNow`, `add`, `remove`, `removeNow`,
`acquire()`, `acquire(timeout, unit)`, `release` and `size`.

The project has four modules.

- `Sequences` (`sequences.dfy`) defines `RemoveFirst`, what `Collection.remove(Object)` does to the
  queue in `remove` and to the drained `ArrayList` in `removeNow`. Lemmas state that it cuts out
  exactly the first equal element and keeps the order of the rest, and what it does to counts and
  duplicates.
- `PoolSpec` (`pool_spec.dfy`) is the pool as a sequential state machine over
  `PoolState(open, buffer, managed)`. It has one function per operation. A blocking `put` or `take`
  that would suspend gives the outcome `WouldBlock` and leaves the state unchanged. `acquire()` on a
  pool that is not open gives `Failed("Pool is closed")`. Lemmas give each operation's behaviour:
  - `open` is idempotent;
  - admission deduplicates;
  - removal answers whether the resource was managed;
  - the head is taken and the tail appended;
  - borrow-and-return conserves the buffer.
- `PoolTraces` (`pool_traces.dfy`) runs sequences of calls one after another. It proves that:
  - no run ever buffers more than ten resources;
  - a closed pool has an empty buffer;
  - "every buffered resource is managed, and at most once" holds only under a usage discipline.
  It also holds the counter-examples and the sequential forms of the repository's tests.
- `ResourcePool` (`resource_pool.dfy`) is the class `Pool<R(==)>`. It has the fields `open`,
  `buffer: seq<R>` and `managed: set<R>`, which its methods update in place. `close` runs its
  take-until-empty loop. `removeNow` drains the buffer into a list, deletes the resource from the
  list and refills the buffer. Each method's `ensures` ties the new state and its result to the
  `PoolSpec` function of the same name.

One would expect a pool never to buffer a resource it does not manage. The code does not
guarantee this. `release` checks only that the resource is managed, not whether it is already
buffered (Pool.java:95-96). `remove` deletes only one buffered occurrence (Pool.java:58-61), and
`add` buffers a resource again once it has been removed while checked out (Pool.java:45-47).

- `PoolTraces.ReleaseDuplicates` shows a run that buffers a resource twice.
- `PoolTraces.StaleEntryAfterCheckedOutRemove` shows that releasing only what `acquire` returned
  is not enough. The sequence is: remove a resource while it is checked out, add it again, then
  release it. The buffer now holds it twice, and a second `remove` leaves an unmanaged resource
  buffered.
- The invariant is proved, by `PoolTraces.RunKeepsSound`, under the discipline that a resource
  is released only while it is not already buffered.

The timed `acquire` has no open check: on a closed pool it dereferences the missing queue
(Pool.java:90-92). In the model that call requires an open pool.

`ResourcePool.Demo` drives the sequential steps of the repository's tests through the object's
methods. It asserts the result of each call from the methods' contracts alone.

## Model

| member | source | states |
|---|---|---|
| `ResourcePool.Pool.constructor` | src/main/java/com/threads/demo/model/Pool.java:13-17 | a new pool is not open, with an empty buffer and nothing managed |
| `ResourcePool.Pool.Open` | src/main/java/com/threads/demo/model/Pool.java:19-24 | new state is `PoolSpec.Open` of the old one: a closed pool opens empty, an open one is unchanged |
| `ResourcePool.Pool.IsOpen` | src/main/java/com/threads/demo/model/Pool.java:26-28 | true exactly when the buffer exists |
| `ResourcePool.Pool.Close` | src/main/java/com/threads/demo/model/Pool.java:30-35 | the take loop ends with an empty buffer, the pool not open, the managed set untouched (`PoolSpec.Close`) |
| `ResourcePool.Pool.CloseNow` | src/main/java/com/threads/demo/model/Pool.java:37-39 | buffer emptied, pool still open, managed set untouched (`PoolSpec.CloseNow`) |
| `ResourcePool.Pool.Add` | src/main/java/com/threads/demo/model/Pool.java:41-52 | new state and result are those of `PoolSpec.Add`, capacity kept |
| `ResourcePool.Pool.Remove` | src/main/java/com/threads/demo/model/Pool.java:54-65 | new state and result are those of `PoolSpec.Remove` |
| `ResourcePool.Pool.RemoveNow` | src/main/java/com/threads/demo/model/Pool.java:67-81 | drain, delete from the list and refill give exactly the state and result of `PoolSpec.Remove` |
| `ResourcePool.Pool.Acquire` | src/main/java/com/threads/demo/model/Pool.java:83-88 | new state and result are those of `PoolSpec.Acquire`: "Pool is closed" failure, would-block, or the head |
| `ResourcePool.Pool.AcquireWithin` | src/main/java/com/threads/demo/model/Pool.java:90-92 | new state and result are those of `PoolSpec.AcquireWithin`: none on an empty buffer, otherwise the head |
| `ResourcePool.Pool.Release` | src/main/java/com/threads/demo/model/Pool.java:94-98 | new state and result are those of `PoolSpec.Release` |
| `ResourcePool.Pool.Size` | src/main/java/com/threads/demo/model/Pool.java:100-102 | the number of available resources, between 0 and the capacity 10 |
| `Sequences.RemoveFirst` | src/main/java/com/threads/demo/model/Pool.java:59 | removal by equality shortens the buffer by one exactly when the resource occurs |
| `Sequences.IndexOf` | src/main/java/com/threads/demo/model/Pool.java:74 | the first position holding the resource: it holds it and no earlier one does |
| `Sequences.RemoveFirstAt` | src/main/java/com/threads/demo/model/Pool.java:74 | when the resource occurs, only its first occurrence is cut out and the rest keeps its order |
| `Sequences.RemoveFirstAbsent` | src/main/java/com/threads/demo/model/Pool.java:59 | when the resource does not occur, the buffer is unchanged |
| `Sequences.RemoveFirstMultiset` | src/main/java/com/threads/demo/model/Pool.java:59 | one copy of the resource goes, every other element keeps its count |
| `Sequences.RemoveFirstSubset` | src/main/java/com/threads/demo/model/Pool.java:59 | removal brings in no new element |
| `Sequences.RemoveFirstNoDup` | src/main/java/com/threads/demo/model/Pool.java:59 | on a duplicate-free buffer, removal leaves no copy of the resource and no duplicate |
| `Sequences.AppendNoDup` | src/main/java/com/threads/demo/model/Pool.java:46 | putting an absent resource at the tail keeps the buffer duplicate-free |
| `PoolSpec.OpenIdempotent` | src/main/java/com/threads/demo/model/Pool.java:19-24 | opening twice is opening once; a closed pool opens with empty buffer and managed set; an open one, managed set included, is unchanged |
| `PoolSpec.CloseEmptiesAndCloses` | src/main/java/com/threads/demo/model/Pool.java:30-39 | `close` empties and closes; `closeNow` empties but stays open; neither touches the managed set |
| `PoolSpec.AddSpec` | src/main/java/com/threads/demo/model/Pool.java:41-52 | a managed resource gives false and no change; otherwise with room true, tail append and insertion in the managed set; would-block exactly when unmanaged and full |
| `PoolSpec.AddTwice` | src/test/java/com/threads/demo/DemoApplicationTests.java:33-50 | after a successful `add`, a second `add` of the same resource gives false and changes nothing |
| `PoolSpec.RemoveSpec` | src/main/java/com/threads/demo/model/Pool.java:54-65 | true exactly when the resource was managed; afterwards it is not managed; the buffer loses exactly its first occurrence, or nothing if it is absent or unmanaged |
| `PoolSpec.RemoveTwice` | src/test/java/com/threads/demo/DemoApplicationTests.java:52-89 | a second `remove` of the same resource gives false and changes nothing |
| `PoolSpec.AcquireSpec` | src/main/java/com/threads/demo/model/Pool.java:83-88 | a pool that is not open fails with "Pool is closed"; an empty open one would block; otherwise the head is returned, the buffer loses it and the managed set is unchanged |
| `PoolSpec.AcquireWithinSpec` | src/main/java/com/threads/demo/model/Pool.java:90-92 | none exactly on an empty buffer, otherwise the same resource and state as `acquire()` |
| `PoolSpec.AcquireReturnsManaged` | src/main/java/com/threads/demo/model/Pool.java:83-88 | on a sound pool a borrowed resource is a managed one |
| `PoolSpec.ReleaseSpec` | src/main/java/com/threads/demo/model/Pool.java:94-98 | an unmanaged resource is dropped with no change; a managed one goes to the tail when there is room; the managed set never changes |
| `PoolSpec.Cycle` | src/main/java/com/threads/demo/model/Pool.java:83-98 | a borrow followed by the return of what was borrowed keeps the pool open and the managed set unchanged |
| `PoolSpec.CycleRotates` | src/main/java/com/threads/demo/model/Pool.java:83-98 | with a managed head, borrow-and-return moves the head of the buffer to its tail |
| `PoolSpec.Cycles` | src/test/java/com/threads/demo/DemoApplicationTests.java:92-112 | any number of cycles keeps the pool open and the managed set unchanged |
| `PoolSpec.CyclesConserve` | src/test/java/com/threads/demo/DemoApplicationTests.java:92-112 | after any number of cycles the buffer has the same size and the same resources, as many of each, all still managed |
| `PoolSpec.SingleResourceCycles` | src/test/java/com/threads/demo/DemoApplicationTests.java:92-112 | one managed resource borrowed and returned any number of times: every cycle's `acquire` returns it and its `release` succeeds, and it ends alone in the buffer |
| `PoolTraces.ApplyKeepsWf` | src/main/java/com/threads/demo/model/Pool.java:15-102 | every operation keeps the buffer within ten and empty on a closed pool |
| `PoolTraces.RunKeepsWf` | src/main/java/com/threads/demo/model/Pool.java:15-102 | no sequence of calls ever buffers more than ten resources |
| `PoolTraces.ApplyKeepsSound` | src/main/java/com/threads/demo/model/Pool.java:41-98 | each operation keeps the buffer a duplicate-free list of managed resources when a release is of a resource not already buffered |
| `PoolTraces.RunKeepsSound` | src/main/java/com/threads/demo/model/Pool.java:41-98 | a run under that discipline keeps the buffer a duplicate-free list of managed resources |
| `PoolTraces.ReachableSound` | src/main/java/com/threads/demo/model/Pool.java:19-98 | from a new pool, every disciplined run leaves only managed resources in the buffer |
| `PoolTraces.ReleaseDuplicates` | src/main/java/com/threads/demo/model/Pool.java:94-98 | open, add `x`, release `x` is a valid run that buffers `x` twice, so soundness is not an invariant of every run |
| `PoolTraces.StaleEntryAfterCheckedOutRemove` | src/main/java/com/threads/demo/model/Pool.java:54-98 | releasing what `acquire` returned, after a remove and re-add while it was checked out, leaves `x` buffered and unmanaged after the next remove |
| `PoolTraces.AddTwiceScenario` | src/test/java/com/threads/demo/DemoApplicationTests.java:33-50 | on a newly opened pool, `add(x)` twice gives true then false and one available resource |
| `PoolTraces.RemoveThenReleaseScenario` | src/test/java/com/threads/demo/DemoApplicationTests.java:52-70 | after open and add, `remove(x)` is true, the buffer is empty and `release(x)` is a no-op |
| `PoolTraces.TimeoutOnEmptyScenario` | src/test/java/com/threads/demo/DemoApplicationTests.java:114-137 | after open and `add(x)`, `acquire()` returns `x`, and while `x` is checked out the timed acquire returns none and changes nothing; on an open pool with nothing added it also returns none |
| `PoolTraces.OpenCloseScenario` | src/test/java/com/threads/demo/DemoApplicationTests.java:139-174 | a new pool is not open, `open` opens it and is idempotent, `close` closes it |
| `PoolTraces.ManyCyclesScenario` | src/test/java/com/threads/demo/DemoApplicationTests.java:92-112 | each of fifty thousand borrow-and-return cycles on one added resource borrows it and returns it, and at the end it is alone in the buffer |

## Left out

- Concurrency is not modelled: `synchronized`, the unsynchronised `acquire`/`release`/`size`, and the
  tests' concurrent harness. Each operation is modelled as one atomic sequential step.
- Blocking is not modelled as waiting. A `put` on a full buffer or a `take` on an empty one is the
  outcome `WouldBlock` with no change. `InterruptedException` is not modelled.
- The wait of `acquire(timeout, unit)` is not modelled. The call is an immediate poll, and the
  timeout and its unit are not parameters of the model.
- Exceptions from dereferencing a queue or set that does not exist are not modelled. They arise on a
  closed or never-opened pool. The model requires an open pool instead, for `close`, `closeNow`,
  `add`, `remove`, `removeNow`, the timed `acquire`, `release` and `size`.
- ResourcePool.Pool.Add: requires an open pool, although the source also returns false, without
  failing, on a closed pool that was opened before and still manages the resource.
- ResourcePool.Pool.Release: requires an open pool, although the source is also a no-op, without
  failing, on a closed pool that was opened before and no longer manages the resource.
- ResourcePool.Pool.Remove: requires an open pool, although the source also returns false, without
  failing, on a closed pool that was opened before and does not manage the resource.
- ResourcePool.Pool.RemoveNow: requires an open pool, although the source also returns false,
  without failing, on a closed pool that was opened before and does not manage the resource.
- Null resources are not modelled. The queue rejects them in `put`.
- `Resource.java` is not part of this model: it is a record with no logic. The pool is generic over
  `R(==)`, and Dafny's value equality stands in for the record's generated `equals` and `hashCode`.
  Mutating a resource while it is in the `HashSet` is not modelled.
- The application bootstrap and the test framework are not modelled.
