/**
 The pool as a sequential state machine: whether it is open, the FIFO buffer of available
 resources (a bounded blocking queue of capacity ten) and the set of managed resources.
 Each function gives the effect of one public operation of `Pool<R>` on that state; a call
 that would suspend in a blocking `put` or `take` is the outcome `WouldBlock` and changes
 nothing.
 */
module PoolSpec {
  import opened Sequences

  /** Capacity of the buffer (POOL_SIZE). */
  const Capacity: nat := 10

  /** Message of the exception that `acquire()` throws on a pool that is not open. */
  const ClosedMessage: string := "Pool is closed"

  datatype Option<T> = None | Some(value: T)

  /** What a call that may block or fail gives back. */
  datatype Outcome<T> = Done(value: T) | WouldBlock | Failed(message: string)

  datatype PoolState<R> = PoolState(open: bool, buffer: seq<R>, managed: set<R>)

  /** A newly constructed pool: not open, nothing buffered, nothing managed. */
  function Initial<R>(): PoolState<R>
  {
    PoolState(false, [], {})
  }

  /** What every operation keeps: the buffer fits the capacity and a closed pool has none. */
  ghost predicate Wf<R>(p: PoolState<R>)
  {
    |p.buffer| <= Capacity && (!p.open ==> p.buffer == [])
  }

  /** The accounting one would expect of a pool: every buffered resource is managed, and at most once. */
  ghost predicate Sound<R>(p: PoolState<R>)
  {
    Wf(p) && NoDup(p.buffer) && forall i :: 0 <= i < |p.buffer| ==> p.buffer[i] in p.managed
  }

  function Open<R>(p: PoolState<R>): PoolState<R>
  {
    if p.open then p else PoolState(true, [], {})
  }

  /** `close`: take every buffered resource, then drop the buffer; the managed set stays. */
  function Close<R>(p: PoolState<R>): PoolState<R>
    requires p.open
  {
    p.(open := false, buffer := [])
  }

  /** `closeNow`: clear the buffer; the pool stays open. */
  function CloseNow<R>(p: PoolState<R>): PoolState<R>
    requires p.open
  {
    p.(buffer := [])
  }

  function Add<R(==)>(p: PoolState<R>, r: R): (PoolState<R>, Outcome<bool>)
    requires p.open
  {
    if r in p.managed then (p, Done(false))
    else if |p.buffer| >= Capacity then (p, WouldBlock)
    else (p.(buffer := p.buffer + [r], managed := p.managed + {r}), Done(true))
  }

  /** `remove` and `removeNow`: forget `r` and delete its first buffered occurrence. */
  function Remove<R(==)>(p: PoolState<R>, r: R): (PoolState<R>, bool)
    requires p.open
  {
    if r in p.managed then (p.(buffer := RemoveFirst(p.buffer, r), managed := p.managed - {r}), true)
    else (p, false)
  }

  /** `acquire()`: fail on a pool that is not open, otherwise take the head of the buffer. */
  function Acquire<R>(p: PoolState<R>): (PoolState<R>, Outcome<R>)
  {
    if !p.open then (p, Failed(ClosedMessage))
    else if p.buffer == [] then (p, WouldBlock)
    else (p.(buffer := p.buffer[1..]), Done(p.buffer[0]))
  }

  /** `acquire(timeout, unit)` with the wait cut to nothing: poll the head of the buffer. */
  function AcquireWithin<R>(p: PoolState<R>): (PoolState<R>, Option<R>)
    requires p.open
  {
    if p.buffer == [] then (p, None)
    else (p.(buffer := p.buffer[1..]), Some(p.buffer[0]))
  }

  /** `release`: put a managed resource back at the tail; drop one that is not managed. */
  function Release<R(==)>(p: PoolState<R>, r: R): (PoolState<R>, Outcome<()>)
    requires p.open
  {
    if r !in p.managed then (p, Done(()))
    else if |p.buffer| >= Capacity then (p, WouldBlock)
    else (p.(buffer := p.buffer + [r]), Done(()))
  }

  // ----- open and close -----

  lemma OpenIdempotent<R>(p: PoolState<R>)
    ensures Open(Open(p)) == Open(p)
    ensures Open(p).open
    ensures p.open ==> Open(p) == p
    ensures !p.open ==> Open(p).buffer == [] && Open(p).managed == {}
  {
  }

  lemma CloseEmptiesAndCloses<R>(p: PoolState<R>)
    requires p.open
    ensures !Close(p).open && Close(p).buffer == [] && Close(p).managed == p.managed
    ensures CloseNow(p).open && CloseNow(p).buffer == [] && CloseNow(p).managed == p.managed
  {
  }

  // ----- add -----

  /** Admission deduplicates: it succeeds exactly for an unmanaged resource, which then sits at the tail. */
  lemma AddSpec<R>(p: PoolState<R>, r: R)
    requires p.open && Wf(p)
    ensures r in p.managed ==> Add(p, r) == (p, Done(false))
    ensures r !in p.managed && |p.buffer| < Capacity ==>
      Add(p, r).1 == Done(true) && Add(p, r).0.buffer == p.buffer + [r] &&
      Add(p, r).0.managed == p.managed + {r}
    ensures Add(p, r).1.WouldBlock? <==> r !in p.managed && |p.buffer| == Capacity
    ensures Add(p, r).1 == Done(true) <==> r !in p.managed && |p.buffer| < Capacity
  {
  }

  /** A second `add` of the same resource returns false and changes nothing. */
  lemma AddTwice<R>(p: PoolState<R>, r: R)
    requires p.open && Add(p, r).1 == Done(true)
    ensures Add(Add(p, r).0, r) == (Add(p, r).0, Done(false))
  {
  }

  // ----- remove -----

  /**
   `remove` answers whether `r` was managed; afterwards `r` is not managed and the buffer has
   lost exactly its first occurrence of `r`, everything else keeping its order.
   */
  lemma {:induction false} RemoveSpec<R>(p: PoolState<R>, r: R)
    requires p.open
    ensures Remove(p, r).1 <==> r in p.managed
    ensures r !in Remove(p, r).0.managed
    ensures Remove(p, r).0.managed == p.managed - {r}
    ensures r in p.managed && r in p.buffer ==>
      var i := IndexOf(p.buffer, r);
      Remove(p, r).0.buffer == p.buffer[..i] + p.buffer[i + 1..]
    ensures r !in p.managed || r !in p.buffer ==> Remove(p, r).0.buffer == p.buffer
    ensures multiset(Remove(p, r).0.buffer) ==
      if r in p.managed then multiset(p.buffer) - multiset{r} else multiset(p.buffer)
  {
    if r in p.managed {
      RemoveFirstMultiset(p.buffer, r);
      if r in p.buffer {
        RemoveFirstAt(p.buffer, r);
      } else {
        RemoveFirstAbsent(p.buffer, r);
      }
    }
  }

  /** A second `remove` of the same resource returns false and changes nothing. */
  lemma RemoveTwice<R>(p: PoolState<R>, r: R)
    requires p.open
    ensures Remove(Remove(p, r).0, r) == (Remove(p, r).0, false)
  {
  }

  // ----- acquire and release -----

  lemma AcquireSpec<R>(p: PoolState<R>)
    ensures !p.open ==> Acquire(p) == (p, Failed(ClosedMessage))
    ensures p.open && p.buffer == [] ==> Acquire(p) == (p, WouldBlock)
    ensures p.open && p.buffer != [] ==>
      Acquire(p).1 == Done(p.buffer[0]) && [p.buffer[0]] + Acquire(p).0.buffer == p.buffer &&
      Acquire(p).0.managed == p.managed && Acquire(p).0.open
  {
  }

  /** The timed acquire returns nothing on an empty buffer and otherwise what `acquire()` would. */
  lemma AcquireWithinSpec<R>(p: PoolState<R>)
    requires p.open
    ensures p.buffer == [] <==> AcquireWithin(p) == (p, None)
    ensures p.buffer != [] ==>
      AcquireWithin(p).0 == Acquire(p).0 && AcquireWithin(p).1 == Some(Acquire(p).1.value)
  {
  }

  /** A resource obtained from `acquire` was managed, as long as the pool was sound. */
  lemma AcquireReturnsManaged<R>(p: PoolState<R>)
    requires Sound(p) && Acquire(p).1.Done?
    ensures Acquire(p).1.value in p.managed
  {
  }

  lemma ReleaseSpec<R>(p: PoolState<R>, r: R)
    requires p.open
    ensures r !in p.managed ==> Release(p, r) == (p, Done(()))
    ensures r in p.managed && |p.buffer| < Capacity ==>
      Release(p, r) == (p.(buffer := p.buffer + [r]), Done(()))
    ensures Release(p, r).0.managed == p.managed && Release(p, r).0.open
  {
  }

  /** One borrow followed by the return of the borrowed resource. */
  function Cycle<R(==)>(p: PoolState<R>): (q: PoolState<R>)
    requires p.open
    ensures q.open && q.managed == p.managed
  {
    var (taken, out) := Acquire(p);
    if out.Done? then Release(taken, out.value).0 else taken
  }

  /**
   On an open pool whose buffered resources are managed, an acquire followed by the release of
   the resource it returned moves the head of the buffer to the tail.
   */
  lemma CycleRotates<R>(p: PoolState<R>)
    requires Wf(p) && p.open && p.buffer != []
    requires p.buffer[0] in p.managed
    ensures Cycle(p) == p.(buffer := p.buffer[1..] + [p.buffer[0]])
  {
  }

  /** `m` borrow-and-return cycles run one after another. */
  function Cycles<R(==)>(p: PoolState<R>, m: nat): (q: PoolState<R>)
    requires p.open
    ensures q.open && q.managed == p.managed
    decreases m
  {
    if m == 0 then p else Cycles(Cycle(p), m - 1)
  }

  /**
   Borrow-and-return conserves the pool: after any number of cycles the buffer holds the same
   resources, as many of each, and its size is unchanged.
   */
  lemma {:induction false} CyclesConserve<R>(p: PoolState<R>, m: nat)
    requires Wf(p) && p.open
    requires forall i :: 0 <= i < |p.buffer| ==> p.buffer[i] in p.managed
    ensures multiset(Cycles(p, m).buffer) == multiset(p.buffer)
    ensures |Cycles(p, m).buffer| == |p.buffer|
    ensures Wf(Cycles(p, m))
    ensures forall i :: 0 <= i < |Cycles(p, m).buffer| ==> Cycles(p, m).buffer[i] in p.managed
    decreases m
  {
    if m > 0 {
      var q := Cycle(p);
      if p.buffer != [] {
        CycleRotates(p);
        var rotated := p.buffer[1..] + [p.buffer[0]];
        assert p.buffer == [p.buffer[0]] + p.buffer[1..];
        assert multiset(rotated) == multiset(p.buffer);
        assert forall i :: 0 <= i < |rotated| ==> rotated[i] in multiset(p.buffer);
      }
      CyclesConserve(q, m - 1);
    }
  }

  /**
   One managed resource borrowed and returned any number of times: every cycle really borrows
   it and gives it back, and it ends up alone in the buffer.
   */
  lemma {:induction false} SingleResourceCycles<R>(p: PoolState<R>, x: R, m: nat)
    requires p.open && p.buffer == [x] && x in p.managed
    ensures Cycles(p, m) == p
    ensures forall k :: 0 <= k <= m ==> Cycles(p, k) == p
    ensures forall k :: 0 <= k < m ==> Acquire(Cycles(p, k)).1 == Done(x)
    ensures forall k :: 0 <= k < m ==> Release(Acquire(Cycles(p, k)).0, x).1 == Done(())
    decreases m
  {
    if m > 0 {
      CycleRotates(p);
      assert Cycle(p) == p;
      SingleResourceCycles(p, x, m - 1);
      assert Cycles(p, m) == Cycles(Cycle(p), m - 1);
    }
  }
}
