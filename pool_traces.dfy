/**
 Sequences of pool operations run one after another, what every such run keeps, and what the
 bookkeeping of `Pool<R>` does and does not guarantee about buffered resources being managed.
 */
module PoolTraces {
  import opened Sequences
  import P = PoolSpec

  /** One public call on the pool; `RemoveNow` has the same effect as `Remove`. */
  datatype Op<R> =
    | Open
    | Close
    | CloseNow
    | Add(r: R)
    | Remove(r: R)
    | RemoveNow(r: R)
    | Acquire
    | AcquireWithin
    | Release(r: R)

  /**
   The model requires an open pool for every call except `open` and `acquire()`: on a pool
   that is not open the source fails dereferencing the missing queue, or, for `add`, `remove`,
   `removeNow` and `release`, consults the managed set first and then may do so.
   */
  predicate Enabled<R>(p: P.PoolState<R>, op: Op<R>)
  {
    op.Open? || op.Acquire? || p.open
  }

  function Apply<R(==)>(p: P.PoolState<R>, op: Op<R>): P.PoolState<R>
    requires Enabled(p, op)
  {
    match op
    case Open => P.Open(p)
    case Close => P.Close(p)
    case CloseNow => P.CloseNow(p)
    case Add(r) => P.Add(p, r).0
    case Remove(r) => P.Remove(p, r).0
    case RemoveNow(r) => P.Remove(p, r).0
    case Acquire => P.Acquire(p).0
    case AcquireWithin => P.AcquireWithin(p).0
    case Release(r) => P.Release(p, r).0
  }

  /** Each call of `ops`, in turn, is enabled in the state the calls before it leave. */
  predicate Runs<R(==)>(p: P.PoolState<R>, ops: seq<Op<R>>)
    decreases |ops|
  {
    ops == [] || (Enabled(p, ops[0]) && Runs(Apply(p, ops[0]), ops[1..]))
  }

  function Run<R(==)>(p: P.PoolState<R>, ops: seq<Op<R>>): P.PoolState<R>
    requires Runs(p, ops)
    decreases |ops|
  {
    if ops == [] then p else Run(Apply(p, ops[0]), ops[1..])
  }

  /**
   The discipline under which the buffer stays a duplicate-free set of managed resources: a
   resource is released only while it is not already buffered.
   */
  predicate Disciplined<R(==)>(p: P.PoolState<R>, ops: seq<Op<R>>)
    decreases |ops|
  {
    ops == [] ||
    (Enabled(p, ops[0]) &&
     (ops[0].Release? ==> ops[0].r !in p.buffer) &&
     Disciplined(Apply(p, ops[0]), ops[1..]))
  }

  /** Every operation keeps the buffer within capacity and empty on a closed pool. */
  lemma ApplyKeepsWf<R>(p: P.PoolState<R>, op: Op<R>)
    requires P.Wf(p) && Enabled(p, op)
    ensures P.Wf(Apply(p, op))
  {
    if op.Remove? || op.RemoveNow? {
      if op.r in p.managed {
        assert |RemoveFirst(p.buffer, op.r)| <= |p.buffer|;
      }
    }
  }

  /** No sequence of calls ever puts more than ten resources in the buffer. */
  lemma {:induction false} RunKeepsWf<R>(p: P.PoolState<R>, ops: seq<Op<R>>)
    requires P.Wf(p) && Runs(p, ops)
    ensures P.Wf(Run(p, ops))
    ensures |Run(p, ops).buffer| <= P.Capacity
    decreases |ops|
  {
    if ops != [] {
      ApplyKeepsWf(p, ops[0]);
      RunKeepsWf(Apply(p, ops[0]), ops[1..]);
    }
  }

  /** Each operation keeps the buffer a duplicate-free list of managed resources, under the discipline. */
  lemma ApplyKeepsSound<R>(p: P.PoolState<R>, op: Op<R>)
    requires P.Sound(p) && Enabled(p, op)
    requires op.Release? ==> op.r !in p.buffer
    ensures P.Sound(Apply(p, op))
  {
    ApplyKeepsWf(p, op);
    var q := Apply(p, op);
    match op
    case Add(r) =>
      if r !in p.managed && |p.buffer| < P.Capacity {
        AppendNoDup(p.buffer, r);
      }
    case Remove(r) =>
      if r in p.managed {
        RemoveFirstNoDup(p.buffer, r);
        RemoveFirstSubset(p.buffer, r);
        assert forall i :: 0 <= i < |q.buffer| ==> q.buffer[i] in p.buffer;
      }
    case RemoveNow(r) =>
      if r in p.managed {
        RemoveFirstNoDup(p.buffer, r);
        RemoveFirstSubset(p.buffer, r);
        assert forall i :: 0 <= i < |q.buffer| ==> q.buffer[i] in p.buffer;
      }
    case Acquire =>
      if p.open && p.buffer != [] {
        assert forall i :: 0 <= i < |q.buffer| ==> q.buffer[i] == p.buffer[i + 1];
      }
    case AcquireWithin =>
      if p.buffer != [] {
        assert forall i :: 0 <= i < |q.buffer| ==> q.buffer[i] == p.buffer[i + 1];
      }
    case Release(r) =>
      if r in p.managed && |p.buffer| < P.Capacity {
        AppendNoDup(p.buffer, r);
      }
    case _ =>
  }

  /** Under the discipline, every run keeps the buffer a duplicate-free list of managed resources. */
  lemma {:induction false} RunKeepsSound<R>(p: P.PoolState<R>, ops: seq<Op<R>>)
    requires P.Sound(p) && Disciplined(p, ops)
    ensures Runs(p, ops)
    ensures P.Sound(Run(p, ops))
    decreases |ops|
  {
    if ops != [] {
      ApplyKeepsSound(p, ops[0]);
      RunKeepsSound(Apply(p, ops[0]), ops[1..]);
    }
  }

  /** From a new pool, any disciplined run leaves every buffered resource managed. */
  lemma ReachableSound<R>(ops: seq<Op<R>>)
    requires Disciplined(P.Initial(), ops)
    ensures Runs(P.Initial(), ops)
    ensures forall i :: 0 <= i < |Run(P.Initial(), ops).buffer| ==>
      Run(P.Initial(), ops).buffer[i] in Run(P.Initial(), ops).managed
  {
    RunKeepsSound(P.Initial(), ops);
  }

  /** Running `[op] + ops` is applying `op` and then running `ops`. */
  lemma RunStep<R>(p: P.PoolState<R>, op: Op<R>, ops: seq<Op<R>>)
    requires Enabled(p, op) && Runs(Apply(p, op), ops)
    ensures Runs(p, [op] + ops)
    ensures Run(p, [op] + ops) == Run(Apply(p, op), ops)
  {
    assert ([op] + ops)[1..] == ops;
  }

  // ----- what the bookkeeping does not guarantee -----

  /**
   Soundness is not an invariant of every run: `release` of a resource that is still buffered
   puts a second copy of it in the buffer.
   */
  lemma ReleaseDuplicates<R>(x: R)
    ensures Runs(P.Initial(), [Open, Add(x), Release(x)])
    ensures Run(P.Initial(), [Open, Add(x), Release(x)]).buffer == [x, x]
    ensures !P.Sound(Run(P.Initial(), [Open, Add(x), Release(x)]))
  {
    var p0 := P.Initial<R>();
    var p1 := Apply(p0, Open);
    var p2 := Apply(p1, Add(x));
    var p3 := Apply(p2, Release(x));
    assert p3.buffer == [x, x];
    assert Runs(p3, []) && Run(p3, []) == p3;
    RunStep(p2, Release(x), []);
    assert [Release(x)] + [] == [Release(x)];
    RunStep(p1, Add(x), [Release(x)]);
    assert [Add(x)] + [Release(x)] == [Add(x), Release(x)];
    RunStep(p0, Open, [Add(x), Release(x)]);
    assert [Open] + [Add(x), Release(x)] == [Open, Add(x), Release(x)];
    assert p3.buffer[0] == p3.buffer[1];
  }

  /**
   Releasing only what `acquire` returned is not enough either: a resource removed while it is
   checked out and then added again is buffered once by `add` and once more by its `release`,
   and the second `remove` cuts out only one copy, leaving an unmanaged resource buffered.
   */
  lemma StaleEntryAfterCheckedOutRemove<R>(x: R)
    ensures
      var p1 := P.Add(P.Open(P.Initial()), x).0;
      var (p2, got) := P.Acquire(p1);
      got == P.Done(x) &&
      var p3 := P.Remove(p2, x).0;
      var p4 := P.Add(p3, x).0;
      var p5 := P.Release(p4, got.value).0;
      var p6 := P.Remove(p5, x).0;
      p5.buffer == [x, x] && p6 == P.PoolState(true, [x], {}) && !P.Sound(p6)
  {
  }

  // ----- scenarios of the source's tests, run sequentially -----

  /** Open, add `x`, add `x` again: true, then false, and one resource is available. */
  lemma AddTwiceScenario<R>(x: R)
    ensures P.Add(P.Open(P.Initial()), x).1 == P.Done(true)
    ensures P.Add(P.Add(P.Open(P.Initial()), x).0, x).1 == P.Done(false)
    ensures |P.Add(P.Add(P.Open(P.Initial()), x).0, x).0.buffer| == 1
  {
  }

  /** Open, add `x`, remove it (true), release it (no effect): nothing is available. */
  lemma RemoveThenReleaseScenario<R>(x: R)
    ensures
      var p1 := P.Add(P.Open(P.Initial()), x).0;
      P.Remove(p1, x).1 &&
      P.Release(P.Remove(p1, x).0, x) == (P.Remove(p1, x).0, P.Done(())) &&
      P.Remove(p1, x).0.buffer == []
  {
  }

  /**
   The timed acquire finds nothing while the one added resource is checked out, and likewise on
   an open pool to which nothing was added.
   */
  lemma TimeoutOnEmptyScenario<R>(x: R)
    ensures
      var p1 := P.Add(P.Open(P.Initial()), x).0;
      var (p2, got) := P.Acquire(p1);
      got == P.Done(x) && P.AcquireWithin(p2) == (p2, P.None)
    ensures P.AcquireWithin(P.Open(P.Initial<R>())).1 == P.None
  {
  }

  /** A new pool is not open; `open` opens it, twice the same as once; `close` closes it. */
  lemma OpenCloseScenario<R>()
    ensures !P.Initial<R>().open
    ensures P.Open(P.Initial<R>()).open
    ensures P.Open(P.Open(P.Initial<R>())) == P.Open(P.Initial<R>())
    ensures !P.Close(P.Open(P.Initial<R>())).open
  {
  }

  /**
   One resource, fifty thousand borrow-and-return cycles: each of them borrows the resource and
   returns it, and at the end it is back, alone, in the buffer.
   */
  lemma ManyCyclesScenario<R>(x: R)
    ensures
      var p := P.Add(P.Open(P.Initial()), x).0;
      forall k :: 0 <= k < 50000 ==>
        P.Acquire(P.Cycles(p, k)).1 == P.Done(x) &&
        P.Release(P.Acquire(P.Cycles(p, k)).0, x).1 == P.Done(())
    ensures P.Cycles(P.Add(P.Open(P.Initial()), x).0, 50000).buffer == [x]
  {
    P.SingleResourceCycles(P.Add(P.Open(P.Initial()), x).0, x, 50000);
  }
}
