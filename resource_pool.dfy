/**
 The pool object itself: three fields that its methods update in place, each method's new
 state and result tied to the operation of the same name in `PoolSpec`.
 */
module ResourcePool {
  import opened Sequences
  import S = PoolSpec

  class Pool<R(==)> {
    /** Whether the bounded buffer exists (the queue reference is non-null). */
    var open: bool
    /** The available resources, head first. */
    var buffer: seq<R>
    /** Every resource the pool is responsible for, available or checked out. */
    var managed: set<R>

    function State(): S.PoolState<R>
      reads this
    {
      S.PoolState(open, buffer, managed)
    }

    ghost predicate Valid()
      reads this
    {
      S.Wf(State())
    }

    /** A new pool is not open and holds nothing. */
    constructor ()
      ensures Valid() && State() == S.Initial()
    {
      open := false;
      buffer := [];
      managed := {};
    }

    method Open()
      requires Valid()
      modifies this
      ensures Valid() && State() == S.Open(old(State()))
    {
      var isOpen := IsOpen();
      if !isOpen {
        buffer := [];
        managed := {};
        open := true;
      }
    }

    method IsOpen() returns (b: bool)
      ensures b <==> open
    {
      b := open;
    }

    /** Take buffered resources one at a time until none is left, then drop the buffer. */
    method Close()
      requires Valid() && open
      modifies this
      ensures Valid() && State() == S.Close(old(State()))
    {
      while |buffer| > 0
        invariant managed == old(managed)
        decreases |buffer|
      {
        buffer := buffer[1..];
      }
      open := false;
    }

    method CloseNow()
      requires Valid() && open
      modifies this
      ensures Valid() && State() == S.CloseNow(old(State()))
    {
      buffer := [];
    }

    method Add(resource: R) returns (outcome: S.Outcome<bool>)
      requires Valid() && open
      modifies this
      ensures Valid() && (State(), outcome) == S.Add(old(State()), resource)
    {
      var resourceAdded := false;
      if resource !in managed {
        if |buffer| == S.Capacity {
          return S.WouldBlock;
        }
        buffer := buffer + [resource];
        managed := managed + {resource};
        resourceAdded := true;
      }
      outcome := S.Done(resourceAdded);
    }

    /** Withdraw `resource` through the buffer's own removal of its first occurrence. */
    method Remove(resource: R) returns (resourceRemoved: bool)
      requires Valid() && open
      modifies this
      ensures Valid() && (State(), resourceRemoved) == S.Remove(old(State()), resource)
    {
      resourceRemoved := false;
      if resource in managed {
        buffer := RemoveFirst(buffer, resource);
        resourceRemoved := true;
        managed := managed - {resource};
      }
    }

    /**
     Withdraw `resource` by draining the whole buffer into a list, deleting the resource's first
     occurrence from the list and putting the rest back; the result is that of `Remove`.
     */
    method RemoveNow(resource: R) returns (resourceRemoved: bool)
      requires Valid() && open
      modifies this
      ensures Valid() && (State(), resourceRemoved) == S.Remove(old(State()), resource)
    {
      resourceRemoved := false;
      var poolList: seq<R> := [];
      if resource in managed {
        poolList, buffer := poolList + buffer, [];
        assert poolList == old(buffer);
        poolList := RemoveFirst(poolList, resource);
        buffer := buffer + poolList;
        assert buffer == poolList;
        resourceRemoved := true;
        managed := managed - {resource};
      }
    }

    /** Borrow the head of the buffer; fails on a pool that is not open. */
    method Acquire() returns (outcome: S.Outcome<R>)
      requires Valid()
      modifies this
      ensures Valid() && (State(), outcome) == S.Acquire(old(State()))
    {
      var isOpen := IsOpen();
      if !isOpen {
        return S.Failed(S.ClosedMessage);
      }
      if |buffer| == 0 {
        return S.WouldBlock;
      }
      outcome := S.Done(buffer[0]);
      buffer := buffer[1..];
    }

    /** Borrow the head of the buffer if there is one, without waiting. */
    method AcquireWithin() returns (resource: S.Option<R>)
      requires Valid() && open
      modifies this
      ensures Valid() && (State(), resource) == S.AcquireWithin(old(State()))
    {
      if |buffer| == 0 {
        return S.None;
      }
      resource := S.Some(buffer[0]);
      buffer := buffer[1..];
    }

    /** Return `resource` to the tail of the buffer if the pool still manages it. */
    method Release(resource: R) returns (outcome: S.Outcome<()>)
      requires Valid() && open
      modifies this
      ensures Valid() && (State(), outcome) == S.Release(old(State()), resource)
    {
      if resource in managed {
        if |buffer| == S.Capacity {
          return S.WouldBlock;
        }
        buffer := buffer + [resource];
      }
      outcome := S.Done(());
    }

    /** The number of available resources, never more than the capacity. */
    method Size() returns (n: int)
      requires Valid() && open
      ensures n == |buffer|
      ensures 0 <= n <= S.Capacity
    {
      n := |buffer|;
    }
  }

  /** The sequential parts of the source's tests, driven through the object's methods. */
  method Demo<R(==)>(x: R)
  {
    var pool := new Pool<R>();
    var isOpen := pool.IsOpen();
    assert !isOpen;
    pool.Open();
    pool.Open();
    isOpen := pool.IsOpen();
    assert isOpen && pool.managed == {};

    var added := pool.Add(x);
    assert added == S.Done(true);
    added := pool.Add(x);
    assert added == S.Done(false);
    var n := pool.Size();
    assert n == 1;

    var got := pool.Acquire();
    assert got == S.Done(x);
    var released := pool.Release(got.value);
    assert released == S.Done(());
    n := pool.Size();
    assert n == 1;

    var removed := pool.Remove(x);
    assert removed;
    removed := pool.RemoveNow(x);
    assert !removed;
    released := pool.Release(x);
    assert released == S.Done(()) && pool.buffer == [];
    var none := pool.AcquireWithin();
    assert none == S.None;

    pool.Close();
    isOpen := pool.IsOpen();
    assert !isOpen;
    got := pool.Acquire();
    assert got == S.Failed(S.ClosedMessage);
  }
}
