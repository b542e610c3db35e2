/**
 Removal of one element from an ordered buffer by equality, as a queue's or a list's
 `remove(Object)` does it: the first element equal to the argument goes, the others stay
 in their order.
 */
module Sequences {

  /** True iff no two positions of `s` hold equal elements. */
  ghost predicate NoDup<T>(s: seq<T>)
  {
    forall i, j :: 0 <= i < j < |s| ==> s[i] != s[j]
  }

  /** The position of the first element of `s` equal to `x`. */
  function IndexOf<T(==)>(s: seq<T>, x: T): (i: nat)
    requires x in s
    ensures i < |s| && s[i] == x
    ensures x !in s[..i]
  {
    if s[0] == x then 0
    else
      var i := 1 + IndexOf(s[1..], x);
      assert s[..i] == [s[0]] + s[1..][..i - 1];
      i
  }

  /** `s` with its first element equal to `x` deleted; `s` itself when there is none. */
  function RemoveFirst<T(==)>(s: seq<T>, x: T): (t: seq<T>)
    ensures |t| == if x in s then |s| - 1 else |s|
  {
    if s == [] then []
    else if s[0] == x then s[1..]
    else [s[0]] + RemoveFirst(s[1..], x)
  }

  /** Exactly one copy of `x` goes, if there is one; every other element keeps its count. */
  lemma {:induction false} RemoveFirstMultiset<T>(s: seq<T>, x: T)
    ensures multiset(RemoveFirst(s, x)) == multiset(s) - multiset{x}
  {
    if s != [] {
      assert s == [s[0]] + s[1..];
      if s[0] != x {
        RemoveFirstMultiset(s[1..], x);
      }
    }
  }

  /** When `x` occurs, exactly its first occurrence is cut out and the rest keeps its order. */
  lemma {:induction false} RemoveFirstAt<T>(s: seq<T>, x: T)
    requires x in s
    ensures RemoveFirst(s, x) == s[..IndexOf(s, x)] + s[IndexOf(s, x) + 1..]
  {
    if s[0] == x {
      assert IndexOf(s, x) == 0;
      assert s[..0] + s[1..] == s[1..];
    } else {
      var tail := s[1..];
      var j := IndexOf(tail, x);
      RemoveFirstAt(tail, x);
      assert IndexOf(s, x) == j + 1;
      assert RemoveFirst(s, x) == [s[0]] + (tail[..j] + tail[j + 1..]);
      assert s[..j + 1] == [s[0]] + tail[..j] by {
        assert s == [s[0]] + tail;
      }
      assert s[j + 2..] == tail[j + 1..];
    }
  }

  /** When `x` does not occur, nothing is removed. */
  lemma {:induction false} RemoveFirstAbsent<T>(s: seq<T>, x: T)
    requires x !in s
    ensures RemoveFirst(s, x) == s
  {
    if s != [] {
      RemoveFirstAbsent(s[1..], x);
      assert s == [s[0]] + s[1..];
    }
  }

  /** Nothing new appears: every element left was in `s`. */
  lemma RemoveFirstSubset<T>(s: seq<T>, x: T)
    ensures forall y :: y in RemoveFirst(s, x) ==> y in s
  {
    RemoveFirstMultiset(s, x);
    forall y | y in RemoveFirst(s, x) ensures y in s {
      assert y in multiset(RemoveFirst(s, x));
    }
  }

  /** On a duplicate-free sequence the removal leaves no copy of `x` and no duplicate. */
  lemma {:induction false} RemoveFirstNoDup<T>(s: seq<T>, x: T)
    requires NoDup(s)
    ensures NoDup(RemoveFirst(s, x))
    ensures x !in RemoveFirst(s, x)
  {
    if s != [] {
      var t := RemoveFirst(s, x);
      if s[0] == x {
        assert t == s[1..];
        assert forall k :: 0 <= k < |t| ==> t[k] == s[k + 1];
      } else {
        var tail := s[1..];
        assert NoDup(tail) by {
          forall i, j | 0 <= i < j < |tail| ensures tail[i] != tail[j] {
            assert tail[i] == s[i + 1] && tail[j] == s[j + 1];
          }
        }
        RemoveFirstNoDup(tail, x);
        var rest := RemoveFirst(tail, x);
        assert t == [s[0]] + rest;
        assert s[0] !in tail by {
          forall k | 0 <= k < |tail| ensures tail[k] != s[0] {
            assert tail[k] == s[k + 1];
          }
        }
        RemoveFirstSubset(tail, x);
        forall i, j | 0 <= i < j < |t| ensures t[i] != t[j] {
          if i == 0 {
            assert t[j] == rest[j - 1];
          } else {
            assert t[i] == rest[i - 1] && t[j] == rest[j - 1];
          }
        }
      }
    }
  }

  /** Appending an element that does not occur keeps a sequence duplicate-free. */
  lemma AppendNoDup<T>(s: seq<T>, x: T)
    requires NoDup(s) && x !in s
    ensures NoDup(s + [x])
  {
    var t := s + [x];
    forall i, j | 0 <= i < j < |t| ensures t[i] != t[j] {
      if j == |s| {
        assert t[i] == s[i];
      } else {
        assert t[i] == s[i] && t[j] == s[j];
      }
    }
  }
}
