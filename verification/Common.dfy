/** Shared vocabulary: results of calls that may raise, distinct sequences, and the contract of
    the library heap and of `sorted(set(...))`, which several programs rely on. */
module Wrappers {

  datatype Option<+T> = None | Some(value: T)

  datatype Result<+T, +E> = Ok(value: T) | Err(error: E)
}

/** Names (plugins, graph nodes, pages) matter only through equality and the order of strings, so
    each stands for its rank in that order. */
module Names {
  type Name = int

  /** `a` is smaller than `b` at the first position where they differ. */
  ghost predicate FirstDifferenceBelow(a: seq<Name>, b: seq<Name>, k: nat) {
    k < |a| && k < |b| && (forall i :: 0 <= i < k ==> a[i] == b[i]) && a[k] < b[k]
  }

  lemma FirstDifferenceExactly(a: seq<Name>, b: seq<Name>)
    ensures forall k: nat ::
      FirstDifferenceBelow(a, b, k) <==> k < |a| && k < |b| && a[..k] == b[..k] && a[k] < b[k]
  {
    forall k: nat | k < |a| && k < |b|
      ensures a[..k] == b[..k] <==> forall i :: 0 <= i < k ==> a[i] == b[i]
    {
      assert forall i :: 0 <= i < k ==> a[..k][i] == a[i] && b[..k][i] == b[i];
    }
  }
}

module Collections {

  ghost predicate Distinct<T>(s: seq<T>) {
    forall i, j :: 0 <= i < j < |s| ==> s[i] != s[j]
  }

  function Elements<T>(s: seq<T>): set<T> {
    set x | x in s
  }

  lemma ElementsAppend<T>(s: seq<T>, x: T)
    ensures Elements(s + [x]) == Elements(s) + {x}
  {
    assert forall y :: y in s + [x] <==> y in s || y == x;
  }

  lemma ElementsWithin<T>(s: seq<T>, universe: set<T>)
    ensures Elements(s) <= universe <==> forall i :: 0 <= i < |s| ==> s[i] in universe
  {
    if forall i :: 0 <= i < |s| ==> s[i] in universe {
      forall x | x in Elements(s)
        ensures x in universe
      {
        var i :| 0 <= i < |s| && s[i] == x;
      }
    } else {
      var i :| 0 <= i < |s| && s[i] !in universe;
      assert s[i] in Elements(s);
    }
  }

  /** A sequence without repetition is as long as the set of its elements. */
  lemma {:induction false} DistinctSize<T>(s: seq<T>)
    requires Distinct(s)
    ensures |Elements(s)| == |s|
  {
    if s == [] {
      assert Elements(s) == {};
    } else {
      var front, last := s[..|s| - 1], s[|s| - 1];
      assert s == front + [last];
      DistinctSize(front);
      ElementsAppend(front, last);
      assert last !in Elements(front);
    }
  }

  lemma SubsetSize<T>(a: set<T>, b: set<T>)
    requires a <= b
    ensures |a| <= |b|
    ensures |a| == |b| ==> a == b
  {
    assert b == a + (b - a);
    assert |b| == |a| + |b - a|;
  }

  /** A sequence without repetition that stays inside a finite set is no longer than the set. */
  lemma DistinctFits<T>(s: seq<T>, universe: set<T>)
    requires Distinct(s)
    requires Elements(s) <= universe
    ensures |s| <= |universe|
    ensures |s| == |universe| ==> Elements(s) == universe
  {
    DistinctSize(s);
    SubsetSize(Elements(s), universe);
  }

  lemma SomeMember<T>(s: set<T>) returns (x: T)
    requires s != {}
    ensures x in s
  {
    x :| x in s;
  }

  lemma NotSubset<T>(a: set<T>, b: set<T>) returns (x: T)
    requires !(a <= b)
    ensures x in a && x !in b
  {
    x :| x in a && x !in b;
  }

  lemma EmptyDifference<T>(a: set<T>, b: set<T>)
    ensures |a - b| == 0 <==> a <= b
  {
    if a <= b {
      assert a - b == {};
    } else {
      var x := NotSubset(a, b);
      assert x in a - b;
    }
  }

  lemma InsertSize<T>(s: set<T>, x: T)
    ensures |s + {x}| == |s| + if x in s then 0 else 1
  {
    if x in s {
      assert s + {x} == s;
    }
  }

  /** Moving one of the elements left to those done. */
  lemma TakeOne<T>(all: set<T>, done: set<T>, rest: set<T>, x: T)
    requires rest == all - done && done <= all && x in rest
    ensures rest - {x} == all - (done + {x}) && done + {x} <= all
    ensures |rest - {x}| < |rest| && |done + {x}| == |done| + 1
  {
    InsertSize(done, x);
    InsertSize(rest - {x}, x);
    assert rest - {x} + {x} == rest;
  }

  lemma MultisetFront<T>(s: seq<T>)
    requires s != []
    ensures multiset(s) == multiset(s[..|s| - 1]) + multiset{s[|s| - 1]}
    ensures multiset(s[..|s| - 1]) == multiset(s) - multiset{s[|s| - 1]}
  {
    assert s == s[..|s| - 1] + [s[|s| - 1]];
  }

  /** One more element counts once for itself. */
  lemma CountGrows<T>(s: seq<T>, x: T, y: T)
    ensures multiset(s + [x])[y] == multiset(s)[y] + if x == y then 1 else 0
  {
    assert multiset(s + [x]) == multiset(s) + multiset{x};
  }

  /** A sequence that holds a value holds it somewhere. */
  lemma IndexOf<T>(s: seq<T>, x: T) returns (i: nat)
    requires x in Elements(s)
    ensures i < |s| && s[i] == x
  {
    i :| 0 <= i < |s| && s[i] == x;
  }

  ghost predicate StrictlyAscending(s: seq<int>) {
    forall i, j :: 0 <= i < j < |s| ==> s[i] < s[j]
  }

  ghost predicate IsLeast(m: int, s: set<int>) {
    m in s && forall x :: x in s ==> m <= x
  }

  /** `sorted(set(...))`: the elements of a set in ascending order. */
  method SortedElements(elements: set<int>) returns (s: seq<int>)
    ensures StrictlyAscending(s)
    ensures Elements(s) == elements
  {
    s := [];
    var rest := elements;
    assert Elements(s) == {} && elements - {} == elements;
    while rest != {}
      invariant Elements(s) <= elements && rest == elements - Elements(s)
      invariant StrictlyAscending(s) && AllBelow(s, rest)
      decreases |rest|
    {
      var least := Least(rest);
      ElementsAppend(s, least);
      TakeOne(elements, Elements(s), rest, least);
      NextAscends(s, rest, least);
      s := s + [least];
      rest := rest - {least};
    }
    EmptyDifference(elements, Elements(s));
  }

  ghost predicate AllBelow(s: seq<int>, rest: set<int>) {
    forall i, y :: 0 <= i < |s| && y in rest ==> s[i] < y
  }

  lemma NextAscends(s: seq<int>, rest: set<int>, least: int)
    requires StrictlyAscending(s) && AllBelow(s, rest) && IsLeast(least, rest)
    ensures StrictlyAscending(s + [least]) && AllBelow(s + [least], rest - {least})
  {
  }

  method Least(s: set<int>) returns (m: int)
    requires s != {}
    ensures IsLeast(m, s)
  {
    ghost var witnessed := SomeMember(s);
    m :| m in s;
    var rest := s - {m};
    while rest != {}
      invariant m in s && rest <= s
      invariant forall x :: x in s ==> x in rest || m <= x
      decreases |rest|
    {
      ghost var next := SomeMember(rest);
      var x :| x in rest;
      if x < m {
        m := x;
      }
      rest := rest - {x};
    }
  }
}

/** The contract of `heapq`: popping removes one least entry. */
module Heap {

  ghost predicate TotalOrder<T(!new)>(leq: (T, T) -> bool) {
    && (forall x :: leq(x, x))
    && (forall x, y :: leq(x, y) || leq(y, x))
    && (forall x, y, z :: leq(x, y) && leq(y, z) ==> leq(x, z))
  }

  method Pop<T(==, !new)>(heap: multiset<T>, leq: (T, T) -> bool) returns (least: T, rest: multiset<T>)
    requires heap != multiset{} && TotalOrder(leq)
    ensures least in heap && forall x :: x in heap ==> leq(least, x)
    ensures rest == heap - multiset{least}
  {
    least :| least in heap;
    var unread := heap - multiset{least};
    while unread != multiset{}
      invariant least in heap && unread <= heap
      invariant forall x :: x in heap ==> x in unread || leq(least, x)
      decreases |unread|
    {
      var x :| x in unread;
      if leq(x, least) {
        least := x;
      }
      unread := unread - multiset{x};
    }
    rest := heap - multiset{least};
  }
}
