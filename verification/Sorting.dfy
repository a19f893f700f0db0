/** Stable sorting by an order, as the library sorts and ORDER BY clauses define it. */
module Sorting {
  ghost predicate InOrder<T(!new)>(leq: (T, T) -> bool, s: seq<T>) {
    forall i, j :: 0 <= i < j < |s| ==> leq(s[i], s[j])
  }

  /** Every two elements compare, and comparing is transitive. */
  ghost predicate IsPreorder<T(!new)>(leq: (T, T) -> bool) {
    (forall a, b :: leq(a, b) || leq(b, a)) && (forall a, b, c :: leq(a, b) && leq(b, c) ==> leq(a, c))
  }

  /** No two different elements of `s` tie. */
  ghost predicate NoTies<T(!new)>(leq: (T, T) -> bool, s: seq<T>) {
    forall a, b :: a in s && b in s && leq(a, b) && leq(b, a) ==> a == b
  }

  /** In front of every element it may stand in front of, so that ties keep their order. */
  function Insert<T(!new)>(leq: (T, T) -> bool, x: T, s: seq<T>): (r: seq<T>)
    ensures multiset(r) == multiset(s) + multiset{x}
    ensures forall y :: y in r <==> y == x || y in s
  {
    if s == [] then [x]
    else
      assert s == [s[0]] + s[1..];
      if leq(x, s[0]) then [x] + s else [s[0]] + Insert(leq, x, s[1..])
  }

  function Sort<T(!new)>(leq: (T, T) -> bool, s: seq<T>): (r: seq<T>)
    ensures multiset(r) == multiset(s) && |r| == |s|
    ensures forall y :: y in r <==> y in s
  {
    if s == [] then []
    else
      assert s == [s[0]] + s[1..];
      var r := Insert(leq, s[0], Sort(leq, s[1..]));
      assert |multiset(r)| == |r| && |multiset(s)| == |s|;
      r
  }

  lemma {:induction false} InsertKeepsOrder<T(!new)>(leq: (T, T) -> bool, x: T, s: seq<T>)
    requires IsPreorder(leq) && InOrder(leq, s)
    ensures InOrder(leq, Insert(leq, x, s))
  {
    if s != [] && !leq(x, s[0]) {
      InsertKeepsOrder(leq, x, s[1..]);
      var r := Insert(leq, x, s[1..]);
      forall i | 0 <= i < |r|
        ensures leq(s[0], r[i])
      {
        assert r[i] in r;
      }
    }
  }

  lemma {:induction false} SortOrders<T(!new)>(leq: (T, T) -> bool, s: seq<T>)
    requires IsPreorder(leq)
    ensures InOrder(leq, Sort(leq, s))
  {
    if s != [] {
      SortOrders(leq, s[1..]);
      InsertKeepsOrder(leq, s[0], Sort(leq, s[1..]));
    }
  }

  lemma SameFirst<T(!new)>(leq: (T, T) -> bool, a: seq<T>, b: seq<T>)
    requires InOrder(leq, a) && InOrder(leq, b) && NoTies(leq, a) && multiset(a) == multiset(b) && a != [] && b != []
    ensures a[0] == b[0]
  {
    assert a[0] in multiset(b) && b[0] in multiset(a);
    var i :| 0 <= i < |b| && b[i] == a[0];
    var j :| 0 <= j < |a| && a[j] == b[0];
    assert i > 0 && j > 0 ==> leq(b[0], b[i]) && leq(a[0], a[j]);
  }

  lemma TailInOrder<T(!new)>(leq: (T, T) -> bool, s: seq<T>)
    requires s != []
    ensures InOrder(leq, s) ==> InOrder(leq, s[1..])
    ensures NoTies(leq, s) ==> NoTies(leq, s[1..])
  {
    assert forall x :: x in s[1..] ==> x in s;
  }

  /** Without ties, only one sequence of given elements is in order. */
  lemma {:induction false} OrderIsUnique<T(!new)>(leq: (T, T) -> bool, a: seq<T>, b: seq<T>)
    requires InOrder(leq, a) && InOrder(leq, b) && NoTies(leq, a) && multiset(a) == multiset(b)
    ensures a == b
  {
    hide InOrder, NoTies;
    assert |multiset(a)| == |a| && |multiset(b)| == |b|;
    if a != [] {
      SameFirst(leq, a, b);
      TailInOrder(leq, a);
      TailInOrder(leq, b);
      assert a == [a[0]] + a[1..] && b == [b[0]] + b[1..];
      assert multiset(a[1..]) == multiset(a) - multiset{a[0]};
      assert multiset(b[1..]) == multiset(b) - multiset{b[0]};
      OrderIsUnique(leq, a[1..], b[1..]);
    }
  }

  /** Of two elements, one stands ahead of the other unless the order lets the other go first. */
  lemma StandsAhead<T(!new)>(leq: (T, T) -> bool, s: seq<T>, a: T, b: T)
    requires InOrder(leq, s) && a in s && b in s && a != b
    ensures leq(b, a) || exists i, j :: 0 <= i < j < |s| && s[i] == a && s[j] == b
  {
    var i :| 0 <= i < |s| && s[i] == a;
    var j :| 0 <= j < |s| && s[j] == b;
    if j < i {
      assert leq(s[j], s[i]);
    }
  }

  // ---- Stability ----

  /** First by `leq`, and among ties by `first`. */
  function Then<T>(leq: (T, T) -> bool, first: (T, T) -> bool): (T, T) -> bool {
    (a: T, b: T) => leq(a, b) && (leq(b, a) ==> first(a, b))
  }

  lemma Prepend<T(!new)>(leq: (T, T) -> bool, x: T, s: seq<T>)
    requires InOrder(leq, s) && forall y :: y in s ==> leq(x, y)
    ensures InOrder(leq, [x] + s)
  {
    var r := [x] + s;
    forall i, j | 0 <= i < j < |r|
      ensures leq(r[i], r[j])
    {
      assert r[j] == s[j - 1] && s[j - 1] in s;
      assert i > 0 ==> r[i] == s[i - 1];
    }
  }

  lemma FirstComesFirst<T(!new)>(leq: (T, T) -> bool, s: seq<T>, y: T)
    requires InOrder(leq, s) && y in s
    ensures y == s[0] || leq(s[0], y)
  {
  }

  /** An element placed in front, or passed over, compares rightly with everything behind it. */
  lemma StandsFirst<T(!new)>(leq: (T, T) -> bool, first: (T, T) -> bool, x: T, s: seq<T>, y: T)
    requires IsPreorder(leq) && InOrder(Then(leq, first), s) && y in s
    ensures leq(x, s[0]) && first(x, y) ==> Then(leq, first)(x, y)
    ensures !leq(x, s[0]) ==> Then(leq, first)(s[0], x)
  {
    FirstComesFirst(Then(leq, first), s, y);
    assert leq(s[0], s[0]);
    assert leq(x, s[0]) && leq(s[0], y) ==> leq(x, y);
  }

  lemma {:induction false} InsertIsStable<T(!new)>(leq: (T, T) -> bool, first: (T, T) -> bool, x: T, s: seq<T>)
    requires IsPreorder(leq) && InOrder(Then(leq, first), s) && forall y :: y in s ==> first(x, y)
    ensures InOrder(Then(leq, first), Insert(leq, x, s))
  {
    hide InOrder, IsPreorder, Then;
    if s == [] {
      OneInOrder(Then(leq, first), x);
    } else if leq(x, s[0]) {
      forall y | y in s
        ensures Then(leq, first)(x, y)
      {
        StandsFirst(leq, first, x, s, y);
      }
      Prepend(Then(leq, first), x, s);
    } else {
      var tail := s[1..];
      TailInOrder(Then(leq, first), s);
      assert s == [s[0]] + tail;
      InsertIsStable(leq, first, x, tail);
      forall y | y in Insert(leq, x, tail)
        ensures Then(leq, first)(s[0], y)
      {
        StandsFirst(leq, first, x, s, s[0]);
        BehindFirst(Then(leq, first), s);
      }
      Prepend(Then(leq, first), s[0], Insert(leq, x, tail));
    }
  }

  lemma OneInOrder<T(!new)>(leq: (T, T) -> bool, x: T)
    ensures InOrder(leq, []) && InOrder(leq, [x])
  {
  }

  lemma BehindFirst<T(!new)>(leq: (T, T) -> bool, s: seq<T>)
    requires InOrder(leq, s) && s != []
    ensures forall y :: y in s[1..] ==> leq(s[0], y)
  {
  }

  /** Elements that tie keep the order they came in. */
  lemma {:induction false} SortIsStable<T(!new)>(leq: (T, T) -> bool, first: (T, T) -> bool, s: seq<T>)
    requires IsPreorder(leq) && InOrder(first, s)
    ensures InOrder(Then(leq, first), Sort(leq, s))
  {
    if s != [] {
      SortIsStable(leq, first, s[1..]);
      forall y | y in Sort(leq, s[1..])
        ensures first(s[0], y)
      {
        assert y in s[1..];
      }
      InsertIsStable(leq, first, s[0], Sort(leq, s[1..]));
    }
  }
}
