/** Sequences seen as sets, and Python's `sorted` on elements that a strict order tells apart. */
module Sequences {

  function Elements<T(==)>(s: seq<T>): set<T> {
    set x | x in s
  }

  ghost predicate StrictOrder<T(!new)>(before: (T, T) -> bool) {
    && (forall x :: !before(x, x))
    && (forall x, y, z :: before(x, y) && before(y, z) ==> before(x, z))
  }

  /** Any two elements at different places are in order one way or the other. */
  ghost predicate ToldApart<T(!new)>(before: (T, T) -> bool, s: seq<T>) {
    forall i, j :: 0 <= i < j < |s| ==> before(s[i], s[j]) || before(s[j], s[i])
  }

  ghost predicate Ascending<T(!new)>(before: (T, T) -> bool, s: seq<T>) {
    forall i, j :: 0 <= i < j < |s| ==> before(s[i], s[j])
  }

  function Insert<T>(before: (T, T) -> bool, x: T, sorted: seq<T>): seq<T> {
    if sorted == [] || before(x, sorted[0]) then [x] + sorted else [sorted[0]] + Insert(before, x, sorted[1..])
  }

  function Sorted<T>(before: (T, T) -> bool, s: seq<T>): seq<T> {
    if s == [] then [] else Insert(before, s[0], Sorted(before, s[1..]))
  }

  lemma Transitive<T(!new)>(before: (T, T) -> bool, x: T, y: T, z: T)
    requires StrictOrder(before) && before(x, y) && before(y, z)
    ensures before(x, z)
  {
  }

  lemma InFront<T(!new)>(before: (T, T) -> bool, x: T, sorted: seq<T>)
    requires StrictOrder(before) && Ascending(before, sorted) && sorted != [] && before(x, sorted[0])
    ensures Ascending(before, [x] + sorted)
  {
    hide StrictOrder;
    forall j | 0 < j < |sorted|
      ensures before(x, sorted[j])
    {
      Transitive(before, x, sorted[0], sorted[j]);
    }
  }

  lemma FirstIsBefore<T(!new)>(before: (T, T) -> bool, first: T, tail: seq<T>, y: T)
    requires Ascending(before, [first] + tail) && y in tail
    ensures before(first, y)
  {
    var j :| 0 <= j < |tail| && tail[j] == y;
    assert ([first] + tail)[0] == first && ([first] + tail)[j + 1] == y;
  }

  lemma Prepended<T(!new)>(before: (T, T) -> bool, first: T, rest: seq<T>)
    requires Ascending(before, rest) && forall y :: y in rest ==> before(first, y)
    ensures Ascending(before, [first] + rest)
  {
  }

  lemma BehindFirst<T(!new)>(before: (T, T) -> bool, first: T, x: T, tail: seq<T>, rest: seq<T>)
    requires Ascending(before, [first] + tail) && Ascending(before, rest) && before(first, x)
    requires multiset(rest) == multiset(tail) + multiset{x}
    ensures Ascending(before, [first] + rest)
  {
    hide Ascending;
    forall y | y in rest
      ensures before(first, y)
    {
      assert y in multiset(rest);
      if y in tail {
        FirstIsBefore(before, first, tail, y);
      }
    }
    Prepended(before, first, rest);
  }

  lemma {:induction false} InsertAscending<T(!new)>(before: (T, T) -> bool, x: T, sorted: seq<T>)
    requires StrictOrder(before) && Ascending(before, sorted)
    requires forall y :: y in sorted ==> before(x, y) || before(y, x)
    ensures Ascending(before, Insert(before, x, sorted))
    ensures multiset(Insert(before, x, sorted)) == multiset(sorted) + multiset{x}
  {
    hide StrictOrder;
    if sorted == [] {
    } else if before(x, sorted[0]) {
      InFront(before, x, sorted);
    } else {
      assert sorted == [sorted[0]] + sorted[1..];
      InsertAscending(before, x, sorted[1..]);
      BehindFirst(before, sorted[0], x, sorted[1..], Insert(before, x, sorted[1..]));
    }
  }

  /** Sorting gives the ascending permutation of elements that the order tells apart. */
  lemma {:induction false} SortedAscending<T(!new)>(before: (T, T) -> bool, s: seq<T>)
    requires StrictOrder(before) && ToldApart(before, s)
    ensures Ascending(before, Sorted(before, s)) && multiset(Sorted(before, s)) == multiset(s)
  {
    hide StrictOrder, Insert;
    if s != [] {
      SortedAscending(before, s[1..]);
      assert s == [s[0]] + s[1..];
      forall y | y in Sorted(before, s[1..])
        ensures before(s[0], y) || before(y, s[0])
      {
        assert y in multiset(s[1..]);
      }
      InsertAscending(before, s[0], Sorted(before, s[1..]));
    }
  }

  /** There is only one ascending order of the same elements. */
  lemma {:induction false} AscendingUnique<T(!new)>(before: (T, T) -> bool, s: seq<T>, t: seq<T>)
    requires StrictOrder(before) && Ascending(before, s) && Ascending(before, t)
    requires forall x :: x in s <==> x in t
    ensures s == t
  {
    assert s != [] ==> s[0] in t;
    assert t != [] ==> t[0] in s;
    if s != [] && t != [] {
      var i :| 0 <= i < |t| && t[i] == s[0];
      var j :| 0 <= j < |s| && s[j] == t[0];
      assert i == 0;
      assert s[0] !in s[1..] && t[0] !in t[1..];
      assert forall x :: x in s <==> x == s[0] || x in s[1..];
      assert forall x :: x in t <==> x == t[0] || x in t[1..];
      AscendingUnique(before, s[1..], t[1..]);
    }
  }
}
