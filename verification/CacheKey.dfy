/** Cache keys of src/utils/async_ttl.py (`_make_key`).

    A value stands for a class of arguments that compare equal in Python.  Keyword arguments arrive as the pairs of a
    dict, in the order in which the caller wrote them. */
module CacheKey {
  import opened Sequences
  import opened StringOrder

  datatype Value = Atom(n: int) | Text(s: string) | Tuple(items: seq<Value>) | Sentinel

  type Pair = (string, Value)

  ghost predicate DistinctNames(kwargs: seq<Pair>) {
    forall i, j :: 0 <= i < j < |kwargs| ==> kwargs[i].0 != kwargs[j].0
  }

  predicate NameBefore(p: Pair, q: Pair) {
    Before(p.0, q.0)
  }

  /** `sorted(kwargs.items())`; the names are distinct, so the values are never compared. */
  function SortedPairs(kwargs: seq<Pair>): seq<Pair> {
    Sorted(NameBefore, kwargs)
  }

  function AsTuples(kwargs: seq<Pair>): (r: seq<Value>)
    ensures |r| == |kwargs|
    ensures forall i :: 0 <= i < |r| ==> r[i] == Tuple([Text(kwargs[i].0), kwargs[i].1])
  {
    if kwargs == [] then [] else [Tuple([Text(kwargs[0].0), kwargs[0].1])] + AsTuples(kwargs[1..])
  }

  function MakeKey(args: seq<Value>, kwargs: seq<Pair>): seq<Value> {
    if kwargs == [] then args else args + [Sentinel] + AsTuples(SortedPairs(kwargs))
  }

  // ---- sorting is canonical --------------------------------------------------

  lemma NamesAreOrdered()
    ensures StrictOrder(NameBefore)
  {
    forall p: Pair
      ensures !NameBefore(p, p)
    {
      BeforeIrreflexive(p.0);
    }
    forall p: Pair, q: Pair, r: Pair | NameBefore(p, q) && NameBefore(q, r)
      ensures NameBefore(p, r)
    {
      BeforeTransitive(p.0, q.0, r.0);
    }
  }

  lemma SortedPairsAscend(kwargs: seq<Pair>)
    requires DistinctNames(kwargs)
    ensures Ascending(NameBefore, SortedPairs(kwargs)) && Elements(SortedPairs(kwargs)) == Elements(kwargs)
  {
    hide Sorted, StrictOrder, Before;
    NamesAreOrdered();
    forall i, j | 0 <= i < j < |kwargs|
      ensures NameBefore(kwargs[i], kwargs[j]) || NameBefore(kwargs[j], kwargs[i])
    {
      BeforeTotal(kwargs[i].0, kwargs[j].0);
    }
    SortedAscending(NameBefore, kwargs);
    assert forall p :: p in SortedPairs(kwargs) <==> p in multiset(SortedPairs(kwargs));
  }

  lemma SameElements(s: seq<Pair>, t: seq<Pair>)
    requires Elements(s) == Elements(t)
    ensures forall x :: x in s <==> x in t
  {
    assert forall x :: x in s <==> x in Elements(s);
    assert forall x :: x in t <==> x in Elements(t);
  }

  // ---- main result -------------------------------------------------------------

  /** Where the sentinel splits a key. */
  lemma SplitAtSentinel(a: seq<Value>, b: seq<Value>, s: seq<Value>, t: seq<Value>)
    requires Sentinel !in a && Sentinel !in b
    requires a + [Sentinel] + s == b + [Sentinel] + t
    ensures a == b && s == t
  {
    var whole := a + [Sentinel] + s;
    assert whole[|a|] == Sentinel && whole[|b|] == Sentinel;
    assert forall i :: 0 <= i < |a| ==> whole[i] == a[i];
    assert forall i :: 0 <= i < |b| ==> whole[i] == b[i];
    assert |a| == |b|;
    assert a == whole[..|a|] && b == whole[..|b|];
    assert s == whole[|a| + 1..] && t == whole[|b| + 1..];
  }

  /** Two calls share a key iff they pass the same positional arguments and the same keyword arguments, in whatever
      order the keywords were written. */
  lemma MakeKeyInjective(args: seq<Value>, kwargs: seq<Pair>, args': seq<Value>, kwargs': seq<Pair>)
    requires Sentinel !in args && Sentinel !in args'
    requires DistinctNames(kwargs) && DistinctNames(kwargs')
    ensures MakeKey(args, kwargs) == MakeKey(args', kwargs') <==> args == args' && Elements(kwargs) == Elements(kwargs')
  {
    SortedPairsAscend(kwargs);
    SortedPairsAscend(kwargs');
    assert kwargs != [] ==> kwargs[0] in Elements(kwargs) && MakeKey(args, kwargs)[|args|] == Sentinel;
    assert kwargs' != [] ==> kwargs'[0] in Elements(kwargs') && MakeKey(args', kwargs')[|args'|] == Sentinel;
    var s, s' := AsTuples(SortedPairs(kwargs)), AsTuples(SortedPairs(kwargs'));
    if Elements(kwargs) == Elements(kwargs') {
      NamesAreOrdered();
      SameElements(SortedPairs(kwargs), SortedPairs(kwargs'));
      AscendingUnique(NameBefore, SortedPairs(kwargs), SortedPairs(kwargs'));
    }
    if MakeKey(args, kwargs) == MakeKey(args', kwargs') {
      if kwargs != [] && kwargs' != [] {
        SplitAtSentinel(args, args', s, s');
        forall i | 0 <= i < |s|
          ensures SortedPairs(kwargs)[i] == SortedPairs(kwargs')[i]
        {
          assert s[i] == s'[i];
        }
        assert SortedPairs(kwargs) == SortedPairs(kwargs');
      }
    }
  }
}
