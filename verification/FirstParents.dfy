/** First-parent chains.  The directory repository answers with the parents of an entity in ascending order of id, and
    rule scopes follow the first of them only. */
module FirstParents {
  import opened Wrappers
  import opened StringOrder
  import opened Hierarchy
  import opened Sequences

  ghost predicate IsLeast(s: set<Id>, x: Id) {
    x in s && forall y :: y in s && y != x ==> Before(x, y)
  }

  lemma {:induction false} LeastExists(s: set<Id>) returns (x: Id)
    requires s != {}
    ensures IsLeast(s, x)
    decreases |s|
  {
    x :| x in s;
    if s != {x} {
      var rest := s - {x};
      var y := LeastExists(rest);
      BeforeTotal(x, y);
      if Before(y, x) {
        assert s == rest + {x};
        x := y;
      } else {
        forall z | z in s && z != x
          ensures Before(x, z)
        {
          if z != y {
            BeforeTransitive(x, y, z);
          }
        }
      }
    }
  }

  lemma LeastUnique(s: set<Id>, x: Id, y: Id)
    requires IsLeast(s, x) && IsLeast(s, y)
    ensures x == y
  {
    if x != y {
      BeforeTransitive(x, y, x);
      BeforeIrreflexive(x);
    }
  }

  ghost function FirstParent(tuples: Tuples, x: Id): (r: Option<Id>)
    ensures r.None? <==> ParentsOf(tuples, x) == {}
    ensures r.Some? ==> IsLeast(ParentsOf(tuples, x), r.value)
  {
    if ParentsOf(tuples, x) == {} then None
    else
      assert exists p :: IsLeast(ParentsOf(tuples, x), p) by {
        var p := LeastExists(ParentsOf(tuples, x));
      }
      var p :| IsLeast(ParentsOf(tuples, x), p);
      Some(p)
  }

  /** `parents[0]`, if there is a parent. */
  method GetFirstParent(tuples: Tuples, x: Id) returns (first: Option<Id>)
    ensures first == FirstParent(tuples, x)
  {
    var rest := ParentsOf(tuples, x);
    ghost var all := rest;
    first := None;
    while rest != {}
      invariant rest <= all
      invariant first.None? ==> rest == all
      invariant first.Some? ==> IsLeast(all - rest, first.value)
      decreases |rest|
    {
      var p :| p in rest;
      if first.None? {
        first := Some(p);
      } else {
        BeforeTotal(p, first.value);
        if Before(p, first.value) {
          forall y | y in all - rest && y != first.value
            ensures Before(p, y)
          {
            BeforeTransitive(p, first.value, y);
          }
          first := Some(p);
        }
      }
      rest := rest - {p};
    }
    assert all - rest == all;
    if first.Some? {
      LeastUnique(all, first.value, FirstParent(tuples, x).value);
    }
  }

  /** `n` steps up along first parents. */
  ghost function Up(tuples: Tuples, x: Id, n: nat): Option<Id> {
    if n == 0 then Some(x)
    else
      match Up(tuples, x, n - 1)
      case None => None
      case Some(y) => FirstParent(tuples, y)
  }

  /** `to` is reached from `from` in one or more first-parent steps. */
  ghost predicate IsAncestor(tuples: Tuples, from: Id, to: Id) {
    exists n: nat :: n > 0 && Up(tuples, from, n) == Some(to)
  }

  // ---- cycles ----------------------------------------------------------------------

  /** Each directory is the first parent of the one before, and the first directory that of the last. */
  ghost predicate IsRing(tuples: Tuples, ring: seq<Id>) {
    && ring != []
    && (forall i :: 0 <= i < |ring| - 1 ==> FirstParent(tuples, ring[i]) == Some(ring[i + 1]))
    && FirstParent(tuples, ring[|ring| - 1]) == Some(ring[0])
  }

  ghost predicate RingFree(tuples: Tuples) {
    forall ring :: !IsRing(tuples, ring)
  }

  lemma {:induction false} UpAdd(tuples: Tuples, x: Id, n: nat, m: nat)
    requires Up(tuples, x, n).Some?
    ensures Up(tuples, x, n + m) == Up(tuples, Up(tuples, x, n).value, m)
    decreases m
  {
    if m > 0 {
      UpAdd(tuples, x, n, m - 1);
    }
  }

  lemma {:induction false} UpDefined(tuples: Tuples, x: Id, n: nat, i: nat)
    requires Up(tuples, x, n).Some? && i <= n
    ensures Up(tuples, x, i).Some?
    decreases n
  {
    if i < n {
      UpDefined(tuples, x, n - 1, i);
    }
  }

  lemma {:induction false} RingWalk(tuples: Tuples, ring: seq<Id>, i: nat, j: nat)
    requires IsRing(tuples, ring) && i <= j < |ring|
    ensures Up(tuples, ring[i], j - i) == Some(ring[j])
    decreases j
  {
    if i < j {
      RingWalk(tuples, ring, i, j - 1);
    }
  }

  /** From anywhere on a ring everything on it is reached. */
  lemma RingReaches(tuples: Tuples, ring: seq<Id>, i: nat, j: nat)
    requires IsRing(tuples, ring) && i < |ring| && j < |ring|
    ensures IsAncestor(tuples, ring[i], ring[j])
  {
    var last := |ring| - 1;
    RingWalk(tuples, ring, i, last);
    assert Up(tuples, ring[i], last - i + 1) == Some(ring[0]);
    UpAdd(tuples, ring[i], last - i + 1, j);
    RingWalk(tuples, ring, 0, j);
    assert Up(tuples, ring[i], last - i + 1 + j) == Some(ring[j]);
  }

  lemma ParentOnRing(tuples: Tuples, ring: seq<Id>, x: Id)
    requires IsRing(tuples, ring) && x in ring
    ensures FirstParent(tuples, x).Some? && FirstParent(tuples, x).value in ring
  {
    var i :| 0 <= i < |ring| && ring[i] == x;
    var next := if i < |ring| - 1 then ring[i + 1] else ring[0];
    assert next in ring;
  }

  lemma {:induction false} RingIsClosed(tuples: Tuples, ring: seq<Id>, x: Id, n: nat)
    requires IsRing(tuples, ring) && x in ring
    ensures Up(tuples, x, n).Some? && Up(tuples, x, n).value in ring
  {
    if n > 0 {
      RingIsClosed(tuples, ring, x, n - 1);
      ParentOnRing(tuples, ring, Up(tuples, x, n - 1).value);
    }
  }

  /** The ancestors of a directory on a ring are the directories of the ring. */
  lemma RingIsAncestors(tuples: Tuples, ring: seq<Id>, x: Id)
    requires IsRing(tuples, ring) && x in ring
    ensures forall y :: IsAncestor(tuples, x, y) <==> y in ring
  {
    forall y | IsAncestor(tuples, x, y)
      ensures y in ring
    {
      var n: nat :| n > 0 && Up(tuples, x, n) == Some(y);
      RingIsClosed(tuples, ring, x, n);
    }
    forall y | y in ring
      ensures IsAncestor(tuples, x, y)
    {
      var i :| 0 <= i < |ring| && ring[i] == x;
      var j :| 0 <= j < |ring| && ring[j] == y;
      RingReaches(tuples, ring, i, j);
    }
  }

  lemma OrbitIsRing(tuples: Tuples, x: Id) returns (ring: seq<Id>)
    requires IsAncestor(tuples, x, x)
    ensures IsRing(tuples, ring) && x in ring
  {
    var n: nat :| n > 0 && Up(tuples, x, n) == Some(x);
    forall i: nat | i <= n
      ensures Up(tuples, x, i).Some?
    {
      UpDefined(tuples, x, n, i);
    }
    ring := seq(n, i requires 0 <= i < n => Up(tuples, x, i).value);
    assert ring[0] == x;
    forall i | 0 <= i < |ring|
      ensures FirstParent(tuples, ring[i]) == Up(tuples, x, i + 1)
    {
    }
  }

  /** A directory is its own ancestor exactly if it lies on a ring. */
  lemma CycleIff(tuples: Tuples, x: Id)
    ensures IsAncestor(tuples, x, x) <==> exists ring :: IsRing(tuples, ring) && x in ring
  {
    hide IsRing, IsAncestor;
    if IsAncestor(tuples, x, x) {
      var ring := OrbitIsRing(tuples, x);
      assert IsRing(tuples, ring) && x in ring;
    }
    forall ring | IsRing(tuples, ring) && x in ring
      ensures IsAncestor(tuples, x, x)
    {
      RingIsAncestors(tuples, ring, x);
    }
  }

  lemma ParentIsShallower(tuples: Tuples, depth: Id -> nat, x: Id)
    requires (forall t :: t in tuples ==> depth(t.1) < depth(t.0)) && FirstParent(tuples, x).Some?
    ensures depth(FirstParent(tuples, x).value) < depth(x)
  {
    var t :| t in tuples && t.0 == x && t.1 == FirstParent(tuples, x).value;
  }

  lemma {:induction false} ClimbIsShallower(tuples: Tuples, depth: Id -> nat, climb: seq<Id>)
    requires (forall t :: t in tuples ==> depth(t.1) < depth(t.0)) && climb != []
    requires forall i :: 0 <= i < |climb| - 1 ==> FirstParent(tuples, climb[i]) == Some(climb[i + 1])
    ensures depth(climb[|climb| - 1]) <= depth(climb[0])
    decreases climb
  {
    if |climb| > 1 {
      assert FirstParent(tuples, climb[0]) == Some(climb[0 + 1]);
      ParentIsShallower(tuples, depth, climb[0]);
      ClimbIsShallower(tuples, depth, climb[1..]);
    }
  }

  /** Where every directory lies strictly deeper than its parents, as in a tree, there is no ring. */
  lemma DeeperThanParents(tuples: Tuples, depth: Id -> nat)
    requires forall t :: t in tuples ==> depth(t.1) < depth(t.0)
    ensures RingFree(tuples)
  {
    forall ring
      ensures !IsRing(tuples, ring)
    {
      if IsRing(tuples, ring) {
        ParentIsShallower(tuples, depth, ring[|ring| - 1]);
        ClimbIsShallower(tuples, depth, ring);
      }
    }
  }

  // ---- the walk ------------------------------------------------------------------

  ghost predicate IsChain(tuples: Tuples, from: Id, chain: seq<Id>) {
    && (forall i :: 0 <= i < |chain| ==> Up(tuples, from, i + 1) == Some(chain[i]))
    && (forall i, j :: 0 <= i < j < |chain| ==> chain[i] != chain[j])
  }

  function Tip(from: Id, chain: seq<Id>): Id {
    if chain == [] then from else chain[|chain| - 1]
  }

  /** Once the tip has no parent, or one already in the chain, the chain holds every ancestor. */
  lemma {:induction false} ClosedChain(tuples: Tuples, from: Id, chain: seq<Id>, n: nat)
    requires IsChain(tuples, from, chain) && n > 0
    requires
      var next := FirstParent(tuples, Tip(from, chain));
      next.None? || next.value in chain
    ensures Up(tuples, from, n).None? || Up(tuples, from, n).value in chain
    decreases n
  {
    assert Up(tuples, from, 0) == Some(from);
    if n == 1 {
      assert chain != [] ==> Up(tuples, from, 1) == Some(chain[0]);
    } else {
      ClosedChain(tuples, from, chain, n - 1);
      if Up(tuples, from, n - 1).Some? && Up(tuples, from, n - 1).value != Tip(from, chain) {
        var i :| 0 <= i < |chain| && chain[i] == Up(tuples, from, n - 1).value;
        assert Up(tuples, from, i + 2) == Some(chain[i + 1]);
      }
    }
  }

  lemma ChainIsComplete(tuples: Tuples, from: Id, chain: seq<Id>)
    requires IsChain(tuples, from, chain)
    requires
      var next := FirstParent(tuples, Tip(from, chain));
      next.None? || next.value in chain
    ensures forall x :: x in chain <==> IsAncestor(tuples, from, x)
  {
    forall x | IsAncestor(tuples, from, x)
      ensures x in chain
    {
      var n: nat :| n > 0 && Up(tuples, from, n) == Some(x);
      ClosedChain(tuples, from, chain, n);
    }
    forall x | x in chain
      ensures IsAncestor(tuples, from, x)
    {
      var i :| 0 <= i < |chain| && chain[i] == x;
      assert Up(tuples, from, i + 1) == Some(x);
    }
  }

  lemma InElements(chain: seq<Id>, x: Id)
    ensures x in Elements(chain) <==> x in chain
  {
  }

  lemma ChainGrows(tuples: Tuples, from: Id, chain: seq<Id>)
    requires IsChain(tuples, from, chain) && FirstParent(tuples, Tip(from, chain)).Some?
    requires FirstParent(tuples, Tip(from, chain)).value !in chain
    ensures
      var next := FirstParent(tuples, Tip(from, chain)).value;
      IsChain(tuples, from, chain + [next]) && next in set t | t in tuples :: t.1
  {
    assert Up(tuples, from, 0) == Some(from);
    assert chain != [] ==> Up(tuples, from, |chain|) == Some(Tip(from, chain));
    assert Up(tuples, from, |chain| + 1) == FirstParent(tuples, Tip(from, chain));
  }

  lemma SeenGrows(chain: seq<Id>, x: Id, all: set<Id>)
    requires x in all && x !in chain
    ensures Elements(chain + [x]) == Elements(chain) + {x}
    ensures |all - Elements(chain + [x])| < |all - Elements(chain)|
  {
    assert Elements(chain + [x]) == Elements(chain) + {x};
    assert all - Elements(chain + [x]) == all - Elements(chain) - {x};
  }

  lemma TipIsAncestor(tuples: Tuples, from: Id, chain: seq<Id>)
    requires IsChain(tuples, from, chain)
    ensures chain == [] || IsAncestor(tuples, from, Tip(from, chain))
  {
    assert chain != [] ==> Up(tuples, from, |chain|) == Some(Tip(from, chain));
  }

  /** Some directory on the way up, the start included, cannot be read. */
  ghost predicate Unreadable(tuples: Tuples, from: Id, fails: Id -> bool) {
    fails(from) || exists x :: IsAncestor(tuples, from, x) && fails(x)
  }

  /** Everything asked so far, that is all but the tip, could be read. */
  ghost predicate ReadUpToTip(from: Id, chain: seq<Id>, fails: Id -> bool) {
    (chain != [] ==> !fails(from)) && forall i :: 0 <= i < |chain| - 1 ==> !fails(chain[i])
  }

  lemma EmptyChain(tuples: Tuples, from: Id)
    ensures IsChain(tuples, from, []) && Elements<Id>([]) == {}
    ensures forall fails: Id -> bool :: ReadUpToTip(from, [], fails)
  {
  }

  lemma ReadGrows(from: Id, chain: seq<Id>, next: Id, fails: Id -> bool)
    requires ReadUpToTip(from, chain, fails) && !fails(Tip(from, chain))
    ensures ReadUpToTip(from, chain + [next], fails)
  {
    forall i | 0 <= i < |chain|
      ensures !fails(chain[i])
    {
    }
  }

  lemma FailingTip(tuples: Tuples, from: Id, chain: seq<Id>, fails: Id -> bool)
    requires IsChain(tuples, from, chain) && fails(Tip(from, chain))
    ensures Unreadable(tuples, from, fails)
  {
    TipIsAncestor(tuples, from, chain);
  }

  lemma ReadableChain(tuples: Tuples, from: Id, chain: seq<Id>, fails: Id -> bool)
    requires ReadUpToTip(from, chain, fails) && !fails(Tip(from, chain))
    requires forall x :: x in chain <==> IsAncestor(tuples, from, x)
    ensures !Unreadable(tuples, from, fails)
  {
    forall x | x in chain
      ensures !fails(x)
    {
      var i :| 0 <= i < |chain| && chain[i] == x;
    }
  }

  /** `directory_ancestor_ids` of src/services/event_context.py.  It ends on every hierarchy, cyclic or not: each turn
      adds a parent not seen before.  A directory that cannot be read empties the answer. */
  method DirectoryAncestorIds(tuples: Tuples, from: Id, fails: Id -> bool) returns (chain: seq<Id>)
    ensures Unreadable(tuples, from, fails) ==> chain == []
    ensures !Unreadable(tuples, from, fails) ==>
      IsChain(tuples, from, chain) && forall x :: x in chain <==> IsAncestor(tuples, from, x)
  {
    hide IsChain, Elements, Up, ParentsOf, IsAncestor, Unreadable, ReadUpToTip;
    chain := [];
    var seen: set<Id> := {};
    var current := from;
    ghost var all := set t | t in tuples :: t.1;
    EmptyChain(tuples, from);
    while true
      invariant IsChain(tuples, from, chain) && current == Tip(from, chain)
      invariant seen == Elements(chain)
      invariant ReadUpToTip(from, chain, fails)
      decreases |all - seen|
    {
      if fails(current) {
        FailingTip(tuples, from, chain, fails);
        return [];
      }
      var next := GetFirstParent(tuples, current);
      if next.Some? {
        InElements(chain, next.value);
      }
      if next.None? || next.value in seen {
        break;
      }
      ChainGrows(tuples, from, chain);
      SeenGrows(chain, next.value, all);
      ReadGrows(from, chain, next.value, fails);
      chain := chain + [next.value];
      seen := seen + {next.value};
      current := next.value;
    }
    ChainIsComplete(tuples, from, chain);
    ReadableChain(tuples, from, chain, fails);
  }
}
