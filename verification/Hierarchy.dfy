/** The directory hierarchy as the permission backend stores it: a set of `child#parent@parent` tuples.  A directory
    may have several parents, and nothing in the tuples rules out a cycle. */
module Hierarchy {
  type Id = string

  /** A tuple says that its first component has its second component as a parent. */
  type Tuples = set<(Id, Id)>

  function ChildrenOf(tuples: Tuples, parents: set<Id>): set<Id> {
    set t | t in tuples && t.1 in parents :: t.0
  }

  function ParentsOf(tuples: Tuples, child: Id): set<Id> {
    set t | t in tuples && t.0 == child :: t.1
  }

  /** What lies at most `depth` steps below `root`, including `root`. */
  function Within(tuples: Tuples, root: Id, depth: nat): set<Id> {
    if depth == 0 then {root}
    else var near := Within(tuples, root, depth - 1); near + ChildrenOf(tuples, near)
  }

  ghost predicate Reaches(tuples: Tuples, from: Id, to: Id) {
    exists depth: nat :: to in Within(tuples, from, depth)
  }

  /** Everything below `root` at any depth, including `root`. */
  ghost function Subtree(tuples: Tuples, root: Id): set<Id> {
    set x | x in {root} + ChildrenOf(tuples, set t | t in tuples :: t.1) && Reaches(tuples, root, x)
  }

  /** No two different directories below `root` reach each other.  A directory that is its own parent is allowed. */
  ghost predicate Acyclic(tuples: Tuples, root: Id) {
    forall x, y :: x in Subtree(tuples, root) && y in Subtree(tuples, x) && x in Subtree(tuples, y) ==> x == y
  }

  lemma {:induction false} WithinGrows(tuples: Tuples, root: Id, depth: nat, more: nat)
    requires depth <= more
    ensures Within(tuples, root, depth) <= Within(tuples, root, more)
    decreases more
  {
    if depth < more {
      WithinGrows(tuples, root, depth, more - 1);
    }
  }

  lemma WithinIsKnown(tuples: Tuples, root: Id, depth: nat)
    ensures Within(tuples, root, depth) <= {root} + ChildrenOf(tuples, set t | t in tuples :: t.1)
  {
    if depth > 0 {
      WithinIsKnown(tuples, root, depth - 1);
      ChildrenAreKnown(tuples, Within(tuples, root, depth - 1));
    }
  }

  lemma ChildrenAreKnown(tuples: Tuples, parents: set<Id>)
    ensures ChildrenOf(tuples, parents) <= ChildrenOf(tuples, set t | t in tuples :: t.1)
  {
  }

  lemma WithinIsReachable(tuples: Tuples, root: Id, depth: nat)
    ensures Within(tuples, root, depth) <= Subtree(tuples, root)
  {
    hide ChildrenOf, Within;
    WithinIsKnown(tuples, root, depth);
  }

  lemma InSubtree(tuples: Tuples, root: Id, x: Id)
    ensures x in Subtree(tuples, root) <==> Reaches(tuples, root, x)
  {
    if Reaches(tuples, root, x) {
      var depth: nat :| x in Within(tuples, root, depth);
      WithinIsReachable(tuples, root, depth);
    }
  }

  lemma SelfInSubtree(tuples: Tuples, root: Id)
    ensures root in Subtree(tuples, root)
  {
    WithinIsReachable(tuples, root, 0);
  }

  lemma {:induction false} WithinCompose(tuples: Tuples, a: Id, b: Id, c: Id, i: nat, j: nat)
    requires b in Within(tuples, a, i) && c in Within(tuples, b, j)
    ensures c in Within(tuples, a, i + j)
    decreases j
  {
    if j > 0 {
      if c in Within(tuples, b, j - 1) {
        WithinCompose(tuples, a, b, c, i, j - 1);
      } else {
        var t :| t in tuples && t.1 in Within(tuples, b, j - 1) && t.0 == c;
        WithinCompose(tuples, a, b, t.1, i, j - 1);
      }
    }
  }

  lemma SubtreeTransitive(tuples: Tuples, root: Id, mid: Id)
    requires mid in Subtree(tuples, root)
    ensures Subtree(tuples, mid) <= Subtree(tuples, root)
  {
    var i: nat :| mid in Within(tuples, root, i);
    forall x | x in Subtree(tuples, mid)
      ensures x in Subtree(tuples, root)
    {
      var j: nat :| x in Within(tuples, mid, j);
      WithinCompose(tuples, root, mid, x, i, j);
      InSubtree(tuples, root, x);
    }
  }

  /** Whatever lies below `root` is `root` itself or below a child of `root` other than `root`. */
  lemma {:induction false} FirstStep(tuples: Tuples, root: Id, x: Id, depth: nat) returns (child: Id)
    requires x in Within(tuples, root, depth) && x != root
    ensures child in ChildrenOf(tuples, {root}) && child != root && x in Subtree(tuples, child)
    decreases depth
  {
    if x in Within(tuples, root, depth - 1) {
      child := FirstStep(tuples, root, x, depth - 1);
    } else {
      var t :| t in tuples && t.1 in Within(tuples, root, depth - 1) && t.0 == x;
      if t.1 == root {
        child := x;
        SelfInSubtree(tuples, x);
      } else {
        child := FirstStep(tuples, root, t.1, depth - 1);
        assert t.1 in {t.1} && x in ChildrenOf(tuples, {t.1});
        assert x in Within(tuples, t.1, 1);
        WithinIsReachable(tuples, t.1, 1);
        SubtreeTransitive(tuples, child, t.1);
      }
    }
  }

  lemma ChildIsBelow(tuples: Tuples, root: Id, child: Id)
    requires child in ChildrenOf(tuples, {root})
    ensures child in Within(tuples, root, 1) && child in Subtree(tuples, root)
  {
    WithinIsReachable(tuples, root, 1);
  }

  /** The subtree of a directory strictly below `root` is strictly smaller: the recursion measure. */
  lemma SubtreeShrinks(tuples: Tuples, root: Id, below: Id)
    requires Acyclic(tuples, root) && below in Subtree(tuples, root) && below != root
    ensures Acyclic(tuples, below) && Subtree(tuples, below) < Subtree(tuples, root)
    ensures root !in Subtree(tuples, below)
  {
    SelfInSubtree(tuples, root);
    SubtreeTransitive(tuples, root, below);
    assert root !in Subtree(tuples, below);
  }

  /** If one more step adds nothing, no further step does. */
  lemma {:induction false} ClosedWithin(tuples: Tuples, root: Id, depth: nat, more: nat)
    requires depth <= more && ChildrenOf(tuples, Within(tuples, root, depth)) <= Within(tuples, root, depth)
    ensures Within(tuples, root, more) == Within(tuples, root, depth)
    decreases more
  {
    hide ChildrenOf;
    if depth < more {
      ClosedWithin(tuples, root, depth, more - 1);
    }
  }
}
