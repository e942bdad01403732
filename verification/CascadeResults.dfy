/** What the cascade of src/services/directory.py guarantees to callers, read off its effect. */
module CascadeResults {
  import opened Hierarchy
  import opened SubtreeResolver
  import opened Sequences
  import opened CascadeSpec
  import opened CascadeEffects
  import opened CascadeTrail
  import opened DryRunListing

  /** At every moment of a run, also one that ends in an exception, the next directory row to go has no row below it
      any more. */
  lemma RemovedAfterDescendants(dirTuples: Tuples, noteTuples: Tuples, root: Id, s: Snapshot, t: Snapshot, step: nat)
    requires Effects(dirTuples, noteTuples, root, s, t) && |s.removals| + step < |t.removals|
    ensures
      var log := t.removals[|s.removals|..];
      var rows := s.directories - Elements(log[..step]);
      Subtree(dirTuples, log[step]) * rows <= {log[step]}
  {
    var log := t.removals[|s.removals|..];
    forall y | y in Subtree(dirTuples, log[step]) && y in s.directories && y != log[step]
      ensures y in Elements(log[..step])
    {
    }
  }

  /** Content shared with the outside survives every run, finished or cut short. */
  lemma SharedContentSurvives(dirTuples: Tuples, noteTuples: Tuples, root: Id, s: Snapshot, t: Snapshot)
    requires Effects(dirTuples, noteTuples, root, s, t)
    ensures forall n :: n in s.notes && !(ParentsOf(noteTuples, n) <= Subtree(dirTuples, root)) ==> n in t.notes
    ensures forall a, n ::
      (a in s.attachments && n in ParentsOf(s.attTuples, a) && !(ParentsOf(noteTuples, n) <= Subtree(dirTuples, root)))
      ==> a in t.attachments
  {
    DoomedIsExclusive(dirTuples, noteTuples, s.attTuples, root);
  }

  /** A run in which nothing was refused leaves exactly what is not doomed. */
  lemma ExactOutcome(dirTuples: Tuples, noteTuples: Tuples, root: Id, s: Snapshot, t: Snapshot)
    requires Effects(dirTuples, noteTuples, root, s, t) && Thorough(dirTuples, noteTuples, root, s, t)
    requires Subtree(dirTuples, root) !! t.directories
    ensures t.directories == s.directories - Subtree(dirTuples, root)
    ensures t.notes == s.notes - DoomedNotes(dirTuples, noteTuples, root)
    ensures t.attachments == s.attachments - DoomedAttachments(dirTuples, noteTuples, s.attTuples, root)
  {
    hide Subtree, DoomedNotes, DoomedAttachments, BottomUp, DropsWhole;
    assert forall n :: n in t.notes ==> n !in DoomedNotes(dirTuples, noteTuples, root) * t.notes;
    assert forall a :: a in t.attachments ==>
      a !in DoomedAttachments(dirTuples, noteTuples, s.attTuples, root) * t.attachments;
  }

  /** When every request is obeyed, the activation returns and leaves nothing doomed. */
  lemma ObeyedIsThorough(dirTuples: Tuples, noteTuples: Tuples, root: Id, s: Snapshot, t: Snapshot, asked: Trail,
                         returned: bool)
    requires Cascaded(dirTuples, noteTuples, root, s, t, asked, returned) && AllObey(asked)
    ensures returned && Thorough(dirTuples, noteTuples, root, s, t)
  {
    hide Effects, Account, Opens, Closes, LeavesOnly, AllObey, Steady, Answered;
    ObeyedHasNoRefusal(asked);
  }

  /** Refused deletions of notes and attachments do not stop a run: it removes the whole subtree and everything doomed
      but what was refused, and each doomed row that it leaves takes a refusal of its own. */
  lemma OutcomeUpToRefusals(dirTuples: Tuples, noteTuples: Tuples, root: Id, s: Snapshot, t: Snapshot, asked: Trail,
                            returned: bool)
    requires Cascaded(dirTuples, noteTuples, root, s, t, asked, returned) && Steady(asked)
    ensures returned && t.directories == s.directories - Subtree(dirTuples, root)
    ensures
      var doomed := DoomedNotes(dirTuples, noteTuples, root);
      s.notes - doomed <= t.notes <= s.notes - doomed + Answered(asked, Note, Refuses)
    ensures
      var doomed := DoomedAttachments(dirTuples, noteTuples, s.attTuples, root);
      s.attachments - doomed <= t.attachments <= s.attachments - doomed + Answered(asked, Attachment, Refuses)
    ensures |DoomedNotes(dirTuples, noteTuples, root) * t.notes|
          + |DoomedAttachments(dirTuples, noteTuples, s.attTuples, root) * t.attachments| <= Refusals(asked)
  {
    hide Account, Opens, Closes, Steady, Answered, Subtree, DoomedNotes, DoomedAttachments, DropsWhole, BottomUp,
         Refusals;
    RefusedAreRefusals(asked);
    SubsetSize(DoomedNotes(dirTuples, noteTuples, root) * t.notes, Answered(asked, Note, Refuses));
    SubsetSize(DoomedAttachments(dirTuples, noteTuples, s.attTuples, root) * t.attachments,
               Answered(asked, Attachment, Refuses));
  }

  lemma SubsetSize(small: set<Id>, large: set<Id>)
    requires small <= large
    ensures |small| <= |large|
  {
    assert large == small + (large - small);
  }

  /** In a subtree no deeper than the resolver's cap, a run in which nothing was refused removes exactly the rows that
      the first resolution, and so the dry run, lists. */
  lemma DryRunPredicts(dirTuples: Tuples, noteTuples: Tuples, root: Id, s: Snapshot, t: Snapshot, listed: Resolved)
    requires Effects(dirTuples, noteTuples, root, s, t) && Thorough(dirTuples, noteTuples, root, s, t)
    requires Subtree(dirTuples, root) !! t.directories
    requires listed == Resolution(dirTuples, noteTuples, s.attTuples, root, MAX_DEPTH)
    ensures s.directories - t.directories == s.directories * listed.directories <==>
            s.directories * Subtree(dirTuples, root) <= Within(dirTuples, root, MAX_DEPTH)
    ensures Subtree(dirTuples, root) == Within(dirTuples, root, MAX_DEPTH) ==>
      && s.notes - t.notes == s.notes * listed.notes
      && s.attachments - t.attachments == s.attachments * listed.attachments
  {
    ExactOutcome(dirTuples, noteTuples, root, s, t);
    WithinIsReachable(dirTuples, root, MAX_DEPTH);
    var removed := s.directories * Subtree(dirTuples, root);
    assert s.directories - t.directories == removed;
    if removed == s.directories * listed.directories {
      assert removed <= listed.directories;
    }
    if Subtree(dirTuples, root) == Within(dirTuples, root, MAX_DEPTH) {
      ShallowResolutionIsComplete(dirTuples, noteTuples, s.attTuples, root);
    }
  }

  /** A note with a single parent is doomed at any depth. */
  lemma SingleParentIsDoomed(dirTuples: Tuples, noteTuples: Tuples, root: Id, note: Id, dir: Id)
    requires dir in Subtree(dirTuples, root) && ParentsOf(noteTuples, note) == {dir}
    ensures note in DoomedNotes(dirTuples, noteTuples, root)
  {
    assert dir in ParentsOf(noteTuples, note);
    assert (note, dir) in noteTuples;
    WithinGrows(dirTuples, dir, 0, MAX_DEPTH);
    assert dir in Within(dirTuples, dir, MAX_DEPTH);
    assert note in OwnNotes(dirTuples, noteTuples, dir);
  }

  /** With several parents the cap shows: a note in the root and in a directory below the cap is never deleted, not
      even by a run that removes both directories. */
  lemma DeepSharedNoteIsOrphaned(dirTuples: Tuples, noteTuples: Tuples, root: Id, deep: Id, note: Id)
    requires Acyclic(dirTuples, root) && deep in Subtree(dirTuples, root)
    requires deep !in Within(dirTuples, root, MAX_DEPTH) && {root, deep} <= ParentsOf(noteTuples, note)
    ensures note !in DoomedNotes(dirTuples, noteTuples, root)
  {
    forall d | d in Subtree(dirTuples, root) && {root, deep} <= Within(dirTuples, d, MAX_DEPTH)
      ensures false
    {
      WithinIsReachable(dirTuples, d, MAX_DEPTH);
      SelfInSubtree(dirTuples, root);
    }
  }

  // ---- a chain that is too deep -----------------------------------------------------------

  function Name(i: nat): (id: Id)
    ensures |id| == i + 1
  {
    seq(i + 1, _ => 'd')
  }

  /** The tuple that puts directory `i + 1` below directory `i`. */
  function Link(i: nat): (Id, Id) {
    (Name(i + 1), Name(i))
  }

  function Chain(n: nat): Tuples {
    set i: nat | i < n :: Link(i)
  }

  function Segment(from: nat, to: nat): set<Id> {
    set i: nat | from <= i <= to :: Name(i)
  }

  lemma NamesDiffer(i: nat, j: nat)
    ensures Name(i) == Name(j) <==> i == j
  {
    assert Name(i) == Name(j) ==> |Name(i)| == |Name(j)|;
  }

  lemma ChildrenOfSegment(n: nat, from: nat, to: nat)
    requires from <= to <= n
    ensures ChildrenOf(Chain(n), Segment(from, to)) == Segment(from + 1, if to < n then to + 1 else n)
  {
    hide Name;
    var next := Segment(from + 1, if to < n then to + 1 else n);
    forall t | t in Chain(n) && t.1 in Segment(from, to)
      ensures t.0 in next
    {
      var i: nat :| i < n && t == Link(i);
      var j: nat :| from <= j <= to && t.1 == Name(j);
      NamesDiffer(i, j);
    }
    forall x | x in next
      ensures x in ChildrenOf(Chain(n), Segment(from, to))
    {
      var i: nat :| from + 1 <= i && i <= (if to < n then to + 1 else n) && x == Name(i);
      assert Link(i - 1) in Chain(n) && Name(i - 1) in Segment(from, to);
    }
  }

  lemma {:induction false} WithinChain(n: nat, k: nat, depth: nat)
    requires k <= n
    ensures Within(Chain(n), Name(k), depth) == Segment(k, if k + depth < n then k + depth else n)
    decreases depth
  {
    hide Name, Chain, ChildrenOf;
    if depth > 0 {
      var to := if k + depth - 1 < n then k + depth - 1 else n;
      WithinChain(n, k, depth - 1);
      ChildrenOfSegment(n, k, to);
      SegmentGrows(k, to, if to < n then to + 1 else n);
    } else {
      assert Segment(k, k) == {Name(k)};
    }
  }

  lemma SegmentGrows(from: nat, to: nat, more: nat)
    requires from <= to <= more <= to + 1
    ensures Segment(from, to) + Segment(from + 1, more) == Segment(from, more)
  {
    hide Name;
  }

  lemma SubtreeOfChain(n: nat, k: nat)
    requires k <= n
    ensures Subtree(Chain(n), Name(k)) == Segment(k, n)
  {
    hide Name, Chain, Subtree, Within;
    forall x
      ensures x in Subtree(Chain(n), Name(k)) <==> x in Segment(k, n)
    {
      InSubtree(Chain(n), Name(k), x);
      if x in Subtree(Chain(n), Name(k)) {
        var depth: nat :| x in Within(Chain(n), Name(k), depth);
        WithinChain(n, k, depth);
      }
      WithinChain(n, k, n - k);
    }
  }

  lemma InSegment(i: nat, from: nat, to: nat)
    ensures Name(i) in Segment(from, to) <==> from <= i <= to
  {
    hide Name;
    if Name(i) in Segment(from, to) {
      var j: nat :| from <= j <= to && Name(i) == Name(j);
      NamesDiffer(i, j);
    }
  }

  lemma ChainIsAcyclic(n: nat)
    ensures Acyclic(Chain(n), Name(0))
  {
    hide Name, Chain, Subtree;
    SubtreeOfChain(n, 0);
    forall x, y | x in Subtree(Chain(n), Name(0)) && y in Subtree(Chain(n), x) && x in Subtree(Chain(n), y)
      ensures x == y
    {
      var i: nat :| i <= n && x == Name(i);
      SubtreeOfChain(n, i);
      var j: nat :| i <= j <= n && y == Name(j);
      SubtreeOfChain(n, j);
      InSegment(i, j, n);
    }
  }

  /** A chain one directory longer than the cap, with a note in its first and its last directory: a run that removes
      all of these directories still leaves the note. */
  lemma OrphanInChain(note: Id, s: Snapshot, t: Snapshot)
    requires
      var n := MAX_DEPTH + 1;
      && Effects(Chain(n), {(note, Name(0)), (note, Name(n))}, Name(0), s, t)
      && Thorough(Chain(n), {(note, Name(0)), (note, Name(n))}, Name(0), s, t)
      && Subtree(Chain(n), Name(0)) !! t.directories
    ensures Acyclic(Chain(MAX_DEPTH + 1), Name(0))
    ensures Name(0) !in t.directories && Name(MAX_DEPTH + 1) !in t.directories
    ensures note in s.notes ==> note in t.notes
  {
    hide Name, Chain, Subtree, Effects, Thorough, Acyclic, Segment;
    var n := MAX_DEPTH + 1;
    var noteTuples := {(note, Name(0)), (note, Name(n))};
    ChainIsAcyclic(n);
    SubtreeOfChain(n, 0);
    InSegment(0, 0, n);
    InSegment(n, 0, n);
    WithinChain(n, 0, MAX_DEPTH);
    InSegment(n, 0, MAX_DEPTH);
    BothParents(note, Name(0), Name(n));
    DeepSharedNoteIsOrphaned(Chain(n), noteTuples, Name(0), Name(n), note);
    ExactOutcome(Chain(n), noteTuples, Name(0), s, t);
  }

  lemma BothParents(note: Id, a: Id, b: Id)
    ensures {a, b} <= ParentsOf({(note, a), (note, b)}, note)
  {
    assert (note, a) in {(note, a), (note, b)} && (note, b) in {(note, a), (note, b)};
  }

  // ---- when the recursion ends -----------------------------------------------------------

  /** The calls below one activation that is never refused nest at most `fuel` deep. */
  ghost predicate EndsWithin(dirTuples: Tuples, root: Id, fuel: nat)
    decreases fuel
  {
    fuel > 0 && forall sub :: sub in Within(dirTuples, root, MAX_DEPTH) && sub != root ==>
      EndsWithin(dirTuples, sub, fuel - 1)
  }

  lemma {:induction false} AcyclicEnds(dirTuples: Tuples, root: Id, fuel: nat)
    requires Acyclic(dirTuples, root) && |Subtree(dirTuples, root)| < fuel
    ensures EndsWithin(dirTuples, root, fuel)
    decreases fuel
  {
    WithinIsReachable(dirTuples, root, MAX_DEPTH);
    forall sub | sub in Within(dirTuples, root, MAX_DEPTH) && sub != root
      ensures EndsWithin(dirTuples, sub, fuel - 1)
    {
      SubtreeShrinks(dirTuples, root, sub);
      SmallerSubset(Subtree(dirTuples, sub), Subtree(dirTuples, root));
      AcyclicEnds(dirTuples, sub, fuel - 1);
    }
  }

  lemma SmallerSubset(small: set<Id>, large: set<Id>)
    requires small < large
    ensures |small| < |large|
  {
    assert large == small + (large - small);
  }

  lemma {:induction false} CycleNeverEnds(dirTuples: Tuples, root: Id, x: Id, y: Id, fuel: nat)
    requires x in Subtree(dirTuples, root) && y in Subtree(dirTuples, x) && x in Subtree(dirTuples, y) && x != y
    ensures !EndsWithin(dirTuples, root, fuel)
    decreases fuel
  {
    if fuel > 0 {
      var target := if root == x then y else x;
      SelfInSubtree(dirTuples, root);
      SubtreeTransitive(dirTuples, root, x);
      var next := ResolvedAncestor(dirTuples, root, target);
      if target == x {
        CycleNeverEnds(dirTuples, next, x, y, fuel - 1);
      } else {
        CycleNeverEnds(dirTuples, next, y, x, fuel - 1);
      }
    }
  }

  /** If nothing is refused, the recursion ends exactly on the hierarchies in which no two different directories below
      the root reach each other; a directory that is its own parent does no harm. */
  lemma EndsIffAcyclic(dirTuples: Tuples, root: Id)
    ensures (exists fuel: nat :: EndsWithin(dirTuples, root, fuel)) <==> Acyclic(dirTuples, root)
  {
    if Acyclic(dirTuples, root) {
      var fuel := |Subtree(dirTuples, root)| + 1;
      AcyclicEnds(dirTuples, root, fuel);
      assert EndsWithin(dirTuples, root, fuel);
    } else {
      var x, y :| x in Subtree(dirTuples, root) && y in Subtree(dirTuples, x) && x in Subtree(dirTuples, y) && x != y;
      forall fuel: nat {
        CycleNeverEnds(dirTuples, root, x, y, fuel);
      }
    }
  }
}
