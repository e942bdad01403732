/** What deleting a directory may destroy: the reference that src/services/directory.py is proved against. */
module CascadeSpec {
  import opened Hierarchy
  import opened SubtreeResolver

  /** The cap that `_resolve_children` passes. */
  const MAX_DEPTH: nat := 10

  function OwnNotes(dirTuples: Tuples, noteTuples: Tuples, dir: Id): set<Id> {
    Exclusive(noteTuples, Within(dirTuples, dir, MAX_DEPTH))
  }

  function OwnAttachments(dirTuples: Tuples, noteTuples: Tuples, attTuples: Tuples, dir: Id): set<Id> {
    Exclusive(attTuples, OwnNotes(dirTuples, noteTuples, dir))
  }

  lemma ResolutionIsOwn(dirTuples: Tuples, noteTuples: Tuples, attTuples: Tuples, dir: Id)
    ensures Resolution(dirTuples, noteTuples, attTuples, dir, MAX_DEPTH) ==
            Resolved(Within(dirTuples, dir, MAX_DEPTH), OwnNotes(dirTuples, noteTuples, dir),
                     OwnAttachments(dirTuples, noteTuples, attTuples, dir))
  {
  }

  /** Notes that some directory of the subtree owns exclusively. */
  ghost function DoomedNotes(dirTuples: Tuples, noteTuples: Tuples, root: Id): set<Id> {
    set d, n | d in Subtree(dirTuples, root) && n in OwnNotes(dirTuples, noteTuples, d) :: n
  }

  ghost function DoomedAttachments(dirTuples: Tuples, noteTuples: Tuples, attTuples: Tuples, root: Id): set<Id> {
    set d, a | d in Subtree(dirTuples, root) && a in OwnAttachments(dirTuples, noteTuples, attTuples, d) :: a
  }

  /** `after` is `before` with all tuples of some attachments dropped, each of them in `gone`. */
  ghost predicate DropsWhole(before: Tuples, after: Tuples, gone: set<Id>) {
    && after <= before
    && forall t :: t in before && t !in after ==> t.0 in gone && ParentsOf(after, t.0) == {}
  }

  // ---- exclusivity over a store that shrinks ----------------------------------------

  /** Dropping tuples attachment by attachment never makes another attachment exclusive. */
  lemma ExclusiveShrinks(before: Tuples, after: Tuples, gone: set<Id>, holders: set<Id>)
    requires DropsWhole(before, after, gone)
    ensures Exclusive(after, holders) <= Exclusive(before, holders)
    ensures Exclusive(before, holders) <= Exclusive(after, holders) + gone
  {
    forall t | t in after
      ensures ParentsOf(after, t.0) == ParentsOf(before, t.0)
    {
      assert t.1 in ParentsOf(after, t.0);
    }
    forall x | x in Exclusive(before, holders) && x !in gone
      ensures x in Exclusive(after, holders)
    {
      var t :| t in before && ParentsOf(before, t.0) <= holders && t.0 == x;
      assert t in after;
    }
  }

  lemma DropsWholeTransitive(a: Tuples, b: Tuples, c: Tuples, gone: set<Id>, more: set<Id>)
    requires DropsWhole(a, b, gone) && DropsWhole(b, c, more)
    ensures DropsWhole(a, c, gone + more)
  {
    forall t | t in a && t !in c
      ensures t.0 in gone + more && ParentsOf(c, t.0) == {}
    {
      assert ParentsOf(c, t.0) <= ParentsOf(b, t.0);
    }
  }

  // ---- how the doomed sets compose along the recursion --------------------------------

  lemma DoomedBelow(dirTuples: Tuples, noteTuples: Tuples, attTuples: Tuples, root: Id, below: Id)
    requires below in Subtree(dirTuples, root)
    ensures DoomedNotes(dirTuples, noteTuples, below) <= DoomedNotes(dirTuples, noteTuples, root)
    ensures DoomedAttachments(dirTuples, noteTuples, attTuples, below)
         <= DoomedAttachments(dirTuples, noteTuples, attTuples, root)
    ensures OwnNotes(dirTuples, noteTuples, root) <= DoomedNotes(dirTuples, noteTuples, root)
    ensures OwnAttachments(dirTuples, noteTuples, attTuples, root)
         <= DoomedAttachments(dirTuples, noteTuples, attTuples, root)
  {
    SubtreeTransitive(dirTuples, root, below);
    SelfInSubtree(dirTuples, root);
  }

  /** The union over what one activation resolves is everything: the own share and that of each resolved directory. */
  lemma DoomedUnion(dirTuples: Tuples, noteTuples: Tuples, attTuples: Tuples, root: Id, notes: set<Id>, atts: set<Id>)
    requires OwnNotes(dirTuples, noteTuples, root) <= notes
    requires OwnAttachments(dirTuples, noteTuples, attTuples, root) <= atts
    requires forall s :: s in Within(dirTuples, root, MAX_DEPTH) && s != root ==>
      && DoomedNotes(dirTuples, noteTuples, s) <= notes
      && DoomedAttachments(dirTuples, noteTuples, attTuples, s) <= atts
    ensures DoomedNotes(dirTuples, noteTuples, root) <= notes
    ensures DoomedAttachments(dirTuples, noteTuples, attTuples, root) <= atts
  {
    forall d | d in Subtree(dirTuples, root)
      ensures OwnNotes(dirTuples, noteTuples, d) <= notes
      ensures OwnAttachments(dirTuples, noteTuples, attTuples, d) <= atts
    {
      if d != root {
        var s := ResolvedAncestor(dirTuples, root, d);
        assert OwnNotes(dirTuples, noteTuples, d) <= DoomedNotes(dirTuples, noteTuples, s);
        assert OwnAttachments(dirTuples, noteTuples, attTuples, d)
            <= DoomedAttachments(dirTuples, noteTuples, attTuples, s);
      }
    }
  }

  /** However deep a directory lies, a directory that the capped walk does find lies above it. */
  lemma ResolvedAncestor(dirTuples: Tuples, root: Id, deep: Id) returns (near: Id)
    requires deep in Subtree(dirTuples, root) && deep != root
    ensures near in Within(dirTuples, root, MAX_DEPTH) && near != root && deep in Subtree(dirTuples, near)
  {
    var depth: nat :| deep in Within(dirTuples, root, depth);
    near := FirstStep(dirTuples, root, deep, depth);
    ChildIsBelow(dirTuples, root, near);
    WithinGrows(dirTuples, root, 1, MAX_DEPTH);
  }

  // ---- what the doomed sets mean for shared content ---------------------------------------

  /** Every doomed note has a parent, and all its parents are in the subtree; every doomed attachment hangs on such
      notes only.  Content with a parent outside the subtree is never doomed. */
  lemma DoomedIsExclusive(dirTuples: Tuples, noteTuples: Tuples, attTuples: Tuples, root: Id)
    ensures forall n :: n in DoomedNotes(dirTuples, noteTuples, root) ==>
      ParentsOf(noteTuples, n) != {} && ParentsOf(noteTuples, n) <= Subtree(dirTuples, root)
    ensures forall a :: a in DoomedAttachments(dirTuples, noteTuples, attTuples, root) ==>
      ParentsOf(attTuples, a) != {} && ParentsOf(attTuples, a) <= DoomedNotes(dirTuples, noteTuples, root)
  {
    forall d | d in Subtree(dirTuples, root)
      ensures Within(dirTuples, d, MAX_DEPTH) <= Subtree(dirTuples, root)
    {
      WithinIsReachable(dirTuples, d, MAX_DEPTH);
      SubtreeTransitive(dirTuples, root, d);
    }
    forall t | t in noteTuples
      ensures ParentsOf(noteTuples, t.0) != {}
    {
      assert t.1 in ParentsOf(noteTuples, t.0);
    }
    forall t | t in attTuples
      ensures ParentsOf(attTuples, t.0) != {}
    {
      assert t.1 in ParentsOf(attTuples, t.0);
    }
  }

  /** A subtree no deeper than the cap: the first resolution already lists everything that is doomed. */
  lemma ShallowResolutionIsComplete(dirTuples: Tuples, noteTuples: Tuples, attTuples: Tuples, root: Id)
    requires Subtree(dirTuples, root) == Within(dirTuples, root, MAX_DEPTH)
    ensures DoomedNotes(dirTuples, noteTuples, root) == OwnNotes(dirTuples, noteTuples, root)
    ensures DoomedAttachments(dirTuples, noteTuples, attTuples, root)
         == OwnAttachments(dirTuples, noteTuples, attTuples, root)
  {
    forall d | d in Subtree(dirTuples, root)
      ensures OwnNotes(dirTuples, noteTuples, d) <= OwnNotes(dirTuples, noteTuples, root)
      ensures OwnAttachments(dirTuples, noteTuples, attTuples, d)
           <= OwnAttachments(dirTuples, noteTuples, attTuples, root)
    {
      WithinIsReachable(dirTuples, d, MAX_DEPTH);
      SubtreeTransitive(dirTuples, root, d);
    }
    SelfInSubtree(dirTuples, root);
  }
}
