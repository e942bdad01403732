/** The effect of a directory cascade as a relation between two states of the stores, and how such effects chain. */
module CascadeEffects {
  import opened Hierarchy
  import opened SubtreeResolver
  import opened Sequences
  import opened CascadeSpec
  import opened CascadeTrail
  import opened DryRunListing

  datatype Snapshot = Snapshot(directories: set<Id>, notes: set<Id>, attachments: set<Id>, attTuples: Tuples,
                               removals: seq<Id>)

  // ---- the effect of a cascade, finished or cut short ---------------------------------

  /** Each row of `log` was removed after every row below it that existed at the start. */
  ghost predicate BottomUp(dirTuples: Tuples, start: set<Id>, log: seq<Id>) {
    forall i, y :: 0 <= i < |log| && y in Subtree(dirTuples, log[i]) && y != log[i] && y in start ==> y in log[..i]
  }

  ghost predicate Effects(dirTuples: Tuples, noteTuples: Tuples, root: Id, s: Snapshot, t: Snapshot) {
    && s.removals <= t.removals
    && var log := t.removals[|s.removals|..];
    && t.directories == s.directories - Elements(log)
    && Elements(log) <= s.directories * Subtree(dirTuples, root)
    && BottomUp(dirTuples, s.directories, log)
    && t.notes <= s.notes <= t.notes + DoomedNotes(dirTuples, noteTuples, root)
    && var doomed := DoomedAttachments(dirTuples, noteTuples, s.attTuples, root);
    && t.attachments <= s.attachments <= t.attachments + doomed
    && DropsWhole(s.attTuples, t.attTuples, doomed - t.attachments)
  }

  /** Of all the cascade may destroy, nothing is left but some of the given notes and attachments. */
  ghost predicate LeavesOnly(dirTuples: Tuples, noteTuples: Tuples, root: Id, s: Snapshot, t: Snapshot,
                             notes: set<Id>, atts: set<Id>) {
    && DoomedNotes(dirTuples, noteTuples, root) * t.notes <= notes
    && DoomedAttachments(dirTuples, noteTuples, s.attTuples, root) * t.attachments <= atts
  }

  /** Nothing the cascade may destroy is left. */
  ghost predicate Thorough(dirTuples: Tuples, noteTuples: Tuples, root: Id, s: Snapshot, t: Snapshot) {
    LeavesOnly(dirTuples, noteTuples, root, s, t, {}, {})
  }

  /** Every doomed row that is left was refused at least once. */
  ghost predicate LeavesRefused(dirTuples: Tuples, noteTuples: Tuples, root: Id, s: Snapshot, t: Snapshot,
                                trail: Trail) {
    LeavesOnly(dirTuples, noteTuples, root, s, t, Answered(trail, Note, Refuses), Answered(trail, Attachment, Refuses))
  }

  function Without(tuples: Tuples, children: set<Id>): Tuples {
    set t | t in tuples && t.0 !in children
  }

  /** The rows that went are those whose deletion took effect, and the tuples that went are those of the attachments
      whose deletion ran to its end. */
  ghost predicate Account(trail: Trail, s: Snapshot, t: Snapshot) {
    && t.directories == s.directories - Erased(trail, Directory)
    && t.notes == s.notes - Erased(trail, Note)
    && t.attachments == s.attachments - Erased(trail, Attachment)
    && t.attTuples == Without(s.attTuples, Answered(trail, Attachment, Obeys))
  }

  lemma AccountTrans(a: Trail, b: Trail, s: Snapshot, t: Snapshot, u: Snapshot)
    requires Account(a, s, t) && Account(b, t, u)
    ensures Account(a + b, s, u)
  {
    hide Erased, Answered;
    ErasedConcat(a, b, Directory);
    ErasedConcat(a, b, Note);
    ErasedConcat(a, b, Attachment);
    AnsweredConcat(a, b, Attachment, Obeys);
  }

  /** Requests that delete nothing change nothing. */
  lemma AccountRefl(trail: Trail, s: Snapshot)
    requires forall a :: a in trail ==> !a.request.Erase?
    ensures Account(trail, s, s)
  {
    assert forall kind, outcome :: Answered(trail, kind, outcome) == {};
  }

  lemma EffectsRefl(dirTuples: Tuples, noteTuples: Tuples, root: Id, s: Snapshot)
    ensures Effects(dirTuples, noteTuples, root, s, s)
  {
    assert s.removals[|s.removals|..] == [];
  }

  lemma DoomedShrinks(dirTuples: Tuples, noteTuples: Tuples, root: Id, before: Tuples, after: Tuples, gone: set<Id>)
    requires DropsWhole(before, after, gone)
    ensures DoomedAttachments(dirTuples, noteTuples, after, root)
         <= DoomedAttachments(dirTuples, noteTuples, before, root)
    ensures DoomedAttachments(dirTuples, noteTuples, before, root)
         <= DoomedAttachments(dirTuples, noteTuples, after, root) + gone
  {
    forall d | d in Subtree(dirTuples, root)
      ensures OwnAttachments(dirTuples, noteTuples, after, d) <= OwnAttachments(dirTuples, noteTuples, before, d)
      ensures OwnAttachments(dirTuples, noteTuples, before, d) <= OwnAttachments(dirTuples, noteTuples, after, d) + gone
    {
      ExclusiveShrinks(before, after, gone, OwnNotes(dirTuples, noteTuples, d));
    }
  }

  lemma BottomUpConcat(dirTuples: Tuples, start: set<Id>, log: seq<Id>, more: seq<Id>)
    requires BottomUp(dirTuples, start, log) && BottomUp(dirTuples, start - Elements(log), more)
    ensures BottomUp(dirTuples, start, log + more)
  {
    forall i, y | 0 <= i < |log + more| && y in Subtree(dirTuples, (log + more)[i]) && y != (log + more)[i] &&
                  y in start
      ensures y in (log + more)[..i]
    {
      if i < |log| {
        assert (log + more)[..i] == log[..i];
      } else {
        assert (log + more)[..i] == log + more[..i - |log|];
        assert y in log || y in start - Elements(log);
      }
    }
  }

  lemma EffectsTrans(dirTuples: Tuples, noteTuples: Tuples, root: Id, s: Snapshot, t: Snapshot, u: Snapshot)
    requires Effects(dirTuples, noteTuples, root, s, t) && Effects(dirTuples, noteTuples, root, t, u)
    ensures Effects(dirTuples, noteTuples, root, s, u)
  {
    var log, more := t.removals[|s.removals|..], u.removals[|t.removals|..];
    assert u.removals[|s.removals|..] == log + more;
    assert Elements(log + more) == Elements(log) + Elements(more);
    BottomUpConcat(dirTuples, s.directories, log, more);
    var doomed := DoomedAttachments(dirTuples, noteTuples, s.attTuples, root);
    var doomed' := DoomedAttachments(dirTuples, noteTuples, t.attTuples, root);
    DoomedShrinks(dirTuples, noteTuples, root, s.attTuples, t.attTuples, doomed - t.attachments);
    DropsWholeTransitive(s.attTuples, t.attTuples, u.attTuples, doomed - t.attachments, doomed' - u.attachments);
  }

  lemma EffectsWiden(dirTuples: Tuples, noteTuples: Tuples, root: Id, below: Id, s: Snapshot, t: Snapshot)
    requires below in Subtree(dirTuples, root) && Effects(dirTuples, noteTuples, below, s, t)
    ensures Effects(dirTuples, noteTuples, root, s, t)
  {
    SubtreeTransitive(dirTuples, root, below);
    DoomedBelow(dirTuples, noteTuples, s.attTuples, root, below);
  }

  lemma EffectsShrink(dirTuples: Tuples, noteTuples: Tuples, root: Id, s: Snapshot, t: Snapshot)
    requires Effects(dirTuples, noteTuples, root, s, t)
    ensures t.directories <= s.directories <= t.directories + Subtree(dirTuples, root)
    ensures t.notes <= s.notes && t.attachments <= s.attachments
  {
  }

  lemma LeavesOnlyLater(dirTuples: Tuples, noteTuples: Tuples, root: Id, s: Snapshot, t: Snapshot, u: Snapshot,
                        notes: set<Id>, atts: set<Id>, notes': set<Id>, atts': set<Id>)
    requires LeavesOnly(dirTuples, noteTuples, root, s, t, notes, atts)
    requires u.notes <= t.notes && u.attachments <= t.attachments && notes <= notes' && atts <= atts'
    ensures LeavesOnly(dirTuples, noteTuples, root, s, u, notes', atts')
  {
  }

  // ---- the pieces of one activation ---------------------------------------------------

  /** Deleting attachments and notes that the first resolution listed. */
  lemma OwnShare(dirTuples: Tuples, noteTuples: Tuples, root: Id, s: Snapshot, t: Snapshot)
    requires t == s.(notes := t.notes, attachments := t.attachments, attTuples := t.attTuples)
    requires t.notes <= s.notes <= t.notes + OwnNotes(dirTuples, noteTuples, root)
    requires
      var own := OwnAttachments(dirTuples, noteTuples, s.attTuples, root);
      && t.attachments <= s.attachments <= t.attachments + own
      && DropsWhole(s.attTuples, t.attTuples, own - t.attachments)
    ensures Effects(dirTuples, noteTuples, root, s, t)
  {
    SelfInSubtree(dirTuples, root);
    DoomedBelow(dirTuples, noteTuples, s.attTuples, root, root);
    assert t.removals[|s.removals|..] == [];
  }

  /** Removing the row of the root once everything below it is gone, or leaving it. */
  lemma RowEffect(dirTuples: Tuples, noteTuples: Tuples, root: Id, s: Snapshot, t: Snapshot)
    requires forall y :: y in Subtree(dirTuples, root) && y in s.directories ==> y == root
    requires t == s || (root in s.directories &&
                        t == s.(directories := s.directories - {root}, removals := s.removals + [root]))
    ensures Effects(dirTuples, noteTuples, root, s, t)
    ensures root !in t.directories ==> Subtree(dirTuples, root) !! t.directories
  {
    SelfInSubtree(dirTuples, root);
    if t == s {
      EffectsRefl(dirTuples, noteTuples, root, s);
    } else {
      assert t.removals[|s.removals|..] == [root] && Elements([root]) == {root};
    }
  }

  /** The whole effect of an activation once its loop over the subdirectories has ended. */
  lemma NestedDone(dirTuples: Tuples, noteTuples: Tuples, root: Id, start: Snapshot, mid: Snapshot, before: Snapshot)
    requires Effects(dirTuples, noteTuples, root, start, mid) && Effects(dirTuples, noteTuples, root, mid, before)
    ensures Effects(dirTuples, noteTuples, root, start, before)
    ensures before.notes <= mid.notes && before.attachments <= mid.attachments
  {
    hide Effects;
    EffectsTrans(dirTuples, noteTuples, root, start, mid, before);
    EffectsShrink(dirTuples, noteTuples, root, mid, before);
  }

  /** And once its own row is gone, or has been left. */
  lemma RowDone(dirTuples: Tuples, noteTuples: Tuples, root: Id, start: Snapshot, before: Snapshot, after: Snapshot)
    requires Effects(dirTuples, noteTuples, root, start, before)
    requires forall y :: y in Subtree(dirTuples, root) && y in before.directories ==> y == root
    requires after == before || (root in before.directories &&
                                 after == before.(directories := before.directories - {root},
                                                  removals := before.removals + [root]))
    ensures Effects(dirTuples, noteTuples, root, start, after)
    ensures root !in after.directories ==> Subtree(dirTuples, root) !! after.directories
  {
    hide Effects, Subtree;
    RowEffect(dirTuples, noteTuples, root, before, after);
    EffectsTrans(dirTuples, noteTuples, root, start, before, after);
  }

  /** Nested activations that returned have cleared everything strictly below the root, however deep. */
  lemma AllBelowGone(dirTuples: Tuples, root: Id, directories: set<Id>)
    requires forall s :: s in Within(dirTuples, root, MAX_DEPTH) - {root} ==> Subtree(dirTuples, s) !! directories
    ensures forall y :: y in Subtree(dirTuples, root) && y in directories ==> y == root
  {
    forall y | y in Subtree(dirTuples, root) && y != root
      ensures y !in directories
    {
      var near := ResolvedAncestor(dirTuples, root, y);
    }
  }

  /** What is left, measured from an earlier state: what was doomed then and is not doomed now is gone already. */
  lemma LeavesOnlySince(dirTuples: Tuples, noteTuples: Tuples, root: Id, sub: Id, s: Snapshot, t: Snapshot, u: Snapshot,
                        notes: set<Id>, atts: set<Id>)
    requires Effects(dirTuples, noteTuples, root, s, t) && u.attachments <= t.attachments
    requires LeavesOnly(dirTuples, noteTuples, sub, t, u, notes, atts)
    ensures LeavesOnly(dirTuples, noteTuples, sub, s, u, notes, atts)
  {
    var gone := DoomedAttachments(dirTuples, noteTuples, s.attTuples, root) - t.attachments;
    DoomedShrinks(dirTuples, noteTuples, sub, s.attTuples, t.attTuples, gone);
  }

  lemma LeavesOnlyUnion(dirTuples: Tuples, noteTuples: Tuples, root: Id, s: Snapshot, t: Snapshot, u: Snapshot,
                        notes: set<Id>, atts: set<Id>)
    requires Effects(dirTuples, noteTuples, root, s, t) && u.notes <= t.notes && u.attachments <= t.attachments
    requires OwnNotes(dirTuples, noteTuples, root) * t.notes <= notes
    requires OwnAttachments(dirTuples, noteTuples, s.attTuples, root) * t.attachments <= atts
    requires forall sub :: sub in Within(dirTuples, root, MAX_DEPTH) - {root} ==>
      LeavesOnly(dirTuples, noteTuples, sub, t, u, notes, atts)
    ensures LeavesOnly(dirTuples, noteTuples, root, s, u, notes, atts)
  {
    hide OwnNotes, OwnAttachments, Within, Subtree;
    var handled := DoomedNotes(dirTuples, noteTuples, root) - (u.notes - notes);
    var handled' := DoomedAttachments(dirTuples, noteTuples, s.attTuples, root) - (u.attachments - atts);
    WithinIsReachable(dirTuples, root, MAX_DEPTH);
    SelfInSubtree(dirTuples, root);
    DoomedBelow(dirTuples, noteTuples, s.attTuples, root, root);
    forall sub | sub in Within(dirTuples, root, MAX_DEPTH) && sub != root
      ensures DoomedNotes(dirTuples, noteTuples, sub) <= handled
      ensures DoomedAttachments(dirTuples, noteTuples, s.attTuples, sub) <= handled'
    {
      DoomedBelow(dirTuples, noteTuples, s.attTuples, root, sub);
      assert sub in Within(dirTuples, root, MAX_DEPTH) - {root};
      LeavesOnlySince(dirTuples, noteTuples, root, sub, s, t, u, notes, atts);
    }
    DoomedUnion(dirTuples, noteTuples, s.attTuples, root, handled, handled');
  }

  // ---- the same pieces with their requests -----------------------------------------------

  /** Each of the notes was asked for once; nothing else changed, and those that stay were refused. */
  ghost predicate NotesErased(s: Snapshot, t: Snapshot, ids: set<Id>, asked: Trail) {
    && EachErased(asked, Note, ids)
    && Account(asked, s, t)
    && t == s.(notes := t.notes)
    && t.notes <= s.notes <= t.notes + ids
    && ids * t.notes <= Answered(asked, Note, Refuses)
  }

  ghost predicate AttachmentsErased(s: Snapshot, t: Snapshot, keys: set<Id>, asked: Trail) {
    && EachErased(asked, Attachment, keys)
    && Account(asked, s, t)
    && t == s.(attachments := t.attachments, attTuples := t.attTuples)
    && t.attachments <= s.attachments <= t.attachments + keys
    && keys * t.attachments <= Answered(asked, Attachment, Refuses)
    && DropsWhole(s.attTuples, t.attTuples, keys - t.attachments)
  }

  /** After a loop that asked for each note, those that are left were refused. */
  lemma NotesAccounted(trail: Trail, s: Snapshot, t: Snapshot, ids: set<Id>)
    requires EachErased(trail, Note, ids) && Account(trail, s, t) && t == s.(notes := t.notes)
    ensures NotesErased(s, t, ids, trail)
  {
    ErasedOrRefused(trail, Note, ids);
  }

  lemma AttachmentsAccounted(trail: Trail, s: Snapshot, t: Snapshot, keys: set<Id>)
    requires EachErased(trail, Attachment, keys) && Account(trail, s, t)
    requires t == s.(attachments := t.attachments, attTuples := t.attTuples)
    ensures AttachmentsErased(s, t, keys, trail)
  {
    ErasedOrRefused(trail, Attachment, keys);
  }

  /** One activation, from its first request to its return or its exception.  Only its content deletions may fail if it
      is to return; whatever they answer, the doomed rows that it leaves were refused. */
  ghost predicate Cascaded(dirTuples: Tuples, noteTuples: Tuples, root: Id, s: Snapshot, t: Snapshot, asked: Trail,
                           returned: bool) {
    && Effects(dirTuples, noteTuples, root, s, t)
    && Account(asked, s, t)
    && Opens(asked, root, OwnAttachments(dirTuples, noteTuples, s.attTuples, root),
             OwnNotes(dirTuples, noteTuples, root))
    && (returned ==> Closes(asked, root) && Subtree(dirTuples, root) !! t.directories)
    && (Steady(asked) ==> returned && LeavesRefused(dirTuples, noteTuples, root, s, t, asked))
  }

  /** The loop over the subdirectories, finished or cut short. */
  ghost predicate SubdirectoriesDone(dirTuples: Tuples, noteTuples: Tuples, root: Id, s: Snapshot, t: Snapshot,
                                     asked: Trail, done: set<Id>, finished: bool) {
    && Effects(dirTuples, noteTuples, root, s, t)
    && Account(asked, s, t)
    && (root in t.directories <==> root in s.directories)
    && (finished ==> forall sub :: sub in done ==> Subtree(dirTuples, sub) !! t.directories)
    && (Steady(asked) ==> finished)
    && (Steady(asked) ==> forall sub :: sub in done ==> LeavesRefused(dirTuples, noteTuples, sub, s, t, asked))
  }

  lemma NothingAsked(s: Snapshot, ids: set<Id>)
    ensures NotesErased(s, s, ids - ids, []) && AttachmentsErased(s, s, ids - ids, [])
  {
    AccountRefl([], s);
  }

  lemma NoteErased(s: Snapshot, t: Snapshot, id: Id, outcome: Outcome)
    requires t == s.(notes := if outcome == Refuses then s.notes else s.notes - {id})
    ensures Account([Asked(Erase(Child(id, Note)), outcome)], s, t)
  {
    var trail := [Asked(Erase(Child(id, Note)), outcome)];
    assert Erased(trail, Note) == if outcome == Refuses then {} else {id};
    assert Erased(trail, Directory) == Erased(trail, Attachment) == Answered(trail, Attachment, Obeys) == {};
  }

  lemma AttachmentErased(s: Snapshot, t: Snapshot, key: Id, outcome: Outcome)
    requires t == s.(attachments := if outcome == Refuses then s.attachments else s.attachments - {key},
                     attTuples := if outcome == Obeys then Without(s.attTuples, {key}) else s.attTuples)
    ensures Account([Asked(Erase(Child(key, Attachment)), outcome)], s, t)
  {
    var trail := [Asked(Erase(Child(key, Attachment)), outcome)];
    assert Erased(trail, Attachment) == if outcome == Refuses then {} else {key};
    assert Answered(trail, Attachment, Obeys) == if outcome == Obeys then {key} else {};
    assert Erased(trail, Directory) == Erased(trail, Note) == {};
  }

  /** One more round of the loop over the notes. */
  lemma NoteRound(s: Snapshot, t: Snapshot, u: Snapshot, ids: set<Id>, todo: set<Id>, asked: Trail, id: Id,
                  outcome: Outcome)
    requires id in todo && todo <= ids && NotesErased(s, t, ids - todo, asked)
    requires u == t.(notes := if outcome == Refuses then t.notes else t.notes - {id})
    ensures NotesErased(s, u, ids - (todo - {id}), asked + [Asked(Erase(Child(id, Note)), outcome)])
  {
    hide EachErased, Account, Answered;
    var last := Asked(Erase(Child(id, Note)), outcome);
    NoteErased(t, u, id, outcome);
    AccountTrans(asked, [last], s, t, u);
    EachErasedStep(asked, Note, ids - todo, id, outcome);
    assert ids - (todo - {id}) == ids - todo + {id};
    NotesAccounted(asked + [last], s, u, ids - (todo - {id}));
  }

  /** And of the loop over the attachments. */
  lemma AttachmentRound(s: Snapshot, t: Snapshot, u: Snapshot, keys: set<Id>, todo: set<Id>, asked: Trail, key: Id,
                        outcome: Outcome)
    requires key in todo && todo <= keys && AttachmentsErased(s, t, keys - todo, asked)
    requires u == t.(attachments := if outcome == Refuses then t.attachments else t.attachments - {key},
                     attTuples := if outcome == Obeys then Without(t.attTuples, {key}) else t.attTuples)
    ensures AttachmentsErased(s, u, keys - (todo - {key}), asked + [Asked(Erase(Child(key, Attachment)), outcome)])
  {
    hide EachErased, Account, Answered, DropsWhole, Without;
    var last := Asked(Erase(Child(key, Attachment)), outcome);
    AttachmentErased(t, u, key, outcome);
    AccountTrans(asked, [last], s, t, u);
    EachErasedStep(asked, Attachment, keys - todo, key, outcome);
    assert keys - (todo - {key}) == keys - todo + {key};
    AttachmentsAccounted(asked + [last], s, u, keys - (todo - {key}));
  }

  lemma AllAsked(ids: set<Id>, todo: set<Id>)
    requires todo == {}
    ensures ids - todo == ids
  {
  }

  lemma RowErased(s: Snapshot, t: Snapshot, id: Id, outcome: Outcome)
    requires t == s.(directories := t.directories, removals := t.removals)
    requires t.directories == if outcome == Refuses then s.directories else s.directories - {id}
    ensures Account([Asked(Erase(Child(id, Directory)), outcome)], s, t)
  {
    var trail := [Asked(Erase(Child(id, Directory)), outcome)];
    assert Erased(trail, Directory) == if outcome == Refuses then {} else {id};
    assert Erased(trail, Note) == Erased(trail, Attachment) == Answered(trail, Attachment, Obeys) == {};
  }

  lemma LeavesRefusedLater(dirTuples: Tuples, noteTuples: Tuples, root: Id, s: Snapshot, t: Snapshot, u: Snapshot,
                           asked: Trail, more: Trail)
    requires LeavesRefused(dirTuples, noteTuples, root, s, t, asked)
    requires u.notes <= t.notes && u.attachments <= t.attachments
    ensures LeavesRefused(dirTuples, noteTuples, root, s, u, asked + more)
  {
    hide LeavesOnly, Answered;
    AnsweredConcat(asked, more, Note, Refuses);
    AnsweredConcat(asked, more, Attachment, Refuses);
    LeavesOnlyLater(dirTuples, noteTuples, root, s, t, u,
                    Answered(asked, Note, Refuses), Answered(asked, Attachment, Refuses),
                    Answered(asked + more, Note, Refuses), Answered(asked + more, Attachment, Refuses));
  }

  lemma LeavesRefusedSince(dirTuples: Tuples, noteTuples: Tuples, root: Id, sub: Id, s: Snapshot, t: Snapshot,
                           u: Snapshot, asked: Trail, more: Trail)
    requires Effects(dirTuples, noteTuples, root, s, t) && u.attachments <= t.attachments
    requires LeavesRefused(dirTuples, noteTuples, sub, t, u, more)
    ensures LeavesRefused(dirTuples, noteTuples, sub, s, u, asked + more)
  {
    hide LeavesOnly, Answered, Effects;
    AnsweredConcat(asked, more, Note, Refuses);
    AnsweredConcat(asked, more, Attachment, Refuses);
    var notes, atts := Answered(asked + more, Note, Refuses), Answered(asked + more, Attachment, Refuses);
    LeavesOnlyLater(dirTuples, noteTuples, sub, t, u, u,
                    Answered(more, Note, Refuses), Answered(more, Attachment, Refuses), notes, atts);
    LeavesOnlySince(dirTuples, noteTuples, root, sub, s, t, u, notes, atts);
  }

  lemma NoSubdirectories(dirTuples: Tuples, noteTuples: Tuples, root: Id, s: Snapshot)
    ensures SubdirectoriesDone(dirTuples, noteTuples, root, s, s, [], {}, true)
  {
    hide Effects, Account;
    EffectsRefl(dirTuples, noteTuples, root, s);
    AccountRefl([], s);
  }

  /** One more round of the loop over the subdirectories. */
  lemma NestedActivation(dirTuples: Tuples, noteTuples: Tuples, root: Id, sub: Id, s: Snapshot, t: Snapshot,
                         u: Snapshot, asked: Trail, more: Trail, done: set<Id>, returned: bool)
    requires sub in Subtree(dirTuples, root) && root !in Subtree(dirTuples, sub)
    requires SubdirectoriesDone(dirTuples, noteTuples, root, s, t, asked, done, true)
    requires Cascaded(dirTuples, noteTuples, sub, t, u, more, returned)
    ensures SubdirectoriesDone(dirTuples, noteTuples, root, s, u, asked + more, done + {sub}, returned)
  {
    hide Effects, Account, Steady, LeavesRefused, Subtree, Opens, Closes, OwnNotes, OwnAttachments;
    EffectsShrink(dirTuples, noteTuples, sub, t, u);
    EffectsWiden(dirTuples, noteTuples, root, sub, t, u);
    EffectsTrans(dirTuples, noteTuples, root, s, t, u);
    AccountTrans(asked, more, s, t, u);
    SteadyConcat(asked, more);
    if Steady(asked + more) {
      LeavesRefusedSince(dirTuples, noteTuples, root, sub, s, t, u, asked, more);
      forall d | d in done
        ensures LeavesRefused(dirTuples, noteTuples, d, s, u, asked + more)
      {
        LeavesRefusedLater(dirTuples, noteTuples, d, s, t, u, asked, more);
      }
    }
  }

  /** A loop that was cut short promises the same of all subdirectories as of some. */
  lemma SomeDone(dirTuples: Tuples, noteTuples: Tuples, root: Id, s: Snapshot, t: Snapshot, asked: Trail, some: set<Id>,
                 all: set<Id>)
    requires SubdirectoriesDone(dirTuples, noteTuples, root, s, t, asked, some, false)
    ensures SubdirectoriesDone(dirTuples, noteTuples, root, s, t, asked, all, false)
  {
  }

  /** An activation whose permission or resolver fails. */
  lemma FailedOpening(dirTuples: Tuples, noteTuples: Tuples, root: Id, s: Snapshot, trail: Trail)
    requires |trail| == 1 || (|trail| == 2 && trail[0] == Asked(MayDelete(root), Obeys) &&
                              trail[1].request == Resolve(root))
    requires trail[0].request == MayDelete(root) && trail[|trail| - 1].outcome != Obeys
    ensures Cascaded(dirTuples, noteTuples, root, s, s, trail, false)
  {
    hide Effects;
    AccountRefl(trail, s);
    EffectsRefl(dirTuples, noteTuples, root, s);
    assert trail[|trail| - 1] in trail;
  }

  /** The requests for an activation's own share. */
  lemma OwnRequests(dirTuples: Tuples, noteTuples: Tuples, root: Id, s: Snapshot, t: Snapshot, u: Snapshot,
                    opening: Trail, a: Trail, n: Trail, atts: set<Id>, notes: set<Id>)
    requires opening == [Asked(MayDelete(root), Obeys), Asked(Resolve(root), Obeys)]
    requires notes == OwnNotes(dirTuples, noteTuples, root)
    requires atts == OwnAttachments(dirTuples, noteTuples, s.attTuples, root)
    requires AttachmentsErased(s, t, atts, a) && NotesErased(t, u, notes, n)
    ensures Effects(dirTuples, noteTuples, root, s, u) && Account(opening + a + n, s, u)
    ensures OpensInFull(opening + a + n, root, atts, notes)
    ensures Steady(opening + a + n)
    ensures atts * u.attachments <= Answered(opening + a + n, Attachment, Refuses)
    ensures notes * u.notes <= Answered(opening + a + n, Note, Refuses)
    ensures u.directories == s.directories
  {
    hide Account, Answered, Steady, EachErased, OpensInFull, Effects, OwnNotes, OwnAttachments, DropsWhole;
    OwnShare(dirTuples, noteTuples, root, s, u);
    OpeningIsSteady(opening);
    AccountRefl(opening, s);
    AccountTrans(opening, a, s, s, t);
    AccountTrans(opening + a, n, s, t, u);
    OpeningInFull(opening, a, n, root, atts, notes);
    ErasedOrRefused(a, Attachment, atts);
    ErasedOrRefused(n, Note, notes);
    SteadyConcat(opening, a);
    SteadyConcat(opening + a, n);
    AnsweredConcat(opening, a, Attachment, Refuses);
    AnsweredConcat(opening + a, n, Attachment, Refuses);
    AnsweredConcat(opening + a, n, Note, Refuses);
  }

  lemma OpeningIsSteady(opening: Trail)
    requires forall a :: a in opening ==> a.outcome == Obeys
    ensures Steady(opening)
  {
  }

  /** What an activation has done when its loop over the subdirectories has ended. */
  ghost predicate Below(dirTuples: Tuples, noteTuples: Tuples, root: Id, s: Snapshot, t: Snapshot, asked: Trail) {
    && Effects(dirTuples, noteTuples, root, s, t)
    && Account(asked, s, t)
    && OpensInFull(asked, root, OwnAttachments(dirTuples, noteTuples, s.attTuples, root),
                   OwnNotes(dirTuples, noteTuples, root))
    && (forall y :: y in Subtree(dirTuples, root) && y in t.directories ==> y == root)
    && (root in t.directories <==> root in s.directories)
    && (Steady(asked) ==> LeavesRefused(dirTuples, noteTuples, root, s, t, asked))
  }

  /** The own share and the nested activations behind it. */
  lemma NestedRequests(dirTuples: Tuples, noteTuples: Tuples, root: Id, s: Snapshot, t: Snapshot, u: Snapshot,
                       first: Trail, more: Trail, finished: bool)
    requires Effects(dirTuples, noteTuples, root, s, t) && Account(first, s, t) && Steady(first)
    requires t.directories == s.directories
    requires
      var atts := OwnAttachments(dirTuples, noteTuples, s.attTuples, root);
      var notes := OwnNotes(dirTuples, noteTuples, root);
      && OpensInFull(first, root, atts, notes)
      && atts * t.attachments <= Answered(first, Attachment, Refuses)
      && notes * t.notes <= Answered(first, Note, Refuses)
    requires SubdirectoriesDone(dirTuples, noteTuples, root, t, u, more, Within(dirTuples, root, MAX_DEPTH) - {root},
                                finished)
    ensures finished ==> Below(dirTuples, noteTuples, root, s, u, first + more)
    ensures !finished ==> Cascaded(dirTuples, noteTuples, root, s, u, first + more, false)
  {
    hide Account, Answered, Steady, LeavesOnly, Effects, Within, OwnNotes, OwnAttachments, OpensInFull, Closes, Subtree;
    var atts, notes := OwnAttachments(dirTuples, noteTuples, s.attTuples, root), OwnNotes(dirTuples, noteTuples, root);
    NestedDone(dirTuples, noteTuples, root, s, t, u);
    OpensLater(first, more, root, atts, notes);
    AccountTrans(first, more, s, t, u);
    SteadyConcat(first, more);
    if finished {
      AllBelowGone(dirTuples, root, u.directories);
    }
    if Steady(more) {
      NestedShares(dirTuples, noteTuples, root, s, t, u, first, more);
    }
  }

  lemma NestedShares(dirTuples: Tuples, noteTuples: Tuples, root: Id, s: Snapshot, t: Snapshot, u: Snapshot,
                     first: Trail, more: Trail)
    requires Effects(dirTuples, noteTuples, root, s, t) && u.notes <= t.notes && u.attachments <= t.attachments
    requires OwnNotes(dirTuples, noteTuples, root) * t.notes <= Answered(first, Note, Refuses)
    requires OwnAttachments(dirTuples, noteTuples, s.attTuples, root) * t.attachments
          <= Answered(first, Attachment, Refuses)
    requires forall sub :: sub in Within(dirTuples, root, MAX_DEPTH) - {root} ==>
      LeavesRefused(dirTuples, noteTuples, sub, t, u, more)
    ensures LeavesRefused(dirTuples, noteTuples, root, s, u, first + more)
  {
    hide Answered, LeavesOnly, Effects, Within, OwnNotes, OwnAttachments;
    AnsweredConcat(first, more, Note, Refuses);
    AnsweredConcat(first, more, Attachment, Refuses);
    var notes, atts := Answered(first + more, Note, Refuses), Answered(first + more, Attachment, Refuses);
    forall sub | sub in Within(dirTuples, root, MAX_DEPTH) - {root}
      ensures LeavesOnly(dirTuples, noteTuples, sub, t, u, notes, atts)
    {
      assert LeavesRefused(dirTuples, noteTuples, sub, t, u, more);
      LeavesOnlyLater(dirTuples, noteTuples, sub, t, u, u,
                      Answered(more, Note, Refuses), Answered(more, Attachment, Refuses), notes, atts);
    }
    LeavesOnlyUnion(dirTuples, noteTuples, root, s, t, u, notes, atts);
  }

  /** One more request of an activation whose loop over the subdirectories has ended. */
  lemma OneMoreRequest(dirTuples: Tuples, noteTuples: Tuples, root: Id, s: Snapshot, t: Snapshot, u: Snapshot,
                       asked: Trail, last: Asked)
    requires Account(asked, s, t) && Account([last], t, u) && u.notes == t.notes && u.attachments == t.attachments
    requires Steady(asked) ==> LeavesRefused(dirTuples, noteTuples, root, s, t, asked)
    ensures Account(asked + [last], s, u)
    ensures Steady(asked + [last]) <==> Steady(asked) && Steady([last])
    ensures Steady(asked + [last]) ==> LeavesRefused(dirTuples, noteTuples, root, s, u, asked + [last])
  {
    hide Account, Steady, LeavesRefused;
    AccountTrans(asked, [last], s, t, u);
    SteadyConcat(asked, [last]);
    if Steady(asked) {
      LeavesRefusedLater(dirTuples, noteTuples, root, s, t, u, asked, [last]);
    }
  }

  /** The request that fetches the root before its row goes. */
  lemma FetchRequest(dirTuples: Tuples, noteTuples: Tuples, root: Id, s: Snapshot, t: Snapshot, asked: Trail,
                     outcome: Outcome)
    requires Below(dirTuples, noteTuples, root, s, t, asked)
    ensures Below(dirTuples, noteTuples, root, s, t, asked + [Asked(Fetch(root), outcome)])
    ensures outcome != Obeys ==>
      Cascaded(dirTuples, noteTuples, root, s, t, asked + [Asked(Fetch(root), outcome)], false)
  {
    hide Account, Steady, LeavesRefused, OpensInFull, Effects, Subtree, OwnNotes, OwnAttachments;
    var last := Asked(Fetch(root), outcome);
    OpensLater(asked, [last], root, OwnAttachments(dirTuples, noteTuples, s.attTuples, root),
               OwnNotes(dirTuples, noteTuples, root));
    OneRequest(last);
    AccountRefl([last], t);
    OneMoreRequest(dirTuples, noteTuples, root, s, t, t, asked, last);
  }

  lemma RootRemains(dirTuples: Tuples, noteTuples: Tuples, root: Id, s: Snapshot, t: Snapshot, asked: Trail)
    requires Below(dirTuples, noteTuples, root, s, t, asked)
    ensures root in t.directories <==> root in s.directories
  {
  }

  /** The last request of an activation, for its own row. */
  lemma RowRequest(dirTuples: Tuples, noteTuples: Tuples, root: Id, s: Snapshot, t: Snapshot, u: Snapshot, asked: Trail,
                   outcome: Outcome, returned: bool)
    requires Below(dirTuples, noteTuples, root, s, t, asked)
    requires |asked| > 0 && asked[|asked| - 1] == Asked(Fetch(root), Obeys)
    requires u == if outcome == Refuses || root !in t.directories then t
                  else t.(directories := t.directories - {root}, removals := t.removals + [root])
    requires outcome == Obeys ==> returned
    requires returned ==> root !in u.directories
    ensures Cascaded(dirTuples, noteTuples, root, s, u,
                     asked + [Asked(Erase(Child(root, Directory)), outcome)], returned)
  {
    hide Account, Steady, LeavesRefused, OpensInFull, Effects, Subtree, OwnNotes, OwnAttachments;
    var last := Asked(Erase(Child(root, Directory)), outcome);
    OpensLater(asked, [last], root, OwnAttachments(dirTuples, noteTuples, s.attTuples, root),
               OwnNotes(dirTuples, noteTuples, root));
    OneRequest(last);
    RowErased(t, u, root, outcome);
    RowDone(dirTuples, noteTuples, root, s, t, u);
    OneMoreRequest(dirTuples, noteTuples, root, s, t, u, asked, last);
  }
}
