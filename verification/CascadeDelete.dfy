/** `delete_directory` of src/services/directory.py, on stores that change under it and may refuse any request. */
module CascadeDelete {
  import opened Hierarchy
  import opened Sequences
  import opened SubtreeResolver
  import opened CascadeSpec
  import opened CascadeTrail
  import opened CascadeEffects
  import opened DryRunListing

  datatype Result = Returned(deleted: bool) | Raised

  /** The collaborators of the service: rows in Postgres, parent tuples in the permission backend.  Deleting the row of
      a directory or of a note leaves its parent tuples in place, so those are constant here. */
  class Repositories {
    const dirTuples: Tuples
    const noteTuples: Tuples
    const outcomes: (nat, Request) -> Outcome
    var directories: set<Id>
    var notes: set<Id>
    var attachments: set<Id>
    var attTuples: Tuples
    var trail: Trail
    ghost var removals: seq<Id>

    ghost function View(): Snapshot
      reads this
    {
      Snapshot(directories, notes, attachments, attTuples, removals)
    }

    /** The next answer to a request. */
    function Answer(request: Request): Outcome
      reads this
    {
      outcomes(|trail|, request)
    }

    method Ask(request: Request) returns (outcome: Outcome)
      modifies `trail
      ensures outcome == old(Answer(request)) && Extends(old(trail), trail, [Asked(request, outcome)])
    {
      outcome := Answer(request);
      trail := trail + [Asked(request, outcome)];
    }

    /** Raises when refused, and when there is no such note. */
    method DeleteNote(id: Id) returns (raised: bool)
      modifies `trail, `notes
      ensures
        var request := Erase(Child(id, Note));
        var outcome := old(Answer(request));
        && Extends(old(trail), trail, [Asked(request, outcome)])
        && View() == old(View().(notes := if outcome == Refuses then notes else notes - {id}))
        && (raised <==> outcome != Obeys || id !in old(notes))
    {
      var outcome := Ask(Erase(Child(id, Note)));
      if outcome == Refuses || id !in notes {
        return true;
      }
      notes := notes - {id};
      raised := outcome == FailsLate;
    }

    /** Drops the row, then every tuple of the attachment. */
    method DeleteAttachment(key: Id) returns (raised: bool)
      modifies `trail, `attachments, `attTuples
      ensures
        var request := Erase(Child(key, Attachment));
        var outcome := old(Answer(request));
        && Extends(old(trail), trail, [Asked(request, outcome)])
        && View() == old(View().(attachments := if outcome == Refuses then attachments else attachments - {key},
                                 attTuples := if outcome == Obeys then Without(attTuples, {key}) else attTuples))
        && (raised <==> outcome != Obeys)
    {
      var outcome := Ask(Erase(Child(key, Attachment)));
      if outcome == Refuses {
        return true;
      }
      attachments := attachments - {key};
      if outcome == FailsLate {
        return true;
      }
      attTuples := Without(attTuples, {key});
      raised := false;
    }

    /** Removes the row if there is one; the deletion is logged only then. */
    method DeleteRow(id: Id) returns (result: Result)
      modifies `trail, `directories, `removals
      ensures
        var request := Erase(Child(id, Directory));
        var outcome := old(Answer(request));
        && Extends(old(trail), trail, [Asked(request, outcome)])
        && (if outcome == Refuses || id !in old(directories)
            then directories == old(directories) && removals == old(removals)
            else directories == old(directories) - {id} && removals == old(removals) + [id])
        && result == match outcome
                     case Obeys => Returned(id in old(directories))
                     case Refuses => Raised
                     case FailsLate => if id in old(directories) then Raised else Returned(false)
    {
      var outcome := Ask(Erase(Child(id, Directory)));
      if outcome == Refuses {
        return Raised;
      }
      if id !in directories {
        return Returned(false);
      }
      directories, removals := directories - {id}, removals + [id];
      result := if outcome == FailsLate then Raised else Returned(true);
    }
  }

  /** The listing holds what the resolution found, without the root, and nothing else. */
  ghost predicate Lists(listing: seq<Child>, found: Resolved, root: Id) {
    forall c :: c in listing <==>
      match c.kind
      case Directory => c.id in found.directories - {root}
      case Note => c.id in found.notes
      case Attachment => c.id in found.attachments
  }

  predicate NoDuplicates(children: seq<Child>) {
    forall i, j :: 0 <= i < j < |children| ==> children[i] != children[j]
  }

  ghost predicate ListsKind(children: seq<Child>, kind: Kind, ids: set<Id>) {
    && NoDuplicates(children)
    && forall c :: c in children <==> c.kind == kind && c.id in ids
  }

  lemma NothingListed(kind: Kind, ids: set<Id>)
    ensures ListsKind([], kind, {}) && Readable([]) && LooksUp([], kind, ids)
  {
  }

  lemma ListStep(children: seq<Child>, kind: Kind, ids: set<Id>, id: Id)
    requires ListsKind(children, kind, ids) && id !in ids
    ensures ListsKind(children + [Child(id, kind)], kind, ids + {id})
  {
    var more := children + [Child(id, kind)];
    assert forall c :: c in more <==> c in children || c == Child(id, kind);
    assert Child(id, kind) !in children;
  }

  lemma ListingIsComplete(found: Resolved, root: Id, directories: seq<Child>, notes: seq<Child>, atts: seq<Child>)
    requires ListsKind(directories, Directory, found.directories - {root})
    requires ListsKind(notes, Note, found.notes) && ListsKind(atts, Attachment, found.attachments)
    ensures
      var listing := Sorted(Precedes, directories + notes + atts);
      Ascending(Precedes, listing) && Lists(listing, found, root)
  {
    hide Sorted, Ascending, Precedes;
    var all := directories + notes + atts;
    assert forall c :: c in all <==> c in directories || c in notes || c in atts;
    JoinDistinct(directories, notes);
    JoinDistinct(directories + notes, atts);
    ListingIsSorted(all);
    assert forall c :: c in Sorted(Precedes, all) <==> c in multiset(all);
  }

  lemma JoinDistinct(a: seq<Child>, b: seq<Child>)
    requires NoDuplicates(a) && NoDuplicates(b) && forall c :: c in a ==> c !in b
    ensures NoDuplicates(a + b)
  {
    forall i, j | 0 <= i < j < |a + b|
      ensures (a + b)[i] != (a + b)[j]
    {
      assert i < |a| <= j ==> a[i] in a && b[j - |a|] in b;
    }
  }

  class DirectoryService {
    const repos: Repositories

    constructor (repos: Repositories)
      ensures this.repos == repos
    {
      this.repos := repos;
    }

    /** Best effort: a note that cannot be deleted does not stop the cascade.  Each note is asked for once, and those
        that stay were refused. */
    method DeleteNotes(ids: set<Id>) returns (ghost asked: Trail)
      modifies repos
      ensures Extends(old(repos.trail), repos.trail, asked)
      ensures NotesErased(old(repos.View()), repos.View(), ids, asked)
    {
      hide NotesErased, Extends;
      ghost var s, before := repos.View(), repos.trail;
      asked := [];
      NothingAsked(s, ids);
      ExtendsRefl(before);
      var todo := ids;
      while todo != {}
        invariant todo <= ids && Extends(before, repos.trail, asked)
        invariant NotesErased(s, repos.View(), ids - todo, asked)
        decreases |todo|
      {
        var id :| id in todo;
        ghost var t, middle, outcome := repos.View(), repos.trail, repos.Answer(Erase(Child(id, Note)));
        var _ := repos.DeleteNote(id);
        NoteRound(s, t, repos.View(), ids, todo, asked, id, outcome);
        ghost var more := [Asked(Erase(Child(id, Note)), outcome)];
        ExtendsTrans(before, middle, repos.trail, asked, more);
        todo, asked := todo - {id}, asked + more;
      }
      AllAsked(ids, todo);
    }

    method DeleteAttachments(keys: set<Id>) returns (ghost asked: Trail)
      modifies repos
      ensures Extends(old(repos.trail), repos.trail, asked)
      ensures AttachmentsErased(old(repos.View()), repos.View(), keys, asked)
    {
      hide AttachmentsErased, Extends, Without;
      ghost var s, before := repos.View(), repos.trail;
      asked := [];
      NothingAsked(s, keys);
      ExtendsRefl(before);
      var todo := keys;
      while todo != {}
        invariant todo <= keys && Extends(before, repos.trail, asked)
        invariant AttachmentsErased(s, repos.View(), keys - todo, asked)
        decreases |todo|
      {
        var key :| key in todo;
        ghost var t, middle, outcome := repos.View(), repos.trail, repos.Answer(Erase(Child(key, Attachment)));
        var _ := repos.DeleteAttachment(key);
        AttachmentRound(s, t, repos.View(), keys, todo, asked, key, outcome);
        ghost var more := [Asked(Erase(Child(key, Attachment)), outcome)];
        ExtendsTrans(before, middle, repos.trail, asked, more);
        todo, asked := todo - {key}, asked + more;
      }
      AllAsked(keys, todo);
    }

    /** What is below the root.  A directory that the root lists as its own child is skipped. */
    method DeleteSubdirectories(root: Id, directories: set<Id>) returns (finished: bool, ghost asked: Trail)
      requires Acyclic(repos.dirTuples, root) && directories == Within(repos.dirTuples, root, MAX_DEPTH)
      modifies repos
      ensures Extends(old(repos.trail), repos.trail, asked)
      ensures SubdirectoriesDone(repos.dirTuples, repos.noteTuples, root, old(repos.View()), repos.View(), asked,
                                 directories - {root}, finished)
      decreases Subtree(repos.dirTuples, root), 0
    {
      hide SubdirectoriesDone, Cascaded, Acyclic, Subtree, Within, Extends;
      ghost var D, N, start, before := repos.dirTuples, repos.noteTuples, repos.View(), repos.trail;
      ghost var done := {};
      asked := [];
      NoSubdirectories(D, N, root, start);
      ExtendsRefl(before);
      WithinIsReachable(D, root, MAX_DEPTH);
      var todo := directories;
      while todo != {}
        invariant todo <= directories && done <= directories - {root} <= done + todo
        invariant Extends(before, repos.trail, asked)
        invariant SubdirectoriesDone(D, N, root, start, repos.View(), asked, done, true)
        decreases |todo|
      {
        var sub :| sub in todo;
        todo := todo - {sub};
        if sub == root {
          continue;
        }
        ghost var t, middle := repos.View(), repos.trail;
        SubtreeShrinks(D, root, sub);
        var nested, more := DeleteDirectory(sub);
        NestedActivation(D, N, root, sub, start, t, repos.View(), asked, more, done, nested.Returned?);
        ExtendsTrans(before, middle, repos.trail, asked, more);
        asked, done := asked + more, done + {sub};
        if nested.Raised? {
          SomeDone(D, N, root, start, repos.View(), asked, done, directories - {root});
          return false, asked;
        }
      }
      assert done == directories - {root};
      finished := true;
    }

    /** The recursion ends because the subtree of every resolved directory other than the root is strictly smaller. */
    method DeleteDirectory(root: Id) returns (result: Result, ghost asked: Trail)
      requires Acyclic(repos.dirTuples, root)
      modifies repos
      ensures Extends(old(repos.trail), repos.trail, asked)
      ensures Cascaded(repos.dirTuples, repos.noteTuples, root, old(repos.View()), repos.View(), asked,
                       result.Returned?)
      ensures result.Returned? ==> (result.deleted <==> root in old(repos.directories))
      decreases Subtree(repos.dirTuples, root), 1
    {
      hide Cascaded, Below, SubdirectoriesDone, Acyclic, Subtree, Resolution, OwnNotes, OwnAttachments, Within, Account,
           Steady, OpensInFull, AttachmentsErased, NotesErased, Effects, Answered, Extends;
      ghost var D, N, s0, before := repos.dirTuples, repos.noteTuples, repos.View(), repos.trail;
      var permission := repos.Ask(MayDelete(root));
      asked := [Asked(MayDelete(root), permission)];
      if permission != Obeys {
        FailedOpening(D, N, root, s0, asked);
        return Raised, asked;
      }
      ghost var middle := repos.trail;
      var resolver := repos.Ask(Resolve(root));
      ExtendsTrans(before, middle, repos.trail, asked, [Asked(Resolve(root), resolver)]);
      asked := asked + [Asked(Resolve(root), resolver)];
      if resolver != Obeys {
        FailedOpening(D, N, root, s0, asked);
        return Raised, asked;
      }
      var children := ResolveChildren(repos.dirTuples, repos.noteTuples, repos.attTuples, root, MAX_DEPTH);
      ResolutionIsOwn(D, N, repos.attTuples, root);
      middle := repos.trail;
      ghost var a := DeleteAttachments(children.attachments);
      ExtendsTrans(before, middle, repos.trail, asked, a);
      ghost var s1 := repos.View();
      middle := repos.trail;
      ghost var n := DeleteNotes(children.notes);
      ExtendsTrans(before, middle, repos.trail, asked + a, n);
      ghost var s2 := repos.View();
      OwnRequests(D, N, root, s0, s1, s2, asked, a, n, children.attachments, children.notes);
      asked, middle := asked + a + n, repos.trail;
      var finished, more := DeleteSubdirectories(root, children.directories);
      ExtendsTrans(before, middle, repos.trail, asked, more);
      NestedRequests(D, N, root, s0, s2, repos.View(), asked, more, finished);
      asked := asked + more;
      if !finished {
        return Raised, asked;
      }
      ghost var s3 := repos.View();
      middle := repos.trail;
      var snapshot := repos.Ask(Fetch(root));
      ExtendsTrans(before, middle, repos.trail, asked, [Asked(Fetch(root), snapshot)]);
      FetchRequest(D, N, root, s0, s3, asked, snapshot);
      asked, middle := asked + [Asked(Fetch(root), snapshot)], repos.trail;
      if snapshot != Obeys {
        return Raised, asked;
      }
      ghost var outcome := repos.Answer(Erase(Child(root, Directory)));
      result := repos.DeleteRow(root);
      ExtendsTrans(before, middle, repos.trail, asked, [Asked(Erase(Child(root, Directory)), outcome)]);
      RowRequest(D, N, root, s0, s3, repos.View(), asked, outcome, result.Returned?);
      RootRemains(D, N, root, s0, s3, asked);
      asked := asked + [Asked(Erase(Child(root, Directory)), outcome)];
    }

    /** The entries of one kind, each looked up before it is listed. */
    method ListKind(ids: set<Id>, kind: Kind) returns (raised: bool, children: seq<Child>, ghost asked: Trail)
      modifies repos`trail
      ensures Extends(old(repos.trail), repos.trail, asked) && LooksUp(asked, kind, ids)
      ensures raised <==> !Readable(asked)
      ensures kind == Attachment ==> !raised
      ensures !raised ==> |asked| == |ids|
      ensures !raised ==> ListsKind(children, kind, ids)
    {
      hide Extends, ListsKind, Readable, LooksUp;
      ghost var before := repos.trail;
      ghost var done := {};
      children, asked := [], [];
      ExtendsRefl(before);
      NothingListed(kind, ids);
      var todo := ids;
      while todo != {}
        invariant done !! todo && done + todo == ids
        invariant Extends(before, repos.trail, asked)
        invariant Readable(asked) && LooksUp(asked, kind, ids) && |asked| + |todo| == |ids|
        invariant ListsKind(children, kind, done)
        decreases |todo|
      {
        var id :| id in todo;
        ghost var middle := repos.trail;
        var lookup := repos.Ask(Lookup(Child(id, kind)));
        ghost var last := Asked(Lookup(Child(id, kind)), lookup);
        LookupStep(asked, kind, ids, last);
        ExtendsTrans(before, middle, repos.trail, asked, [last]);
        asked := asked + [last];
        // a failing lookup of an attachment is swallowed
        if lookup != Obeys && kind != Attachment {
          return true, children, asked;
        }
        ListStep(children, kind, done, id);
        children := children + [Child(id, kind)];
        todo, done := todo - {id}, done + {id};
      }
      assert done == ids;
      raised := false;
    }

    /** Lists what the first resolution of a delete finds, without the root, and changes nothing. */
    method DryDelete(root: Id) returns (raised: bool, listing: seq<Child>, ghost asked: Trail)
      modifies repos`trail
      ensures repos.View() == old(repos.View())
      ensures Extends(old(repos.trail), repos.trail, asked)
      ensures asked != [] && asked[0].request == MayView(root) && (asked[0].outcome == Obeys || |asked| == 1)
      ensures raised <==> !Readable(asked)
      ensures !raised ==> Ascending(Precedes, listing)
      ensures !raised ==>
        Lists(listing, Resolution(repos.dirTuples, repos.noteTuples, repos.attTuples, root, MAX_DEPTH), root)
    {
      hide Readable, LooksUp, Lists, ListsKind, Resolution, Sorted, Ascending, Extends;
      ghost var before := repos.trail;
      listing := [];
      var permission := repos.Ask(MayView(root));
      asked := [Asked(MayView(root), permission)];
      OneRequest(Asked(MayView(root), permission));
      if permission != Obeys {
        return true, [], asked;
      }
      ghost var middle := repos.trail;
      var resolver := repos.Ask(Resolve(root));
      OneRequest(Asked(Resolve(root), resolver));
      Continued(before, middle, repos.trail, asked, [Asked(Resolve(root), resolver)]);
      asked := asked + [Asked(Resolve(root), resolver)];
      if resolver != Obeys {
        return true, [], asked;
      }
      var children := ResolveChildren(repos.dirTuples, repos.noteTuples, repos.attTuples, root, MAX_DEPTH);
      var directories, notes, attachments;
      ghost var more;
      middle := repos.trail;
      raised, directories, more := ListKind(children.directories - {root}, Directory);
      Continued(before, middle, repos.trail, asked, more);
      asked := asked + more;
      if raised {
        return true, [], asked;
      }
      middle := repos.trail;
      raised, notes, more := ListKind(children.notes, Note);
      Continued(before, middle, repos.trail, asked, more);
      asked := asked + more;
      if raised {
        return true, [], asked;
      }
      middle := repos.trail;
      raised, attachments, more := ListKind(children.attachments, Attachment);
      Continued(before, middle, repos.trail, asked, more);
      asked := asked + more;
      if raised {
        return true, [], asked;
      }
      listing := Sorted(Precedes, directories + notes + attachments);
      ListingIsComplete(children, root, directories, notes, attachments);
    }
  }
}
