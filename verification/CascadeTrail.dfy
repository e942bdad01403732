/** The requests that src/services/directory.py sends to its collaborators, with their answers, in order. */
module CascadeTrail {
  import opened Hierarchy
  import opened DryRunListing

  /** What a collaborator does with one request: it obeys; it raises and changes nothing; or it makes the change to the
      row and raises afterwards (a later store or the activity log failed). */
  datatype Outcome = Obeys | Refuses | FailsLate

  datatype Request =
    | MayDelete(id: Id)
    | MayView(id: Id)
    | Resolve(id: Id)
    | Fetch(id: Id)
    | Lookup(child: Child)
    | Erase(child: Child)

  datatype Asked = Asked(request: Request, outcome: Outcome)

  type Trail = seq<Asked>

  // ---- readings of a trail ------------------------------------------------------------

  predicate Answers(a: Asked, kind: Kind, outcome: Outcome) {
    a.request.Erase? && a.request.child.kind == kind && a.outcome == outcome
  }

  /** The ids of one kind whose deletion got the given answer at least once. */
  ghost function Answered(trail: Trail, kind: Kind, outcome: Outcome): set<Id> {
    set a | a in trail && Answers(a, kind, outcome) :: a.request.child.id
  }

  /** Deletions that took effect. */
  ghost function Erased(trail: Trail, kind: Kind): set<Id> {
    Answered(trail, kind, Obeys) + Answered(trail, kind, FailsLate)
  }

  ghost predicate AllObey(trail: Trail) {
    forall a :: a in trail ==> a.outcome == Obeys
  }

  /** Everything obeyed, except perhaps deletions of notes and attachments. */
  ghost predicate Steady(trail: Trail) {
    forall a :: a in trail ==> a.outcome == Obeys || (a.request.Erase? && a.request.child.kind != Directory)
  }

  /** Everything obeyed, except perhaps lookups of attachments. */
  ghost predicate Readable(trail: Trail) {
    forall a :: a in trail ==> a.outcome == Obeys || (a.request.Lookup? && a.request.child.kind == Attachment)
  }

  /** One deletion of each id, and no other request. */
  ghost predicate EachErased(trail: Trail, kind: Kind, ids: set<Id>) {
    && |trail| == |ids|
    && (forall a :: a in trail ==> exists id :: id in ids && a.request == Erase(Child(id, kind)))
    && forall id :: id in ids ==> exists a :: a in trail && a.request == Erase(Child(id, kind))
  }

  /** Only lookups of the given children. */
  ghost predicate LooksUp(trail: Trail, kind: Kind, ids: set<Id>) {
    forall a :: a in trail ==> a.request.Lookup? && a.request.child.kind == kind && a.request.child.id in ids
  }

  /** One activation begins with its permission and the resolver, then asks for each attachment of its own share and
      only then for each note of it. */
  ghost predicate OpensInFull(trail: Trail, root: Id, atts: set<Id>, notes: set<Id>) {
    && |trail| >= 2 + |atts| + |notes|
    && trail[0] == Asked(MayDelete(root), Obeys)
    && trail[1] == Asked(Resolve(root), Obeys)
    && EachErased(trail[2..2 + |atts|], Attachment, atts)
    && EachErased(trail[2 + |atts|..2 + |atts| + |notes|], Note, notes)
  }

  /** So begins an activation; when its permission or the resolver fails, it ends there. */
  ghost predicate Opens(trail: Trail, root: Id, atts: set<Id>, notes: set<Id>) {
    || OpensInFull(trail, root, atts, notes)
    || (|trail| == 1 && trail[0].request == MayDelete(root) && trail[0].outcome != Obeys)
    || (|trail| == 2 && trail[0] == Asked(MayDelete(root), Obeys) && trail[1].request == Resolve(root) &&
        trail[1].outcome != Obeys)
  }

  /** An activation that returns ends with its own row. */
  ghost predicate Closes(trail: Trail, root: Id) {
    && |trail| >= 2
    && trail[|trail| - 2] == Asked(Fetch(root), Obeys)
    && trail[|trail| - 1].request == Erase(Child(root, Directory))
  }

  function Refusals(trail: Trail): nat {
    if trail == [] then 0
    else Refusals(trail[..|trail| - 1]) + if trail[|trail| - 1].outcome == Refuses then 1 else 0
  }

  // ---- trails that continue -----------------------------------------------------------

  ghost predicate Extends(before: Trail, now: Trail, asked: Trail) {
    now == before + asked
  }

  lemma ExtendsRefl(trail: Trail)
    ensures Extends(trail, trail, [])
  {
  }

  lemma ExtendsTrans(before: Trail, middle: Trail, now: Trail, a: Trail, b: Trail)
    requires Extends(before, middle, a) && Extends(middle, now, b)
    ensures Extends(before, now, a + b)
  {
  }

  lemma AnsweredConcat(a: Trail, b: Trail, kind: Kind, outcome: Outcome)
    ensures Answered(a + b, kind, outcome) == Answered(a, kind, outcome) + Answered(b, kind, outcome)
  {
    forall id
      ensures id in Answered(a + b, kind, outcome) <==>
              id in Answered(a, kind, outcome) || id in Answered(b, kind, outcome)
    {
    }
  }

  lemma ErasedConcat(a: Trail, b: Trail, kind: Kind)
    ensures Erased(a + b, kind) == Erased(a, kind) + Erased(b, kind)
  {
    AnsweredConcat(a, b, kind, Obeys);
    AnsweredConcat(a, b, kind, FailsLate);
  }

  lemma SteadyConcat(a: Trail, b: Trail)
    ensures Steady(a + b) <==> Steady(a) && Steady(b)
  {
    assert forall x :: x in a + b <==> x in a || x in b;
  }

  lemma ReadableConcat(a: Trail, b: Trail)
    ensures Readable(a + b) <==> Readable(a) && Readable(b)
  {
    assert forall x :: x in a + b <==> x in a || x in b;
  }

  lemma LookupStep(asked: Trail, kind: Kind, ids: set<Id>, last: Asked)
    requires Readable(asked) && LooksUp(asked, kind, ids)
    requires last.request.Lookup? && last.request.child.kind == kind && last.request.child.id in ids
    ensures LooksUp(asked + [last], kind, ids)
    ensures Readable(asked + [last]) <==> last.outcome == Obeys || kind == Attachment
  {
    ReadableConcat(asked, [last]);
    OneRequest(last);
  }

  /** One more part of a dry run. */
  lemma Continued(before: Trail, middle: Trail, now: Trail, asked: Trail, more: Trail)
    requires Extends(before, middle, asked) && Extends(middle, now, more) && asked != []
    ensures Extends(before, now, asked + more)
    ensures Readable(asked + more) <==> Readable(asked) && Readable(more)
    ensures asked + more != [] && (asked + more)[0] == asked[0]
  {
    ReadableConcat(asked, more);
  }

  lemma OneRequest(a: Asked)
    ensures Steady([a]) <==> a.outcome == Obeys || (a.request.Erase? && a.request.child.kind != Directory)
    ensures Readable([a]) <==> a.outcome == Obeys || (a.request.Lookup? && a.request.child.kind == Attachment)
  {
    assert a in [a];
  }

  lemma OpeningInFull(opening: Trail, a: Trail, n: Trail, root: Id, atts: set<Id>, notes: set<Id>)
    requires opening == [Asked(MayDelete(root), Obeys), Asked(Resolve(root), Obeys)]
    requires EachErased(a, Attachment, atts) && EachErased(n, Note, notes)
    ensures OpensInFull(opening + a + n, root, atts, notes)
  {
    var trail := opening + a + n;
    assert |a| == |atts| && |n| == |notes|;
    assert trail[2..2 + |atts|] == a && trail[2 + |atts|..2 + |atts| + |notes|] == n;
  }

  lemma OpensLater(a: Trail, b: Trail, root: Id, atts: set<Id>, notes: set<Id>)
    requires OpensInFull(a, root, atts, notes)
    ensures OpensInFull(a + b, root, atts, notes)
  {
    assert (a + b)[2..2 + |atts|] == a[2..2 + |atts|];
    assert (a + b)[2 + |atts|..2 + |atts| + |notes|] == a[2 + |atts|..2 + |atts| + |notes|];
  }

  lemma ObeyedHasNoRefusal(trail: Trail)
    requires AllObey(trail)
    ensures Steady(trail)
    ensures forall kind :: Answered(trail, kind, Refuses) == {}
  {
  }

  /** A refused row takes a refusal of its own. */
  lemma {:induction false} RefusedAreRefusals(trail: Trail)
    ensures |Answered(trail, Note, Refuses)| + |Answered(trail, Attachment, Refuses)| <= Refusals(trail)
  {
    if trail != [] {
      var init, a := trail[..|trail| - 1], trail[|trail| - 1];
      RefusedAreRefusals(init);
      assert trail == init + [a];
      AnsweredConcat(init, [a], Note, Refuses);
      AnsweredConcat(init, [a], Attachment, Refuses);
      AtMostOne(a, Note);
      AtMostOne(a, Attachment);
      UnionSize(Answered(init, Note, Refuses), Answered([a], Note, Refuses));
      UnionSize(Answered(init, Attachment, Refuses), Answered([a], Attachment, Refuses));
    }
  }

  lemma AtMostOne(a: Asked, kind: Kind)
    ensures |Answered([a], kind, Refuses)| == if Answers(a, kind, Refuses) then 1 else 0
  {
    if Answers(a, kind, Refuses) {
      assert Answered([a], kind, Refuses) == {a.request.child.id};
    } else {
      assert Answered([a], kind, Refuses) == {};
    }
  }

  lemma UnionSize(s: set<Id>, t: set<Id>)
    ensures |s + t| <= |s| + |t|
  {
    assert |s + t| == |s - t| + |t| by {
      assert s + t == (s - t) + t;
    }
    assert s == (s - t) + (s * t);
  }

  /** One more round of a loop that deletes. */
  lemma EachErasedStep(trail: Trail, kind: Kind, ids: set<Id>, id: Id, outcome: Outcome)
    requires EachErased(trail, kind, ids) && id !in ids
    ensures EachErased(trail + [Asked(Erase(Child(id, kind)), outcome)], kind, ids + {id})
  {
    var last := Asked(Erase(Child(id, kind)), outcome);
    assert forall a :: a in trail + [last] <==> a in trail || a == last;
    forall i | i in ids + {id}
      ensures exists a :: a in trail + [last] && a.request == Erase(Child(i, kind))
    {
      var a :| (a in trail || a == last) && a.request == Erase(Child(i, kind));
    }
  }

  /** Each id that was asked for is gone or was refused, and nothing else was asked. */
  lemma ErasedOrRefused(trail: Trail, kind: Kind, ids: set<Id>)
    requires EachErased(trail, kind, ids)
    ensures ids == Erased(trail, kind) + Answered(trail, kind, Refuses)
    ensures forall other: Kind, outcome :: other != kind ==> Answered(trail, other, outcome) == {}
    ensures Steady(trail) || kind == Directory
  {
    forall id | id in ids
      ensures id in Erased(trail, kind) + Answered(trail, kind, Refuses)
    {
      var a :| a in trail && a.request == Erase(Child(id, kind));
      assert Answers(a, kind, a.outcome);
    }
  }
}
