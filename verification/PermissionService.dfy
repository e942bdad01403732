/** `PermissionServiceImpl` of src/services/permissions.py on a tuple store and an append-only audit trail. */
module PermissionService {
  import opened Wrappers
  import opened SharePolicy
  import opened Relationships
  import opened Sequences
  import opened ShareHistory
  import opened ShareRights

  ghost predicate AllNormalize(raws: seq<RawRelationship>, resource: Ref) {
    forall i :: 0 <= i < |raws| ==> Normalize(raws[i], resource).Ok?
  }

  ghost function Normalized(raws: seq<RawRelationship>, resource: Ref): (r: seq<Relationship>)
    requires AllNormalize(raws, resource)
    ensures |r| == |raws| && forall i :: 0 <= i < |r| ==> r[i] == Normalize(raws[i], resource).value
  {
    seq(|raws|, i requires 0 <= i < |raws| => Normalize(raws[i], resource).value)
  }

  /** Nothing structural is stored on the resource, and everything in the difference may be written. */
  ghost predicate DiffAllowed(tuples: set<Relationship>, target: Ref, desired: set<Relationship>, actor: Actor) {
    && (forall t :: t in tuples && t.resource == target ==> !IsStructuralTuple(t))
    && (forall t :: t in Diffable(tuples, target) - desired ==> MayWrite(actor, target, t.relation))
    && (forall t :: t in desired - Diffable(tuples, target) ==> MayWrite(actor, target, t.relation))
  }

  /** Exactly when a replacement goes through: one condition on the request, one on what is stored on the resource, and
      the right to write every relation of the difference. */
  ghost predicate Acceptable(tuples: set<Relationship>, present: Ref -> bool, resource: RawRef,
                             raws: seq<RawRelationship>, actor: Actor) {
    && ValidateResource(resource).Ok?
    && var target := ValidateResource(resource).value;
    && present(target) && AllNormalize(raws, target)
    && DiffAllowed(tuples, target, Elements(Normalized(raws, target)), actor)
  }

  class PermissionServiceImpl {
    const present: Ref -> bool
    /** Whether the audit repository accepts its n-th batch; without a repository it never does. */
    const audits: nat -> bool
    var tuples: set<Relationship>
    var log: seq<Entry>
    var batches: nat

    ghost function View(): State
      reads this
    {
      State(tuples, log)
    }

    /** The backend reports a missing optional relation as such, never as an empty one. */
    ghost predicate Valid()
      reads this
    {
      forall t :: t in tuples ==> Readable(t)
    }

    constructor (present: Ref -> bool, audits: nat -> bool, tuples: set<Relationship>)
      ensures this.present == present && this.audits == audits && View() == State(tuples, []) && batches == 0
    {
      this.present, this.audits := present, audits;
      this.tuples, log, batches := tuples, [], 0;
    }

    /** Best effort: a batch that cannot be recorded is lost, the write stays. */
    method Audit(action: Action, actor: Actor, rels: seq<Relationship>)
      modifies `log, `batches
      ensures batches == old(batches) + 1
      ensures log == old(log) + if audits(old(batches)) then Entries(action, actor.id, rels) else []
    {
      if audits(batches) {
        log := log + Entries(action, actor.id, rels);
      }
      batches := batches + 1;
    }

    /** The stored tuples of a resource, one by one in an order the caller cannot choose. */
    method ListRelationships(resource: Ref) returns (rels: seq<Relationship>)
      ensures Elements(rels) == set t | t in tuples && t.resource == resource
    {
      rels := [];
      var rest := set t | t in tuples && t.resource == resource;
      ghost var all := rest;
      while rest != {}
        invariant rest <= all && Elements(rels) == all - rest
        decreases |rest|
      {
        var t :| t in rest;
        assert Elements(rels + [t]) == Elements(rels) + {t};
        rels, rest := rels + [t], rest - {t};
      }
    }

    /** The checks of a single create or delete. */
    method Prepare(raw: RawRelationship, actor: Actor) returns (r: Result<Relationship>)
      ensures r.Ok? <==>
        && ValidateResource(raw.resource).Ok?
        && var target := ValidateResource(raw.resource).value;
        && present(target) && Normalize(raw, target).Ok? && MayWrite(actor, target, raw.relation)
      ensures r.Ok? ==> r.value == Normalize(raw, ValidateResource(raw.resource).value).value
      ensures ValidateResource(raw.resource).Err? ==> r == Err(ValidateResource(raw.resource).error)
      ensures r == Err(NotFound) <==>
        ValidateResource(raw.resource).Ok? && !present(ValidateResource(raw.resource).value)
      ensures r == Err(Denied) <==>
        && ValidateResource(raw.resource).Ok?
        && var target := ValidateResource(raw.resource).value;
        && present(target) && Normalize(raw, target).Ok? && !MayWrite(actor, target, raw.relation)
      ensures r.Ok? ==> Grantable(r.value) && SchemaSubject(r.value)
    {
      var resource := ValidateResource(raw.resource);
      if resource.Err? {
        return Err(resource.error);
      }
      if !present(resource.value) {
        return Err(NotFound);
      }
      NormalizeErrors(raw, resource.value);
      var normalized := Normalize(raw, resource.value);
      if normalized.Err? {
        return normalized;
      }
      NormalizeSound(raw, resource.value);
      if !MayWrite(actor, resource.value, normalized.value.relation) {
        return Err(Denied);
      }
      r := normalized;
    }

    method CreateRelationship(raw: RawRelationship, actor: Actor) returns (r: Result<Relationship>)
      requires Valid()
      modifies this
      ensures Valid()
      ensures r.Err? ==> View() == old(View())
      ensures r.Ok? ==> Allowed(old(tuples), Grant(r.value)) && r.value in tuples
      ensures r.Ok? ==> Authorized(old(tuples), actor, Grant(r.value))
      ensures r.Ok? ==> tuples == Apply(old(View()), actor.id, Grant(r.value)).tuples
      ensures r.Ok? && audits(old(batches)) ==> View() == Apply(old(View()), actor.id, Grant(r.value))
    {
      r := Prepare(raw, actor);
      if r.Ok? {
        tuples := tuples + {r.value};
        Audit(GrantAction, actor, [r.value]);
      }
    }

    method DeleteRelationship(raw: RawRelationship, actor: Actor) returns (r: Result<Relationship>)
      requires Valid()
      modifies this
      ensures Valid()
      ensures r.Err? ==> View() == old(View())
      ensures r.Ok? ==> Allowed(old(tuples), Revoke(r.value)) && r.value !in tuples
      ensures r.Ok? ==> Authorized(old(tuples), actor, Revoke(r.value))
      ensures r.Ok? ==> tuples == Apply(old(View()), actor.id, Revoke(r.value)).tuples
      ensures r.Ok? && audits(old(batches)) ==> View() == Apply(old(View()), actor.id, Revoke(r.value))
    {
      r := Prepare(raw, actor);
      if r.Ok? {
        tuples := Unmatched(tuples, r.value);
        Audit(RevokeAction, actor, [r.value]);
      }
    }

    method NormalizeAll(raws: seq<RawRelationship>, resource: Ref) returns (r: Result<seq<Relationship>>)
      ensures r.Ok? <==> AllNormalize(raws, resource)
      ensures r.Ok? ==> r.value == Normalized(raws, resource)
      ensures r.Err? ==> exists i :: 0 <= i < |raws| && Normalize(raws[i], resource) == Err(r.error) &&
                                     AllNormalize(raws[..i], resource)
    {
      var done: seq<Relationship> := [];
      for i := 0 to |raws|
        invariant |done| == i
        invariant forall j :: 0 <= j < i ==> Normalize(raws[j], resource) == Ok(done[j])
      {
        var normalized := Normalize(raws[i], resource);
        if normalized.Err? {
          return Err(normalized.error);
        }
        done := done + [normalized.value];
      }
      r := Ok(done);
    }

    /** The tuples whose key is not among `keys`, in their order. */
    method KeepUnlisted(rels: seq<Relationship>, others: seq<Relationship>) returns (kept: seq<Relationship>)
      requires forall r :: r in rels || r in others ==> Readable(r)
      ensures kept == NotIn(rels, Elements(others))
    {
      var keys := set r | r in others :: Key(r);
      kept := [];
      for i := 0 to |rels|
        invariant kept + NotIn(rels[i..], Elements(others)) == NotIn(rels, Elements(others))
      {
        assert rels[i..][1..] == rels[i + 1..];
        assert Key(rels[i]) in keys <==> rels[i] in Elements(others) by {
          forall o | o in others {
            KeyInjective(rels[i], o);
          }
        }
        if Key(rels[i]) !in keys {
          kept := kept + [rels[i]];
        }
      }
    }

    /** The error is the one of the first relation that must not be written. */
    method AuthorizeAll(rels: seq<Relationship>, resource: Ref, actor: Actor) returns (error: Option<Error>)
      ensures error.None? <==> forall r :: r in rels ==> MayWrite(actor, resource, r.relation)
      ensures error.Some? ==> exists i :: 0 <= i < |rels| && error == WriteError(actor, resource, rels[i].relation) &&
                                          forall j :: 0 <= j < i ==> MayWrite(actor, resource, rels[j].relation)
    {
      for i := 0 to |rels|
        invariant forall j :: 0 <= j < i ==> MayWrite(actor, resource, rels[j].relation)
      {
        error := WriteError(actor, resource, rels[i].relation);
        if error.Some? {
          return;
        }
      }
      error := None;
    }

    method DropOwners(rels: seq<Relationship>) returns (kept: seq<Relationship>)
      ensures Elements(kept) == set r | r in rels && r.relation != "owner"
    {
      kept := [];
      for i := 0 to |rels|
        invariant Elements(kept) == set r | r in rels[..i] && r.relation != "owner"
      {
        assert rels[..i + 1] == rels[..i] + [rels[i]];
        assert Elements(kept + [rels[i]]) == Elements(kept) + {rels[i]};
        if rels[i].relation != "owner" {
          kept := kept + [rels[i]];
        }
      }
      assert rels[..|rels|] == rels;
    }

    method DeleteAll(rels: seq<Relationship>)
      modifies `tuples
      ensures tuples == UnmatchedByAll(old(tuples), rels)
    {
      for i := 0 to |rels|
        invariant UnmatchedByAll(tuples, rels[i..]) == UnmatchedByAll(old(tuples), rels)
      {
        assert rels[i..][1..] == rels[i + 1..];
        tuples := Unmatched(tuples, rels[i]);
      }
    }

    /** Writes a difference, then audits it: one batch of revocations, one of grants, neither of them empty. */
    method Commit(removed: seq<Relationship>, created: seq<Relationship>, actor: Actor)
      requires Valid() && forall c :: c in created ==> Readable(c)
      modifies this
      ensures Valid()
      ensures tuples == UnmatchedByAll(old(tuples), removed) + Elements(created)
      ensures removed == created == [] ==> batches == old(batches)
      ensures (forall n: nat :: audits(n)) ==>
        log == old(log) + Entries(RevokeAction, actor.id, removed) + Entries(GrantAction, actor.id, created)
    {
      hide UnmatchedByAll, Elements, Entries, Readable;
      DeleteAll(removed);
      CommitIsReadable(old(tuples), removed, created);
      NothingToAudit(RevokeAction, actor.id);
      NothingToAudit(GrantAction, actor.id);
      tuples := tuples + Elements(created);
      if removed != [] {
        Audit(RevokeAction, actor, removed);
      }
      if created != [] {
        Audit(GrantAction, actor, created);
      }
    }

    /** The difference between what is stored on the resource and what is desired, with everything in it authorized. */
    method Plan(resource: Ref, raws: seq<RawRelationship>, actor: Actor)
      returns (error: Option<Error>, desired: seq<Relationship>, removed: seq<Relationship>, created: seq<Relationship>)
      requires Valid()
      ensures error.None? <==>
        AllNormalize(raws, resource) && DiffAllowed(tuples, resource, Elements(Normalized(raws, resource)), actor)
      ensures error.None? ==>
        && desired == Normalized(raws, resource)
        && Allowed(tuples, Replace(resource, desired, removed))
        && Authorized(tuples, actor, Replace(resource, desired, removed))
        && created == NotIn(desired, Diffable(tuples, resource))
      ensures error != Some(NotFound) && (error == Some(Denied) ==> AllNormalize(raws, resource))
    {
      hide AllNormalize, Normalized, MayWrite, WriteError, Diffable, NotIn, Elements, Allowed, Authorized, Readable,
           SchemaSubject;
      desired, removed, created := [], [], [];
      var normalized := NormalizeAll(raws, resource);
      if normalized.Err? {
        AllNormalizeErrors(raws, resource);
        return Some(normalized.error), desired, removed, created;
      }
      desired := normalized.value;
      NormalizedSound(raws, resource);
      var current := ListRelationships(resource);
      StructuralIff(tuples, resource, current, desired);
      if exists t :: t in current + desired && IsStructuralTuple(t) {
        return Some(Structural), desired, removed, created;
      }
      var diffable := DropOwners(current);
      DiffableIs(tuples, resource, current, diffable);
      SchemaIsReadable(tuples, desired, diffable, resource);
      removed := KeepUnlisted(diffable, desired);
      created := KeepUnlisted(desired, diffable);
      DiffIs(tuples, resource, desired, removed, created, actor);
      error := AuthorizeAll(removed, resource, actor);
      if error.Some? {
        NotMissing(actor, resource, removed, error);
        return;
      }
      error := AuthorizeAll(created, resource, actor);
      NotMissing(actor, resource, created, error);
    }

    /** Makes the desired tuples the only grantable ones on the resource.  Everything is checked before anything is
        written, so a rejected call leaves tuples and trail as they were. */
    method ReplaceRelationships(resource: RawRef, raws: seq<RawRelationship>, actor: Actor)
      returns (r: Result<Ref>, ghost change: Change)
      requires Valid()
      modifies this
      ensures Valid()
      ensures r.Ok? <==> Acceptable(old(tuples), present, resource, raws, actor)
      ensures r.Err? ==> View() == old(View())
      ensures ValidateResource(resource).Err? ==> r == Err(ValidateResource(resource).error)
      ensures r == Err(NotFound) <==> ValidateResource(resource).Ok? && !present(ValidateResource(resource).value)
      ensures r == Err(Denied) ==>
        ValidateResource(resource).Ok? && AllNormalize(raws, ValidateResource(resource).value)
      ensures r.Ok? ==>
        && ValidateResource(resource) == r && AllNormalize(raws, r.value)
        && change.Replace? && change.resource == r.value && change.desired == Normalized(raws, r.value)
        && Allowed(old(tuples), change)
        && Authorized(old(tuples), actor, change)
        && tuples == Apply(old(View()), actor.id, change).tuples
      ensures r.Ok? && Conforms(old(tuples)) ==> forall t :: t in tuples <==>
        t in Normalized(raws, r.value) || (t in old(tuples) && (t.resource != r.value || t.relation == "owner"))
      ensures r.Ok? && (forall n: nat :: audits(n)) ==> View() == Apply(old(View()), actor.id, change)
    {
      change := Replace(Ref(NoteType, ""), [], []);
      var target := ValidateResource(resource);
      if target.Err? {
        return Err(target.error), change;
      }
      if !present(target.value) {
        return Err(NotFound), change;
      }
      var error, desired, removed, created := Plan(target.value, raws, actor);
      if error.Some? {
        return Err(error.value), change;
      }
      change := Replace(target.value, desired, removed);
      NormalizedSound(raws, target.value);
      assert forall c :: c in Elements(created) ==> c in desired;
      Commit(removed, created, actor);
      if Conforms(old(tuples)) {
        ReplaceHitsTarget(old(View()), actor.id, target.value, desired, removed);
      }
      r := target;
    }
  }

  lemma StructuralIff(tuples: set<Relationship>, resource: Ref, current: seq<Relationship>, desired: seq<Relationship>)
    requires Elements(current) == set t | t in tuples && t.resource == resource
    requires forall d :: d in desired ==> !IsStructuralTuple(d)
    ensures (exists t :: t in current + desired && IsStructuralTuple(t)) <==>
            exists t :: t in tuples && t.resource == resource && IsStructuralTuple(t)
  {
    hide IsStructuralTuple;
    assert forall t :: t in current <==> t in Elements(current);
    assert forall t :: t in current + desired <==> t in current || t in desired;
  }

  lemma SchemaIsReadable(tuples: set<Relationship>, desired: seq<Relationship>, diffable: seq<Relationship>,
                         resource: Ref)
    requires (forall t :: t in tuples ==> Readable(t)) && Elements(diffable) == Diffable(tuples, resource)
    requires forall d :: d in desired ==> SchemaSubject(d)
    ensures forall r :: r in diffable || r in desired ==> Readable(r)
  {
    hide Readable;
    assert forall t :: t in diffable ==> t in Elements(diffable);
    forall d | d in desired
      ensures Readable(d)
    {
      SubjectIsReadable(d);
    }
  }

  lemma SubjectIsReadable(d: Relationship)
    requires SchemaSubject(d)
    ensures Readable(d)
  {
  }

  /** What a replacement drops and creates, and that it may be applied if every relation of it may be written. */
  lemma DiffIs(tuples: set<Relationship>, resource: Ref, desired: seq<Relationship>, removed: seq<Relationship>,
               created: seq<Relationship>, actor: Actor)
    requires Elements(removed) == Diffable(tuples, resource) - Elements(desired)
    requires Elements(created) == Elements(desired) - Diffable(tuples, resource)
    requires forall d :: d in desired ==>
      Grantable(d) && SchemaSubject(d) && d.resource == resource && d.relation != "owner"
    ensures forall t :: t in removed <==> t in Diffable(tuples, resource) - Elements(desired)
    ensures forall t :: t in created <==> t in Elements(desired) - Diffable(tuples, resource)
    ensures (forall r :: r in removed ==> MayWrite(actor, resource, r.relation)) ==>
            Allowed(tuples, Replace(resource, desired, removed))
    ensures (forall r :: r in removed || r in created ==> MayWrite(actor, resource, r.relation)) ==>
            Authorized(tuples, actor, Replace(resource, desired, removed))
  {
    hide SchemaSubject, Capabilities;
    assert forall t :: t in removed <==> t in Elements(removed);
    assert forall t :: t in created <==> t in Elements(created);
  }

  lemma NotMissing(actor: Actor, resource: Ref, rels: seq<Relationship>, error: Option<Error>)
    requires error.Some? ==> exists i :: 0 <= i < |rels| && error == WriteError(actor, resource, rels[i].relation)
    ensures error != Some(NotFound)
  {
    hide Capabilities;
  }

  /** Normalization never reports a missing resource or a missing capability: those are separate checks. */
  lemma NormalizeErrors(raw: RawRelationship, resource: Ref)
    ensures Normalize(raw, resource) != Err(NotFound) && Normalize(raw, resource) != Err(Denied)
    ensures ValidateResource(raw.resource) != Err(NotFound) && ValidateResource(raw.resource) != Err(Denied)
  {
  }

  lemma AllNormalizeErrors(raws: seq<RawRelationship>, resource: Ref)
    ensures forall i :: 0 <= i < |raws| ==>
              Normalize(raws[i], resource) != Err(NotFound) && Normalize(raws[i], resource) != Err(Denied)
  {
    forall i | 0 <= i < |raws| {
      NormalizeErrors(raws[i], resource);
    }
  }

  lemma CommitIsReadable(before: set<Relationship>, removed: seq<Relationship>, created: seq<Relationship>)
    ensures UnmatchedByAll(before, removed) <= before
    ensures forall t :: t in Elements(created) ==> t in created
  {
    UnmatchedByAllIs(before, removed);
  }

  lemma NothingToAudit(action: Action, actor: string)
    ensures Entries(action, actor, []) == []
  {
  }

  lemma NormalizedSound(raws: seq<RawRelationship>, resource: Ref)
    requires AllNormalize(raws, resource)
    ensures forall d :: d in Normalized(raws, resource) ==>
      d.resource == resource && Grantable(d) && SchemaSubject(d) && d.relation != "owner" && !IsStructuralTuple(d)
  {
    forall i | 0 <= i < |raws| {
      NormalizeSound(raws[i], resource);
    }
  }

  lemma DiffableIs(tuples: set<Relationship>, resource: Ref, current: seq<Relationship>, kept: seq<Relationship>)
    requires Elements(current) == set t | t in tuples && t.resource == resource
    requires Elements(kept) == set r | r in current && r.relation != "owner"
    ensures Elements(kept) == Diffable(tuples, resource)
  {
    assert forall t :: t in current <==> t in Elements(current);
  }
}
