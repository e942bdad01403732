/** Who may write which relation: the policy of src/domain/share_policy.py against src/db/migrations/schema.zed. */
module ShareRights {
  import opened Wrappers
  import opened SharePolicy
  import opened Relationships
  import opened ShareHistory
  import opened Sequences

  /** The caller: what the permission backend answers for it. */
  datatype Actor = Actor(id: string, holds: (Ref, string) -> bool)

  predicate MayWrite(actor: Actor, resource: Ref, relation: string) {
    relation in Capabilities(resource.objectType) &&
    actor.holds(resource, Capabilities(resource.objectType)[relation])
  }

  /** Why a relation must not be written: the policy knows no capability for it, or the caller lacks it. */
  function WriteError(actor: Actor, resource: Ref, relation: string): (e: Option<Error>)
    ensures e.None? <==> MayWrite(actor, resource, relation)
  {
    ProtectedRelations(resource.objectType);
    if relation == "owner" then Some(OwnerNotWritable)
    else if relation !in Capabilities(resource.objectType) then Some(UnsupportedRelation)
    else if !actor.holds(resource, Capabilities(resource.objectType)[relation]) then Some(Denied)
    else None
  }

  /** Every tuple that a change writes or drops carries a relation that the caller may write. */
  ghost predicate Authorized(tuples: set<Relationship>, actor: Actor, change: Change) {
    match change
    case Grant(t) => MayWrite(actor, t.resource, t.relation)
    case Revoke(t) => MayWrite(actor, t.resource, t.relation)
    case Replace(resource, desired, removed) =>
      && (forall r :: r in removed ==> MayWrite(actor, resource, r.relation))
      && forall c :: c in Elements(desired) - Diffable(tuples, resource) ==> MayWrite(actor, resource, c.relation)
  }

  // ---- the schema ---------------------------------------------------------------------

  /** The relations that the schema adds up to each permission that guards a write. */
  function Sources(t: ObjectType, permission: string): set<string> {
    match t
    case NoteType | DirectoryType | ShelfType =>
      if permission == "can_grant_read" then {"admin", "owner", "grant_read", "delegate_read"}
      else if permission == "can_grant_write" then {"admin", "owner", "grant_write", "delegate_write"}
      else if permission == "can_grant_admin" then {"owner", "grant_admin", "delegate_admin"}
      else if permission == "can_delegate_read" then {"admin", "owner", "delegate_read"}
      else if permission == "can_delegate_write" then {"admin", "owner", "delegate_write"}
      else if permission == "can_delegate_admin" then {"owner", "delegate_admin"}
      else if permission == "can_assign_delegate_read" then {"admin", "owner"}
      else if permission == "can_assign_delegate_write" then {"admin", "owner"}
      else if permission == "can_assign_delegate_admin" then {"owner"}
      else {}
    case RoleType =>
      if permission == "can_grant_member" then {"admin", "grant_member", "delegate_member"}
      else if permission == "can_delegate_member" then {"admin", "delegate_member"}
      else if permission == "can_assign_delegate_member" then {"admin"}
      else {}
    case _ => {}
  }

  /** A user holds a relation directly or as a member of a role. */
  predicate Holds(tuples: set<Relationship>, user: string, resource: Ref, relation: string) {
    exists t :: t in tuples && t.resource == resource && t.relation == relation && Covers(tuples, t, user)
  }

  predicate Covers(tuples: set<Relationship>, t: Relationship, user: string) {
    || (t.subject == Ref(UserType, user) && t.userset.None?)
    || (t.subject.objectType == RoleType && t.userset == Some("member") &&
        Relationship(t.subject, "member", Ref(UserType, user), None) in tuples)
  }

  /** What the backend answers for a user. */
  function SchemaActor(tuples: set<Relationship>, user: string): Actor {
    Actor(user, (resource: Ref, permission: string) =>
      exists relation :: relation in Sources(resource.objectType, permission) &&
                         Holds(tuples, user, resource, relation))
  }

  // ---- who may write what -------------------------------------------------------------

  datatype Level = Read | Write | Admin

  function Access(level: Level): string {
    match level
    case Read => "reader"
    case Write => "writer"
    case Admin => "admin"
  }

  function GrantOf(level: Level): string {
    match level
    case Read => "grant_read"
    case Write => "grant_write"
    case Admin => "grant_admin"
  }

  function DelegateOf(level: Level): string {
    match level
    case Read => "delegate_read"
    case Write => "delegate_write"
    case Admin => "delegate_admin"
  }

  /** Admins stand in for owners below their own level. */
  function Masters(level: Level): set<string> {
    if level == Admin then {"owner"} else {"owner", "admin"}
  }

  predicate Shareable(t: ObjectType) {
    t in {NoteType, DirectoryType, ShelfType}
  }

  ghost predicate HoldsAny(tuples: set<Relationship>, user: string, resource: Ref, relations: set<string>) {
    exists relation :: relation in relations && Holds(tuples, user, resource, relation)
  }

  lemma MayWriteIff(tuples: set<Relationship>, user: string, resource: Ref, relation: string)
    ensures MayWrite(SchemaActor(tuples, user), resource, relation) <==>
            relation in Capabilities(resource.objectType) &&
            HoldsAny(tuples, user, resource,
                     Sources(resource.objectType, Capabilities(resource.objectType)[relation]))
  {
    hide Holds, Capabilities, Sources;
  }

  /** On notes, directories and shelves: access of a level is written by its grantors and delegates, the right to grant
      by its delegates, the right to delegate only by the masters of the level, who may write all three. */
  lemma WriterIff(tuples: set<Relationship>, user: string, resource: Ref, level: Level)
    requires Shareable(resource.objectType)
    ensures MayWrite(SchemaActor(tuples, user), resource, Access(level)) <==>
            HoldsAny(tuples, user, resource, Masters(level) + {GrantOf(level), DelegateOf(level)})
    ensures MayWrite(SchemaActor(tuples, user), resource, GrantOf(level)) <==>
            HoldsAny(tuples, user, resource, Masters(level) + {DelegateOf(level)})
    ensures MayWrite(SchemaActor(tuples, user), resource, DelegateOf(level)) <==>
            HoldsAny(tuples, user, resource, Masters(level))
  {
    hide Holds, MayWrite, SchemaActor;
    MayWriteIff(tuples, user, resource, Access(level));
    MayWriteIff(tuples, user, resource, GrantOf(level));
    MayWriteIff(tuples, user, resource, DelegateOf(level));
    var t := resource.objectType;
    assert Sources(t, Capabilities(t)[Access(level)]) == Masters(level) + {GrantOf(level), DelegateOf(level)};
    assert Sources(t, Capabilities(t)[GrantOf(level)]) == Masters(level) + {DelegateOf(level)};
    assert Sources(t, Capabilities(t)[DelegateOf(level)]) == Masters(level);
  }

  /** And no other relation is written by anybody. */
  lemma OnlyLevels(actor: Actor, resource: Ref, relation: string)
    requires MayWrite(actor, resource, relation)
    ensures Shareable(resource.objectType) ==>
      exists level: Level :: relation in {Access(level), GrantOf(level), DelegateOf(level)}
    ensures resource.objectType == RoleType ==> relation in {"grant_member", "delegate_member"}
    ensures Shareable(resource.objectType) || resource.objectType == RoleType
  {
    if Shareable(resource.objectType) {
      assert relation in ACCESS_CAPABILITIES;
      var level := if relation in {Access(Read), GrantOf(Read), DelegateOf(Read)} then Read
                   else if relation in {Access(Write), GrantOf(Write), DelegateOf(Write)} then Write
                   else Admin;
      assert relation in {Access(level), GrantOf(level), DelegateOf(level)};
    }
  }

  /** On roles: the right to grant membership is written by admins and delegates, the right to delegate by admins. */
  lemma RoleWriterIff(tuples: set<Relationship>, user: string, role: Ref, relation: string)
    requires role.objectType == RoleType
    ensures MayWrite(SchemaActor(tuples, user), role, relation) <==>
            || (relation == "grant_member" && HoldsAny(tuples, user, role, {"admin", "delegate_member"}))
            || (relation == "delegate_member" && Holds(tuples, user, role, "admin"))
  {
    hide Holds, MayWrite, SchemaActor;
    MayWriteIff(tuples, user, role, relation);
    assert relation in ROLE_CAPABILITIES <==> relation in {"grant_member", "delegate_member"};
    if relation == "delegate_member" {
      assert Sources(RoleType, ROLE_CAPABILITIES[relation]) == {"admin"};
      assert HoldsAny(tuples, user, role, {"admin"}) <==> Holds(tuples, user, role, "admin");
    }
  }

  /** A user who holds one right to grant and nothing else writes exactly the access relation of that level. */
  lemma GrantorWrites(tuples: set<Relationship>, user: string, resource: Ref, level: Level, relation: string)
    requires Shareable(resource.objectType)
    requires forall r :: Holds(tuples, user, resource, r) <==> r == GrantOf(level)
    ensures MayWrite(SchemaActor(tuples, user), resource, relation) <==> relation == Access(level)
  {
    WritesExactly(tuples, user, resource, level, relation, GrantOf(level));
  }

  /** One who holds one right to delegate writes exactly the access relation of that level and the right to grant it. */
  lemma DelegateWrites(tuples: set<Relationship>, user: string, resource: Ref, level: Level, relation: string)
    requires Shareable(resource.objectType)
    requires forall r :: Holds(tuples, user, resource, r) <==> r == DelegateOf(level)
    ensures MayWrite(SchemaActor(tuples, user), resource, relation) <==> relation in {Access(level), GrantOf(level)}
  {
    WritesExactly(tuples, user, resource, level, relation, DelegateOf(level));
  }

  lemma WritesExactly(tuples: set<Relationship>, user: string, resource: Ref, level: Level, relation: string,
                      held: string)
    requires Shareable(resource.objectType) && held in {GrantOf(level), DelegateOf(level)}
    requires forall r :: Holds(tuples, user, resource, r) <==> r == held
    ensures MayWrite(SchemaActor(tuples, user), resource, relation) <==>
            relation == Access(level) || (relation == GrantOf(level) && held == DelegateOf(level))
  {
    hide Holds, MayWrite, SchemaActor, Capabilities;
    forall l: Level
      ensures MayWrite(SchemaActor(tuples, user), resource, Access(l)) <==> l == level
      ensures MayWrite(SchemaActor(tuples, user), resource, GrantOf(l)) <==> l == level && held == DelegateOf(level)
      ensures !MayWrite(SchemaActor(tuples, user), resource, DelegateOf(l))
    {
      WriterIff(tuples, user, resource, l);
      LevelsDiffer(l, level);
    }
    if MayWrite(SchemaActor(tuples, user), resource, relation) {
      OnlyLevels(SchemaActor(tuples, user), resource, relation);
    }
  }

  lemma LevelsDiffer(a: Level, b: Level)
    ensures GrantOf(a) == GrantOf(b) <==> a == b
    ensures DelegateOf(a) == DelegateOf(b) <==> a == b
    ensures GrantOf(a) != DelegateOf(b)
    ensures GrantOf(b) !in Masters(a) && DelegateOf(b) !in Masters(a)
  {
  }

  // ---- runs: nobody rises on his own --------------------------------------------------------

  /** Each call is authorized by what the backend answers on the store it finds. */
  ghost predicate AuthorizedRun(s: State, calls: seq<Call>)
    decreases calls
  {
    calls == [] || (
      && Allowed(s.tuples, calls[0].change)
      && Authorized(s.tuples, SchemaActor(s.tuples, calls[0].actor), calls[0].change)
      && AuthorizedRun(Apply(s, calls[0].actor, calls[0].change), calls[1..]))
  }

  /** The relations that bear on a level: its own, and those that lead to ownership or administration. */
  function Sealed(level: Level): set<string> {
    {"owner", "admin", "grant_admin", "delegate_admin", Access(level), GrantOf(level), DelegateOf(level)}
  }

  /** The relations of which a holder may change some of those. */
  function Powers(level: Level): set<string> {
    if level == Admin then {"owner", "grant_admin", "delegate_admin"} else Sealed(level) - {Access(level)}
  }

  ghost function Tuples(tuples: set<Relationship>, resource: Ref, relations: set<string>): set<Relationship> {
    set t | t in tuples && t.resource == resource && t.relation in relations
  }

  /** Only a holder of a power may write a sealed relation. */
  lemma SealedNeedsPower(tuples: set<Relationship>, user: string, resource: Ref, level: Level, relation: string)
    requires Shareable(resource.objectType) && relation in Sealed(level)
    requires MayWrite(SchemaActor(tuples, user), resource, relation)
    ensures HoldsAny(tuples, user, resource, Powers(level))
  {
    hide Holds, MayWrite, SchemaActor;
    WriterIff(tuples, user, resource, level);
    WriterIff(tuples, user, resource, Admin);
    MayWriteIff(tuples, user, resource, "owner");
  }

  /** A change leaves the tuples of a relation alone if the caller may not write it. */
  lemma ChangeLeaves(s: State, actor: string, change: Change, writer: Actor, resource: Ref, relations: set<string>)
    requires Allowed(s.tuples, change) && Authorized(s.tuples, writer, change)
    requires forall relation :: relation in relations ==> !MayWrite(writer, resource, relation)
    ensures Tuples(Apply(s, actor, change).tuples, resource, relations) == Tuples(s.tuples, resource, relations)
  {
    hide MayWrite, Grantable, SchemaSubject, Entries;
    match change
    case Grant(t) =>
    case Revoke(t) =>
    case Replace(target, desired, removed) =>
      UnmatchedByAllIs(s.tuples, removed);
      forall r | r in removed
        ensures r.resource == target
      {
        assert r in Elements(removed);
      }
  }

  /** What a user holds on a resource depends on the tuples of the resource and on role membership alone. */
  lemma HoldsDepends(tuples: set<Relationship>, after: set<Relationship>, user: string, resource: Ref,
                     relations: set<string>, relation: string)
    requires relation in relations && Tuples(after, resource, relations) == Tuples(tuples, resource, relations)
    requires forall role: Ref :: role.objectType == RoleType ==>
      Tuples(after, role, {"member"}) == Tuples(tuples, role, {"member"})
    ensures Holds(after, user, resource, relation) <==> Holds(tuples, user, resource, relation)
  {
    HoldsTransfers(tuples, after, user, resource, relations, relation);
    HoldsTransfers(after, tuples, user, resource, relations, relation);
  }

  lemma HoldsTransfers(tuples: set<Relationship>, after: set<Relationship>, user: string, resource: Ref,
                       relations: set<string>, relation: string)
    requires relation in relations && Tuples(after, resource, relations) == Tuples(tuples, resource, relations)
    requires forall role: Ref :: role.objectType == RoleType ==>
      Tuples(after, role, {"member"}) == Tuples(tuples, role, {"member"})
    ensures Holds(tuples, user, resource, relation) ==> Holds(after, user, resource, relation)
  {
    if Holds(tuples, user, resource, relation) {
      var t :| t in tuples && t.resource == resource && t.relation == relation && Covers(tuples, t, user);
      assert t in Tuples(after, resource, relations);
      if t.subject.objectType == RoleType && t.userset == Some("member") {
        var m := Relationship(t.subject, "member", Ref(UserType, user), None);
        assert m in tuples <==> m in Tuples(tuples, t.subject, {"member"});
        assert m in after <==> m in Tuples(after, t.subject, {"member"});
      }
      assert Covers(after, t, user);
    }
  }

  lemma MembersStay(s: State, actor: string, change: Change, writer: Actor, role: Ref)
    requires Allowed(s.tuples, change) && Authorized(s.tuples, writer, change) && role.objectType == RoleType
    ensures Tuples(Apply(s, actor, change).tuples, role, {"member"}) == Tuples(s.tuples, role, {"member"})
  {
    ProtectedRelations(role.objectType);
    ChangeLeaves(s, actor, change, writer, role, {"member"});
  }

  /** One call of a user without powers keeps all sealed tuples, and gives nobody a power. */
  lemma CallKeeps(s: State, call: Call, resource: Ref, level: Level)
    requires Shareable(resource.objectType) && Allowed(s.tuples, call.change)
    requires Authorized(s.tuples, SchemaActor(s.tuples, call.actor), call.change)
    requires !HoldsAny(s.tuples, call.actor, resource, Powers(level))
    ensures
      var t := Apply(s, call.actor, call.change);
      && Tuples(t.tuples, resource, Sealed(level)) == Tuples(s.tuples, resource, Sealed(level))
      && forall user, relation :: relation in Sealed(level) ==>
           (Holds(t.tuples, user, resource, relation) <==> Holds(s.tuples, user, resource, relation))
  {
    hide Apply, Allowed, Authorized, Holds, Tuples, MayWrite, SchemaActor, Sealed, Powers;
    var writer := SchemaActor(s.tuples, call.actor);
    var t := Apply(s, call.actor, call.change);
    forall relation | relation in Sealed(level)
      ensures !MayWrite(writer, resource, relation)
    {
      if MayWrite(writer, resource, relation) {
        SealedNeedsPower(s.tuples, call.actor, resource, level, relation);
      }
    }
    ChangeLeaves(s, call.actor, call.change, writer, resource, Sealed(level));
    forall role: Ref | role.objectType == RoleType {
      MembersStay(s, call.actor, call.change, writer, role);
    }
    forall user, relation | relation in Sealed(level) {
      HoldsDepends(s.tuples, t.tuples, user, resource, Sealed(level), relation);
    }
  }

  /** Users who hold none of the powers over a level cannot, by any run of writes among themselves, change who has
      access of that level, who may grant or delegate it, or who owns or administers the resource. */
  lemma {:induction false} NobodyRises(s: State, calls: seq<Call>, resource: Ref, level: Level)
    requires Shareable(resource.objectType) && AuthorizedRun(s, calls)
    requires forall c :: c in calls ==> !HoldsAny(s.tuples, c.actor, resource, Powers(level))
    ensures Tuples(Final(s, calls).tuples, resource, Sealed(level)) == Tuples(s.tuples, resource, Sealed(level))
    ensures forall user, relation :: relation in Sealed(level) ==>
      (Holds(Final(s, calls).tuples, user, resource, relation) <==> Holds(s.tuples, user, resource, relation))
    decreases calls
  {
    hide Apply, Allowed, Authorized, Holds, Tuples, SchemaActor, Sealed;
    if calls != [] {
      var t := Apply(s, calls[0].actor, calls[0].change);
      assert calls[0] in calls;
      CallKeeps(s, calls[0], resource, level);
      PowersAreSealed(level);
      forall c | c in calls[1..]
        ensures !HoldsAny(t.tuples, c.actor, resource, Powers(level))
      {
        assert c in calls;
      }
      NobodyRises(t, calls[1..], resource, level);
    }
  }

  lemma PowersAreSealed(level: Level)
    ensures Powers(level) <= Sealed(level)
  {
  }
}
