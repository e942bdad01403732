/** The effect of the write operations of src/services/permissions.py on tuples and audit trail, and runs of them. */
module ShareHistory {
  import opened Wrappers
  import opened SharePolicy
  import opened Relationships
  import opened Sequences

  datatype Action = GrantAction | RevokeAction

  datatype Entry = Entry(action: Action, actor: string, tuple: Relationship)

  datatype State = State(tuples: set<Relationship>, log: seq<Entry>)

  /** One authorized write.  `removed` lists the stored tuples that a replacement drops, in the backend's order. */
  datatype Change =
    | Grant(tuple: Relationship)
    | Revoke(tuple: Relationship)
    | Replace(resource: Ref, desired: seq<Relationship>, removed: seq<Relationship>)

  function Entries(action: Action, actor: string, rels: seq<Relationship>): seq<Entry> {
    if rels == [] then [] else [Entry(action, actor, rels[0])] + Entries(action, actor, rels[1..])
  }

  /** The tuples of a resource that a replacement may touch. */
  function Diffable(tuples: set<Relationship>, resource: Ref): set<Relationship> {
    set t | t in tuples && t.resource == resource && t.relation != "owner"
  }

  function NotIn(rels: seq<Relationship>, held: set<Relationship>): (r: seq<Relationship>)
    ensures Elements(r) == Elements(rels) - held
  {
    if rels == [] then []
    else
      assert Elements(rels) == {rels[0]} + Elements(rels[1..]);
      var rest := NotIn(rels[1..], held);
      assert Elements([rels[0]] + rest) == {rels[0]} + Elements(rest);
      if rels[0] in held then rest else [rels[0]] + rest
  }

  function UnmatchedByAll(tuples: set<Relationship>, patterns: seq<Relationship>): set<Relationship> {
    if patterns == [] then tuples else UnmatchedByAll(Unmatched(tuples, patterns[0]), patterns[1..])
  }

  function Apply(s: State, actor: string, change: Change): State {
    match change
    case Grant(t) => State(s.tuples + {t}, s.log + [Entry(GrantAction, actor, t)])
    case Revoke(t) => State(Unmatched(s.tuples, t), s.log + [Entry(RevokeAction, actor, t)])
    case Replace(resource, desired, removed) =>
      var created := NotIn(desired, Diffable(s.tuples, resource));
      State(UnmatchedByAll(s.tuples, removed) + Elements(created),
            s.log + Entries(RevokeAction, actor, removed) + Entries(GrantAction, actor, created))
  }

  /** What the checks in front of a write have established. */
  ghost predicate Allowed(tuples: set<Relationship>, change: Change) {
    match change
    case Grant(t) => Grantable(t) && SchemaSubject(t)
    case Revoke(t) => Grantable(t) && SchemaSubject(t)
    case Replace(resource, desired, removed) =>
      && (forall d :: d in desired ==>
            Grantable(d) && SchemaSubject(d) && d.resource == resource && d.relation != "owner")
      && Elements(removed) == Diffable(tuples, resource) - Elements(desired)
      && (forall r :: r in removed ==> Grantable(r))
  }

  // ---- what a replacement leaves ---------------------------------------------------

  /** The desired tuples, the owners of the resource, and every tuple of every other resource. */
  function Target(tuples: set<Relationship>, resource: Ref, desired: seq<Relationship>): set<Relationship> {
    (set t | t in tuples && (t.resource != resource || t.relation == "owner")) + Elements(desired)
  }

  lemma ElementsEmpty(rels: seq<Relationship>)
    ensures Elements(rels) == {} <==> rels == []
  {
    assert rels != [] ==> rels[0] in Elements(rels);
  }

  lemma {:induction false} UnmatchedByAllIs(tuples: set<Relationship>, patterns: seq<Relationship>)
    ensures UnmatchedByAll(tuples, patterns) ==
            set t | t in tuples && forall p :: p in patterns ==> !Matches(p, t)
  {
    if patterns != [] {
      UnmatchedByAllIs(Unmatched(tuples, patterns[0]), patterns[1..]);
      assert forall p :: p in patterns <==> p == patterns[0] || p in patterns[1..];
    }
  }

  /** For any store: a replacement hits its target exactly if no dropped tuple, used as a delete filter, also matches a
      tuple that should have stayed. */
  lemma ReplaceHitsTargetIff(s: State, actor: string, resource: Ref, desired: seq<Relationship>,
                             removed: seq<Relationship>)
    requires Allowed(s.tuples, Replace(resource, desired, removed))
    ensures Apply(s, actor, Replace(resource, desired, removed)).tuples == Target(s.tuples, resource, desired) <==>
            forall p, t :: p in removed && t in s.tuples && t in desired ==> !Matches(p, t)
  {
    var after := Apply(s, actor, Replace(resource, desired, removed)).tuples;
    var target := Target(s.tuples, resource, desired);
    var created := Elements(desired) - Diffable(s.tuples, resource);
    UnmatchedByAllIs(s.tuples, removed);
    forall p | p in removed
      ensures p in Diffable(s.tuples, resource) && p !in desired && Matches(p, p)
    {
      assert p in Elements(removed);
    }
    forall t | t in after
      ensures t in target
    {
      assert t in Elements(removed) || t in target;
    }
    if forall p, t :: p in removed && t in s.tuples && t in desired ==> !Matches(p, t) {
      forall t | t in target
        ensures t in after
      {
        if t in s.tuples && t !in created {
          forall p | p in removed
            ensures !Matches(p, t)
          {
          }
        }
      }
    } else {
      var p, t :| p in removed && t in s.tuples && t in desired && Matches(p, t);
      assert t in Diffable(s.tuples, resource);
      assert t in target && t !in after;
    }
  }

  lemma RemovedConform(tuples: set<Relationship>, resource: Ref, desired: seq<Relationship>, removed: seq<Relationship>)
    requires Conforms(tuples) && Allowed(tuples, Replace(resource, desired, removed))
    ensures forall p :: p in removed ==> p in tuples && Grantable(p) && SchemaSubject(p) && p !in desired
  {
    forall p | p in removed
      ensures p in tuples && p !in desired
    {
      assert p in Elements(removed);
    }
  }

  /** On a store that conforms to the schema a replacement always hits its target. */
  lemma ReplaceHitsTarget(s: State, actor: string, resource: Ref, desired: seq<Relationship>,
                          removed: seq<Relationship>)
    requires Conforms(s.tuples) && Allowed(s.tuples, Replace(resource, desired, removed))
    ensures Apply(s, actor, Replace(resource, desired, removed)).tuples == Target(s.tuples, resource, desired)
  {
    RemovedConform(s.tuples, resource, desired, removed);
    forall p, t | p in removed && t in s.tuples && t in desired
      ensures !Matches(p, t)
    {
      assert p != t;
    }
    ReplaceHitsTargetIff(s, actor, resource, desired, removed);
  }

  /** Without the schema it can miss: dropping `role:r` also drops the desired `role:r#member`. */
  lemma BareRoleShadowsUserset(doc: Ref, role: Ref)
    requires doc.objectType == NoteType && role.objectType == RoleType
    ensures
      var bare := Relationship(doc, "reader", role, None);
      var kept := Relationship(doc, "reader", role, Some("member"));
      && Allowed({bare, kept}, Replace(doc, [kept], [bare]))
      && Apply(State({bare, kept}, []), "actor", Replace(doc, [kept], [bare])).tuples == {}
      && Target({bare, kept}, doc, [kept]) == {kept}
  {
    var bare := Relationship(doc, "reader", role, None);
    var kept := Relationship(doc, "reader", role, Some("member"));
    assert bare != kept && kept in [kept] && bare in [bare];
    assert Elements([bare]) == {bare} && Elements([kept]) == {kept};
    assert Diffable({bare, kept}, doc) == {bare, kept};
    UnmatchedByAllIs({bare, kept}, [bare]);
  }

  /** Repeating a replacement changes no tuple and writes no audit entry. */
  lemma ReplaceTwice(s: State, actor: string, resource: Ref, desired: seq<Relationship>,
                     removed: seq<Relationship>, again: seq<Relationship>)
    requires Conforms(s.tuples) && Allowed(s.tuples, Replace(resource, desired, removed))
    requires
      Allowed(Apply(s, actor, Replace(resource, desired, removed)).tuples, Replace(resource, desired, again))
    ensures
      var once := Apply(s, actor, Replace(resource, desired, removed));
      again == [] && Apply(once, actor, Replace(resource, desired, again)) == once
  {
    var once := Apply(s, actor, Replace(resource, desired, removed));
    ReplaceHitsTarget(s, actor, resource, desired, removed);
    assert Diffable(once.tuples, resource) == Elements(desired);
    ElementsEmpty(again);
    ElementsEmpty(NotIn(desired, Diffable(once.tuples, resource)));
  }

  // ---- the audit trail --------------------------------------------------------------

  function Replay(tuples: set<Relationship>, entries: seq<Entry>): set<Relationship> {
    if entries == [] then tuples
    else
      var past := Replay(tuples, entries[..|entries| - 1]);
      var last := entries[|entries| - 1];
      match last.action
      case GrantAction => past + {last.tuple}
      case RevokeAction => past - {last.tuple}
  }

  lemma {:induction false} ReplayAppend(tuples: set<Relationship>, log: seq<Entry>, more: seq<Entry>)
    ensures Replay(tuples, log + more) == Replay(Replay(tuples, log), more)
  {
    if more == [] {
      assert log + more == log;
    } else {
      var n := |more| - 1;
      assert (log + more)[..|log + more| - 1] == log + more[..n];
      ReplayAppend(tuples, log, more[..n]);
    }
  }

  lemma {:induction false} ReplayEntries(tuples: set<Relationship>, action: Action, actor: string,
                                         rels: seq<Relationship>)
    ensures Replay(tuples, Entries(action, actor, rels)) ==
            if action == GrantAction then tuples + Elements(rels) else tuples - Elements(rels)
    decreases rels
  {
    if rels == [] {
    } else {
      var head := [Entry(action, actor, rels[0])];
      ReplayAppend(tuples, head, Entries(action, actor, rels[1..]));
      assert head[..0] == [];
      ReplayEntries(Replay(tuples, head), action, actor, rels[1..]);
      assert Elements(rels) == {rels[0]} + Elements(rels[1..]);
    }
  }

  /** The tuples that no operation of the service may change. */
  function Protected(tuples: set<Relationship>): set<Relationship> {
    set t | t in tuples && !Grantable(t)
  }

  ghost predicate Continues(s: State, t: State) {
    && s.log <= t.log
    && t.tuples == Replay(s.tuples, t.log[|s.log|..])
    && Conforms(t.tuples)
    && Protected(t.tuples) == Protected(s.tuples)
  }

  lemma ReplaceIsDiff(s: State, actor: string, resource: Ref, desired: seq<Relationship>, removed: seq<Relationship>)
    requires Conforms(s.tuples) && Allowed(s.tuples, Replace(resource, desired, removed))
    ensures Apply(s, actor, Replace(resource, desired, removed)).tuples ==
            s.tuples - Elements(removed) + Elements(NotIn(desired, Diffable(s.tuples, resource)))
  {
    hide Apply, Conforms, Grantable, SchemaSubject;
    ReplaceHitsTarget(s, actor, resource, desired, removed);
  }

  /** A difference of grantable tuples that fit the schema keeps the schema and touches nothing protected. */
  lemma DiffKeeps(tuples: set<Relationship>, removed: set<Relationship>, created: set<Relationship>)
    requires Conforms(tuples) && (forall r :: r in removed ==> Grantable(r))
    requires forall c :: c in created ==> Grantable(c) && SchemaSubject(c)
    ensures Conforms(tuples - removed + created) && Protected(tuples - removed + created) == Protected(tuples)
  {
    hide Grantable, SchemaSubject;
  }

  lemma AllowedDiff(tuples: set<Relationship>, resource: Ref, desired: seq<Relationship>, removed: seq<Relationship>)
    requires Allowed(tuples, Replace(resource, desired, removed))
    ensures forall r :: r in Elements(removed) ==> Grantable(r)
    ensures forall c :: c in Elements(NotIn(desired, Diffable(tuples, resource))) ==> Grantable(c) && SchemaSubject(c)
  {
    hide Grantable, SchemaSubject, Diffable, NotIn;
  }

  lemma ReplaceContinues(s: State, actor: string, resource: Ref, desired: seq<Relationship>, removed: seq<Relationship>)
    requires Conforms(s.tuples) && Allowed(s.tuples, Replace(resource, desired, removed))
    ensures Continues(s, Apply(s, actor, Replace(resource, desired, removed)))
  {
    hide Conforms, Allowed, Grantable, SchemaSubject, Diffable, NotIn, Elements, UnmatchedByAll, Protected, Entries;
    var created := NotIn(desired, Diffable(s.tuples, resource));
    var t := Apply(s, actor, Replace(resource, desired, removed));
    var revokes, grants := Entries(RevokeAction, actor, removed), Entries(GrantAction, actor, created);
    assert t.log == s.log + (revokes + grants);
    assert t.log[|s.log|..] == revokes + grants;
    ReplayAppend(s.tuples, revokes, grants);
    ReplayEntries(s.tuples, RevokeAction, actor, removed);
    ReplayEntries(s.tuples - Elements(removed), GrantAction, actor, created);
    ReplaceIsDiff(s, actor, resource, desired, removed);
    AllowedDiff(s.tuples, resource, desired, removed);
    DiffKeeps(s.tuples, Elements(removed), Elements(created));
  }

  lemma ChangeContinues(s: State, actor: string, change: Change)
    requires Conforms(s.tuples) && Allowed(s.tuples, change)
    ensures Continues(s, Apply(s, actor, change))
  {
    var t := Apply(s, actor, change);
    match change
    case Grant(r) =>
      assert t.log[|s.log|..] == [Entry(GrantAction, actor, r)];
      assert [Entry(GrantAction, actor, r)][..0] == [];
    case Revoke(r) =>
      FilterIsExact(s.tuples, r);
      assert t.log[|s.log|..] == [Entry(RevokeAction, actor, r)];
      assert [Entry(RevokeAction, actor, r)][..0] == [];
    case Replace(resource, desired, removed) =>
      ReplaceContinues(s, actor, resource, desired, removed);
  }

  datatype Call = Call(actor: string, change: Change)

  ghost predicate Run(s: State, calls: seq<Call>)
    decreases calls
  {
    calls == [] || (Allowed(s.tuples, calls[0].change) && Run(Apply(s, calls[0].actor, calls[0].change), calls[1..]))
  }

  ghost function Final(s: State, calls: seq<Call>): State
    decreases calls
  {
    if calls == [] then s else Final(Apply(s, calls[0].actor, calls[0].change), calls[1..])
  }

  /** After any run of creates, deletes and replacements, replaying what was audited over the initial tuples gives the
      stored tuples, and the tuples outside the share policy are those of the start. */
  lemma {:induction false} RunReplays(s: State, calls: seq<Call>)
    requires Conforms(s.tuples) && Run(s, calls)
    ensures Continues(s, Final(s, calls))
    decreases calls
  {
    if calls == [] {
      assert s.log[|s.log|..] == [];
    } else {
      var t := Apply(s, calls[0].actor, calls[0].change);
      ChangeContinues(s, calls[0].actor, calls[0].change);
      RunReplays(t, calls[1..]);
      var u := Final(t, calls[1..]);
      assert u.log[|s.log|..] == t.log[|s.log|..] + u.log[|t.log|..];
      ReplayAppend(s.tuples, t.log[|s.log|..], u.log[|t.log|..]);
    }
  }
}
