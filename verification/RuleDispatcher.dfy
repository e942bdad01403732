/** Rule dispatch of src/api/events/rule_dispatcher.py: scope, condition, action. */
module RuleDispatcher {
  import opened Wrappers
  import opened Hierarchy
  import opened FirstParents
  import opened PythonText

  datatype Event = NoteEvent(noteId: Id) | DirectoryEvent(directoryId: Id) | OtherEvent

  datatype Condition = AlwaysTrue | NoteContentContains(substring: string) | NoteTitleContains(substring: string)

  datatype Action = AddToDirectory(directoryId: Id) | AddTag(tagId: Id)

  /** `None` for a condition or an action stands for a payload that does not parse. */
  datatype Rule = Rule(attachedType: Option<string>, attachedId: Option<Id>, condition: Option<Condition>,
                       action: Option<Action>)

  /** What rule actions change: note tuples (which scopes also read) and tag assignments. */
  datatype Bindings = Bindings(noteTuples: Tuples, tags: set<(string, Id, Id)>)

  /** What dispatch reads and no action changes. */
  datatype Context = Context(
    dirTuples: Tuples,
    shelves: map<Id, set<Id>>,
    contents: map<Id, string>,
    titles: map<Id, string>,
    unreadableNote: Id -> bool,
    unreadableDirectory: Id -> bool,
    acceptsChild: (Id, Id) -> bool,
    acceptsTag: (string, Id, Id) -> bool)

  // ---- what a rule means -------------------------------------------------------------

  ghost predicate Contains(text: string, substring: string) {
    exists i: nat :: OccursAt(text, i, substring)
  }

  function PrimaryType(e: Event): Option<string> {
    match e
    case NoteEvent(_) => Some("note")
    case DirectoryEvent(_) => Some("directory")
    case OtherEvent => None
  }

  /** The first parent of a note, if the note can be read and has one. */
  ghost function NoteParent(ctx: Context, b: Bindings, note: Id): Option<Id> {
    if ctx.unreadableNote(note) then None else FirstParent(b.noteTuples, note)
  }

  ghost predicate AncestorOf(ctx: Context, directory: Id, ancestor: Id) {
    IsAncestor(ctx.dirTuples, directory, ancestor) && !Unreadable(ctx.dirTuples, directory, ctx.unreadableDirectory)
  }

  predicate OnShelf(ctx: Context, shelf: Id, directory: Id) {
    shelf in ctx.shelves && directory in ctx.shelves[shelf]
  }

  /** Whether a rule attached to (`kind`, `id`) covers the event. */
  ghost predicate Covers(ctx: Context, b: Bindings, kind: string, id: Id, e: Event) {
    match e
    case NoteEvent(note) =>
      var parent := NoteParent(ctx, b, note);
      if kind == "note" then id == note
      else if kind == "directory" then parent.Some? && AncestorOf(ctx, parent.value, id)
      else kind == "shelf" && parent.Some? && OnShelf(ctx, id, parent.value)
    case DirectoryEvent(directory) =>
      if kind == "directory" then id == directory || AncestorOf(ctx, directory, id)
      else kind == "shelf" && OnShelf(ctx, id, directory)
    case OtherEvent => false
  }

  ghost predicate Holds(ctx: Context, condition: Condition, e: Event) {
    match condition
    case AlwaysTrue => true
    case NoteContentContains(s) =>
      e.NoteEvent? && !ctx.unreadableNote(e.noteId) && e.noteId in ctx.contents && Contains(ctx.contents[e.noteId], s)
    case NoteTitleContains(s) =>
      e.NoteEvent? && !ctx.unreadableNote(e.noteId) && e.noteId in ctx.titles && Contains(ctx.titles[e.noteId], s)
  }

  ghost predicate InScope(ctx: Context, b: Bindings, rule: Rule, e: Event) {
    && rule.attachedType.Some? && rule.attachedId.Some?
    && Covers(ctx, b, rule.attachedType.value, rule.attachedId.value, e)
  }

  ghost predicate Fires(ctx: Context, b: Bindings, rule: Rule, e: Event) {
    && InScope(ctx, b, rule, e)
    && rule.condition.Some? && Holds(ctx, rule.condition.value, e)
    && rule.action.Some?
  }

  /** Whether an action of a fired rule puts note `n` into directory `d`: only for an event of that note. */
  predicate AddsChild(ctx: Context, action: Action, e: Event, n: Id, d: Id) {
    action == AddToDirectory(d) && e == NoteEvent(n) && n != "" && ctx.acceptsChild(d, n)
  }

  /** Whether it puts tag `t` on the note or the directory that the event is about. */
  predicate AddsTag(ctx: Context, action: Action, e: Event, kind: string, id: Id, t: Id) {
    && action == AddTag(t)
    && (if kind == "note" then e == NoteEvent(id) else kind == "directory" && e == DirectoryEvent(id))
    && id != "" && ctx.acceptsTag(kind, id, t)
  }

  /** The bindings after dispatch, by membership only: the order of the rules does not occur in it, and every scope and
      condition refers to the bindings before. */
  ghost predicate IsDispatched(ctx: Context, before: Bindings, rules: seq<Rule>, e: Event, after: Bindings) {
    && (forall n, d :: (n, d) in after.noteTuples <==>
          ((n, d) in before.noteTuples ||
           exists r :: r in rules && Fires(ctx, before, r, e) && AddsChild(ctx, r.action.value, e, n, d)))
    && (forall kind, id, t :: (kind, id, t) in after.tags <==>
          ((kind, id, t) in before.tags ||
           exists r :: r in rules && Fires(ctx, before, r, e) && AddsTag(ctx, r.action.value, e, kind, id, t)))
  }

  ghost predicate Fired(ctx: Context, before: Bindings, rules: seq<Rule>, e: Event, action: Action) {
    exists r :: r in rules && Fires(ctx, before, r, e) && r.action == Some(action)
  }

  /** One rule in scope: its action runs exactly if its condition holds and both parse. */
  ghost predicate IsExecuted(ctx: Context, before: Bindings, rule: Rule, e: Event, after: Bindings) {
    var runs := rule.condition.Some? && Holds(ctx, rule.condition.value, e) && rule.action.Some?;
    && (forall n, d :: (n, d) in after.noteTuples <==>
          (n, d) in before.noteTuples || (runs && AddsChild(ctx, rule.action.value, e, n, d)))
    && (forall kind, id, t :: (kind, id, t) in after.tags <==>
          (kind, id, t) in before.tags || (runs && AddsTag(ctx, rule.action.value, e, kind, id, t)))
  }

  /** Dispatch does not depend on the order in which the rules are stored, nor on duplicates. */
  lemma DispatchIgnoresOrder(ctx: Context, before: Bindings, rules: seq<Rule>, rules': seq<Rule>, e: Event,
                             after: Bindings, after': Bindings)
    requires forall r :: r in rules <==> r in rules'
    requires IsDispatched(ctx, before, rules, e, after) && IsDispatched(ctx, before, rules', e, after')
    ensures after == after'
  {
    hide Fires, AddsChild, AddsTag;
    forall c: (Id, Id)
      ensures c in after.noteTuples <==> c in after'.noteTuples
    {
      assert c == (c.0, c.1);
    }
    forall t: (string, Id, Id)
      ensures t in after.tags <==> t in after'.tags
    {
      assert t == (t.0, t.1, t.2);
    }
    assert after.noteTuples == after'.noteTuples && after.tags == after'.tags;
  }

  ghost predicate OnReadableRing(ctx: Context, directory: Id) {
    exists ring :: IsRing(ctx.dirTuples, ring) && directory in ring &&
                   forall x :: x in ring ==> !ctx.unreadableDirectory(x)
  }

  lemma RingReadable(ctx: Context, ring: seq<Id>, directory: Id)
    requires IsRing(ctx.dirTuples, ring) && directory in ring
    ensures Unreadable(ctx.dirTuples, directory, ctx.unreadableDirectory) <==>
            exists x :: x in ring && ctx.unreadableDirectory(x)
  {
    hide IsRing, IsAncestor;
    RingIsAncestors(ctx.dirTuples, ring, directory);
  }

  /** A rule on the directory that directly holds a note covers the note's events exactly if first parents lead from
      that directory back to it, over directories that can all be read. */
  lemma OwnDirectoryRule(ctx: Context, b: Bindings, note: Id, parent: Id)
    requires NoteParent(ctx, b, note) == Some(parent)
    ensures Covers(ctx, b, "directory", parent, NoteEvent(note)) <==> OnReadableRing(ctx, parent)
  {
    hide IsRing, IsAncestor, Unreadable;
    CycleIff(ctx.dirTuples, parent);
    forall ring | IsRing(ctx.dirTuples, ring) && parent in ring
      ensures Unreadable(ctx.dirTuples, parent, ctx.unreadableDirectory) <==>
              exists x :: x in ring && ctx.unreadableDirectory(x)
    {
      RingReadable(ctx, ring, parent);
    }
  }

  /** So it never does where first parents run in no circle, as in every tree. */
  lemma OwnDirectoryRuleInTree(ctx: Context, b: Bindings, note: Id, parent: Id)
    requires NoteParent(ctx, b, note) == Some(parent) && RingFree(ctx.dirTuples)
    ensures !Covers(ctx, b, "directory", parent, NoteEvent(note))
  {
    hide IsRing, Covers;
    OwnDirectoryRule(ctx, b, note, parent);
  }

  // ---- the dispatcher ---------------------------------------------------------------------

  class Dispatcher {
    const ctx: Context
    var noteTuples: Tuples
    var tags: set<(string, Id, Id)>

    ghost function View(): Bindings
      reads this
    {
      Bindings(noteTuples, tags)
    }

    method NoteParentDirectoryId(note: Id) returns (parent: Option<Id>)
      ensures parent == NoteParent(ctx, View(), note)
    {
      if ctx.unreadableNote(note) {
        return None;
      }
      parent := GetFirstParent(noteTuples, note);
    }

    method AncestorChainContains(directory: Id, target: Id) returns (r: bool)
      ensures r <==> AncestorOf(ctx, directory, target)
    {
      var ancestors := DirectoryAncestorIds(ctx.dirTuples, directory, ctx.unreadableDirectory);
      r := target in ancestors;
    }

    method DirectoryScopeMatches(e: Event, attached: Id) returns (r: bool)
      requires !e.OtherEvent? && (e.DirectoryEvent? ==> e.directoryId != attached)
      ensures r <==> Covers(ctx, View(), "directory", attached, e)
    {
      if e.DirectoryEvent? {
        r := AncestorChainContains(e.directoryId, attached);
      } else {
        var parent := NoteParentDirectoryId(e.noteId);
        if parent.None? {
          return false;
        }
        r := AncestorChainContains(parent.value, attached);
      }
    }

    method ShelfScopeMatches(e: Event, shelf: Id) returns (r: bool)
      requires !e.OtherEvent?
      ensures r <==> Covers(ctx, View(), "shelf", shelf, e)
    {
      if e.DirectoryEvent? {
        return OnShelf(ctx, shelf, e.directoryId);
      }
      var parent := NoteParentDirectoryId(e.noteId);
      if parent.None? {
        return false;
      }
      r := OnShelf(ctx, shelf, parent.value);
    }

    method ScopeMatches(rule: Rule, e: Event) returns (r: bool)
      ensures r <==> InScope(ctx, View(), rule, e)
    {
      if rule.attachedId.None? || rule.attachedType.None? || e.OtherEvent? {
        return false;
      }
      var kind, id := rule.attachedType.value, rule.attachedId.value;
      var primary := if e.NoteEvent? then e.noteId else e.directoryId;
      if PrimaryType(e) == Some(kind) && primary == id {
        return true;
      }
      if kind == "directory" {
        r := DirectoryScopeMatches(e, id);
      } else if kind == "shelf" {
        r := ShelfScopeMatches(e, id);
      } else {
        r := false;
      }
    }

    method ContainsText(text: string, substring: string) returns (r: bool)
      ensures r <==> Contains(text, substring)
    {
      var i := 0;
      while i + |substring| <= |text|
        invariant 0 <= i && forall j: nat :: j < i ==> !OccursAt(text, j, substring)
        decreases |text| - i
      {
        if OccursAt(text, i, substring) {
          return true;
        }
        i := i + 1;
      }
      r := false;
    }

    method ConditionHolds(condition: Condition, e: Event) returns (r: bool)
      ensures r <==> Holds(ctx, condition, e)
    {
      if condition.AlwaysTrue? {
        return true;
      }
      if !e.NoteEvent? || ctx.unreadableNote(e.noteId) {
        return false;
      }
      var texts := if condition.NoteContentContains? then ctx.contents else ctx.titles;
      if e.noteId !in texts {
        return false;
      }
      r := ContainsText(texts[e.noteId], condition.substring);
    }

    method RunAddToDirectory(directory: Id, e: Event)
      modifies `noteTuples
      ensures forall n, d :: (n, d) in noteTuples <==>
        (n, d) in old(noteTuples) || AddsChild(ctx, AddToDirectory(directory), e, n, d)
    {
      if !e.NoteEvent? || e.noteId == "" {
        return;
      }
      if ctx.acceptsChild(directory, e.noteId) {
        noteTuples := noteTuples + {(e.noteId, directory)};
      }
    }

    method RunAddTag(tag: Id, e: Event)
      modifies `tags
      ensures forall kind, id, t :: (kind, id, t) in tags <==>
        (kind, id, t) in old(tags) || AddsTag(ctx, AddTag(tag), e, kind, id, t)
    {
      if e.OtherEvent? {
        return;
      }
      var kind, id := "directory", "";
      if e.NoteEvent? {
        kind, id := "note", e.noteId;
      } else {
        id := e.directoryId;
      }
      if id != "" && ctx.acceptsTag(kind, id, tag) {
        tags := tags + {(kind, id, tag)};
      }
    }

    method EvaluateAndExecute(rule: Rule, e: Event)
      modifies this
      ensures IsExecuted(ctx, old(View()), rule, e, View())
    {
      if rule.condition.None? {
        return;
      }
      var holds := ConditionHolds(rule.condition.value, e);
      if !holds || rule.action.None? {
        return;
      }
      match rule.action.value
      case AddToDirectory(directory) => RunAddToDirectory(directory, e);
      case AddTag(tag) => RunAddTag(tag, e);
    }

    /** All scopes are decided before the first action runs. */
    method Candidates(rules: seq<Rule>, e: Event) returns (candidates: seq<Rule>)
      ensures forall r :: r in candidates <==> r in rules && InScope(ctx, View(), r, e)
    {
      candidates := [];
      for i := 0 to |rules|
        invariant forall r :: r in candidates <==> r in rules[..i] && InScope(ctx, View(), r, e)
      {
        assert rules[..i + 1] == rules[..i] + [rules[i]];
        var matches := ScopeMatches(rules[i], e);
        if matches {
          candidates := candidates + [rules[i]];
        }
      }
      assert rules[..|rules|] == rules;
    }

    method Dispatch(rules: seq<Rule>, e: Event)
      modifies this
      ensures IsDispatched(ctx, old(View()), rules, e, View())
      ensures forall n, d :: (n, d) in noteTuples <==>
        || (n, d) in old(noteTuples)
        || (e == NoteEvent(n) && n != "" && ctx.acceptsChild(d, n) &&
            Fired(ctx, old(View()), rules, e, AddToDirectory(d)))
      ensures forall kind, id, t :: (kind, id, t) in tags <==>
        || (kind, id, t) in old(tags)
        || (((kind == "note" && e == NoteEvent(id)) || (kind == "directory" && e == DirectoryEvent(id))) && id != "" &&
            ctx.acceptsTag(kind, id, t) && Fired(ctx, old(View()), rules, e, AddTag(t)))
    {
      hide IsDispatched, IsExecuted, InScope, Fired;
      ghost var before := View();
      var candidates := Candidates(rules, e);
      NoneDispatched(ctx, before, e);
      for i := 0 to |candidates|
        invariant IsDispatched(ctx, before, candidates[..i], e, View())
      {
        ghost var mid := View();
        assert candidates[i] in candidates;
        EvaluateAndExecute(candidates[i], e);
        OneDispatched(ctx, before, candidates[..i], candidates[i], e, mid, View());
        assert candidates[..i + 1] == candidates[..i] + [candidates[i]];
      }
      assert candidates[..|candidates|] == candidates;
      ScopedDispatched(ctx, before, rules, candidates, e, View());
      DispatchedMeans(ctx, before, rules, e, View());
    }
  }

  /** In terms of the actions that fired. */
  lemma DispatchedMeans(ctx: Context, before: Bindings, rules: seq<Rule>, e: Event, after: Bindings)
    requires IsDispatched(ctx, before, rules, e, after)
    ensures forall n, d :: (n, d) in after.noteTuples <==>
      || (n, d) in before.noteTuples
      || (e == NoteEvent(n) && n != "" && ctx.acceptsChild(d, n) && Fired(ctx, before, rules, e, AddToDirectory(d)))
    ensures forall kind, id, t :: (kind, id, t) in after.tags <==>
      || (kind, id, t) in before.tags
      || (((kind == "note" && e == NoteEvent(id)) || (kind == "directory" && e == DirectoryEvent(id))) && id != "" &&
          ctx.acceptsTag(kind, id, t) && Fired(ctx, before, rules, e, AddTag(t)))
  {
    hide InScope, Holds;
    assert forall r :: Fires(ctx, before, r, e) ==> r.action == Some(r.action.value);
  }

  lemma NoneDispatched(ctx: Context, before: Bindings, e: Event)
    ensures IsDispatched(ctx, before, [], e, before)
  {
  }

  lemma OneDispatched(ctx: Context, before: Bindings, done: seq<Rule>, rule: Rule, e: Event, mid: Bindings,
                      after: Bindings)
    requires IsDispatched(ctx, before, done, e, mid) && InScope(ctx, before, rule, e)
    requires IsExecuted(ctx, mid, rule, e, after)
    ensures IsDispatched(ctx, before, done + [rule], e, after)
  {
    hide InScope, Holds, AddsChild, AddsTag;
    assert forall r :: r in done + [rule] <==> r in done || r == rule;
    assert Fires(ctx, before, rule, e) <==>
           rule.condition.Some? && Holds(ctx, rule.condition.value, e) && rule.action.Some?;
  }

  /** Rules out of scope have no effect. */
  lemma ScopedDispatched(ctx: Context, before: Bindings, rules: seq<Rule>, candidates: seq<Rule>, e: Event,
                         after: Bindings)
    requires IsDispatched(ctx, before, candidates, e, after)
    requires forall r :: r in candidates <==> r in rules && InScope(ctx, before, r, e)
    ensures IsDispatched(ctx, before, rules, e, after)
  {
    hide InScope, Holds, AddsChild, AddsTag;
  }
}
