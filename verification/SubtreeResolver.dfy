/** `resolve_children` of src/db/repos/permissions/spicedb_repo.py: a breadth-first walk with a depth cap, followed by
    the exclusivity filters. */
module SubtreeResolver {
  import opened Hierarchy
  import opened Sequences

  datatype Resolved = Resolved(directories: set<Id>, notes: set<Id>, attachments: set<Id>)

  /** The children that have a parent, and every parent of which is among `holders`. */
  function Exclusive(tuples: Tuples, holders: set<Id>): set<Id> {
    set t | t in tuples && ParentsOf(tuples, t.0) <= holders :: t.0
  }

  function Resolution(dirTuples: Tuples, noteTuples: Tuples, attTuples: Tuples, root: Id, depth: nat): Resolved {
    var directories := Within(dirTuples, root, depth);
    var notes := Exclusive(noteTuples, directories);
    Resolved(directories, notes, Exclusive(attTuples, notes))
  }

  // ---- the walk ------------------------------------------------------------------

  type Queue = seq<(Id, nat)>

  function AtDepth(ids: seq<Id>, depth: nat): (r: Queue)
    ensures |r| == |ids| && forall i :: 0 <= i < |r| ==> r[i] == (ids[i], depth)
  {
    seq(|ids|, i requires 0 <= i < |ids| => (ids[i], depth))
  }

  /** State of the walk while it works on level `level`: `now` is what is still queued of that level, `next` what is
      queued of the level below.  Everything up to the level is found; a directory of the level that left the queue has
      all its children found. */
  ghost predicate Layered(tuples: Tuples, root: Id, maxDepth: nat, level: nat, found: set<Id>,
                          now: seq<Id>, next: seq<Id>) {
    && level <= maxDepth
    && (next != [] ==> level < maxDepth)
    && found == Within(tuples, root, level) + Elements(next)
    && Elements(now) <= Within(tuples, root, level)
    && Elements(next) <= Within(tuples, root, level + 1)
    && (level < maxDepth ==> ChildrenOf(tuples, Within(tuples, root, level) - Elements(now)) <= found)
  }

  ghost predicate Queued(queue: Queue, level: nat, now: seq<Id>, next: seq<Id>) {
    queue == AtDepth(now, level) + AtDepth(next, level + 1)
  }

  lemma NextLevel(tuples: Tuples, root: Id, maxDepth: nat, level: nat, found: set<Id>, next: seq<Id>)
    requires Layered(tuples, root, maxDepth, level, found, [], next) && level < maxDepth
    ensures found == Within(tuples, root, level + 1)
    ensures Layered(tuples, root, maxDepth, level + 1, found, next, [])
  {
    assert Within(tuples, root, level) - Elements([]) == Within(tuples, root, level);
    if level + 1 < maxDepth {
      assert Within(tuples, root, level + 1) - Elements(next) <= Within(tuples, root, level);
    }
  }

  /** One turn: the head leaves the queue and its unseen children join it. */
  lemma Advance(tuples: Tuples, root: Id, maxDepth: nat, level: nat, found: set<Id>, now: seq<Id>, next: seq<Id>,
                unseen: set<Id>, added: seq<Id>)
    requires Layered(tuples, root, maxDepth, level, found, now, next) && now != []
    requires unseen == (if level < maxDepth then ChildrenOf(tuples, {now[0]}) - found else {})
    requires Elements(added) == unseen
    ensures Layered(tuples, root, maxDepth, level, found + unseen, now[1..], next + added)
  {
    var within := Within(tuples, root, level);
    assert now[0] in Elements(now);
    assert Elements(next + added) == Elements(next) + Elements(added);
    assert Elements(now) == {now[0]} + Elements(now[1..]);
    assert added != [] ==> added[0] in Elements(added);
    if level < maxDepth {
      assert ChildrenOf(tuples, {now[0]}) <= ChildrenOf(tuples, within);
      assert within - Elements(now[1..]) <= (within - Elements(now)) + {now[0]};
      assert ChildrenOf(tuples, within - Elements(now[1..]))
          <= ChildrenOf(tuples, within - Elements(now)) + ChildrenOf(tuples, {now[0]});
    }
  }

  lemma QueueTurn(queue: Queue, level: nat, now: seq<Id>, next: seq<Id>, added: seq<Id>)
    requires Queued(queue, level, now, next) && now != []
    ensures queue[0] == (now[0], level)
    ensures Queued(queue[1..] + AtDepth(added, level + 1), level, now[1..], next + added)
  {
  }

  lemma QueueNextLevel(queue: Queue, level: nat, next: seq<Id>)
    requires Queued(queue, level, [], next)
    ensures Queued(queue, level + 1, next, [])
  {
  }

  lemma Turn(tuples: Tuples, root: Id, maxDepth: nat, level: nat, found: set<Id>, now: seq<Id>, next: seq<Id>,
             queue: Queue, unseen: set<Id>, added: seq<Id>)
    returns (level': nat, now': seq<Id>, next': seq<Id>)
    requires Queued(queue, level, now, next) && Layered(tuples, root, maxDepth, level, found, now, next) && queue != []
    requires
      unseen == if queue[0].1 < maxDepth then ChildrenOf(tuples, {queue[0].0}) - found else {}
    requires Elements(added) == unseen
    ensures Queued(queue[1..] + AtDepth(added, queue[0].1 + 1), level', now', next')
    ensures Layered(tuples, root, maxDepth, level', found + unseen, now', next')
  {
    level', now', next' := level, now, next;
    if now == [] {
      NextLevel(tuples, root, maxDepth, level, found, next);
      QueueNextLevel(queue, level, next);
      level', now', next' := level + 1, next, [];
    }
    QueueTurn(queue, level', now', next', added);
    Advance(tuples, root, maxDepth, level', found, now', next', unseen, added);
    now', next' := now'[1..], next' + added;
  }

  lemma Exhausted(tuples: Tuples, root: Id, maxDepth: nat, level: nat, found: set<Id>)
    requires Layered(tuples, root, maxDepth, level, found, [], [])
    ensures found == Within(tuples, root, maxDepth)
  {
    if level < maxDepth {
      NextLevel(tuples, root, maxDepth, level, found, []);
      assert Elements<Id>([]) == {};
      ClosedWithin(tuples, root, level, maxDepth);
    }
  }

  /** How many directories with a parent are still to be found: what every turn with unseen children lowers. */
  ghost function Missing(tuples: Tuples, found: set<Id>): nat {
    |ChildrenOf(tuples, set t | t in tuples :: t.1) - found|
  }

  lemma MissingShrinks(tuples: Tuples, current: Id, found: set<Id>, unseen: set<Id>)
    requires unseen <= ChildrenOf(tuples, {current}) - found && unseen != {}
    ensures Missing(tuples, found + unseen) < Missing(tuples, found)
  {
    var all := ChildrenOf(tuples, set t | t in tuples :: t.1);
    AllChildren(tuples, current);
    hide ChildrenOf;
    var a, b := all - (found + unseen), all - found;
    assert b == a + unseen && a * unseen == {};
  }

  lemma AllChildren(tuples: Tuples, current: Id)
    ensures ChildrenOf(tuples, {current}) <= ChildrenOf(tuples, set t | t in tuples :: t.1)
  {
  }

  /** A turn lowers what is missing, or leaves the found directories alone and shortens the queue. */
  lemma TurnShrinks(tuples: Tuples, queue: Queue, found: set<Id>, unseen: set<Id>, added: seq<Id>, depth: nat)
    requires queue != [] && unseen <= ChildrenOf(tuples, {queue[0].0}) - found && |added| == |unseen|
    ensures
      || Missing(tuples, found + unseen) < Missing(tuples, found)
      || (found + unseen == found && |queue[1..] + AtDepth(added, depth)| < |queue|)
  {
    hide ChildrenOf, Missing;
    if unseen != {} {
      MissingShrinks(tuples, queue[0].0, found, unseen);
    } else {
      assert found + unseen == found;
    }
  }

  lemma WalkStarts(tuples: Tuples, root: Id, maxDepth: nat)
    ensures Queued([(root, 0)], 0, [root], []) && Layered(tuples, root, maxDepth, 0, {root}, [root], [])
  {
  }

  lemma WalkEnds(level: nat, now: seq<Id>, next: seq<Id>)
    requires Queued([], level, now, next)
    ensures now == [] && next == []
  {
    assert |AtDepth(now, level)| + |AtDepth(next, level + 1)| == 0;
  }

  /** The walk finds exactly the directories at most `maxDepth` steps below the root: the queue is first-in first-out,
      so every directory is queued with its shortest distance. */
  method Walk(tuples: Tuples, root: Id, maxDepth: nat) returns (found: set<Id>)
    ensures found == Within(tuples, root, maxDepth)
  {
    hide Queued, Layered, Within, ChildrenOf, Elements, AtDepth, Missing;
    WalkStarts(tuples, root, maxDepth);
    found := {root};
    var queue: Queue := [(root, 0)];
    ghost var level: nat, now: seq<Id>, next: seq<Id> := 0, [root], [];
    while queue != []
      invariant Queued(queue, level, now, next)
      invariant Layered(tuples, root, maxDepth, level, found, now, next)
      decreases Missing(tuples, found), |queue|
    {
      var (current, depth) := queue[0];
      var unseen := {};
      if depth < maxDepth {
        unseen := ChildrenOf(tuples, {current}) - found;
      }
      var added := Enumerate(unseen);
      level, now, next := Turn(tuples, root, maxDepth, level, found, now, next, queue, unseen, added);
      TurnShrinks(tuples, queue, found, unseen, added, depth + 1);
      queue, found := queue[1..] + AtDepth(added, depth + 1), found + unseen;
    }
    WalkEnds(level, now, next);
    Exhausted(tuples, root, maxDepth, level, found);
  }

  /** A stream delivers the elements of a set one by one, in an order the caller cannot choose. */
  method Enumerate(ids: set<Id>) returns (stream: seq<Id>)
    ensures Elements(stream) == ids && |stream| == |ids|
  {
    stream := [];
    var rest := ids;
    while rest != {}
      invariant rest <= ids
      invariant Elements(stream) == ids - rest && |stream| == |ids| - |rest|
      decreases |rest|
    {
      var id :| id in rest;
      assert Elements(stream + [id]) == Elements(stream) + {id};
      stream, rest := stream + [id], rest - {id};
    }
  }

  // ---- the filters ---------------------------------------------------------------

  /** Every child with at least one parent among `holders`. */
  method Collect(tuples: Tuples, holders: set<Id>) returns (children: set<Id>)
    ensures children == ChildrenOf(tuples, holders)
  {
    children := {};
    var todo := holders;
    while todo != {}
      invariant todo <= holders
      invariant children == ChildrenOf(tuples, holders - todo)
      decreases |todo|
    {
      var holder :| holder in todo;
      children := children + ChildrenOf(tuples, {holder});
      todo := todo - {holder};
    }
    assert holders - todo == holders;
  }

  /** Drops the candidates with no parent, and those with a parent outside `holders`. */
  method KeepExclusive(tuples: Tuples, candidates: set<Id>, holders: set<Id>) returns (kept: set<Id>)
    ensures kept == set c | c in candidates && ParentsOf(tuples, c) != {} && ParentsOf(tuples, c) <= holders
  {
    kept := {};
    var todo := candidates;
    while todo != {}
      invariant todo <= candidates
      invariant kept == set c | c in candidates - todo && ParentsOf(tuples, c) != {} && ParentsOf(tuples, c) <= holders
      decreases |todo|
    {
      var c :| c in todo;
      var parents := ParentsOf(tuples, c);
      if parents != {} && parents <= holders {
        kept := kept + {c};
      }
      todo := todo - {c};
    }
    assert candidates - todo == candidates;
  }

  /** Attachments are collected from every note with a parent in the subtree and only then filtered; the result is the
      same as filtering against the exclusive notes. */
  lemma FilterIsExclusive(tuples: Tuples, wide: set<Id>, holders: set<Id>, kept: set<Id>)
    requires holders <= wide
    requires
      kept == set c | c in ChildrenOf(tuples, wide) && ParentsOf(tuples, c) != {} && ParentsOf(tuples, c) <= holders
    ensures kept == Exclusive(tuples, holders)
  {
    forall c | c in kept
      ensures c in Exclusive(tuples, holders)
    {
      var t :| t in tuples && t.1 in wide && t.0 == c;
    }
    forall t | t in tuples && ParentsOf(tuples, t.0) <= holders
      ensures t.0 in kept
    {
      assert t.1 in ParentsOf(tuples, t.0);
    }
  }

  method ResolveChildren(dirTuples: Tuples, noteTuples: Tuples, attTuples: Tuples, root: Id, maxDepth: nat)
    returns (r: Resolved)
    ensures r == Resolution(dirTuples, noteTuples, attTuples, root, maxDepth)
  {
    var directories := Walk(dirTuples, root, maxDepth);
    var nearNotes := Collect(noteTuples, directories);
    var nearAttachments := Collect(attTuples, nearNotes);
    var notes := KeepExclusive(noteTuples, nearNotes, directories);
    FilterIsExclusive(noteTuples, directories, directories, notes);
    var attachments := KeepExclusive(attTuples, nearAttachments, notes);
    FilterIsExclusive(attTuples, nearNotes, notes, attachments);
    r := Resolved(directories, notes, attachments);
  }
}
