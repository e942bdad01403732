/** Values that may be left undefined: their removal when an entity becomes a dictionary (src/utils/convert.py,
    src/utils/dict_helper.py) and the check in front of every query (src/db/database.py). */
module UndefinedPruning {
  import opened Wrappers

  /** What these functions tell apart. Whatever they do not look into is an atom. */
  datatype Value =
    | Undefined
    | Atom(id: int)
    | Object(fields: seq<Entry>)
    | NamedTuple(items: seq<Value>)
    | Tuple(items: seq<Value>)
    | List(items: seq<Value>)
    | Dict(entries: seq<Entry>)

  datatype Entry = Entry(key: string, value: Value)

  predicate IsSequence(v: Value) {
    v.NamedTuple? || v.Tuple? || v.List?
  }

  function WithItems(v: Value, items: seq<Value>): Value
    requires IsSequence(v)
  {
    match v
    case NamedTuple(_) => NamedTuple(items)
    case Tuple(_) => Tuple(items)
    case List(_) => List(items)
  }

  /** The entries with a value. */
  function Defined(entries: seq<Entry>): (r: seq<Entry>)
    ensures forall e :: e in r <==> e in entries && e.value != Undefined
  {
    if entries == [] then []
    else (if entries[0].value == Undefined then [] else [entries[0]]) + Defined(entries[1..])
  }

  function Pruned(v: Value): Value
    decreases v
  {
    match v
    case Undefined | Atom(_) => v
    case Object(fields) => Dict(PrunedEntries(v, fields))
    case Dict(entries) => Dict(PrunedEntries(v, entries))
    case _ => WithItems(v, seq(|v.items|, i requires 0 <= i < |v.items| => Pruned(v.items[i])))
  }

  function PrunedEntries(v: Value, entries: seq<Entry>): seq<Entry>
    requires (v.Object? && entries == v.fields) || (v.Dict? && entries == v.entries)
    decreases v, 0
  {
    var defined := Defined(entries);
    seq(|defined|, i requires 0 <= i < |defined| =>
      assert defined[i] in entries; Entry(defined[i].key, Pruned(defined[i].value)))
  }

  function Dropped(v: Value): Value
    decreases v
  {
    if v.Dict? then
      var defined := Defined(v.entries);
      Dict(seq(|defined|, i requires 0 <= i < |defined| =>
        assert defined[i] in v.entries; Entry(defined[i].key, Dropped(defined[i].value))))
    else v
  }

  // ---- the check of query arguments --------------------------------------------------------

  datatype Step = Index(i: nat) | Key(key: string)

  /** The way to the first undefined value, depth first; the check names it in its error. */
  function FirstUndefined(v: Value): Option<seq<Step>>
    decreases v, 1, 0
  {
    match v
    case Undefined => Some([])
    case Atom(_) | Object(_) => None
    case Dict(_) => FirstInEntries(v, 0)
    case _ => FirstInItems(v, 0)
  }

  function Behind(step: Step, found: Option<seq<Step>>): Option<seq<Step>> {
    if found.Some? then Some([step] + found.value) else None
  }

  function FirstInItems(v: Value, i: nat): Option<seq<Step>>
    requires IsSequence(v) && i <= |v.items|
    decreases v, 0, |v.items| - i
  {
    if i == |v.items| then None
    else if FirstUndefined(v.items[i]).Some? then Behind(Index(i), FirstUndefined(v.items[i]))
    else FirstInItems(v, i + 1)
  }

  function FirstInEntries(v: Value, i: nat): Option<seq<Step>>
    requires v.Dict? && i <= |v.entries|
    decreases v, 0, |v.entries| - i
  {
    if i == |v.entries| then None
    else if FirstUndefined(v.entries[i].value).Some? then
      Behind(Key(v.entries[i].key), FirstUndefined(v.entries[i].value))
    else FirstInEntries(v, i + 1)
  }

  /** `path` leads through lists, tuples and dictionaries from `v` to an undefined value. */
  ghost predicate LeadsToUndefined(v: Value, path: seq<Step>)
    decreases |path|
  {
    if path == [] then v == Undefined
    else
      match path[0]
      case Index(i) => IsSequence(v) && i < |v.items| && LeadsToUndefined(v.items[i], path[1..])
      case Key(k) => v.Dict? && exists e :: e in v.entries && e.key == k && LeadsToUndefined(e.value, path[1..])
  }

  lemma {:induction false} FirstIsUndefined(v: Value)
    requires FirstUndefined(v).Some?
    ensures LeadsToUndefined(v, FirstUndefined(v).value)
    decreases v, 1, 0
  {
    if IsSequence(v) {
      FirstItemIsUndefined(v, 0);
    } else if v.Dict? {
      FirstEntryIsUndefined(v, 0);
    }
  }

  lemma {:induction false} FirstItemIsUndefined(v: Value, i: nat)
    requires IsSequence(v) && i <= |v.items| && FirstInItems(v, i).Some?
    ensures LeadsToUndefined(v, FirstInItems(v, i).value)
    decreases v, 0, |v.items| - i
  {
    if FirstUndefined(v.items[i]).Some? {
      FirstIsUndefined(v.items[i]);
      assert FirstInItems(v, i).value[1..] == FirstUndefined(v.items[i]).value;
    } else {
      FirstItemIsUndefined(v, i + 1);
    }
  }

  lemma {:induction false} FirstEntryIsUndefined(v: Value, i: nat)
    requires v.Dict? && i <= |v.entries| && FirstInEntries(v, i).Some?
    ensures LeadsToUndefined(v, FirstInEntries(v, i).value)
    decreases v, 0, |v.entries| - i
  {
    if FirstUndefined(v.entries[i].value).Some? {
      FirstIsUndefined(v.entries[i].value);
      assert FirstInEntries(v, i).value[1..] == FirstUndefined(v.entries[i].value).value;
      assert v.entries[i] in v.entries;
    } else {
      FirstEntryIsUndefined(v, i + 1);
    }
  }

  lemma {:induction false} NoneInItems(v: Value, i: nat)
    requires IsSequence(v) && i <= |v.items|
    ensures FirstInItems(v, i).None? <==> forall k :: i <= k < |v.items| ==> FirstUndefined(v.items[k]).None?
    decreases |v.items| - i
  {
    if i < |v.items| {
      NoneInItems(v, i + 1);
    }
  }

  lemma {:induction false} NoneInEntries(v: Value, i: nat)
    requires v.Dict? && i <= |v.entries|
    ensures FirstInEntries(v, i).None? <==>
            forall k :: i <= k < |v.entries| ==> FirstUndefined(v.entries[k].value).None?
    decreases |v.entries| - i
  {
    if i < |v.entries| {
      NoneInEntries(v, i + 1);
    }
  }

  lemma {:induction false} NothingUndefined(v: Value, path: seq<Step>)
    requires FirstUndefined(v).None?
    ensures !LeadsToUndefined(v, path)
    decreases |path|
  {
    if path != [] && LeadsToUndefined(v, path) {
      match path[0]
      case Index(i) =>
        NoneInItems(v, 0);
        NothingUndefined(v.items[i], path[1..]);
      case Key(k) =>
        NoneInEntries(v, 0);
        var e :| e in v.entries && e.key == k && LeadsToUndefined(e.value, path[1..]);
        NothingUndefined(e.value, path[1..]);
    }
  }

  /** The check finds an undefined value exactly if some path leads to one, and the path it names does. */
  lemma CheckIsExact(v: Value)
    ensures FirstUndefined(v).Some? <==> exists path :: LeadsToUndefined(v, path)
    ensures FirstUndefined(v).Some? ==> LeadsToUndefined(v, FirstUndefined(v).value)
  {
    if FirstUndefined(v).Some? {
      FirstIsUndefined(v);
      var path := FirstUndefined(v).value;
      assert LeadsToUndefined(v, path);
    } else {
      forall path
        ensures !LeadsToUndefined(v, path)
      {
        NothingUndefined(v, path);
      }
    }
  }

  // ---- when a pruned value passes the check --------------------------------------------------

  /** `w` is `v` or lies somewhere inside it. */
  ghost predicate Occurs(v: Value, w: Value)
    decreases v
  {
    v == w ||
    match v
    case Undefined | Atom(_) => false
    case Object(fields) => exists i :: 0 <= i < |fields| && Occurs(fields[i].value, w)
    case Dict(entries) => exists i :: 0 <= i < |entries| && Occurs(entries[i].value, w)
    case _ => exists i :: 0 <= i < |v.items| && Occurs(v.items[i], w)
  }

  /** No list or tuple anywhere inside holds an undefined value. */
  ghost predicate SequencesDefined(v: Value) {
    forall w :: Occurs(v, w) && IsSequence(w) ==> Undefined !in w.items
  }

  ghost predicate AllSequencesDefined(entries: seq<Entry>) {
    forall i :: 0 <= i < |entries| ==> SequencesDefined(entries[i].value)
  }

  lemma SequencesDefinedByParts(v: Value)
    ensures SequencesDefined(v) <==>
            match v
            case Undefined | Atom(_) => true
            case Object(fields) => AllSequencesDefined(fields)
            case Dict(entries) => AllSequencesDefined(entries)
            case _ => Undefined !in v.items && forall i :: 0 <= i < |v.items| ==> SequencesDefined(v.items[i])
  {
    match v
    case Undefined | Atom(_) =>
    case Object(fields) =>
      assert forall i, w :: 0 <= i < |fields| && Occurs(fields[i].value, w) ==> Occurs(v, w);
    case Dict(entries) =>
      assert forall i, w :: 0 <= i < |entries| && Occurs(entries[i].value, w) ==> Occurs(v, w);
    case _ =>
      assert Occurs(v, v);
      assert forall i, w :: 0 <= i < |v.items| && Occurs(v.items[i], w) ==> Occurs(v, w);
  }

  lemma PrunedEntriesAre(v: Value, entries: seq<Entry>)
    requires (v.Object? && entries == v.fields) || (v.Dict? && entries == v.entries)
    ensures Pruned(v) == Dict(PrunedEntries(v, entries)) && |Pruned(v).entries| == |Defined(entries)|
    ensures forall i :: 0 <= i < |Defined(entries)| ==>
              Defined(entries)[i] in entries && Defined(entries)[i] in Defined(entries) &&
              Pruned(v).entries[i] == Entry(Defined(entries)[i].key, Pruned(Defined(entries)[i].value))
  {
    var defined := Defined(entries);
    assert forall i :: 0 <= i < |defined| ==> defined[i] in defined;
  }

  lemma {:induction false} PrunedEntriesPass(v: Value, entries: seq<Entry>)
    requires (v.Object? && entries == v.fields) || (v.Dict? && entries == v.entries)
    ensures FirstUndefined(Pruned(v)).None? <==> AllSequencesDefined(entries)
    decreases v, 0
  {
    hide SequencesDefined, Pruned, Defined;
    var defined, pruned := Defined(entries), Pruned(v);
    PrunedEntriesAre(v, entries);
    NoneInEntries(pruned, 0);
    forall i | 0 <= i < |defined|
      ensures FirstUndefined(pruned.entries[i].value).None? <==> SequencesDefined(defined[i].value)
    {
      PrunedPasses(defined[i].value);
    }
    DefinedDecide(entries);
  }

  /** Undefined entries hold no list or tuple, so only the others count. */
  lemma DefinedDecide(entries: seq<Entry>)
    ensures AllSequencesDefined(entries) <==> AllSequencesDefined(Defined(entries))
  {
    hide SequencesDefined, Defined;
    var defined := Defined(entries);
    UndefinedHoldsNothing();
    assert forall i :: 0 <= i < |defined| ==> defined[i] in defined;
    assert forall i :: 0 <= i < |entries| ==> entries[i] in entries;
  }

  lemma UndefinedHoldsNothing()
    ensures SequencesDefined(Undefined)
  {
  }

  /** A pruned value passes the check exactly if no list or tuple anywhere inside held an undefined value. */
  lemma {:induction false} PrunedPasses(v: Value)
    ensures FirstUndefined(Pruned(v)).None? <==> v != Undefined && SequencesDefined(v)
    decreases v
  {
    hide SequencesDefined, AllSequencesDefined;
    SequencesDefinedByParts(v);
    match v
    case Undefined | Atom(_) =>
    case Object(fields) => PrunedEntriesPass(v, fields);
    case Dict(entries) => PrunedEntriesPass(v, entries);
    case _ =>
      NoneInItems(Pruned(v), 0);
      forall i | 0 <= i < |v.items|
        ensures FirstUndefined(Pruned(v).items[i]).None? <==> v.items[i] != Undefined && SequencesDefined(v.items[i])
      {
        PrunedPasses(v.items[i]);
      }
  }

  // ---- nothing is left to drop ----------------------------------------------------------------

  lemma {:induction false} DefinedOfDefined(entries: seq<Entry>)
    requires forall i :: 0 <= i < |entries| ==> entries[i].value != Undefined
    ensures Defined(entries) == entries
  {
    if entries != [] {
      DefinedOfDefined(entries[1..]);
    }
  }

  lemma PrunedStaysDefined(v: Value)
    ensures Pruned(v) == Undefined <==> v == Undefined
  {
  }

  lemma NothingToDrop(entries: seq<Entry>)
    requires forall i :: 0 <= i < |entries| ==>
               entries[i].value != Undefined && Dropped(entries[i].value) == entries[i].value
    ensures Dropped(Dict(entries)) == Dict(entries)
  {
    DefinedOfDefined(entries);
    var v := Dict(entries);
    assert Dropped(v).entries == entries;
  }

  lemma {:induction false} DroppedPrunedEntries(v: Value, entries: seq<Entry>)
    requires (v.Object? && entries == v.fields) || (v.Dict? && entries == v.entries)
    ensures Dropped(Pruned(v)) == Pruned(v)
    decreases v, 0
  {
    hide Pruned;
    PrunedEntriesAre(v, entries);
    var defined, pruned := Defined(entries), Pruned(v).entries;
    forall i | 0 <= i < |pruned|
      ensures pruned[i].value != Undefined && Dropped(pruned[i].value) == pruned[i].value
    {
      PrunedStaysDefined(defined[i].value);
      DropAfterAsDict(defined[i].value);
    }
    NothingToDrop(pruned);
  }

  /** Dropping undefined values from a pruned value changes nothing. */
  lemma {:induction false} DropAfterAsDict(v: Value)
    ensures Dropped(Pruned(v)) == Pruned(v)
    decreases v
  {
    if v.Object? {
      DroppedPrunedEntries(v, v.fields);
    } else if v.Dict? {
      DroppedPrunedEntries(v, v.entries);
    }
  }

  /** Every dictionary that is reached through dictionaries only holds defined values. */
  ghost predicate DictsDefined(v: Value)
    decreases v
  {
    v.Dict? ==> forall i :: 0 <= i < |v.entries| ==> v.entries[i].value != Undefined && DictsDefined(v.entries[i].value)
  }

  lemma {:induction false} DroppedIsDefined(v: Value)
    ensures DictsDefined(Dropped(v)) && (Dropped(v) == Undefined <==> v == Undefined)
    decreases v
  {
    if v.Dict? {
      var defined := Defined(v.entries);
      forall i | 0 <= i < |defined|
        ensures Dropped(defined[i].value) != Undefined && DictsDefined(Dropped(defined[i].value))
      {
        assert defined[i] in v.entries && defined[i] in defined;
        DroppedIsDefined(defined[i].value);
      }
    }
  }

  /** Dropping changes nothing exactly if no dictionary it reaches held an undefined value; dictionaries inside lists
      and tuples are not reached. */
  lemma {:induction false} DropFixpointIff(v: Value)
    ensures Dropped(v) == v <==> DictsDefined(v)
    decreases v
  {
    DroppedIsDefined(v);
    if v.Dict? && DictsDefined(v) {
      forall i | 0 <= i < |v.entries|
        ensures Dropped(v.entries[i].value) == v.entries[i].value
      {
        DropFixpointIff(v.entries[i].value);
      }
      NothingToDrop(v.entries);
    }
  }

  // ---- what is kept, and where ------------------------------------------------------------------

  ghost predicate HasEntries(v: Value) {
    v.Object? || v.Dict?
  }

  ghost function EntriesOf(v: Value): seq<Entry>
    requires HasEntries(v)
  {
    if v.Object? then v.fields else v.entries
  }

  /** `path` leads from `v` to `w`, through lists and tuples by position and through objects and dictionaries by key. */
  ghost predicate At(v: Value, path: seq<Step>, w: Value)
    decreases |path|, 0
  {
    if path == [] then v == w
    else
      match path[0]
      case Index(i) => IsSequence(v) && i < |v.items| && At(v.items[i], path[1..], w)
      case Key(k) => HasEntries(v) && EntryAt(EntriesOf(v), k, path[1..], w)
  }

  ghost predicate EntryAt(entries: seq<Entry>, key: string, path: seq<Step>, w: Value)
    decreases |path|, 1
  {
    exists e :: e in entries && e.key == key && At(e.value, path, w)
  }

  function Keys(entries: seq<Entry>): seq<string> {
    seq(|entries|, i requires 0 <= i < |entries| => entries[i].key)
  }

  /** `w` looks like `u`, but is a dictionary of the defined entries if `u` has entries. */
  ghost predicate Mirrors(u: Value, w: Value) {
    match u
    case Undefined | Atom(_) => w == u
    case NamedTuple(items) => w.NamedTuple? && |w.items| == |items|
    case Tuple(items) => w.Tuple? && |w.items| == |items|
    case List(items) => w.List? && |w.items| == |items|
    case Object(fields) => w.Dict? && Keys(w.entries) == Keys(Defined(fields))
    case Dict(entries) => w.Dict? && Keys(w.entries) == Keys(Defined(entries))
  }

  /** An undefined value behind a key. */
  predicate Skipped(path: seq<Step>, u: Value) {
    path != [] && path[|path| - 1].Key? && u == Undefined
  }

  /** Keeping the defined entries keeps their order. */
  lemma {:induction false} DefinedConcat(a: seq<Entry>, b: seq<Entry>)
    ensures Defined(a + b) == Defined(a) + Defined(b)
  {
    if a == [] {
      assert a + b == b;
    } else {
      assert (a + b)[1..] == a[1..] + b;
      DefinedConcat(a[1..], b);
    }
  }

  lemma PrunedMirrors(v: Value)
    ensures Mirrors(v, Pruned(v))
  {
    if HasEntries(v) {
      PrunedEntriesAre(v, EntriesOf(v));
    }
  }

  lemma PrunedItemsAre(v: Value)
    ensures IsSequence(Pruned(v)) <==> IsSequence(v)
    ensures IsSequence(v) ==> |Pruned(v).items| == |v.items|
    ensures IsSequence(v) ==> forall i :: 0 <= i < |v.items| ==> Pruned(v).items[i] == Pruned(v.items[i])
  {
  }

  lemma EntryIsPruned(v: Value, e: Entry)
    requires HasEntries(v) && e in EntriesOf(v) && e.value != Undefined
    ensures Pruned(v).Dict? && Entry(e.key, Pruned(e.value)) in Pruned(v).entries
  {
    hide Pruned, Defined;
    PrunedEntriesAre(v, EntriesOf(v));
    var defined := Defined(EntriesOf(v));
    var i :| 0 <= i < |defined| && defined[i] == e;
    assert Pruned(v).entries[i] in Pruned(v).entries;
  }

  lemma EntryWasDefined(v: Value, e: Entry) returns (d: Entry)
    requires HasEntries(v) && Pruned(v).Dict? && e in Pruned(v).entries
    ensures d in EntriesOf(v) && d.key == e.key && d.value != Undefined && Pruned(d.value) == e.value
  {
    hide Pruned, Defined;
    PrunedEntriesAre(v, EntriesOf(v));
    var i :| 0 <= i < |Pruned(v).entries| && Pruned(v).entries[i] == e;
    d := Defined(EntriesOf(v))[i];
  }

  /** Whatever stands at the end of a path is pruned in place, except that undefined entries are gone. */
  lemma {:induction false} PrunedInPlace(v: Value, path: seq<Step>, u: Value)
    requires At(v, path, u) && !Skipped(path, u)
    ensures At(Pruned(v), path, Pruned(u))
    decreases |path|
  {
    hide Pruned, HasEntries;
    if path != [] {
      match path[0]
      case Index(i) =>
        PrunedItemsAre(v);
        PrunedInPlace(v.items[i], path[1..], u);
      case Key(k) =>
        var e :| e in EntriesOf(v) && e.key == k && At(e.value, path[1..], u);
        NothingBelowUndefined(e.value, path[1..], u);
        PrunedInPlace(e.value, path[1..], u);
        EntryStays(v, e, path[1..], Pruned(u));
    }
  }

  lemma EntryStays(v: Value, e: Entry, path: seq<Step>, w: Value)
    requires HasEntries(v) && e in EntriesOf(v) && e.value != Undefined && At(Pruned(e.value), path, w)
    ensures HasEntries(Pruned(v)) && EntryAt(EntriesOf(Pruned(v)), e.key, path, w)
  {
    hide Pruned, Defined, At;
    EntryIsPruned(v, e);
  }

  lemma NothingBelowUndefined(v: Value, path: seq<Step>, u: Value)
    requires At(v, path, u)
    ensures v == Undefined ==> path == [] && u == Undefined
  {
  }

  lemma {:induction false} PrunedComesFrom(v: Value, path: seq<Step>, w: Value) returns (u: Value)
    requires At(Pruned(v), path, w)
    ensures At(v, path, u) && !Skipped(path, u) && w == Pruned(u)
    decreases |path|
  {
    hide Pruned, HasEntries, EntryAt;
    u := v;
    if path != [] {
      match path[0]
      case Index(i) =>
        PrunedItemsAre(v);
        u := PrunedComesFrom(v.items[i], path[1..], w);
      case Key(k) =>
        PrunedIsDict(v);
        var d := EntryWasThere(v, k, path[1..], w);
        u := PrunedComesFrom(d.value, path[1..], w);
        EntryIsAt(EntriesOf(v), d, path[1..], u);
    }
  }

  lemma EntryIsAt(entries: seq<Entry>, e: Entry, path: seq<Step>, w: Value)
    requires e in entries && At(e.value, path, w)
    ensures EntryAt(entries, e.key, path, w)
  {
    hide At;
  }

  lemma EntryWasThere(v: Value, key: string, path: seq<Step>, w: Value) returns (d: Entry)
    requires HasEntries(v) && HasEntries(Pruned(v)) && EntryAt(EntriesOf(Pruned(v)), key, path, w)
    ensures d in EntriesOf(v) && d.key == key && d.value != Undefined && At(Pruned(d.value), path, w)
  {
    hide Pruned, Defined, At;
    PrunedIsDict(v);
    var e :| e in EntriesOf(Pruned(v)) && e.key == key && At(e.value, path, w);
    d := EntryWasDefined(v, e);
  }

  lemma PrunedIsDict(v: Value)
    ensures HasEntries(Pruned(v)) <==> HasEntries(v)
    ensures HasEntries(v) ==> Pruned(v).Dict?
  {
  }

  /** Every value that is not a container stays what and where it is, and no other appears. */
  lemma AtomsStay(v: Value, path: seq<Step>, id: int)
    ensures At(Pruned(v), path, Atom(id)) <==> At(v, path, Atom(id))
  {
    if At(v, path, Atom(id)) {
      PrunedInPlace(v, path, Atom(id));
    }
    if At(Pruned(v), path, Atom(id)) {
      var u := PrunedComesFrom(v, path, Atom(id));
    }
  }

  /** Lists and tuples keep their kind and length; objects and dictionaries become dictionaries with the keys of their
      defined entries, in order. */
  lemma ShapesStay(v: Value, path: seq<Step>)
    ensures forall u :: At(v, path, u) && !Skipped(path, u) ==> exists w :: At(Pruned(v), path, w) && Mirrors(u, w)
    ensures forall w :: At(Pruned(v), path, w) ==> exists u :: At(v, path, u) && !Skipped(path, u) && Mirrors(u, w)
  {
    hide Pruned, Mirrors;
    forall u | At(v, path, u) && !Skipped(path, u)
      ensures exists w :: At(Pruned(v), path, w) && Mirrors(u, w)
    {
      PrunedInPlace(v, path, u);
      PrunedMirrors(u);
    }
    forall w | At(Pruned(v), path, w)
      ensures exists u :: At(v, path, u) && !Skipped(path, u) && Mirrors(u, w)
    {
      var u := PrunedComesFrom(v, path, w);
      PrunedMirrors(u);
    }
  }

  lemma DroppedEntriesAre(v: Value)
    requires v.Dict?
    ensures Dropped(v).Dict? && Keys(Dropped(v).entries) == Keys(Defined(v.entries))
    ensures forall i :: 0 <= i < |Defined(v.entries)| ==>
              Defined(v.entries)[i] in v.entries &&
              Dropped(v).entries[i].value == Dropped(Defined(v.entries)[i].value)
  {
    var defined := Defined(v.entries);
    assert forall i :: 0 <= i < |defined| ==> defined[i] in defined;
  }

  lemma DroppedKeysAre(v: Value)
    requires v.Dict?
    ensures Dropped(v).Dict? && |Dropped(v).entries| == |Defined(v.entries)|
    ensures forall i :: 0 <= i < |Defined(v.entries)| ==> Dropped(v).entries[i].key == Defined(v.entries)[i].key
  {
    hide Dropped, Defined;
    DroppedEntriesAre(v);
    var dropped, defined := Dropped(v).entries, Defined(v.entries);
    assert |dropped| == |Keys(dropped)| == |defined|;
    forall i | 0 <= i < |dropped|
      ensures dropped[i].key == defined[i].key
    {
      assert Keys(dropped)[i] == Keys(defined)[i];
    }
  }

  lemma EntryIsDropped(v: Value, e: Entry)
    requires v.Dict? && e in v.entries && e.value != Undefined
    ensures Dropped(v).Dict? && Entry(e.key, Dropped(e.value)) in Dropped(v).entries
  {
    hide Dropped, Defined;
    DroppedEntriesAre(v);
    DroppedKeysAre(v);
    var i :| 0 <= i < |Defined(v.entries)| && Defined(v.entries)[i] == e;
    assert Dropped(v).entries[i] in Dropped(v).entries;
  }

  lemma EntryWasKept(v: Value, e: Entry) returns (d: Entry)
    requires v.Dict? && Dropped(v).Dict? && e in Dropped(v).entries
    ensures d in v.entries && d.key == e.key && Dropped(d.value) == e.value
  {
    hide Dropped, Defined;
    DroppedEntriesAre(v);
    DroppedKeysAre(v);
    var i :| 0 <= i < |Dropped(v).entries| && Dropped(v).entries[i] == e;
    d := Defined(v.entries)[i];
  }

  /** A dictionary is left alone or keeps the keys of its defined entries, in order; anything else is left alone. */
  ghost predicate KeepsDefined(u: Value, w: Value) {
    w == u || (u.Dict? && w.Dict? && Keys(w.entries) == Keys(Defined(u.entries)))
  }

  lemma {:induction false} DroppedInPlace(v: Value, path: seq<Step>, u: Value) returns (w: Value)
    requires At(v, path, u) && u != Undefined
    ensures At(Dropped(v), path, w) && KeepsDefined(u, w)
    decreases |path|
  {
    w := u;
    if v.Dict? {
      hide Dropped, Defined;
      DroppedEntriesAre(v);
      if path == [] {
        w := Dropped(v);
      } else {
        var k := path[0].key;
        var e :| e in v.entries && e.key == k && At(e.value, path[1..], u);
        w := DroppedInPlace(e.value, path[1..], u);
        EntryIsDropped(v, e);
        EntryIsAt(Dropped(v).entries, Entry(k, Dropped(e.value)), path[1..], w);
      }
    }
  }

  lemma {:induction false} DroppedComesFrom(v: Value, path: seq<Step>, w: Value) returns (u: Value)
    requires At(Dropped(v), path, w)
    ensures At(v, path, u) && KeepsDefined(u, w)
    decreases |path|
  {
    u := w;
    if v.Dict? {
      hide Dropped, Defined;
      DroppedEntriesAre(v);
      if path == [] {
        u := v;
      } else {
        var k := path[0].key;
        var e :| e in Dropped(v).entries && e.key == k && At(e.value, path[1..], w);
        var d := EntryWasKept(v, e);
        u := DroppedComesFrom(d.value, path[1..], w);
        EntryIsAt(v.entries, d, path[1..], u);
      }
    }
  }

  /** Dropping leaves everything but dictionaries as it is and where it is, and dictionaries where they are with the
      keys of their defined entries in order. */
  lemma DroppedKeeps(v: Value, path: seq<Step>)
    ensures forall u :: At(v, path, u) && u != Undefined ==>
      exists w :: At(Dropped(v), path, w) && KeepsDefined(u, w)
    ensures forall w :: At(Dropped(v), path, w) ==> exists u :: At(v, path, u) && KeepsDefined(u, w)
  {
    hide Dropped, KeepsDefined;
    forall u | At(v, path, u) && u != Undefined
      ensures exists w :: At(Dropped(v), path, w) && KeepsDefined(u, w)
    {
      var w := DroppedInPlace(v, path, u);
    }
    forall w | At(Dropped(v), path, w)
      ensures exists u :: At(v, path, u) && KeepsDefined(u, w)
    {
      var u := DroppedComesFrom(v, path, w);
    }
  }

  // ---- the code -----------------------------------------------------------------------------------

  /** Raises for anything that is not an object. */
  method AsDict(obj: Value) returns (r: Option<Value>)
    ensures r == if obj.Object? then Some(Pruned(obj)) else None
  {
    if !obj.Object? {
      return None;
    }
    var inner := AsDictInner(obj);
    r := Some(inner);
  }

  lemma {:induction false} DefinedMore(entries: seq<Entry>, n: nat)
    requires n < |entries|
    ensures Defined(entries[..n + 1]) ==
            Defined(entries[..n]) + if entries[n].value == Undefined then [] else [entries[n]]
    decreases n
  {
    hide Defined;
    if n > 0 {
      DefinedMore(entries[1..], n - 1);
      DefinedFirst(entries, n);
      DefinedFirst(entries, n + 1);
    } else {
      assert entries[..0] == [] && entries[..1] == [entries[0]];
      DefinedOne(entries[0]);
    }
  }

  lemma DefinedFirst(entries: seq<Entry>, n: nat)
    requires 0 < n <= |entries|
    ensures Defined(entries[..n]) ==
            (if entries[0].value == Undefined then [] else [entries[0]]) + Defined(entries[1..][..n - 1])
  {
    assert entries[..n][1..] == entries[1..][..n - 1];
  }

  lemma DefinedNone()
    ensures Defined([]) == []
  {
  }

  lemma DefinedOne(e: Entry)
    ensures Defined([]) == [] && Defined([e]) == if e.value == Undefined then [] else [e]
  {
    assert [e][1..] == [];
  }

  method AsDictInner(obj: Value) returns (r: Value)
    ensures r == Pruned(obj)
    decreases obj, 1
  {
    match obj
    case Undefined | Atom(_) => r := obj;
    case Object(fields) =>
      var result := AsDictEntries(obj, fields);
      r := Dict(result);
    case Dict(entries) =>
      var result := AsDictEntries(obj, entries);
      r := Dict(result);
    case _ =>
      var items: seq<Value> := [];
      for i := 0 to |obj.items|
        invariant |items| == i && forall k :: 0 <= k < i ==> items[k] == Pruned(obj.items[k])
      {
        var inner := AsDictInner(obj.items[i]);
        items := items + [inner];
      }
      r := WithItems(obj, items);
      assert r.items == Pruned(obj).items;
  }

  method AsDictEntries(obj: Value, entries: seq<Entry>) returns (result: seq<Entry>)
    requires (obj.Object? && entries == obj.fields) || (obj.Dict? && entries == obj.entries)
    ensures Pruned(obj) == Dict(result)
    decreases obj, 0
  {
    hide Pruned, Defined;
    PrunedEntriesAre(obj, entries);
    DefinedNone();
    result := [];
    for i := 0 to |entries|
      invariant |result| == |Defined(entries[..i])|
      invariant forall k :: 0 <= k < |result| ==>
                  result[k] == Entry(Defined(entries[..i])[k].key, Pruned(Defined(entries[..i])[k].value))
    {
      DefinedMore(entries, i);
      if entries[i].value == Undefined {
        continue;
      }
      var inner := AsDictInner(entries[i].value);
      result := result + [Entry(entries[i].key, inner)];
    }
    assert entries[..|entries|] == entries;
    assert result == Pruned(obj).entries;
  }

  /** The error, if any, names the way to the undefined value behind the path of the argument. */
  method AssertNoUndefined(value: Value, path: seq<Step>) returns (error: Option<seq<Step>>)
    ensures error == if FirstUndefined(value).Some? then Some(path + FirstUndefined(value).value) else None
    decreases value
  {
    if value == Undefined {
      return Some(path + []);
    }
    if IsSequence(value) {
      for i := 0 to |value.items|
        invariant FirstUndefined(value) == FirstInItems(value, i)
      {
        error := AssertNoUndefined(value.items[i], path + [Index(i)]);
        if error.Some? {
          assert path + [Index(i)] + FirstUndefined(value.items[i]).value ==
                 path + ([Index(i)] + FirstUndefined(value.items[i]).value);
          return;
        }
      }
      return None;
    }
    if value.Dict? {
      for i := 0 to |value.entries|
        invariant FirstUndefined(value) == FirstInEntries(value, i)
      {
        var key := value.entries[i].key;
        error := AssertNoUndefined(value.entries[i].value, path + [Key(key)]);
        if error.Some? {
          assert path + [Key(key)] + FirstUndefined(value.entries[i].value).value ==
                 path + ([Key(key)] + FirstUndefined(value.entries[i].value).value);
          return;
        }
      }
    }
    error := None;
  }

  /** The arguments are accepted exactly if no path leads to an undefined value from any of them. */
  method ValidateQueryArgs(args: seq<Value>) returns (error: Option<seq<Step>>)
    ensures error.None? <==> forall i, path :: 0 <= i < |args| ==> !LeadsToUndefined(args[i], path)
    ensures error.Some? ==> error.value != [] && error.value[0].Index? && error.value[0].i < |args| &&
                            LeadsToUndefined(args[error.value[0].i], error.value[1..])
  {
    for i := 0 to |args|
      invariant forall k, path :: 0 <= k < i ==> !LeadsToUndefined(args[k], path)
    {
      CheckIsExact(args[i]);
      error := AssertNoUndefined(args[i], [Index(i)]);
      if error.Some? {
        assert error.value[1..] == FirstUndefined(args[i]).value;
        return;
      }
    }
    error := None;
  }
}
