/** Every interleaving of calls, failures and clears of the cache in src/utils/async_ttl.py.

    A run is the sequence of events in the order in which the event loop performs them.  Any number of calls may be
    between their lookup and their insert.  What a run should have left in the cache is defined from the events
    alone; the lemmas connect that history to the cache the code maintains. */
module TtlRuns {
  import opened Wrappers
  import opened TtlSteps

  datatype Event<K, V> =
    | Begin(id: nat, key: K, now: real)
    | Complete(id: nat, value: V)
    | Fail(id: nat)
    | Clear

  datatype Pending<K> = Pending(key: K, start: real)

  datatype World<K, V> = World(cache: Cache<K, V>, pending: map<nat, Pending<K>>, clock: Option<real>)

  ghost predicate Enabled<K, V>(w: World<K, V>, e: Event<K, V>) {
    match e
    case Begin(id, _, now) => id !in w.pending && (w.clock.Some? ==> w.clock.value <= now)
    case Complete(id, _) => id in w.pending
    case Fail(id) => id in w.pending
    case Clear => true
  }

  ghost function Step<K(!new), V>(cfg: Config, w: World<K, V>, e: Event<K, V>): World<K, V>
    requires Enabled(w, e)
  {
    match e
    case Begin(id, key, now) =>
      var pending := if Lookup(w.cache, key, now).Some? then w.pending else w.pending[id := Pending(key, now)];
      World(AfterLookup(w.cache, key, now), pending, Some(now))
    case Complete(id, value) =>
      var p := w.pending[id];
      World(AfterInsert(cfg, w.cache, p.key, p.start, value), w.pending - {id}, w.clock)
    case Fail(id) => w.(pending := w.pending - {id})
    case Clear => w.(cache := Emptied(w.cache))
  }

  function Init<K, V>(): World<K, V> {
    World(Cache([], map[], 0, 0, 0), map[], None)
  }

  function Past<T>(es: seq<T>): seq<T>
    requires es != []
  {
    es[..|es| - 1]
  }

  function Last<T>(es: seq<T>): T
    requires es != []
  {
    es[|es| - 1]
  }

  ghost predicate Run<K(!new), V>(cfg: Config, es: seq<Event<K, V>>)
    decreases |es|, 0
  {
    es == [] || (Run(cfg, Past(es)) && Enabled(After(cfg, Past(es)), Last(es)))
  }

  ghost function After<K(!new), V>(cfg: Config, es: seq<Event<K, V>>): World<K, V>
    requires Run(cfg, es)
    decreases |es|, 1
  {
    if es == [] then Init() else Step(cfg, After(cfg, Past(es)), Last(es))
  }

  // ---- what the events alone say -----------------------------------------

  /** Key and start time of the latest call that began under this id. */
  function CallOf<K, V>(es: seq<Event<K, V>>, id: nat): Option<Pending<K>> {
    if es == [] then None
    else if Last(es).Begin? && Last(es).id == id then Some(Pending(Last(es).key, Last(es).now))
    else CallOf(Past(es), id)
  }

  predicate Completes<K(==), V>(es: seq<Event<K, V>>, i: nat, key: K) {
    i < |es| && es[i].Complete? && CallOf(es[..i], es[i].id).Some? && CallOf(es[..i], es[i].id).value.key == key
  }

  /** Event `i` is the latest completed call for `key`, and the cache was not cleared since. */
  ghost predicate IsLatestCompletion<K, V>(es: seq<Event<K, V>>, i: nat, key: K) {
    Completes(es, i, key) && forall j :: i < j < |es| ==> !es[j].Clear? && !Completes(es, j, key)
  }

  function Deadline<K, V>(cfg: Config, es: seq<Event<K, V>>, i: nat): real
    requires i < |es| && es[i].Complete? && CallOf(es[..i], es[i].id).Some?
  {
    CallOf(es[..i], es[i].id).value.start + cfg.ttl
  }

  /** Calls begun since the last clear. */
  function Begun<K, V>(es: seq<Event<K, V>>): nat {
    if es == [] || Last(es).Clear? then 0 else Begun(Past(es)) + if Last(es).Begin? then 1 else 0
  }

  // ---- the run invariant ---------------------------------------------------

  lemma {:induction false} RunConsistent<K(!new), V>(cfg: Config, es: seq<Event<K, V>>)
    requires Run(cfg, es)
    ensures Consistent(After(cfg, es).cache)
    ensures forall id :: id in After(cfg, es).pending ==> CallOf(es, id) == Some(After(cfg, es).pending[id])
  {
    if es != [] {
      RunConsistent(cfg, Past(es));
      var w := After(cfg, Past(es));
      match Last(es) {
        case Begin(id, key, now) => LookupConsistent(w.cache, key, now);
        case Complete(id, value) => InsertConsistent(cfg, w.cache, w.pending[id].key, w.pending[id].start, value);
        case _ =>
      }
    }
  }

  lemma CompletesPast<K(!new), V>(es: seq<Event<K, V>>, i: nat, key: K)
    requires es != [] && i < |es| - 1
    ensures Completes(es, i, key) <==> Completes(Past(es), i, key)
    ensures es[..i] == Past(es)[..i] && es[i] == Past(es)[i]
  {
  }

  lemma {:induction false} LatestPast<K(!new), V>(es: seq<Event<K, V>>, i: nat, key: K)
    requires es != [] && i < |es| - 1 && !Last(es).Clear? && !Completes(es, |es| - 1, key)
    ensures IsLatestCompletion(es, i, key) <==> IsLatestCompletion(Past(es), i, key)
  {
    forall j: nat | j < |es| - 1
      ensures Completes(es, j, key) <==> Completes(Past(es), j, key)
    {
      CompletesPast(es, j, key);
    }
  }

  /** Every stored entry is the latest completion for its key: same value, deadline counted from the call's start. */
  lemma {:induction false} StoredIsLatest<K(!new), V>(cfg: Config, es: seq<Event<K, V>>, key: K) returns (i: nat)
    requires Run(cfg, es) && key in After(cfg, es).cache.store
    ensures IsLatestCompletion(es, i, key)
    ensures After(cfg, es).cache.store[key] == Entry(es[i].value, Deadline(cfg, es, i))
  {
    var w := After(cfg, Past(es));
    RunConsistent(cfg, Past(es));
    if Last(es).Complete? && w.pending[Last(es).id].key == key {
      i := |es| - 1;
      assert es[..i] == Past(es);
    } else {
      i := StoredIsLatest(cfg, Past(es), key);
      assert es[..|es| - 1] == Past(es);
      LatestPast(es, i, key);
      CompletesPast(es, i, key);
    }
  }

  /** Without a size bound an entry only leaves once it has expired. */
  lemma {:induction false} LatestIsStoredOrExpired<K(!new), V>(cfg: Config, es: seq<Event<K, V>>, key: K, i: nat)
    requires Run(cfg, es) && cfg.maxsize.None? && IsLatestCompletion(es, i, key)
    ensures
      var w := After(cfg, es);
      if key in w.cache.store then w.cache.store[key] == Entry(es[i].value, Deadline(cfg, es, i))
      else w.clock.Some? && Deadline(cfg, es, i) <= w.clock.value
  {
    var w := After(cfg, Past(es));
    RunConsistent(cfg, Past(es));
    if i == |es| - 1 {
      assert es[..i] == Past(es);
      assert key in ToEnd(w.cache.order, key);
    } else {
      assert es[..|es| - 1] == Past(es);
      LatestPast(es, i, key);
      CompletesPast(es, i, key);
      LatestIsStoredOrExpired(cfg, Past(es), key, i);
    }
  }

  // ---- main results ------------------------------------------------------------

  lemma LatestUnique<K(!new), V>(es: seq<Event<K, V>>, i: nat, j: nat, key: K)
    requires IsLatestCompletion(es, i, key) && IsLatestCompletion(es, j, key)
    ensures i == j
  {
  }

  /** A hit returns the value of the one latest completed call for its key since the last clear, and that call began
      less than `ttl` before the lookup.  This holds for every size bound. */
  lemma HitIsLatestAndFresh<K(!new), V>(cfg: Config, es: seq<Event<K, V>>, key: K, now: real) returns (i: nat)
    requires Run(cfg, es) && Lookup(After(cfg, es).cache, key, now).Some?
    ensures forall j: nat :: IsLatestCompletion(es, j, key) <==> j == i
    ensures Completes(es, i, key) && now < Deadline(cfg, es, i)
    ensures Lookup(After(cfg, es).cache, key, now) == Some(es[i].value)
  {
    i := StoredIsLatest(cfg, es, key);
    forall j: nat | IsLatestCompletion(es, j, key)
      ensures j == i
    {
      LatestUnique(es, i, j, key);
    }
  }

  /** Without a size bound, exactly the fresh latest completions hit. */
  lemma HitsCharacterised<K(!new), V>(cfg: Config, es: seq<Event<K, V>>, id: nat, key: K, now: real, value: V)
    requires cfg.maxsize.None? && Run(cfg, es) && Enabled(After(cfg, es), Begin(id, key, now))
    ensures Lookup(After(cfg, es).cache, key, now) == Some(value) <==>
      exists i: nat :: IsLatestCompletion(es, i, key) && es[i].value == value && now < Deadline(cfg, es, i)
  {
    if Lookup(After(cfg, es).cache, key, now) == Some(value) {
      var i := StoredIsLatest(cfg, es, key);
    }
    forall i: nat | IsLatestCompletion(es, i, key) && es[i].value == value && now < Deadline(cfg, es, i)
      ensures Lookup(After(cfg, es).cache, key, now) == Some(value)
    {
      LatestIsStoredOrExpired(cfg, es, key, i);
    }
  }

  /** The calls begun since the last clear whose lookup found a fresh entry, or did not. */
  ghost function Answered<K(!new), V>(cfg: Config, es: seq<Event<K, V>>, hit: bool): nat
    requires Run(cfg, es)
    decreases |es|
  {
    if es == [] || Last(es).Clear? then 0
    else
      var call, cache := Last(es), After(cfg, Past(es)).cache;
      Answered(cfg, Past(es), hit) + if call.Begin? && Lookup(cache, call.key, call.now).Some? == hit then 1 else 0
  }

  /** The two counters tell those calls apart. */
  lemma {:induction false} CountersAreExact<K(!new), V>(cfg: Config, es: seq<Event<K, V>>)
    requires Run(cfg, es)
    ensures After(cfg, es).cache.hits == Answered(cfg, es, true)
    ensures After(cfg, es).cache.misses == Answered(cfg, es, false)
  {
    if es != [] {
      CountersAreExact(cfg, Past(es));
    }
  }

  /** Every call begun since the last clear was counted once, as a hit or as a miss. */
  lemma {:induction false} CallsAreCounted<K(!new), V>(cfg: Config, es: seq<Event<K, V>>)
    requires Run(cfg, es)
    ensures After(cfg, es).cache.hits + After(cfg, es).cache.misses == Begun(es)
  {
    if es != [] {
      CallsAreCounted(cfg, Past(es));
    }
  }
}
