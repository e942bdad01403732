/** Recency, size and bookkeeping of the cache in src/utils/async_ttl.py, over every interleaving of calls. */
module TtlOrder {
  import opened Wrappers
  import opened TtlSteps
  import opened TtlRuns

  /** A key is touched by a hit and by the completion of one of its calls, not by a miss. */
  ghost predicate Touches<K(!new), V>(w: World<K, V>, e: Event<K, V>, key: K)
    requires Enabled(w, e)
  {
    match e
    case Begin(_, k, now) => k == key && Lookup(w.cache, k, now).Some?
    case Complete(id, _) => w.pending[id].key == key
    case _ => false
  }

  /** Position of the last event that touched `key` since the last clear, or -1. */
  ghost function LastTouch<K(!new), V>(cfg: Config, es: seq<Event<K, V>>, key: K): (r: int)
    requires Run(cfg, es)
    ensures -1 <= r < |es|
  {
    if es == [] || Last(es).Clear? then -1
    else if Touches(After(cfg, Past(es)), Last(es), key) then |es| - 1
    else LastTouch(cfg, Past(es), key)
  }

  ghost predicate Increasing<K>(s: seq<K>, rank: K -> int) {
    forall i, j :: 0 <= i < j < |s| ==> rank(s[i]) < rank(s[j])
  }

  lemma {:induction false} WithoutIncreasing<K(!new)>(s: seq<K>, k: K, rank: K -> int)
    requires Increasing(s, rank)
    ensures Increasing(Without(s, k), rank)
  {
    if s != [] {
      WithoutIncreasing(s[1..], k, rank);
      var rest := Without(s[1..], k);
      forall j | 0 <= j < |rest|
        ensures rank(s[0]) < rank(rest[j])
      {
        assert rest[j] in s[1..];
      }
    }
  }

  /** Moving a key to the end keeps the order, if its rank rises above all others and no other rank changes. */
  lemma ToEndIncreasing<K(!new)>(s: seq<K>, k: K, before: K -> int, after: K -> int)
    requires Increasing(s, before)
    requires forall x :: x in s && x != k ==> before(x) == after(x) < after(k)
    ensures Increasing(ToEnd(s, k), after)
  {
    WithoutIncreasing(s, k, before);
    var rest := Without(s, k);
    assert forall j :: 0 <= j < |rest| ==> rest[j] in rest;
  }

  ghost function Rank<K(!new), V>(cfg: Config, es: seq<Event<K, V>>): K -> int
    requires Run(cfg, es)
  {
    key => LastTouch(cfg, es, key)
  }

  /** The dictionary order is strictly the order of the last touches. */
  lemma {:induction false} OrderIsByLastTouch<K(!new), V>(cfg: Config, es: seq<Event<K, V>>)
    requires Run(cfg, es)
    ensures Increasing(After(cfg, es).cache.order, Rank(cfg, es))
    ensures forall k :: k in After(cfg, es).cache.order ==> LastTouch(cfg, es, k) >= 0
  {
    if es != [] {
      OrderIsByLastTouch(cfg, Past(es));
      var w := After(cfg, Past(es));
      match Last(es) {
        case Begin(id, key, now) =>
          if Lookup(w.cache, key, now).Some? {
            ToEndIncreasing(w.cache.order, key, Rank(cfg, Past(es)), Rank(cfg, es));
          } else {
            WithoutIncreasing(w.cache.order, key, Rank(cfg, Past(es)));
            assert forall k :: LastTouch(cfg, es, k) == LastTouch(cfg, Past(es), k);
          }
        case Complete(id, value) =>
          var key := w.pending[id].key;
          ToEndIncreasing(w.cache.order, key, Rank(cfg, Past(es)), Rank(cfg, es));
          var kept := Keep(ToEnd(w.cache.order, key), cfg.maxsize);
          assert forall k :: k in kept ==> k in ToEnd(w.cache.order, key);
        case Fail(id) =>
          assert forall k :: LastTouch(cfg, es, k) == LastTouch(cfg, Past(es), k);
        case Clear =>
      }
    }
  }

  lemma {:induction false} DistinctSize<K(!new)>(s: seq<K>)
    requires Distinct(s)
    ensures |set k | k in s| == |s|
  {
    if s != [] {
      DistinctSize(s[1..]);
      assert s[0] !in s[1..];
      assert (set k | k in s) == {s[0]} + set k | k in s[1..];
    }
  }

  lemma StoreSize<K(!new), V>(c: Cache<K, V>)
    requires Consistent(c)
    ensures |c.store.Keys| == |c.order|
  {
    DistinctSize(c.order);
    assert c.store.Keys == set k | k in c.order;
  }

  function Bound(cfg: Config): Option<nat> {
    match cfg.maxsize
    case None => None
    case Some(m) => Some(if m < 0 then 0 else m)
  }

  lemma {:induction false} OrderIsBounded<K(!new), V>(cfg: Config, es: seq<Event<K, V>>)
    requires Run(cfg, es) && cfg.maxsize.Some?
    ensures |After(cfg, es).cache.order| <= Bound(cfg).value
  {
    if es != [] {
      OrderIsBounded(cfg, Past(es));
      RunConsistent(cfg, Past(es));
      if Last(es).Begin? {
        WithoutLength(After(cfg, Past(es)).cache.order, Last(es).key);
      }
    }
  }

  /** The number of entries, which `cache_info` reports, is bounded whenever the event loop can run anything else, that
      is between any two steps. */
  lemma SizeIsBounded<K(!new), V>(cfg: Config, es: seq<Event<K, V>>)
    requires Run(cfg, es) && cfg.maxsize.Some?
    ensures |After(cfg, es).cache.order| == |After(cfg, es).cache.store.Keys| <= Bound(cfg).value
  {
    hide Run, After;
    OrderIsBounded(cfg, es);
    RunConsistent(cfg, es);
    StoreSize(After(cfg, es).cache);
  }

  lemma KeysOfOrder<K(!new)>(before: set<K>, after: set<K>, full: seq<K>, key: K)
    requires full != [] && Distinct(full)
    requires (forall k :: k in full <==> k in before || k == key) && forall k :: k in after <==> k in full[1..]
    ensures after == before + {key} - {full[0]}
  {
    assert forall k :: k in full <==> k == full[0] || k in full[1..];
  }

  /** If the bound held before an insert, the eviction loop can only drop the head of the new order. */
  lemma InsertEvictsHead<K(!new), V>(cfg: Config, c: Cache<K, V>, key: K, start: real, value: V, evicted: K)
    requires Consistent(c)
    requires cfg.maxsize.Some? ==> cfg.maxsize.value >= 0 && |c.order| <= cfg.maxsize.value
    requires evicted in ToEnd(c.order, key) && evicted !in AfterInsert(cfg, c, key, start, value).order
    ensures evicted == ToEnd(c.order, key)[0]
    ensures AfterInsert(cfg, c, key, start, value).order == ToEnd(c.order, key)[1..]
    ensures AfterInsert(cfg, c, key, start, value).store.Keys == c.store.Keys + {key} - {evicted}
  {
    var full := ToEnd(c.order, key);
    var c' := AfterInsert(cfg, c, key, start, value);
    ToEndDistinct(c.order, key);
    InsertConsistent(cfg, c, key, start, value);
    assert c'.order == full[1..];
    KeysOfOrder(c.store.Keys, c'.store.Keys, full, key);
  }

  /** A completion evicts at most one key, and that key was touched before every key that stays. */
  lemma EvictsLeastRecentlyUsed<K(!new), V>(cfg: Config, es: seq<Event<K, V>>, evicted: K)
    requires es != [] && Run(cfg, es) && Last(es).Complete? && (cfg.maxsize.Some? ==> cfg.maxsize.value >= 0)
    requires
      var w := After(cfg, Past(es));
      evicted in w.cache.store || evicted == w.pending[Last(es).id].key
    requires evicted !in After(cfg, es).cache.store
    ensures forall k :: k in After(cfg, es).cache.store ==> LastTouch(cfg, es, evicted) < LastTouch(cfg, es, k)
    ensures
      var w := After(cfg, Past(es));
      After(cfg, es).cache.store.Keys == w.cache.store.Keys + {w.pending[Last(es).id].key} - {evicted}
  {
    var c, p := After(cfg, Past(es)).cache, After(cfg, Past(es)).pending[Last(es).id];
    var full := ToEnd(c.order, p.key);
    RunConsistent(cfg, Past(es));
    RunConsistent(cfg, es);
    if cfg.maxsize.Some? {
      SizeIsBounded(cfg, Past(es));
    }
    InsertEvictsHead(cfg, c, p.key, p.start, Last(es).value, evicted);
    NewOrderIncreases(cfg, es);
    forall k | k in After(cfg, es).cache.store
      ensures LastTouch(cfg, es, evicted) < LastTouch(cfg, es, k)
    {
      assert k in full[1..];
      HeadIsLeast(full, Rank(cfg, es), k);
    }
  }

  lemma NewOrderIncreases<K(!new), V>(cfg: Config, es: seq<Event<K, V>>)
    requires es != [] && Run(cfg, es) && Last(es).Complete?
    ensures
      var w := After(cfg, Past(es));
      Increasing(ToEnd(w.cache.order, w.pending[Last(es).id].key), Rank(cfg, es))
  {
    hide Increasing, ToEnd;
    var w := After(cfg, Past(es));
    OrderIsByLastTouch(cfg, Past(es));
    ToEndIncreasing(w.cache.order, w.pending[Last(es).id].key, Rank(cfg, Past(es)), Rank(cfg, es));
  }

  lemma HeadIsLeast<K>(s: seq<K>, rank: K -> int, k: K)
    requires Increasing(s, rank) && s != [] && k in s[1..]
    ensures rank(s[0]) < rank(k)
  {
    var j :| 1 <= j < |s| && s[j] == k;
  }

  // ---- conservation -----------------------------------------------------------

  /** Completions since the last clear whose key was not in the cache. */
  ghost function Inserts<K(!new), V>(cfg: Config, es: seq<Event<K, V>>): nat
    requires Run(cfg, es)
  {
    if es == [] || Last(es).Clear? then 0
    else
      var w := After(cfg, Past(es));
      Inserts(cfg, Past(es)) + if Last(es).Complete? && w.pending[Last(es).id].key !in w.cache.store then 1 else 0
  }

  /** Keys dropped by the eviction loop since the last clear. */
  ghost function Evictions<K(!new), V>(cfg: Config, es: seq<Event<K, V>>): nat
    requires Run(cfg, es)
  {
    if es == [] || Last(es).Clear? then 0
    else
      var w := After(cfg, Past(es));
      Evictions(cfg, Past(es)) +
      if Last(es).Complete?
      then |w.cache.store.Keys + {w.pending[Last(es).id].key} - After(cfg, es).cache.store.Keys|
      else 0
  }

  lemma SubsetSize<K(!new)>(part: set<K>, whole: set<K>)
    requires part <= whole
    ensures |part| + |whole - part| == |whole|
  {
    assert whole == part + (whole - part);
  }

  lemma HeldKeys<K(!new), V>(cfg: Config, c: Cache<K, V>, key: K, start: real, value: V)
    ensures AfterInsert(cfg, c, key, start, value).store.Keys <= c.store.Keys + {key}
  {
  }

  lemma AddedSize<K>(keys: set<K>, key: K)
    ensures |keys + {key}| == |keys| + if key in keys then 0 else 1
  {
    if key in keys {
      assert keys + {key} == keys;
    }
  }

  lemma InsertConserves<K(!new), V>(cfg: Config, c: Cache<K, V>, key: K, start: real, value: V)
    ensures
      var held := AfterInsert(cfg, c, key, start, value).store.Keys;
      |held| + |c.store.Keys + {key} - held| == |c.store.Keys| + if key in c.store then 0 else 1
  {
    hide AfterInsert;
    HeldKeys(cfg, c, key, start, value);
    SubsetSize(AfterInsert(cfg, c, key, start, value).store.Keys, c.store.Keys + {key});
    AddedSize(c.store.Keys, key);
  }

  lemma LookupConserves<K(!new), V>(c: Cache<K, V>, key: K, now: real)
    ensures
      var c' := AfterLookup(c, key, now);
      |c'.store.Keys| + c'.expires == |c.store.Keys| + c.expires
  {
    if Lookup(c, key, now).None? && key in c.store {
      assert AfterLookup(c, key, now).store.Keys == c.store.Keys - {key};
    }
  }

  /** Since the last clear: entries held now = keys inserted - entries found expired - keys evicted. */
  lemma {:induction false} EntriesAreConserved<K(!new), V>(cfg: Config, es: seq<Event<K, V>>)
    requires Run(cfg, es)
    ensures |After(cfg, es).cache.store.Keys| + After(cfg, es).cache.expires + Evictions(cfg, es) == Inserts(cfg, es)
  {
    if es != [] {
      EntriesAreConserved(cfg, Past(es));
      RunConsistent(cfg, Past(es));
      var w := After(cfg, Past(es));
      match Last(es) {
        case Begin(_, key, now) => LookupConserves(w.cache, key, now);
        case Complete(id, value) => InsertConserves(cfg, w.cache, w.pending[id].key, w.pending[id].start, value);
        case _ =>
      }
    }
  }
}
