/** The decorator itself: the closure variables of `async_ttl` as fields, updated in place. */
module AsyncTtl {
  import opened Wrappers
  import opened TtlSteps

  class TtlCache<K(==, !new), V> {
    const cfg: Config
    var order: seq<K>
    var store: map<K, Entry<V>>
    var hits: nat
    var misses: nat
    var expires: nat

    ghost function View(): Cache<K, V>
      reads this
    {
      Cache(order, store, hits, misses, expires)
    }

    ghost predicate Valid()
      reads this
    {
      Consistent(View())
    }

    constructor (cfg: Config)
      ensures Valid() && this.cfg == cfg && View() == Cache([], map[], 0, 0, 0)
    {
      this.cfg := cfg;
      order, store, hits, misses, expires := [], map[], 0, 0, 0;
    }

    /** `wrapper` up to its await: `Some` is a hit and ends the call. */
    method Begin(key: K, now: real) returns (hit: Option<V>)
      requires Valid()
      modifies this
      ensures Valid() && View() == AfterLookup(old(View()), key, now)
      ensures hit == Lookup(old(View()), key, now)
    {
      LookupConsistent(View(), key, now);
      if key in store {
        var Entry(value, expireAt) := store[key];
        if expireAt > now {
          order := ToEnd(order, key);
          hits := hits + 1;
          return Some(value);
        }
        order, store := Without(order, key), store - {key};
        expires := expires + 1;
      }
      misses := misses + 1;
      hit := None;
    }

    /** The eviction loop.  `popitem` on an empty dictionary raises, which happens exactly for a negative `maxsize`;
        the cache is empty then. */
    method EvictOverflow(maxsize: int) returns (raised: bool)
      requires Valid()
      modifies `order, `store
      ensures order == Keep(old(order), Some(maxsize))
      ensures store == Restrict(old(store), order)
      ensures raised <==> maxsize < 0
    {
      ghost var full, kept := order, store;
      ghost var dropped: nat := 0;
      assert store == Restrict(kept, order);
      while |order| > maxsize
        invariant dropped <= |full| && order == full[dropped..]
        invariant |order| >= |Keep(full, Some(maxsize))|
        invariant Distinct(order) && store == Restrict(kept, order)
        decreases |order|
      {
        if order == [] {
          return true;
        }
        RestrictTail(kept, order);
        store, order := store - {order[0]}, order[1..];
        dropped := dropped + 1;
      }
      raised := false;
    }

    /** `wrapper` after its await. */
    method Complete(key: K, start: real, value: V) returns (raised: bool)
      requires Valid()
      modifies this
      ensures Valid() && View() == AfterInsert(cfg, old(View()), key, start, value)
      ensures raised <==> cfg.maxsize.Some? && cfg.maxsize.value < 0
    {
      InsertConsistent(cfg, View(), key, start, value);
      ToEndDistinct(order, key);
      store := store[key := Entry(value, start + cfg.ttl)];
      order := ToEnd(order, key);
      raised := false;
      if cfg.maxsize.Some? {
        raised := EvictOverflow(cfg.maxsize.value);
      }
    }

    method CacheClear()
      modifies this
      ensures Valid() && View() == Emptied(old(View()))
    {
      order, store, hits, misses, expires := [], map[], 0, 0, 0;
    }
  }
}
