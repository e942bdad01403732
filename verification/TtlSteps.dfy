/** The steps of the cache behind the decorator in src/utils/async_ttl.py: TTL expiry plus LRU eviction.

    One call of the wrapped coroutine touches the cache twice: before its only await (the lookup) and after it (the
    insert).  Anything else may happen in between, so the two halves are separate steps. */
module TtlSteps {
  import opened Wrappers

  datatype Config = Config(ttl: real, maxsize: Option<int>)

  datatype Entry<+V> = Entry(value: V, expireAt: real)

  /** `order` lists the keys of the OrderedDict from least to most recently used. */
  datatype Cache<K, +V> = Cache(order: seq<K>, store: map<K, Entry<V>>, hits: nat, misses: nat, expires: nat)

  ghost predicate Distinct<K>(s: seq<K>) {
    forall i, j :: 0 <= i < j < |s| ==> s[i] != s[j]
  }

  ghost predicate Consistent<K(!new), V>(c: Cache<K, V>) {
    && Distinct(c.order)
    && (forall k :: k in c.order <==> k in c.store)
  }

  function Without<K(==, !new)>(s: seq<K>, k: K): (r: seq<K>)
    ensures |r| <= |s|
    ensures forall x :: x in r <==> x in s && x != k
  {
    if s == [] then [] else if s[0] == k then Without(s[1..], k) else [s[0]] + Without(s[1..], k)
  }

  function ToEnd<K(==, !new)>(s: seq<K>, k: K): seq<K> {
    Without(s, k) + [k]
  }

  function LastN<T>(s: seq<T>, n: nat): (r: seq<T>)
    ensures |r| == if |s| <= n then |s| else n
  {
    if |s| <= n then s else s[|s| - n..]
  }

  function Lookup<K, V>(c: Cache<K, V>, key: K, now: real): Option<V> {
    if key in c.store && c.store[key].expireAt > now then Some(c.store[key].value) else None
  }

  /** The part of a call before its await. */
  function AfterLookup<K(==, !new), V>(c: Cache<K, V>, key: K, now: real): Cache<K, V> {
    if Lookup(c, key, now).Some? then
      c.(order := ToEnd(c.order, key), hits := c.hits + 1)
    else if key in c.store then
      c.(order := Without(c.order, key), store := c.store - {key}, misses := c.misses + 1, expires := c.expires + 1)
    else
      c.(misses := c.misses + 1)
  }

  /** The keys that stay after the eviction loop; a negative `maxsize` empties the dictionary. */
  function Keep<K>(order: seq<K>, maxsize: Option<int>): seq<K> {
    match maxsize
    case None => order
    case Some(m) => LastN(order, if m < 0 then 0 else m)
  }

  function Restrict<K, V>(m: map<K, V>, keys: seq<K>): map<K, V> {
    map k | k in m && k in keys :: m[k]
  }

  /** The part of a call after its await; `start` is the time read before the await. */
  function AfterInsert<K(==, !new), V>(cfg: Config, c: Cache<K, V>, key: K, start: real, value: V): Cache<K, V> {
    var order := Keep(ToEnd(c.order, key), cfg.maxsize);
    var store := c.store[key := Entry(value, start + cfg.ttl)];
    c.(order := order, store := Restrict(store, order))
  }

  function Emptied<K, V>(c: Cache<K, V>): Cache<K, V> {
    Cache([], map[], 0, 0, 0)
  }

  // ---- sequences without duplicates ------------------------------------

  lemma WithoutDistinct<K(!new)>(s: seq<K>, k: K)
    requires Distinct(s)
    ensures Distinct(Without(s, k))
  {
    if s != [] {
      WithoutDistinct(s[1..], k);
      var rest := Without(s[1..], k);
      forall j | 0 <= j < |rest|
        ensures rest[j] != s[0]
      {
        assert rest[j] in s[1..];
      }
    }
  }

  lemma ToEndDistinct<K(!new)>(s: seq<K>, k: K)
    requires Distinct(s)
    ensures Distinct(ToEnd(s, k))
  {
    WithoutDistinct(s, k);
    assert forall j :: 0 <= j < |Without(s, k)| ==> Without(s, k)[j] in Without(s, k);
  }

  lemma WithoutAbsent<K(!new)>(s: seq<K>, k: K)
    requires k !in s
    ensures Without(s, k) == s
  {
    if s != [] {
      WithoutAbsent(s[1..], k);
    }
  }

  lemma WithoutAppend<K(!new)>(s: seq<K>, t: seq<K>, k: K)
    ensures Without(s + t, k) == Without(s, k) + Without(t, k)
  {
    if s == [] {
      assert s + t == t;
    } else {
      assert (s + t)[1..] == s[1..] + t;
      WithoutAppend(s[1..], t, k);
    }
  }

  lemma WithoutHead<K(!new)>(s: seq<K>)
    requires s != [] && Distinct(s)
    ensures Without(s, s[0]) == s[1..]
  {
    assert s[0] !in s[1..];
    WithoutAbsent(s[1..], s[0]);
  }

  lemma WithoutLength<K(!new)>(s: seq<K>, k: K)
    requires Distinct(s)
    ensures |Without(s, k)| == |s| - if k in s then 1 else 0
  {
    if s != [] {
      if s[0] == k {
        WithoutHead(s);
      } else {
        WithoutLength(s[1..], k);
      }
    }
  }

  lemma RestrictTail<K(!new), V>(m: map<K, V>, keys: seq<K>)
    requires keys != [] && Distinct(keys)
    ensures Distinct(keys[1..])
    ensures Restrict(m, keys) - {keys[0]} == Restrict(m, keys[1..])
  {
    assert forall k :: k in keys <==> k == keys[0] || k in keys[1..];
    assert keys[0] !in keys[1..];
  }

  lemma LookupConsistent<K(!new), V>(c: Cache<K, V>, key: K, now: real)
    requires Consistent(c)
    ensures Consistent(AfterLookup(c, key, now))
  {
    WithoutDistinct(c.order, key);
    ToEndDistinct(c.order, key);
  }

  lemma InsertConsistent<K(!new), V>(cfg: Config, c: Cache<K, V>, key: K, start: real, value: V)
    requires Consistent(c)
    ensures Consistent(AfterInsert(cfg, c, key, start, value))
  {
    ToEndDistinct(c.order, key);
    var c' := AfterInsert(cfg, c, key, start, value);
    assert forall k :: k in c'.order ==> k in ToEnd(c.order, key);
  }
}
