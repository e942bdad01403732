/** Calls of src/utils/async_ttl.py that run one after the other: the LRU stack property.

    For such runs the key order of the cache does not depend on the TTL at all, although expiry makes caches of
    different sizes hit and miss at different calls. */
module LruStack {
  import opened Wrappers
  import opened TtlSteps

  /** One call: the time it reads, and what the wrapped coroutine does if the lookup misses. */
  datatype Call<K, V> = Call(key: K, now: real, outcome: Option<V>)

  ghost function Perform<K(!new), V>(cfg: Config, c: Cache<K, V>, call: Call<K, V>): Cache<K, V> {
    var c' := AfterLookup(c, call.key, call.now);
    if Lookup(c, call.key, call.now).Some? || call.outcome.None? then c'
    else AfterInsert(cfg, c', call.key, call.now, call.outcome.value)
  }

  ghost function PerformAll<K(!new), V>(cfg: Config, calls: seq<Call<K, V>>): Cache<K, V> {
    if calls == [] then Cache([], map[], 0, 0, 0)
    else Perform(cfg, PerformAll(cfg, calls[..|calls| - 1]), calls[|calls| - 1])
  }

  predicate AllSucceed<K, V>(calls: seq<Call<K, V>>) {
    forall i :: 0 <= i < |calls| ==> calls[i].outcome.Some?
  }

  /** The keys called so far, ordered by their last call: no cache, no clock. */
  function Recency<K(==, !new), V>(calls: seq<Call<K, V>>): seq<K> {
    if calls == [] then [] else ToEnd(Recency(calls[..|calls| - 1]), calls[|calls| - 1].key)
  }

  ghost predicate IsSuffix<T>(s: seq<T>, t: seq<T>) {
    |s| <= |t| && s == t[|t| - |s|..]
  }

  lemma WithoutSplit<K(!new)>(s: seq<K>, n: nat, k: K)
    requires n <= |s|
    ensures Without(s, k) == Without(s[..n], k) + Without(s[n..], k)
  {
    assert s == s[..n] + s[n..];
    WithoutAppend(s[..n], s[n..], k);
  }

  lemma LastNBehind<K>(older: seq<K>, s: seq<K>, n: nat)
    requires |s| >= n
    ensures LastN(older + s, n) == LastN(s, n)
  {
  }

  /** Cutting to the newest `n` before a move to the end makes no difference to the newest `n` after it. */
  lemma LastNToEnd<K(!new)>(s: seq<K>, n: nat, k: K)
    requires Distinct(s)
    ensures LastN(ToEnd(LastN(s, n), k), n) == LastN(ToEnd(s, k), n)
  {
    hide Without, Distinct;
    if |s| > n {
      var cut := |s| - n;
      WithoutSplit(s, cut, k);
      var older, newer := Without(s[..cut], k), ToEnd(s[cut..], k);
      NewerDistinct(s, cut);
      WithoutLength(s[cut..], k);
      assert ToEnd(s, k) == older + newer;
      LastNBehind(older, newer, n);
    }
  }

  lemma NewerDistinct<K(!new)>(s: seq<K>, cut: nat)
    requires Distinct(s) && cut <= |s|
    ensures Distinct(s[cut..])
  {
  }

  lemma {:induction false} RecencyDistinct<K(!new), V>(calls: seq<Call<K, V>>)
    ensures Distinct(Recency(calls))
  {
    if calls != [] {
      RecencyDistinct(calls[..|calls| - 1]);
      ToEndDistinct(Recency(calls[..|calls| - 1]), calls[|calls| - 1].key);
    }
  }

  lemma KeepToEnd<K(!new)>(s: seq<K>, maxsize: Option<int>, k: K)
    requires Distinct(s)
    ensures Keep(ToEnd(Keep(s, maxsize), k), maxsize) == Keep(ToEnd(s, k), maxsize)
  {
    match maxsize
    case None =>
    case Some(m) => LastNToEnd(s, if m < 0 then 0 else m, k);
  }

  /** One successful call moves its key to the end and cuts to the bound, whether it hit, missed or expired. */
  lemma PerformMovesToEnd<K(!new), V>(cfg: Config, c: Cache<K, V>, call: Call<K, V>)
    requires Consistent(c) && call.outcome.Some? && c.order == Keep(c.order, cfg.maxsize)
    ensures Consistent(Perform(cfg, c, call))
    ensures Perform(cfg, c, call).order == Keep(ToEnd(c.order, call.key), cfg.maxsize)
  {
    var c' := AfterLookup(c, call.key, call.now);
    LookupConsistent(c, call.key, call.now);
    if Lookup(c, call.key, call.now).Some? {
      WithoutLength(c.order, call.key);
    } else {
      InsertConsistent(cfg, c', call.key, call.now, call.outcome.value);
      WithoutAbsent(c'.order, call.key);
      if call.key !in c.store {
        WithoutAbsent(c.order, call.key);
      }
    }
  }

  /** After successful sequential calls the cache holds the most recently called keys, in order of their last call,
      as many as the size bound allows. */
  lemma {:induction false} OrderIsRecency<K(!new), V>(cfg: Config, calls: seq<Call<K, V>>)
    requires AllSucceed(calls)
    ensures Consistent(PerformAll(cfg, calls))
    ensures PerformAll(cfg, calls).order == Keep(Recency(calls), cfg.maxsize)
  {
    if calls != [] {
      var past, call := calls[..|calls| - 1], calls[|calls| - 1];
      OrderIsRecency(cfg, past);
      RecencyDistinct(past);
      KeepToEnd(Recency(past), cfg.maxsize, call.key);
      PerformMovesToEnd(cfg, PerformAll(cfg, past), call);
    }
  }

  // ---- stack inclusion -------------------------------------------------------------------

  ghost predicate Smaller(a: Option<int>, b: Option<int>) {
    b.None? || (a.Some? && a.value <= b.value)
  }

  lemma WithoutSuffix<K(!new)>(s: seq<K>, t: seq<K>, k: K)
    requires IsSuffix(s, t)
    ensures IsSuffix(Without(s, k), Without(t, k)) && IsSuffix(ToEnd(s, k), ToEnd(t, k))
  {
    WithoutSplit(t, |t| - |s|, k);
  }

  lemma LastNSuffix<K>(s: seq<K>, t: seq<K>, m: nat, n: nat)
    requires IsSuffix(s, t) && m <= n
    ensures IsSuffix(LastN(s, m), LastN(t, n))
  {
  }

  lemma KeepSuffix<K>(s: seq<K>, t: seq<K>, small: Option<int>, large: Option<int>)
    requires IsSuffix(s, t) && Smaller(small, large)
    ensures IsSuffix(Keep(s, small), Keep(t, large))
  {
    hide IsSuffix, LastN;
    var m := if small.None? then |s| else if small.value < 0 then 0 else small.value;
    var n := if large.None? then |t| + m else if large.value < 0 then 0 else large.value;
    LastNSuffix(s, t, m, n);
    LastNAll(s);
    LastNAll(t);
  }

  lemma LastNAll<K>(s: seq<K>)
    ensures forall n: nat :: n >= |s| ==> LastN(s, n) == s
  {
  }

  /** A failing call does the same to both caches, or it does nothing to the smaller one that could break the suffix:
      both lookups hit, or neither does, or the smaller cache misses and holds no other key.  Both lookups are known
      before the call is made. */
  ghost predicate HarmlessFailure<K, V>(small: Cache<K, V>, large: Cache<K, V>, call: Call<K, V>) {
    var hit := Lookup(small, call.key, call.now).Some?;
    (hit <==> Lookup(large, call.key, call.now).Some?) || (!hit && forall k :: k in small.order ==> k == call.key)
  }

  lemma FailingOrder<K(!new), V>(cfg: Config, c: Cache<K, V>, call: Call<K, V>)
    requires Consistent(c) && call.outcome.None?
    ensures
      var hit := Lookup(c, call.key, call.now).Some?;
      Perform(cfg, c, call).order == if hit then ToEnd(c.order, call.key) else Without(c.order, call.key)
  {
    if call.key !in c.store {
      WithoutAbsent(c.order, call.key);
    }
  }

  /** Exactly the harmless failures keep the suffix. */
  lemma FailureKeepsInclusionIff<K(!new), V>(small: Config, large: Config, s: Cache<K, V>, l: Cache<K, V>,
                                             call: Call<K, V>)
    requires Consistent(s) && Consistent(l) && IsSuffix(s.order, l.order) && call.outcome.None?
    ensures IsSuffix(Perform(small, s, call).order, Perform(large, l, call).order) <==> HarmlessFailure(s, l, call)
  {
    hide Perform, Consistent;
    FailingOrder(small, s, call);
    FailingOrder(large, l, call);
    WithoutSuffix(s.order, l.order, call.key);
    LastDiffers(Without(s.order, call.key), Without(l.order, call.key), call.key);
    assert Without(s.order, call.key) == [] <==> forall k :: k in s.order ==> k == call.key by {
      assert Without(s.order, call.key) != [] ==> Without(s.order, call.key)[0] in s.order;
    }
  }

  lemma SuffixLast<K>(s: seq<K>, t: seq<K>)
    requires s != [] && IsSuffix(s, t)
    ensures t != [] && s[|s| - 1] == t[|t| - 1] && t[|t| - 1] in t && s[|s| - 1] in s
  {
  }

  /** A sequence that ends in `k` and one without `k` are no suffixes of each other, unless the latter is empty. */
  lemma LastDiffers<K>(s: seq<K>, t: seq<K>, k: K)
    requires k !in s && k !in t
    ensures !IsSuffix(s + [k], t) && (IsSuffix(s, t + [k]) <==> s == [])
  {
    if IsSuffix(s + [k], t) {
      SuffixLast(s + [k], t);
    }
    if s != [] && IsSuffix(s, t + [k]) {
      SuffixLast(s, t + [k]);
    }
    assert (t + [k])[|t| + 1..] == [];
  }

  /** A successful call keeps the suffix, whether it hits, misses or finds an expired entry in either cache. */
  lemma SuccessKeepsInclusion<K(!new), V>(small: Config, large: Config, s: Cache<K, V>, l: Cache<K, V>,
                                          call: Call<K, V>)
    requires Consistent(s) && Consistent(l) && IsSuffix(s.order, l.order) && call.outcome.Some?
    requires s.order == Keep(s.order, small.maxsize) && l.order == Keep(l.order, large.maxsize)
    requires Smaller(small.maxsize, large.maxsize)
    ensures IsSuffix(Perform(small, s, call).order, Perform(large, l, call).order)
  {
    hide Perform, Consistent, Keep, IsSuffix, ToEnd, Without;
    PerformMovesToEnd(small, s, call);
    PerformMovesToEnd(large, l, call);
    WithoutSuffix(s.order, l.order, call.key);
    KeepSuffix(ToEnd(s.order, call.key), ToEnd(l.order, call.key), small.maxsize, large.maxsize);
  }

  lemma KeepShorter<K>(s: seq<K>, maxsize: Option<int>)
    ensures Keep(Keep(s, maxsize), maxsize) == Keep(s, maxsize)
    ensures forall t: seq<K> :: |t| <= |Keep(s, maxsize)| ==> Keep(t, maxsize) == t
  {
  }

  lemma {:induction false} PerformAllBounded<K(!new), V>(cfg: Config, calls: seq<Call<K, V>>)
    ensures Consistent(PerformAll(cfg, calls))
    ensures PerformAll(cfg, calls).order == Keep(PerformAll(cfg, calls).order, cfg.maxsize)
  {
    if calls != [] {
      var past, call := calls[..|calls| - 1], calls[|calls| - 1];
      PerformAllBounded(cfg, past);
      PerformBounded(cfg, PerformAll(cfg, past), call);
    }
  }

  lemma PerformBounded<K(!new), V>(cfg: Config, c: Cache<K, V>, call: Call<K, V>)
    requires Consistent(c) && c.order == Keep(c.order, cfg.maxsize)
    ensures Consistent(Perform(cfg, c, call))
    ensures Perform(cfg, c, call).order == Keep(Perform(cfg, c, call).order, cfg.maxsize)
  {
    if call.outcome.Some? {
      PerformMovesToEnd(cfg, c, call);
      KeepShorter(ToEnd(c.order, call.key), cfg.maxsize);
    } else {
      LookupConsistent(c, call.key, call.now);
      FailingOrder(cfg, c, call);
      WithoutLength(c.order, call.key);
      KeepShorter(c.order, cfg.maxsize);
    }
  }

  ghost predicate IncludedThroughout<K(!new), V>(small: Config, large: Config, calls: seq<Call<K, V>>) {
    forall n :: 0 <= n <= |calls| ==> IsSuffix(PerformAll(small, calls[..n]).order, PerformAll(large, calls[..n]).order)
  }

  ghost predicate FailuresAreHarmless<K(!new), V>(small: Config, large: Config, calls: seq<Call<K, V>>) {
    forall n :: 0 <= n < |calls| && calls[n].outcome.None? ==>
                  HarmlessFailure(PerformAll(small, calls[..n]), PerformAll(large, calls[..n]), calls[n])
  }

  lemma PrefixStep<K(!new), V>(cfg: Config, calls: seq<Call<K, V>>, n: nat)
    requires n < |calls|
    ensures PerformAll(cfg, calls[..n + 1]) == Perform(cfg, PerformAll(cfg, calls[..n]), calls[n])
  {
    assert calls[..n + 1][..n] == calls[..n];
  }

  lemma {:induction false} InclusionUpTo<K(!new), V>(small: Config, large: Config, calls: seq<Call<K, V>>, n: nat)
    requires n <= |calls| && Smaller(small.maxsize, large.maxsize) && FailuresAreHarmless(small, large, calls)
    ensures IsSuffix(PerformAll(small, calls[..n]).order, PerformAll(large, calls[..n]).order)
  {
    hide Perform, PerformAll, Consistent, Keep, IsSuffix, HarmlessFailure;
    if n == 0 {
      EmptyIsIncluded(small, large, calls);
    } else {
      var past, call := calls[..n - 1], calls[n - 1];
      InclusionUpTo(small, large, calls, n - 1);
      PrefixStep(small, calls, n - 1);
      PrefixStep(large, calls, n - 1);
      PerformAllBounded(small, past);
      PerformAllBounded(large, past);
      if call.outcome.None? {
        FailureKeepsInclusionIff(small, large, PerformAll(small, past), PerformAll(large, past), call);
      } else {
        SuccessKeepsInclusion(small, large, PerformAll(small, past), PerformAll(large, past), call);
      }
    }
  }

  lemma EmptyIsIncluded<K(!new), V>(small: Config, large: Config, calls: seq<Call<K, V>>)
    ensures IsSuffix(PerformAll(small, calls[..0]).order, PerformAll(large, calls[..0]).order)
  {
  }

  /** For sequential calls a smaller cache holds a suffix of what a larger one holds after every call, even with a
      different TTL, if and only if every failing call is harmless when it is made. */
  lemma StackInclusionIff<K(!new), V>(small: Config, large: Config, calls: seq<Call<K, V>>)
    requires Smaller(small.maxsize, large.maxsize)
    ensures IncludedThroughout(small, large, calls) <==> FailuresAreHarmless(small, large, calls)
  {
    hide Perform, PerformAll, Consistent, Keep, IsSuffix, HarmlessFailure;
    if FailuresAreHarmless(small, large, calls) {
      forall n | 0 <= n <= |calls| {
        InclusionUpTo(small, large, calls, n);
      }
    }
    if IncludedThroughout(small, large, calls) {
      forall n | 0 <= n < |calls| && calls[n].outcome.None?
        ensures HarmlessFailure(PerformAll(small, calls[..n]), PerformAll(large, calls[..n]), calls[n])
      {
        PrefixStep(small, calls, n);
        PrefixStep(large, calls, n);
        PerformAllBounded(small, calls[..n]);
        PerformAllBounded(large, calls[..n]);
        FailureKeepsInclusionIff(small, large, PerformAll(small, calls[..n]), PerformAll(large, calls[..n]), calls[n]);
      }
    }
  }

  /** So it always does when every call succeeds. */
  lemma StackInclusion<K(!new), V>(small: Config, large: Config, calls: seq<Call<K, V>>)
    requires AllSucceed(calls) && Smaller(small.maxsize, large.maxsize)
    ensures IsSuffix(PerformAll(small, calls).order, PerformAll(large, calls).order)
  {
    StackInclusionIff(small, large, calls);
    assert calls[..|calls|] == calls;
  }

  lemma PerformFour<K(!new), V>(cfg: Config, a: Call<K, V>, b: Call<K, V>, c: Call<K, V>, d: Call<K, V>)
    ensures PerformAll(cfg, [a, b, c, d]) ==
            Perform(cfg, Perform(cfg, Perform(cfg, Perform(cfg, Cache([], map[], 0, 0, 0), a), b), c), d)
  {
    assert [a, b, c, d][..3] == [a, b, c] && [a, b, c][..2] == [a, b];
    assert [a, b][..1] == [a] && [a][..0] == [];
    assert PerformAll(cfg, [a]) == Perform(cfg, PerformAll(cfg, []), a);
    assert PerformAll(cfg, [a, b]) == Perform(cfg, PerformAll(cfg, [a]), b);
    assert PerformAll(cfg, [a, b, c]) == Perform(cfg, PerformAll(cfg, [a, b]), c);
  }

  const FAILING_RUN: seq<Call<int, int>> :=
    [Call(1, 0.0, Some(0)), Call(2, 1.0, Some(0)), Call(1, 5.0, Some(0)), Call(1, 12.0, None)]

  /** A call whose key is not held: the key is appended and the order cut to the bound. */
  lemma PerformAbsent<K(!new), V>(cfg: Config, c: Cache<K, V>, call: Call<K, V>, order: seq<K>)
    requires Consistent(c) && call.key !in c.store && call.outcome.Some?
    requires order == Keep(c.order + [call.key], cfg.maxsize)
    ensures
      var c' := Perform(cfg, c, call);
      && c'.order == order
      && c'.store == Restrict(c.store[call.key := Entry(call.outcome.value, call.now + cfg.ttl)], order)
      && Consistent(c')
  {
    WithoutAbsent(c.order, call.key);
    LookupConsistent(c, call.key, call.now);
    InsertConsistent(cfg, AfterLookup(c, call.key, call.now), call.key, call.now, call.outcome.value);
  }

  lemma PerformHeld<K(!new), V>(cfg: Config, c: Cache<K, V>, call: Call<K, V>)
    requires call.key in c.store
    ensures
      var c' := Perform(cfg, c, call);
      && (c.store[call.key].expireAt > call.now ==> c'.order == ToEnd(c.order, call.key) && c'.store == c.store)
      && (c.store[call.key].expireAt <= call.now && call.outcome.None? ==> c'.order == Without(c.order, call.key))
  {
  }

  lemma FailingRunSmall()
    ensures PerformAll(Config(10.0, Some(1)), FAILING_RUN).order == [1]
  {
    hide Perform, PerformAll;
    var cfg, empty: Cache<int, int> := Config(10.0, Some(1)), Cache([], map[], 0, 0, 0);
    var a, b, c, d := Call(1, 0.0, Some(0)), Call(2, 1.0, Some(0)), Call(1, 5.0, Some(0)), Call(1, 12.0, None);
    PerformFour(cfg, a, b, c, d);
    PerformAbsent(cfg, empty, a, [1]);
    var c1 := Perform(cfg, empty, a);
    PerformAbsent(cfg, c1, b, [2]);
    var c2 := Perform(cfg, c1, b);
    PerformAbsent(cfg, c2, c, [1]);
    var c3 := Perform(cfg, c2, c);
    assert c3.store[1] == Entry(0, 15.0);
    PerformHeld(cfg, c3, d);
    assert Without([1], 1) == [];
  }

  lemma FailingRunLarge()
    ensures PerformAll(Config(10.0, Some(2)), FAILING_RUN).order == [2]
  {
    hide Perform, PerformAll;
    var cfg, empty: Cache<int, int> := Config(10.0, Some(2)), Cache([], map[], 0, 0, 0);
    var a, b, c, d := Call(1, 0.0, Some(0)), Call(2, 1.0, Some(0)), Call(1, 5.0, Some(0)), Call(1, 12.0, None);
    PerformFour(cfg, a, b, c, d);
    PerformAbsent(cfg, empty, a, [1]);
    var c1 := Perform(cfg, empty, a);
    PerformAbsent(cfg, c1, b, [1, 2]);
    var c2 := Perform(cfg, c1, b);
    assert c2.store[1] == Entry(0, 10.0);
    PerformHeld(cfg, c2, c);
    var c3 := Perform(cfg, c2, c);
    assert c3.order == [2, 1] by {
      assert [1, 2][1..] == [2];
    }
    PerformHeld(cfg, c3, d);
    assert Without([2, 1], 1) == [2] by {
      assert [2, 1][1..] == [1] && [1][1..] == [];
    }
  }

  /** The property needs every call to succeed: here the larger cache finds `1` expired and the refetch fails, while
      the smaller cache, which had to refetch `1` in between, still holds it. */
  lemma FailureBreaksInclusion()
    ensures !IsSuffix(PerformAll(Config(10.0, Some(1)), FAILING_RUN).order,
                      PerformAll(Config(10.0, Some(2)), FAILING_RUN).order)
  {
    FailingRunSmall();
    FailingRunLarge();
  }
}
