/**
 * Properties of the cache that span several calls, stated over the value
 * model of LruSpec: a Set followed by a Get, two Sets of one key, a Remove
 * followed by a Get, how a read or a sweep decides the next eviction, the
 * disabled cache, and the capacity invariant along any trace of calls.
 */
module LruProperties {
  import opened Wrappers
  import opened LruSpec

  /** Promoting or demoting keeps unique keys. */
  lemma MoveKeepsDistinct<K, V>(s: seq<Entry<K, V>>, i: nat)
    requires DistinctKeys(s) && i < |s|
    ensures DistinctKeys(Promote(s, i)) && DistinctKeys(Demote(s, i))
  {
    DeleteKeepsDistinct(s, i);
    PromoteDemoteAsDelete(s, i);
    ConcatKeepsDistinct([s[i]], Delete(s, i));
    ConcatKeepsDistinct(Delete(s, i), [s[i]]);
  }

  /** Get keeps a valid cache valid and its size unchanged. */
  lemma GetKeepsValid<K, V>(s: seq<Entry<K, V>>, capacity: int, k: K, now: nat)
    requires Valid(s, capacity)
    ensures Valid(Get(s, k, now).entries, capacity)
    ensures |Get(s, k, now).entries| == |s|
  {
    var i := Find(s, k);
    if i >= 0 {
      MoveKeepsDistinct(s, i);
    }
  }

  /** Remove keeps a valid cache valid. */
  lemma RemoveKeepsValid<K, V>(s: seq<Entry<K, V>>, capacity: int, k: K)
    requires Valid(s, capacity)
    ensures Valid(Remove(s, k).entries, capacity)
  {
    var i := Find(s, k);
    if i >= 0 {
      DeleteKeepsDistinct(s, i);
    }
  }

  /** A Set is seen by the next Get of its key: the value written comes
      back, stale exactly when the new expiry has passed, whatever the
      state of the entry it overwrote. */
  lemma SetThenGet<K, V>(s: seq<Entry<K, V>>, capacity: int, k: K, v: V, x: Expiry, now: nat)
    requires Valid(s, capacity) && capacity > 0
    ensures var g := Get(Set(s, capacity, k, v, x).entries, k, now);
            g.value == Some(v) && (g.stale <==> IsExpired(x, now))
  {
    var r := Set(s, capacity, k, v, x).entries;
    assert Find(r, k) == 0;
  }

  /** Setting a key twice: the first Set creates it when absent, the second never does. */
  lemma SetTwice<K, V>(s: seq<Entry<K, V>>, capacity: int, k: K, v: V, x: Expiry, v': V, x': Expiry)
    requires Valid(s, capacity) && capacity > 0
    ensures Find(s, k) < 0 ==> Set(s, capacity, k, v, x).created
    ensures !Set(Set(s, capacity, k, v, x).entries, capacity, k, v', x').created
  {
    var r := Set(s, capacity, k, v, x).entries;
    assert Find(r, k) == 0;
  }

  /** After a Remove, a Get of the key misses and is not stale. */
  lemma RemoveThenGet<K, V>(s: seq<Entry<K, V>>, k: K, now: nat)
    requires DistinctKeys(s)
    ensures var r := Remove(s, k).entries;
            Get(r, k, now) == GetOutcome(r, None, false)
  {
  }

  /** Remove touches no other key: every other key is present afterwards
      exactly when it was before, with the same entry. */
  lemma RemoveOnlyThatKey<K, V>(s: seq<Entry<K, V>>, k: K, k': K)
    requires DistinctKeys(s) && k' != k
    ensures var r := Remove(s, k).entries;
            (Find(r, k') >= 0 <==> Find(s, k') >= 0) &&
            (Find(s, k') >= 0 ==> r[Find(r, k')] == s[Find(s, k')])
  {
    var i := Find(s, k);
    if i >= 0 {
      var r := Delete(s, i);
      DeleteKeepsDistinct(s, i);
      var j := Find(s, k');
      if j >= 0 {
        var j' := if j < i then j else j - 1;
        assert r[j'] == s[j];
        FindUnique(r, j');
      } else {
        forall a | 0 <= a < |r| ensures r[a].key != k' {
          assert r[a] == s[if a < i then a else a + 1];
        }
      }
    }
  }

  /** A fresh read protects its key: when the cache is full, the next Set of
      a new key evicts some other entry. */
  lemma FreshReadIsNotEvictedNext<K, V>(s: seq<Entry<K, V>>, capacity: int, k: K, now: nat, k': K, v': V, x': Expiry)
    requires Valid(s, capacity) && |s| == capacity >= 2
    requires Find(s, k) >= 0 && !IsExpired(s[Find(s, k)].expiresAt, now)
    requires Find(s, k') < 0
    ensures var g := Get(s, k, now).entries;
            var r := Set(g, capacity, k', v', x');
            r.created && r.evicted.Some? && r.evicted.value.0 != k
  {
    var i := Find(s, k);
    var g := Promote(s, i);
    MoveKeepsDistinct(s, i);
    assert g[0].key == k;
    assert g[|g| - 1].key != k;
    forall a | 0 <= a < |g| ensures g[a].key != k' {
      assert g[a] in multiset(s);
    }
  }

  /** A stale read dooms its key: when the cache is full, the next Set of a
      new key evicts exactly that entry. */
  lemma StaleReadIsEvictedNext<K, V>(s: seq<Entry<K, V>>, capacity: int, k: K, now: nat, k': K, v': V, x': Expiry)
    requires Valid(s, capacity) && |s| == capacity > 0
    requires Find(s, k) >= 0 && IsExpired(s[Find(s, k)].expiresAt, now)
    requires Find(s, k') < 0
    ensures var g := Get(s, k, now).entries;
            var r := Set(g, capacity, k', v', x');
            r.created && r.evicted == Some((k, s[Find(s, k)].value))
  {
    var i := Find(s, k);
    var g := Demote(s, i);
    MoveKeepsDistinct(s, i);
    forall a | 0 <= a < |g| ensures g[a].key != k' {
      assert g[a] in multiset(s);
    }
  }

  /** Demoting the back element changes nothing. */
  lemma DemoteLast<T>(s: seq<T>)
    requires |s| > 0
    ensures Demote(s, |s| - 1) == s
  {
    assert s[..|s| - 1] + [s[|s| - 1]] == s;
  }

  /** A stale read is not destructive: reading the key again gives the same
      value, stale again, and leaves the order as the first read left it. */
  lemma StaleReadRepeats<K, V>(s: seq<Entry<K, V>>, k: K, now: nat)
    requires DistinctKeys(s)
    requires Find(s, k) >= 0 && IsExpired(s[Find(s, k)].expiresAt, now)
    ensures var g := Get(s, k, now);
            Get(g.entries, k, now) == g
  {
    var i := Find(s, k);
    var g := Demote(s, i);
    MoveKeepsDistinct(s, i);
    FindUnique(g, |g| - 1);
    DemoteLast(g);
  }

  /** After a sweep, a full cache holding any expired entry evicts an
      expired entry on the next Set of a new key, never a live one. */
  lemma SweepThenOverflowEvictsExpired<K, V>(s: seq<Entry<K, V>>, capacity: int, now: nat, j: nat, k': K, v': V, x': Expiry)
    requires Valid(s, capacity) && |s| == capacity > 0
    requires j < |s| && IsExpired(s[j].expiresAt, now)
    requires Find(s, k') < 0
    ensures var w := Sweep(s, now);
            var r := Set(w, capacity, k', v', x');
            r.created && r.evicted.Some? &&
            r.evicted.value == (w[|w| - 1].key, w[|w| - 1].value) && IsExpired(w[|w| - 1].expiresAt, now)
  {
    var w := Sweep(s, now);
    assert s[j] in multiset(w);
    var a :| 0 <= a < |w| && w[a] == s[j];
    forall b | 0 <= b < |w| ensures w[b].key != k' {
      assert w[b] in multiset(s);
    }
  }

  /** The disabled cache holds nothing and every operation is a no-op. */
  lemma DisabledCacheIsInert<K, V>(s: seq<Entry<K, V>>, capacity: int, k: K, v: V, x: Expiry, now: nat)
    requires Valid(s, capacity) && capacity <= 0
    ensures s == []
    ensures Set(s, capacity, k, v, x) == SetOutcome([], false, None)
    ensures Get(s, k, now) == GetOutcome([], None, false)
    ensures Remove(s, k) == RemoveOutcome([], false)
  {
  }

  /** One call on the cache, with the clock reading it sees. */
  datatype Op<K, V> =
    | SetOp(key: K, value: V, ttl: nat, now: nat)
    | GetOp(key: K, now: nat)
    | RemoveOp(key: K)
    | SweepOp(now: nat)

  /** The cache state after one call. */
  function Step<K(==), V>(s: seq<Entry<K, V>>, capacity: int, defaultTTL: nat, op: Op<K, V>): seq<Entry<K, V>>
    requires Valid(s, capacity)
  {
    match op
    case SetOp(k, v, ttl, now) => Set(s, capacity, k, v, ExpiryFor(ttl, defaultTTL, now)).entries
    case GetOp(k, now) => Get(s, k, now).entries
    case RemoveOp(k) => Remove(s, k).entries
    case SweepOp(now) => Sweep(s, now)
  }

  /** Every call keeps the cache invariant. */
  lemma StepKeepsValid<K, V>(s: seq<Entry<K, V>>, capacity: int, defaultTTL: nat, op: Op<K, V>)
    requires Valid(s, capacity)
    ensures Valid(Step(s, capacity, defaultTTL, op), capacity)
  {
    match op
    case SetOp(k, v, ttl, now) =>
    case GetOp(k, now) => GetKeepsValid(s, capacity, k, now);
    case RemoveOp(k) => RemoveKeepsValid(s, capacity, k);
    case SweepOp(now) =>
  }

  /** The cache state after a whole trace of calls. */
  function Run<K(==), V>(s: seq<Entry<K, V>>, capacity: int, defaultTTL: nat, ops: seq<Op<K, V>>): (r: seq<Entry<K, V>>)
    requires Valid(s, capacity)
    ensures Valid(r, capacity)
    decreases |ops|
  {
    if ops == [] then s
    else
      StepKeepsValid(s, capacity, defaultTTL, ops[0]);
      Run(Step(s, capacity, defaultTTL, ops[0]), capacity, defaultTTL, ops[1..])
  }
}
