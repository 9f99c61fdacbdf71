/**
 * The TTL-aware LRU cache as a value. A cache state is the list of its
 * entries in recency order: index 0 is the front (most recently touched),
 * the last index is the back (the next entry to be evicted). Every
 * operation of the cache is a function from one state to the next; the
 * class in TtlCache is proved to follow these functions step by step.
 */
module LruSpec {
  import opened Wrappers

  /** Absolute expiry instant of an entry; `Never` when no TTL applies. */
  datatype Expiry = Never | At(instant: nat)

  datatype Entry<K, V> = Entry(key: K, value: V, expiresAt: Expiry)

  /** An entry is stale once the clock has reached its expiry instant. */
  predicate IsExpired(x: Expiry, now: nat)
  {
    x.At? && x.instant <= now
  }

  /** A zero TTL given to Set stands for the cache's default TTL. */
  function EffectiveTTL(ttl: nat, defaultTTL: nat): nat
  {
    if ttl == 0 then defaultTTL else ttl
  }

  /** The expiry of an entry written at `now`: it stays fresh for exactly
      the effective TTL, and forever when that TTL is zero too. */
  function ExpiryFor(ttl: nat, defaultTTL: nat, now: nat): (x: Expiry)
    ensures forall t: nat :: IsExpired(x, t) <==>
              0 < EffectiveTTL(ttl, defaultTTL) && now + EffectiveTTL(ttl, defaultTTL) <= t
  {
    var d := EffectiveTTL(ttl, defaultTTL);
    if d == 0 then Never else At(now + d)
  }

  predicate DistinctKeys<K(==), V>(s: seq<Entry<K, V>>)
  {
    forall i, j :: 0 <= i < j < |s| ==> s[i].key != s[j].key
  }

  /** The number of entries a cache of this capacity may hold; a
      non-positive capacity gives the disabled cache, which holds none. */
  function Limit(capacity: int): nat
  {
    if capacity > 0 then capacity else 0
  }

  /** The cache invariant: one entry per key, and no more entries than the capacity. */
  predicate Valid<K(==), V>(s: seq<Entry<K, V>>, capacity: int)
  {
    DistinctKeys(s) && |s| <= Limit(capacity)
  }

  /** Position of key `k` in the recency order, or -1 when it is absent. */
  function Find<K(==), V>(s: seq<Entry<K, V>>, k: K): (i: int)
    ensures -1 <= i < |s|
    ensures 0 <= i ==> s[i].key == k
    ensures i < 0 <==> forall j :: 0 <= j < |s| ==> s[j].key != k
  {
    if |s| == 0 then -1
    else if s[0].key == k then 0
    else
      var r := Find(s[1..], k);
      if r < 0 then -1 else r + 1
  }

  /** With unique keys, the position holding a key is the one Find reports. */
  lemma FindUnique<K, V>(s: seq<Entry<K, V>>, i: nat)
    requires DistinctKeys(s) && i < |s|
    ensures Find(s, s[i].key) == i
  {
  }

  /** The order without the element at position `i`. */
  function Delete<T>(s: seq<T>, i: nat): (r: seq<T>)
    requires i < |s|
    ensures |r| == |s| - 1
    ensures forall j {:trigger r[j]} :: 0 <= j < i ==> r[j] == s[j]
    ensures forall j {:trigger r[j]} :: i <= j < |r| ==> r[j] == s[j + 1]
    ensures multiset(r) + multiset{s[i]} == multiset(s)
  {
    assert s == s[..i] + [s[i]] + s[i + 1..];
    s[..i] + s[i + 1..]
  }

  /** Promote-to-front: the element at `i` moves to the front, those before
      it move back one place, those after it stay where they are. */
  function Promote<T>(s: seq<T>, i: nat): (r: seq<T>)
    requires i < |s|
    ensures |r| == |s| && r[0] == s[i]
    ensures forall j {:trigger r[j]} :: 0 < j <= i ==> r[j] == s[j - 1]
    ensures forall j {:trigger r[j]} :: i < j < |s| ==> r[j] == s[j]
    ensures multiset(r) == multiset(s)
  {
    [s[i]] + Delete(s, i)
  }

  /** Demote-to-back: the element at `i` moves to the back, those after it
      move forward one place, those before it stay where they are. */
  function Demote<T>(s: seq<T>, i: nat): (r: seq<T>)
    requires i < |s|
    ensures |r| == |s| && r[|s| - 1] == s[i]
    ensures forall j {:trigger r[j]} :: 0 <= j < i ==> r[j] == s[j]
    ensures forall j {:trigger r[j]} :: i <= j < |s| - 1 ==> r[j] == s[j + 1]
    ensures multiset(r) == multiset(s)
  {
    Delete(s, i) + [s[i]]
  }

  /** Promote and Demote are a deletion followed by a re-insertion at either end. */
  lemma PromoteDemoteAsDelete<T>(s: seq<T>, i: nat)
    requires i < |s|
    ensures Promote(s, i) == [s[i]] + Delete(s, i)
    ensures Demote(s, i) == Delete(s, i) + [s[i]]
  {
  }

  /** Overwriting an element and promoting it is the same as putting the new
      element in front of the order without the old one. */
  lemma PromoteOverwritten<T>(s: seq<T>, i: nat, x: T)
    requires i < |s|
    ensures Promote(s[i := x], i) == [x] + Delete(s, i)
  {
    var r, d := Promote(s[i := x], i), [x] + Delete(s, i);
    forall j | 0 <= j < |r| ensures r[j] == d[j] {
      if 0 < j { assert d[j] == Delete(s, i)[j - 1]; }
    }
  }

  /** Deleting behind a new front element leaves that element in front. */
  lemma DeleteBehindFront<T>(x: T, s: seq<T>, i: nat)
    requires i < |s|
    ensures Delete([x] + s, i + 1) == [x] + Delete(s, i)
  {
    var r, d := Delete([x] + s, i + 1), [x] + Delete(s, i);
    forall j | 0 <= j < |r| ensures r[j] == d[j] {
      if 0 < j { assert d[j] == Delete(s, i)[j - 1]; }
    }
  }

  /** Demoting the element that follows the prefix `a` moves it to the very
      back, behind `b` and `c`. */
  lemma DemoteAfter<T>(a: seq<T>, x: T, b: seq<T>, c: seq<T>)
    ensures Demote(a + [x] + (b + c), |a|) == a + b + (c + [x])
  {
    var r, d := Demote(a + [x] + (b + c), |a|), a + b + (c + [x]);
    forall j | 0 <= j < |r| ensures r[j] == d[j] {
      if j < |a| {
        assert d[j] == a[j];
      } else if j < |a| + |b| {
        assert d[j] == b[j - |a|];
      } else if j < |a| + |b| + |c| {
        assert d[j] == c[j - |a| - |b|];
      }
    }
  }

  datatype SetOutcome<K, V> = SetOutcome(entries: seq<Entry<K, V>>, created: bool, evicted: Option<(K, V)>)

  datatype GetOutcome<K, V> = GetOutcome(entries: seq<Entry<K, V>>, value: Option<V>, stale: bool)

  datatype RemoveOutcome<K, V> = RemoveOutcome(entries: seq<Entry<K, V>>, found: bool)

  /** Set: overwrite and promote an existing key, or insert a new key at the
      front and evict the back entry when that overflows the capacity. The
      disabled cache ignores the call. */
  function Set<K(==), V>(s: seq<Entry<K, V>>, capacity: int, k: K, v: V, x: Expiry): (r: SetOutcome<K, V>)
    requires Valid(s, capacity)
    ensures Valid(r.entries, capacity)
    ensures r.created <==> capacity > 0 && Find(s, k) < 0
    ensures capacity <= 0 ==> r == SetOutcome(s, false, None)
    ensures capacity > 0 ==> |r.entries| > 0 && r.entries[0] == Entry(k, v, x)
    ensures !r.created && capacity > 0 ==> r.entries[1..] == Delete(s, Find(s, k)) && r.evicted == None
    ensures r.evicted.Some? <==> r.created && |s| == capacity
    ensures r.created && r.evicted == None ==> r.entries[1..] == s
    ensures r.evicted.Some? ==>
              r.evicted.value == (s[|s| - 1].key, s[|s| - 1].value) && r.entries[1..] == Delete(s, |s| - 1)
  {
    if capacity <= 0 then SetOutcome(s, false, None)
    else
      var i := Find(s, k);
      if i >= 0 then
        DeleteKeepsDistinct(s, i);
        ConcatKeepsDistinct([Entry(k, v, x)], Delete(s, i));
        SetOutcome([Entry(k, v, x)] + Delete(s, i), false, None)
      else if |s| < capacity then
        ConcatKeepsDistinct([Entry(k, v, x)], s);
        SetOutcome([Entry(k, v, x)] + s, true, None)
      else
        var victim := s[|s| - 1];
        DeleteKeepsDistinct(s, |s| - 1);
        ConcatKeepsDistinct([Entry(k, v, x)], Delete(s, |s| - 1));
        SetOutcome([Entry(k, v, x)] + Delete(s, |s| - 1), true, Some((victim.key, victim.value)))
  }

  lemma DeleteKeepsDistinct<K, V>(s: seq<Entry<K, V>>, i: nat)
    requires DistinctKeys(s) && i < |s|
    ensures DistinctKeys(Delete(s, i))
    ensures forall j :: 0 <= j < |s| - 1 ==> Delete(s, i)[j].key != s[i].key
  {
    var r := Delete(s, i);
    forall a, b | 0 <= a < b < |r| ensures r[a].key != r[b].key {
      var a' := if a < i then a else a + 1;
      var b' := if b < i then b else b + 1;
      assert r[a] == s[a'] && r[b] == s[b'];
    }
    forall j | 0 <= j < |r| ensures r[j].key != s[i].key {
      assert r[j] == s[if j < i then j else j + 1];
    }
  }

  /** Two key-disjoint orders with unique keys join into one with unique keys. */
  lemma ConcatKeepsDistinct<K, V>(a: seq<Entry<K, V>>, b: seq<Entry<K, V>>)
    requires DistinctKeys(a) && DistinctKeys(b)
    requires forall i, j :: 0 <= i < |a| && 0 <= j < |b| ==> a[i].key != b[j].key
    ensures DistinctKeys(a + b)
  {
    var r := a + b;
    forall x, y | 0 <= x < y < |r| ensures r[x].key != r[y].key {
      if y < |a| {
        assert r[x] == a[x] && r[y] == a[y];
      } else if x < |a| {
        assert r[x] == a[x] && r[y] == b[y - |a|];
      } else {
        assert r[x] == b[x - |a|] && r[y] == b[y - |a|];
      }
    }
  }

  /** Get: a miss leaves the order alone; a fresh hit is promoted to the
      front; a stale hit is demoted to the back but still returned. */
  function Get<K(==), V>(s: seq<Entry<K, V>>, k: K, now: nat): (r: GetOutcome<K, V>)
    ensures r.value.None? <==> Find(s, k) < 0
    ensures r.value.None? ==> !r.stale && r.entries == s
    ensures Find(s, k) >= 0 ==>
              r.value == Some(s[Find(s, k)].value) &&
              (r.stale <==> IsExpired(s[Find(s, k)].expiresAt, now))
    ensures r.stale ==> r.entries == Demote(s, Find(s, k))
    ensures r.value.Some? && !r.stale ==> r.entries == Promote(s, Find(s, k))
    ensures multiset(r.entries) == multiset(s)
  {
    var i := Find(s, k);
    if i < 0 then GetOutcome(s, None, false)
    else if IsExpired(s[i].expiresAt, now) then GetOutcome(Demote(s, i), Some(s[i].value), true)
    else GetOutcome(Promote(s, i), Some(s[i].value), false)
  }

  /** Remove: delete the key's entry if there is one, and say whether there was. */
  function Remove<K(==), V>(s: seq<Entry<K, V>>, k: K): (r: RemoveOutcome<K, V>)
    ensures r.found <==> Find(s, k) >= 0
    ensures !r.found ==> r.entries == s
    ensures r.found ==> r.entries == Delete(s, Find(s, k))
    ensures DistinctKeys(s) ==> Find(r.entries, k) < 0
  {
    var i := Find(s, k);
    if i < 0 then RemoveOutcome(s, false)
    else RemoveOutcome(Delete(s, i), true)
  }

  /** The entries whose staleness at `now` is `expired`, in their order. */
  function WithStatus<K, V>(s: seq<Entry<K, V>>, now: nat, expired: bool): (r: seq<Entry<K, V>>)
    ensures |r| <= |s|
  {
    if s == [] then []
    else
      var last := s[|s| - 1];
      WithStatus(s[..|s| - 1], now, expired) + (if IsExpired(last.expiresAt, now) == expired then [last] else [])
  }

  /** The filter keeps only entries of the order, and only those of the requested status. */
  lemma {:induction false} WithStatusMembers<K, V>(s: seq<Entry<K, V>>, now: nat, expired: bool)
    ensures forall e :: e in WithStatus(s, now, expired) ==> e in s && IsExpired(e.expiresAt, now) == expired
  {
    if s != [] {
      var p, last := s[..|s| - 1], s[|s| - 1];
      WithStatusMembers(p, now, expired);
      forall e | e in WithStatus(s, now, expired)
        ensures e in s && IsExpired(e.expiresAt, now) == expired
      {
        if e in WithStatus(p, now, expired) {
          assert e in p;
        }
      }
    }
  }

  /** Filtering one more element of a prefix appends it or not. */
  lemma WithStatusStep<K, V>(s: seq<Entry<K, V>>, m: nat, now: nat, expired: bool)
    requires m < |s|
    ensures WithStatus(s[..m + 1], now, expired) ==
            WithStatus(s[..m], now, expired) + (if IsExpired(s[m].expiresAt, now) == expired then [s[m]] else [])
  {
    assert s[..m + 1][..m] == s[..m];
  }

  /** Filtering distributes over concatenation. */
  lemma {:induction false} WithStatusAppend<K, V>(a: seq<Entry<K, V>>, b: seq<Entry<K, V>>, now: nat, expired: bool)
    ensures WithStatus(a + b, now, expired) == WithStatus(a, now, expired) + WithStatus(b, now, expired)
  {
    if b == [] {
      assert a + b == a;
    } else {
      assert (a + b)[..|a + b| - 1] == a + b[..|b| - 1];
      WithStatusAppend(a, b[..|b| - 1], now, expired);
    }
  }

  /** Every entry is either live or expired: the two filters split the order. */
  lemma {:induction false} WithStatusSplit<K, V>(s: seq<Entry<K, V>>, now: nat)
    ensures multiset(WithStatus(s, now, false)) + multiset(WithStatus(s, now, true)) == multiset(s)
  {
    if s != [] {
      WithStatusSplit(s[..|s| - 1], now);
      assert s == s[..|s| - 1] + [s[|s| - 1]];
    }
  }

  /** Every entry passes exactly one of the two filters. */
  lemma {:induction false} WithStatusLength<K, V>(s: seq<Entry<K, V>>, now: nat)
    ensures |WithStatus(s, now, false)| + |WithStatus(s, now, true)| == |s|
  {
    if s != [] {
      WithStatusLength(s[..|s| - 1], now);
    }
  }

  /** On an order whose entries all have the same status, filtering is the identity or empties it. */
  lemma {:induction false} WithStatusUniform<K, V>(s: seq<Entry<K, V>>, now: nat, expired: bool)
    requires forall e :: e in s ==> IsExpired(e.expiresAt, now) == expired
    ensures WithStatus(s, now, expired) == s
    ensures WithStatus(s, now, !expired) == []
  {
    if s != [] {
      var p, last := s[..|s| - 1], s[|s| - 1];
      assert last in s;
      forall e | e in p ensures IsExpired(e.expiresAt, now) == expired {
        assert e in s;
      }
      WithStatusUniform(p, now, expired);
      assert WithStatus(s, now, expired) == WithStatus(p, now, expired) + [last];
      assert WithStatus(s, now, !expired) == WithStatus(p, now, !expired);
      assert s == p + [last];
    }
  }

  /** A filtered order keeps unique keys. */
  lemma {:induction false} WithStatusKeepsDistinct<K, V>(s: seq<Entry<K, V>>, now: nat, expired: bool)
    requires DistinctKeys(s)
    ensures DistinctKeys(WithStatus(s, now, expired))
  {
    if s != [] {
      var p, last := s[..|s| - 1], s[|s| - 1];
      assert DistinctKeys(p);
      WithStatusKeepsDistinct(p, now, expired);
      WithStatusMembers(p, now, expired);
      var f := WithStatus(p, now, expired);
      forall i | 0 <= i < |f| ensures f[i].key != last.key {
        assert f[i] in p;
      }
      ConcatKeepsDistinct(f, if IsExpired(last.expiresAt, now) == expired then [last] else []);
    }
  }

  /** The expiry sweep: every expired entry moves to the back of the order,
      nothing is deleted, and live and expired entries each keep their
      relative order. */
  function Sweep<K, V>(s: seq<Entry<K, V>>, now: nat): (r: seq<Entry<K, V>>)
    ensures multiset(r) == multiset(s) && |r| == |s|
    ensures forall i, j :: 0 <= i < j < |r| && IsExpired(r[i].expiresAt, now) ==> IsExpired(r[j].expiresAt, now)
    ensures WithStatus(r, now, false) == WithStatus(s, now, false)
    ensures WithStatus(r, now, true) == WithStatus(s, now, true)
    ensures DistinctKeys(s) ==> DistinctKeys(r)
  {
    var live, expired := WithStatus(s, now, false), WithStatus(s, now, true);
    WithStatusSplit(s, now);
    assert |multiset(live + expired)| == |live + expired|;
    WithStatusAppend(live, expired, now, false);
    WithStatusAppend(live, expired, now, true);
    WithStatusMembers(s, now, false);
    WithStatusMembers(s, now, true);
    WithStatusUniform(live, now, false);
    WithStatusUniform(expired, now, true);
    SweepOrdered(live, expired, now);
    SweepKeepsDistinct(s, now);
    live + expired
  }

  /** The order part-way through a sweep that has visited the first `m`
      entries of `s`: the visited live entries, then the unvisited ones,
      then the visited expired entries. */
  function SweepPartial<K, V>(s: seq<Entry<K, V>>, m: nat, now: nat): (r: seq<Entry<K, V>>)
    requires m <= |s|
    ensures |r| == |s|
  {
    WithStatusLength(s[..m], now);
    WithStatus(s[..m], now, false) + s[m..] + WithStatus(s[..m], now, true)
  }

  /** Visiting entry `m`: it sits right after the visited live entries; an
      expired one is demoted to the back, a live one stays in place. */
  lemma {:induction false} SweepStep<K, V>(s: seq<Entry<K, V>>, m: nat, now: nat)
    requires m < |s|
    ensures var p := |WithStatus(s[..m], now, false)|;
            p < |s| && SweepPartial(s, m, now)[p] == s[m] &&
            (IsExpired(s[m].expiresAt, now) ==>
               |WithStatus(s[..m + 1], now, false)| == p &&
               SweepPartial(s, m + 1, now) == Demote(SweepPartial(s, m, now), p)) &&
            (!IsExpired(s[m].expiresAt, now) ==>
               |WithStatus(s[..m + 1], now, false)| == p + 1 &&
               SweepPartial(s, m + 1, now) == SweepPartial(s, m, now))
  {
    var pre, x, rest := s[..m], s[m], s[m + 1..];
    var live, expired := WithStatus(pre, now, false), WithStatus(pre, now, true);
    WithStatusLength(pre, now);
    WithStatusStep(s, m, now, false);
    WithStatusStep(s, m, now, true);
    assert s[m..] == [x] + rest;
    var cur := SweepPartial(s, m, now);
    assert cur == live + [x] + (rest + expired);
    assert cur[|live|] == x;
    if IsExpired(x.expiresAt, now) {
      DemoteAfter(live, x, rest, expired);
      assert WithStatus(s[..m + 1], now, false) == live;
      assert WithStatus(s[..m + 1], now, true) == expired + [x];
    } else {
      assert WithStatus(s[..m + 1], now, false) == live + [x];
      assert WithStatus(s[..m + 1], now, true) == expired;
    }
  }

  /** A sweep that has visited no entry has not changed the order. */
  lemma SweepStart<K, V>(s: seq<Entry<K, V>>, now: nat)
    ensures SweepPartial(s, 0, now) == s
  {
    assert s[..0] == [];
  }

  /** A sweep that has visited every entry has produced Sweep. */
  lemma SweepComplete<K, V>(s: seq<Entry<K, V>>, now: nat)
    ensures SweepPartial(s, |s|, now) == Sweep(s, now)
  {
    assert s[..|s|] == s && s[|s|..] == [];
  }

  lemma SweepOrdered<K, V>(live: seq<Entry<K, V>>, expired: seq<Entry<K, V>>, now: nat)
    requires forall e :: e in live ==> !IsExpired(e.expiresAt, now)
    requires forall e :: e in expired ==> IsExpired(e.expiresAt, now)
    ensures forall i, j :: 0 <= i < j < |live + expired| && IsExpired((live + expired)[i].expiresAt, now) ==>
              IsExpired((live + expired)[j].expiresAt, now)
  {
    var r := live + expired;
    forall i | 0 <= i < |live| ensures !IsExpired(r[i].expiresAt, now) {
      assert r[i] == live[i] && live[i] in live;
    }
    forall j | |live| <= j < |r| ensures IsExpired(r[j].expiresAt, now) {
      assert r[j] == expired[j - |live|] && expired[j - |live|] in expired;
    }
  }

  lemma SweepKeepsDistinct<K, V>(s: seq<Entry<K, V>>, now: nat)
    ensures DistinctKeys(s) ==> DistinctKeys(WithStatus(s, now, false) + WithStatus(s, now, true))
  {
    if !DistinctKeys(s) { return; }
    var live, expired := WithStatus(s, now, false), WithStatus(s, now, true);
    WithStatusKeepsDistinct(s, now, false);
    WithStatusKeepsDistinct(s, now, true);
    WithStatusMembers(s, now, false);
    WithStatusMembers(s, now, true);
    forall i, j | 0 <= i < |live| && 0 <= j < |expired| ensures live[i].key != expired[j].key {
      assert live[i] in s && expired[j] in s;
      assert live[i] != expired[j];
    }
    ConcatKeepsDistinct(live, expired);
  }
}
