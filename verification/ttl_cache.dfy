/**
 * The cache object of package ttlcache. The recency list is a doubly-linked
 * list laid out in arrays (an arena of slots with prev/next slot numbers),
 * the index `table` maps each key to the slot of its entry, and a stack of
 * unused slots supplies the slot for a new entry. The ghost fields give the
 * abstract view: `Slots` lists the used slots from front to back and
 * `Contents` lists their entries, so that every operation can be stated as
 * the matching function of LruSpec applied to `Contents`.
 */
module TtlCache {
  import opened Wrappers
  import opened LruSpec

  /** The slot after position `i` of the order `s`, -1 at the back. */
  ghost function NextIn(s: seq<int>, i: nat): int
    requires i < |s|
  {
    if i + 1 < |s| then s[i + 1] else -1
  }

  /** The slot before position `i` of the order `s`, -1 at the front. */
  ghost function PrevIn(s: seq<int>, i: nat): int
    requires i < |s|
  {
    if 0 < i then s[i - 1] else -1
  }

  /** No slot occurs twice in `s`. Stated by recursion on the last element,
      so that the solver only unfolds it on demand; NoDupIff gives the
      pairwise form. */
  ghost predicate NoDup(s: seq<int>)
  {
    |s| == 0 || (s[|s| - 1] !in s[..|s| - 1] && NoDup(s[..|s| - 1]))
  }

  lemma {:induction false} NoDupIff(s: seq<int>)
    ensures NoDup(s) <==> forall i, j :: 0 <= i < j < |s| ==> s[i] != s[j]
  {
    if |s| > 0 {
      var p, last := s[..|s| - 1], s[|s| - 1];
      NoDupIff(p);
      if NoDup(s) {
        forall i, j | 0 <= i < j < |s| ensures s[i] != s[j] {
          assert s[i] == p[i];
          if j < |s| - 1 {
            assert s[j] == p[j];
          } else {
            assert s[i] in p;
          }
        }
      }
      if forall i, j :: 0 <= i < j < |s| ==> s[i] != s[j] {
        forall i, j | 0 <= i < j < |p| ensures p[i] != p[j] {
          assert p[i] == s[i] && p[j] == s[j];
        }
      }
    }
  }

  /** The slots of `s` are distinct arena slots below `size`. */
  ghost predicate SlotsOk(s: seq<int>, size: int)
  {
    (forall i :: 0 <= i < |s| ==> 0 <= s[i] < size) && NoDup(s)
  }

  /** `nx` (the next slot of every slot) chains the slots of `s` front to back. */
  ghost predicate NextOk(s: seq<int>, nx: seq<int>)
    requires SlotsOk(s, |nx|)
  {
    forall i {:trigger nx[s[i]]} :: 0 <= i < |s| ==> nx[s[i]] == NextIn(s, i)
  }

  /** `pv` (the prev slot of every slot) chains the slots of `s` back to front. */
  ghost predicate PrevOk(s: seq<int>, pv: seq<int>)
    requires SlotsOk(s, |pv|)
  {
    forall i {:trigger pv[s[i]]} :: 0 <= i < |s| ==> pv[s[i]] == PrevIn(s, i)
  }

  ghost predicate LinksOk(s: seq<int>, nx: seq<int>, pv: seq<int>)
  {
    |nx| == |pv| && SlotsOk(s, |nx|) && NextOk(s, nx) && PrevOk(s, pv)
  }

  lemma SlotsAfterDelete(s: seq<int>, size: int, i: nat)
    requires SlotsOk(s, size) && i < |s|
    ensures SlotsOk(Delete(s, i), size)
    ensures s[i] !in Delete(s, i)
  {
    var r := Delete(s, i);
    NoDupIff(s);
    NoDupIff(r);
    forall a | 0 <= a < |r| ensures r[a] != s[i] {
      assert r[a] == s[if a < i then a else a + 1];
    }
    forall a, b | 0 <= a < b < |r| ensures r[a] != r[b] {
      assert r[a] == s[if a < i then a else a + 1];
      assert r[b] == s[if b < i then b else b + 1];
    }
  }

  /** Unlinking position `i`: its predecessor now points to its successor. */
  lemma NextAfterUnlink(s: seq<int>, nx: seq<int>, i: nat)
    requires SlotsOk(s, |nx|) && NextOk(s, nx) && i < |s|
    ensures SlotsOk(Delete(s, i), |nx|)
    ensures var p, n := PrevIn(s, i), NextIn(s, i);
            NextOk(Delete(s, i), if p == -1 then nx else nx[p := n])
  {
    NoDupIff(s);
    SlotsAfterDelete(s, |nx|, i);
    var p, n := PrevIn(s, i), NextIn(s, i);
    var nx' := if p == -1 then nx else nx[p := n];
    var r := Delete(s, i);
    forall a | 0 <= a < |r| ensures nx'[r[a]] == NextIn(r, a) {
      if a + 1 < i {
        assert r[a] == s[a] && r[a + 1] == s[a + 1] && s[a] != p;
        assert nx[s[a]] == NextIn(s, a);
      } else if a + 1 == i {
        assert r[a] == p;
        if a + 1 < |r| { assert r[a + 1] == s[a + 2]; }
      } else {
        assert r[a] == s[a + 1] && s[a + 1] != p;
        assert nx[s[a + 1]] == NextIn(s, a + 1);
        if a + 1 < |r| { assert r[a + 1] == s[a + 2]; }
      }
    }
  }

  /** Unlinking position `i`: its successor now points back to its predecessor. */
  lemma PrevAfterUnlink(s: seq<int>, pv: seq<int>, i: nat)
    requires SlotsOk(s, |pv|) && PrevOk(s, pv) && i < |s|
    ensures SlotsOk(Delete(s, i), |pv|)
    ensures var p, n := PrevIn(s, i), NextIn(s, i);
            PrevOk(Delete(s, i), if n == -1 then pv else pv[n := p])
  {
    NoDupIff(s);
    SlotsAfterDelete(s, |pv|, i);
    var p, n := PrevIn(s, i), NextIn(s, i);
    var pv' := if n == -1 then pv else pv[n := p];
    var r := Delete(s, i);
    forall a | 0 <= a < |r| ensures pv'[r[a]] == PrevIn(r, a) {
      if a < i {
        assert r[a] == s[a] && s[a] != n;
        assert pv[s[a]] == PrevIn(s, a);
        if 0 < a { assert r[a - 1] == s[a - 1]; }
      } else if a == i {
        assert r[a] == n;
        if 0 < a { assert r[a - 1] == s[a - 1]; }
      } else {
        assert r[a] == s[a + 1] && r[a - 1] == s[a] && s[a + 1] != n;
        assert pv[s[a + 1]] == PrevIn(s, a + 1);
      }
    }
  }

  lemma LinksAfterUnlink(s: seq<int>, nx: seq<int>, pv: seq<int>, i: nat)
    requires LinksOk(s, nx, pv) && i < |s|
    ensures var p, n := PrevIn(s, i), NextIn(s, i);
            LinksOk(Delete(s, i), if p == -1 then nx else nx[p := n], if n == -1 then pv else pv[n := p])
  {
    NextAfterUnlink(s, nx, i);
    PrevAfterUnlink(s, pv, i);
  }

  /** Linking the unused slot `j` in front of the old front. */
  lemma LinksAfterLinkFront(s: seq<int>, nx: seq<int>, pv: seq<int>, j: int)
    requires LinksOk(s, nx, pv) && 0 <= j < |nx| && j !in s
    ensures var h := if s == [] then -1 else s[0];
            LinksOk([j] + s, nx[j := h], if h == -1 then pv[j := -1] else pv[j := -1][h := j])
  {
    NoDupIff(s);
    NoDupIff([j] + s);
    var h := if s == [] then -1 else s[0];
    var nx', pv' := nx[j := h], if h == -1 then pv[j := -1] else pv[j := -1][h := j];
    var r := [j] + s;
    forall a, b | 0 <= a < b < |r| ensures r[a] != r[b] {
      assert r[b] == s[b - 1];
      if 0 < a { assert r[a] == s[a - 1]; }
    }
    forall a | 0 <= a < |r| ensures nx'[r[a]] == NextIn(r, a) {
      if 0 < a {
        assert r[a] == s[a - 1] && s[a - 1] != j;
        assert nx[s[a - 1]] == NextIn(s, a - 1);
        if a + 1 < |r| { assert r[a + 1] == s[a]; }
      }
    }
    forall a | 0 <= a < |r| ensures pv'[r[a]] == PrevIn(r, a) {
      if 1 < a {
        assert r[a] == s[a - 1] && r[a - 1] == s[a - 2] && s[a - 1] != j && s[a - 1] != h;
        assert pv[s[a - 1]] == PrevIn(s, a - 1);
      }
    }
  }

  /** Linking the unused slot `j` behind the old back. */
  lemma LinksAfterLinkBack(s: seq<int>, nx: seq<int>, pv: seq<int>, j: int)
    requires LinksOk(s, nx, pv) && 0 <= j < |nx| && j !in s
    ensures var t := if s == [] then -1 else s[|s| - 1];
            LinksOk(s + [j], if t == -1 then nx[j := -1] else nx[j := -1][t := j], pv[j := t])
  {
    NoDupIff(s);
    NoDupIff(s + [j]);
    var t := if s == [] then -1 else s[|s| - 1];
    var nx', pv' := if t == -1 then nx[j := -1] else nx[j := -1][t := j], pv[j := t];
    var r := s + [j];
    forall a, b | 0 <= a < b < |r| ensures r[a] != r[b] {
      assert r[a] == s[a];
      if b < |s| { assert r[b] == s[b]; }
    }
    forall a | 0 <= a < |r| ensures nx'[r[a]] == NextIn(r, a) {
      if a + 1 < |s| {
        assert r[a] == s[a] && r[a + 1] == s[a + 1] && s[a] != j && s[a] != t;
        assert nx[s[a]] == NextIn(s, a);
      }
    }
    forall a | 0 <= a < |r| ensures pv'[r[a]] == PrevIn(r, a) {
      if a < |s| {
        assert r[a] == s[a] && s[a] != j;
        assert pv[s[a]] == PrevIn(s, a);
        if 0 < a { assert r[a - 1] == s[a - 1]; }
      }
    }
  }

  /** Each listed slot is a used slot holding the matching listed entry, and
      the index maps that entry's key back to the slot. */
  ghost predicate Paired<K, V>(s: seq<int>, c: seq<Entry<K, V>>, es: seq<Option<Entry<K, V>>>, t: map<K, int>, u: set<int>)
  {
    |s| == |c| &&
    forall a :: 0 <= a < |s| ==>
      s[a] in u && 0 <= s[a] < |es| && es[s[a]] == Some(c[a]) && c[a].key in t && t[c[a].key] == s[a]
  }

  /** Every key of the index names a used slot holding an entry with that key. */
  ghost predicate Indexed<K, V>(u: set<int>, es: seq<Option<Entry<K, V>>>, t: map<K, int>)
  {
    forall k :: k in t ==> t[k] in u && 0 <= t[k] < |es| && es[t[k]].Some? && es[t[k]].value.key == k
  }

  /** The first `n` cells of `fr` are the unused slots: distinct arena slots
      outside `u`, and with `u` they account for the whole arena. */
  ghost predicate FreeOk(u: set<int>, fr: seq<int>, n: int)
  {
    0 <= n <= |fr| && |u| + n == |fr| &&
    (forall f :: 0 <= f < n ==> 0 <= fr[f] < |fr| && fr[f] !in u) &&
    (forall f, g :: 0 <= f < g < n ==> fr[f] != fr[g])
  }

  /** Distinct slots drawn from `u` are no more than `u` has. */
  lemma {:induction false} CardBound(s: seq<int>, u: set<int>)
    requires NoDup(s) && forall a :: 0 <= a < |s| ==> s[a] in u
    ensures |s| <= |u|
  {
    if |s| > 0 {
      var p, last := s[..|s| - 1], s[|s| - 1];
      forall a | 0 <= a < |p| ensures p[a] in u - {last} {
        assert p[a] == s[a];
      }
      CardBound(p, u - {last});
    }
  }

  /** As many distinct listed slots as used slots: every used slot is listed. */
  lemma UsedAreListed(s: seq<int>, u: set<int>)
    requires NoDup(s) && |u| == |s| && forall a :: 0 <= a < |s| ==> s[a] in u
    ensures forall x :: x in u ==> x in s
  {
    forall x | x in u ensures x in s {
      if x !in s {
        CardBound(s, u - {x});
      }
    }
  }

  lemma PairedPromote<K, V>(s: seq<int>, c: seq<Entry<K, V>>, es: seq<Option<Entry<K, V>>>, t: map<K, int>, u: set<int>, i: nat)
    requires Paired(s, c, es, t, u) && i < |s|
    ensures Paired(Promote(s, i), Promote(c, i), es, t, u)
  {
    var s', c' := Promote(s, i), Promote(c, i);
    forall a | 0 <= a < |s'|
      ensures s'[a] in u && 0 <= s'[a] < |es| && es[s'[a]] == Some(c'[a]) && c'[a].key in t && t[c'[a].key] == s'[a]
    {
      if a == 0 {
        assert s'[a] == s[i] && c'[a] == c[i];
      } else if a <= i {
        assert s'[a] == s[a - 1] && c'[a] == c[a - 1];
      } else {
        assert s'[a] == s[a] && c'[a] == c[a];
      }
    }
  }

  lemma PairedDemote<K, V>(s: seq<int>, c: seq<Entry<K, V>>, es: seq<Option<Entry<K, V>>>, t: map<K, int>, u: set<int>, i: nat)
    requires Paired(s, c, es, t, u) && i < |s|
    ensures Paired(Demote(s, i), Demote(c, i), es, t, u)
  {
    var s', c' := Demote(s, i), Demote(c, i);
    forall a | 0 <= a < |s'|
      ensures s'[a] in u && 0 <= s'[a] < |es| && es[s'[a]] == Some(c'[a]) && c'[a].key in t && t[c'[a].key] == s'[a]
    {
      var b := if a == |s| - 1 then i else if a < i then a else a + 1;
      assert s'[a] == s[b] && c'[a] == c[b];
    }
  }

  /** Dropping position `i`: its slot is emptied and no longer used, and its
      key leaves the index. */
  lemma PairedDelete<K, V>(s: seq<int>, c: seq<Entry<K, V>>, es: seq<Option<Entry<K, V>>>, t: map<K, int>, u: set<int>, i: nat)
    requires Paired(s, c, es, t, u) && NoDup(s) && i < |s|
    ensures Paired(Delete(s, i), Delete(c, i), es[s[i] := None], t - {c[i].key}, u - {s[i]})
  {
    NoDupIff(s);
    var s', c' := Delete(s, i), Delete(c, i);
    var es', t', u' := es[s[i] := None], t - {c[i].key}, u - {s[i]};
    forall a | 0 <= a < |s'|
      ensures s'[a] in u' && 0 <= s'[a] < |es'| && es'[s'[a]] == Some(c'[a]) && c'[a].key in t' && t'[c'[a].key] == s'[a]
    {
      var b := if a < i then a else a + 1;
      assert s'[a] == s[b] && c'[a] == c[b];
      assert s[b] != s[i];
    }
  }

  /** Listing the unused slot `j` first, holding the entry `e` of a new key. */
  lemma PairedCons<K, V>(s: seq<int>, c: seq<Entry<K, V>>, es: seq<Option<Entry<K, V>>>, t: map<K, int>, u: set<int>, j: int, e: Entry<K, V>)
    requires Paired(s, c, es, t, u) && 0 <= j < |es| && j !in u && e.key !in t
    ensures Paired([j] + s, [e] + c, es[j := Some(e)], t[e.key := j], u + {j})
  {
    var s', c' := [j] + s, [e] + c;
    var es', t' := es[j := Some(e)], t[e.key := j];
    forall a | 0 <= a < |s'|
      ensures s'[a] in u + {j} && 0 <= s'[a] < |es'| && es'[s'[a]] == Some(c'[a]) && c'[a].key in t' && t'[c'[a].key] == s'[a]
    {
      if 0 < a {
        assert s'[a] == s[a - 1] && c'[a] == c[a - 1];
      }
    }
  }

  /** Overwriting the entry at position `i` with one of the same key. */
  lemma PairedOverwrite<K, V>(s: seq<int>, c: seq<Entry<K, V>>, es: seq<Option<Entry<K, V>>>, t: map<K, int>, u: set<int>, i: nat, e: Entry<K, V>)
    requires Paired(s, c, es, t, u) && NoDup(s) && i < |s| && e.key == c[i].key
    ensures Paired(s, c[i := e], es[s[i] := Some(e)], t, u)
  {
    NoDupIff(s);
    var c', es' := c[i := e], es[s[i] := Some(e)];
    forall a | 0 <= a < |s|
      ensures s[a] in u && 0 <= s[a] < |es'| && es'[s[a]] == Some(c'[a]) && c'[a].key in t && t[c'[a].key] == s[a]
    {
      if a != i {
        assert s[a] != s[i];
      }
    }
  }

  /** Dropping key `k` and emptying its slot keeps the rest of the index sound. */
  lemma IndexedDelete<K, V>(u: set<int>, es: seq<Option<Entry<K, V>>>, t: map<K, int>, k: K)
    requires Indexed(u, es, t) && k in t
    ensures Indexed(u - {t[k]}, es[t[k] := None], t - {k})
  {
    forall k' | k' in t - {k} ensures t[k'] != t[k] {
      assert es[t[k']].value.key == k';
    }
  }

  /** Indexing a new key at an unused slot that now holds its entry. */
  lemma IndexedCons<K, V>(u: set<int>, es: seq<Option<Entry<K, V>>>, t: map<K, int>, j: int, e: Entry<K, V>)
    requires Indexed(u, es, t) && 0 <= j < |es| && j !in u
    ensures Indexed(u + {j}, es[j := Some(e)], t[e.key := j])
  {
  }

  /** Popping the top unused slot and marking it used. */
  lemma FreePop(u: set<int>, fr: seq<int>, n: int)
    requires FreeOk(u, fr, n) && 0 < n
    ensures 0 <= fr[n - 1] < |fr| && fr[n - 1] !in u
    ensures FreeOk(u + {fr[n - 1]}, fr, n - 1)
  {
    forall f | 0 <= f < n - 1 ensures fr[f] != fr[n - 1] {
    }
  }

  /** Releasing the used slot `x` onto the unused stack. */
  lemma FreePush(u: set<int>, fr: seq<int>, n: int, x: int)
    requires FreeOk(u, fr, n) && x in u && 0 <= x < |fr|
    ensures n < |fr|
    ensures FreeOk(u - {x}, fr[n := x], n + 1)
  {
    var fr' := fr[n := x];
    forall f, g | 0 <= f < g < n + 1 ensures fr'[f] != fr'[g] {
      if g == n {
        assert fr[f] !in u;
      }
    }
  }

  class LRU<K(==), V> {
    /** Capacity, default TTL: fixed at construction. */
    const capacity: int
    const defaultTTL: nat

    /** Index: key -> slot of its entry. */
    var table: map<K, int>

    /** The arena: the entry held in each slot and its neighbours in the
        recency order (-1 stands for "none"). */
    const entries: array<Option<Entry<K, V>>>
    const prev: array<int>
    const next: array<int>
    var head: int
    var tail: int

    /** Unused slots, as a stack: free[..freeCount]. */
    const free: array<int>
    var freeCount: nat

    ghost var Slots: seq<int>
    ghost var Used: set<int>
    ghost var Contents: seq<Entry<K, V>>

    /** The links spell out `Slots`, front to back. */
    ghost predicate Linked()
      reads this`Slots, this`head, this`tail, prev, next
    {
      prev != next &&
      LinksOk(Slots, next[..], prev[..]) &&
      head == (if Slots == [] then -1 else Slots[0]) &&
      tail == (if Slots == [] then -1 else Slots[|Slots| - 1])
    }

    /** The arena, the index and the free stack agree with `Slots` and
        `Contents`: `Used` holds exactly the listed slots, and the index's
        keys and the listed entries match one to one. */
    ghost predicate Consistent()
      reads this, entries, prev, next, free
    {
      Linked() &&
      entries.Length == prev.Length == free.Length &&
      free != prev && free != next &&
      |Slots| == |Used| &&
      Paired(Slots, Contents, entries[..], table, Used) &&
      Indexed(Used, entries[..], table) &&
      FreeOk(Used, free[..], freeCount)
    }

    /** The object invariant: consistent, and `Contents` is a valid cache state
        (unique keys, at most `capacity` entries; none when disabled). */
    ghost predicate Valid()
      reads this, entries, prev, next, free
    {
      Consistent() &&
      prev.Length == (if capacity > 0 then capacity + 1 else 0) &&
      LruSpec.Valid(Contents, capacity)
    }

    /** NewLRU: an empty cache; a non-positive capacity gives the disabled cache. */
    constructor NewLRU(capacity: int, defaultTTL: nat)
      ensures Valid() && Contents == []
      ensures this.capacity == capacity && this.defaultTTL == defaultTTL
      ensures fresh(entries) && fresh(prev) && fresh(next) && fresh(free)
    {
      var n := if capacity > 0 then capacity + 1 else 0;
      this.capacity := capacity;
      this.defaultTTL := defaultTTL;
      table := map[];
      entries := new Option<Entry<K, V>>[n](_ => None);
      prev := new int[n](_ => -1);
      next := new int[n](_ => -1);
      free := new int[n](i => i);
      head, tail, freeCount := -1, -1, n;
      Slots, Used, Contents := [], {}, [];
    }

    /** Unique keys follow from the index: each key names a single slot. */
    lemma IndexGivesDistinctKeys()
      requires Consistent()
      ensures DistinctKeys(Contents)
    {
      NoDupIff(Slots);
      forall a, b | 0 <= a < b < |Contents| ensures Contents[a].key != Contents[b].key {
        assert table[Contents[a].key] == Slots[a] && table[Contents[b].key] == Slots[b];
      }
    }

    /** The slot the index gives for a key sits somewhere in the order. */
    lemma IndexedIsListed(k: K)
      requires Consistent() && k in table
      ensures table[k] in Slots
    {
      forall a | 0 <= a < |Slots| ensures Slots[a] in Used {
      }
      UsedAreListed(Slots, Used);
    }

    /** Take slot `j`, at position `i` of the order, out of the list. */
    method Unlink(j: int, ghost i: nat)
      requires Linked() && i < |Slots| && Slots[i] == j
      modifies this`head, this`tail, this`Slots, prev, next
      ensures Linked()
      ensures Slots == Delete(old(Slots), i)
    {
      ghost var s, nx, pv := Slots, next[..], prev[..];
      LinksAfterUnlink(s, nx, pv, i);
      var p, n := prev[j], next[j];
      assert p == pv[s[i]] && n == nx[s[i]];
      if p == -1 { head := n; } else { next[p] := n; }
      if n == -1 { tail := p; } else { prev[n] := p; }
      assert next[..] == if p == -1 then nx else nx[p := n];
      assert prev[..] == if n == -1 then pv else pv[n := p];
      Slots := Delete(s, i);
      assert LinksOk(Slots, next[..], prev[..]);
      assert prev != next;
      assert head == (if Slots == [] then -1 else Slots[0]);
      assert tail == (if Slots == [] then -1 else Slots[|Slots| - 1]);
    }

    /** Put the unused slot `j` at the front of the list. */
    method LinkFront(j: int)
      requires Linked() && 0 <= j < prev.Length && j !in Slots
      modifies this`head, this`tail, this`Slots, prev, next
      ensures Linked()
      ensures Slots == [j] + old(Slots)
    {
      ghost var s, nx, pv := Slots, next[..], prev[..];
      LinksAfterLinkFront(s, nx, pv, j);
      var h := head;
      next[j] := h;
      prev[j] := -1;
      if h == -1 { tail := j; } else { prev[h] := j; }
      head := j;
      Slots := [j] + s;
      assert next[..] == nx[j := h];
      assert prev[..] == if h == -1 then pv[j := -1] else pv[j := -1][h := j];
    }

    /** Put the unused slot `j` at the back of the list. */
    method LinkBack(j: int)
      requires Linked() && 0 <= j < prev.Length && j !in Slots
      modifies this`head, this`tail, this`Slots, prev, next
      ensures Linked()
      ensures Slots == old(Slots) + [j]
    {
      ghost var s, nx, pv := Slots, next[..], prev[..];
      LinksAfterLinkBack(s, nx, pv, j);
      var t := tail;
      prev[j] := t;
      next[j] := -1;
      if t == -1 { head := j; } else { next[t] := j; }
      tail := j;
      Slots := s + [j];
      assert next[..] == if t == -1 then nx[j := -1] else nx[j := -1][t := j];
      assert prev[..] == pv[j := t];
    }

    /** Move the entry in slot `j`, at position `i`, to the front. */
    method MoveToFront(j: int, ghost i: nat)
      requires Consistent() && i < |Slots| && Slots[i] == j
      modifies this`head, this`tail, this`Slots, this`Contents, prev, next
      ensures Consistent()
      ensures Slots == Promote(old(Slots), i) && Contents == Promote(old(Contents), i)
    {
      ghost var s, c := Slots, Contents;
      SlotsAfterDelete(s, prev.Length, i);
      PromoteDemoteAsDelete(s, i);
      PairedPromote(s, c, entries[..], table, Used, i);
      Contents := Promote(c, i);
      Unlink(j, i);
      LinkFront(j);
    }

    /** Move the entry in slot `j`, at position `i`, to the back. */
    method MoveToBack(j: int, ghost i: nat)
      requires Consistent() && i < |Slots| && Slots[i] == j
      modifies this`head, this`tail, this`Slots, this`Contents, prev, next
      ensures Consistent()
      ensures Slots == Demote(old(Slots), i) && Contents == Demote(old(Contents), i)
    {
      ghost var s, c := Slots, Contents;
      SlotsAfterDelete(s, prev.Length, i);
      PromoteDemoteAsDelete(s, i);
      PairedDemote(s, c, entries[..], table, Used, i);
      Contents := Demote(c, i);
      Unlink(j, i);
      LinkBack(j);
    }

    /** Store the entry `e` of a new key in an unused slot at the front. */
    method PushFront(e: Entry<K, V>)
      requires Consistent() && e.key !in table && 0 < freeCount
      modifies this, entries, prev, next
      ensures Consistent()
      ensures Contents == [e] + old(Contents) && freeCount == old(freeCount) - 1
    {
      ghost var s, c, es, t, u := Slots, Contents, entries[..], table, Used;
      FreePop(u, free[..], freeCount);
      var j := free[freeCount - 1];
      PairedCons(s, c, es, t, u, j, e);
      IndexedCons(u, es, t, j, e);
      freeCount := freeCount - 1;
      entries[j] := Some(e);
      assert entries[..] == es[j := Some(e)];
      table := table[e.key := j];
      Used := u + {j};
      Contents := [e] + c;
      LinkFront(j);
    }

    /** Drop the entry in slot `j`, at position `i`: the slot is emptied and
        returned to the unused stack, and its key leaves the index. */
    method RemoveAt(j: int, ghost i: nat) returns (victim: Entry<K, V>)
      requires Consistent() && i < |Slots| && Slots[i] == j
      modifies this, entries, prev, next, free
      ensures Consistent()
      ensures victim == old(Contents)[i] && Contents == Delete(old(Contents), i)
      ensures freeCount == old(freeCount) + 1
    {
      ghost var s, c, es, t, u, fr, n := Slots, Contents, entries[..], table, Used, free[..], freeCount;
      FreePush(u, fr, n, j);
      PairedDelete(s, c, es, t, u, i);
      IndexedDelete(u, es, t, c[i].key);
      victim := entries[j].value;
      entries[j] := None;
      assert entries[..] == es[j := None];
      table := table - {victim.key};
      free[freeCount] := j;
      assert free[..] == fr[n := j];
      freeCount := freeCount + 1;
      Used := u - {j};
      Contents := Delete(c, i);
      Unlink(j, i);
    }

    /** Overwrite the entry in slot `j`, at position `i`, with one of the same key. */
    method Overwrite(j: int, ghost i: nat, e: Entry<K, V>)
      requires Consistent() && i < |Slots| && Slots[i] == j && Contents[i].key == e.key
      modifies this`Contents, entries
      ensures Consistent()
      ensures Contents == old(Contents)[i := e]
    {
      ghost var c, es := Contents, entries[..];
      PairedOverwrite(Slots, c, es, table, Used, i, e);
      entries[j] := Some(e);
      assert entries[..] == es[j := Some(e)];
      Contents := c[i := e];
    }

    /** The slot of key `k` and its position in the order. */
    lemma Locate(k: K) returns (i: nat)
      requires Consistent() && k in table
      ensures i < |Slots| && Slots[i] == table[k] && Contents[i].key == k
    {
      IndexedIsListed(k);
      i :| 0 <= i < |Slots| && Slots[i] == table[k];
    }

    /** Set: write `v` under `k`, expiring `ttl` after `now` (0 = the default
        TTL). An existing key is overwritten and promoted; a new key goes to
        the front and, when that overflows the capacity, the back entry is
        evicted and handed back. The disabled cache does nothing. */
    method Set(k: K, v: V, ttl: nat, now: nat) returns (created: bool, evicted: Option<(K, V)>)
      requires Valid()
      modifies this, entries, prev, next, free
      ensures Valid()
      ensures var r := LruSpec.Set(old(Contents), capacity, k, v, ExpiryFor(ttl, defaultTTL, now));
              Contents == r.entries && created == r.created && evicted == r.evicted
    {
      if capacity <= 0 {
        return false, None;
      }
      ghost var c := Contents;
      var e := Entry(k, v, ExpiryFor(ttl, defaultTTL, now));
      if k in table {
        var j := table[k];
        ghost var i := Locate(k);
        FindUnique(c, i);
        Overwrite(j, i, e);
        MoveToFront(j, i);
        PromoteOverwritten(c, i, e);
        created, evicted := false, None;
      } else {
        evicted := Insert(e);
        created := true;
      }
      IndexGivesDistinctKeys();
    }

    /** The new-key half of Set: store `e` at the front and, when the arena
        has no unused slot left, evict the back entry. */
    method Insert(e: Entry<K, V>) returns (evicted: Option<(K, V)>)
      requires Valid() && capacity > 0 && e.key !in table
      modifies this, entries, prev, next, free
      ensures Consistent()
      ensures var r := LruSpec.Set(old(Contents), capacity, e.key, e.value, e.expiresAt);
              r.created && Contents == r.entries && evicted == r.evicted
    {
      ghost var c := Contents;
      assert Find(c, e.key) < 0;
      PushFront(e);
      evicted := None;
      if freeCount == 0 {
        var victim := RemoveAt(tail, |c|);
        DeleteBehindFront(e, c, |c| - 1);
        evicted := Some((victim.key, victim.value));
      }
    }

    /** Get: a miss returns nothing; a hit returns the value, promoting a
        fresh entry to the front and demoting a stale one to the back. */
    method Get(k: K, now: nat) returns (value: Option<V>, stale: bool)
      requires Valid()
      modifies this`head, this`tail, this`Slots, this`Contents, prev, next
      ensures Valid()
      ensures var r := LruSpec.Get(old(Contents), k, now);
              Contents == r.entries && value == r.value && stale == r.stale
    {
      ghost var c := Contents;
      if capacity <= 0 || k !in table {
        return None, false;
      }
      var j := table[k];
      ghost var i := Locate(k);
      FindUnique(c, i);
      var e := entries[j].value;
      if IsExpired(e.expiresAt, now) {
        MoveToBack(j, i);
        value, stale := Some(e.value), true;
      } else {
        MoveToFront(j, i);
        value, stale := Some(e.value), false;
      }
      IndexGivesDistinctKeys();
    }

    /** Remove: drop the key's entry, if any, without reporting it as evicted. */
    method Remove(k: K) returns (found: bool)
      requires Valid()
      modifies this, entries, prev, next, free
      ensures Valid()
      ensures var r := LruSpec.Remove(old(Contents), k);
              Contents == r.entries && found == r.found
    {
      ghost var c := Contents;
      if capacity <= 0 || k !in table {
        return false;
      }
      var j := table[k];
      ghost var i := Locate(k);
      FindUnique(c, i);
      var _ := RemoveAt(j, i);
      IndexGivesDistinctKeys();
      found := true;
    }

    /** One step of the sweep: visit slot `cur`, holding the `m`-th entry of
        the order `c0` the sweep started from, demote it if it is stale at
        `now`, and return the slot to visit next. */
    method SweepVisit(cur: int, ghost c0: seq<Entry<K, V>>, ghost m: nat, now: nat) returns (nxt: int)
      requires Consistent() && m < |c0| && Contents == SweepPartial(c0, m, now)
      requires c0[m].key in table && cur == table[c0[m].key]
      modifies this`head, this`tail, this`Slots, this`Contents, prev, next
      ensures Consistent() && Contents == SweepPartial(c0, m + 1, now)
      ensures m + 1 < |c0| ==> c0[m + 1].key in table && nxt == table[c0[m + 1].key]
    {
      ghost var p := |WithStatus(c0[..m], now, false)|;
      SweepStep(c0, m, now);
      if m + 1 < |c0| {
        SweepStep(c0, m + 1, now);
      }
      assert Slots[p] == cur;
      var e := entries[cur].value;
      nxt := next[cur];
      assert next[..][Slots[p]] == nxt;
      if IsExpired(e.expiresAt, now) {
        MoveToBack(cur, p);
      }
    }

    /** The expiry sweep: walk the list once from the front and demote every
        entry that is stale at `now` to the back. */
    method Sweep(now: nat)
      requires Valid()
      modifies this`head, this`tail, this`Slots, this`Contents, prev, next
      ensures Valid()
      ensures Contents == LruSpec.Sweep(old(Contents), now)
    {
      ghost var c0 := Contents;
      SweepStart(c0, now);
      if head == -1 {
        SweepComplete(c0, now);
        return;
      }
      var cur, stop := head, tail;
      ghost var t0, last := table, c0[|c0| - 1].key;
      assert stop == t0[last];
      ghost var m := 0;
      var done := false;
      while !done
        invariant Consistent() && table == t0
        invariant 0 <= m <= |c0|
        invariant done <==> m == |c0|
        invariant Contents == SweepPartial(c0, m, now)
        invariant m < |c0| ==> c0[m].key in table && cur == table[c0[m].key]
        decreases |c0| - m
      {
        var nxt := SweepVisit(cur, c0, m, now);
        done := cur == stop;
        cur := nxt;
        m := m + 1;
      }
      SweepComplete(c0, now);
      IndexGivesDistinctKeys();
    }
  }
}
