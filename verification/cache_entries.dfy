/**
 * The recency-ordered entry sequence behind the access-ordered `LinkedHashMap`
 * of utils/InMemoryCache.java. Entries are kept eldest first, so the entry an
 * iterator over the map yields first is `es[0]`, and a touched key moves to the end.
 *
 * The map view of a sequence, `Contents`, replays the entries as successive
 * puts (a later entry for the same key wins). Size accounting (`Sum`, `Drain`)
 * is stated over the sequence itself.
 */
module CacheEntries {

  datatype Entry<K, V> = Entry(key: K, value: V)

  /** The key -> value map the entry sequence stands for. */
  function Contents<K(==), V>(es: seq<Entry<K, V>>): map<K, V>
  {
    if |es| == 0 then map[]
    else Contents(es[..|es| - 1])[es[|es| - 1].key := es[|es| - 1].value]
  }

  /** Every key occurs at most once: the sequence really is a map. */
  predicate NoDupKeys<K(==), V>(es: seq<Entry<K, V>>)
  {
    |es| == 0 || (NoDupKeys(es[..|es| - 1]) && es[|es| - 1].key !in Contents(es[..|es| - 1]))
  }

  /** `es` without the entry for `k`, the others in their original order (`LinkedHashMap.remove`). */
  function Remove<K(==), V>(es: seq<Entry<K, V>>, k: K): (r: seq<Entry<K, V>>)
    ensures |r| <= |es|
  {
    if |es| == 0 then []
    else if es[|es| - 1].key == k then Remove(es[..|es| - 1], k)
    else Remove(es[..|es| - 1], k) + [es[|es| - 1]]
  }

  /**
   * `LinkedHashMap.put` in access order: a new key is appended, an existing key
   * gets the new value and moves to the most-recent end. `get` on a present key
   * is `Insert` with the value it already has.
   */
  function Insert<K(==), V>(es: seq<Entry<K, V>>, k: K, v: V): seq<Entry<K, V>>
  {
    Remove(es, k) + [Entry(k, v)]
  }

  /** Aggregate estimated size of the entries. */
  function Sum<K(==), V>(es: seq<Entry<K, V>>, sz: (K, V) -> nat): nat
  {
    if |es| == 0 then 0
    else Sum(es[..|es| - 1], sz) + sz(es[|es| - 1].key, es[|es| - 1].value)
  }

  /** `Math.max(0, used - size)`: the floored subtraction of `removeSize`. */
  function FloorSub(used: nat, size: nat): (r: nat)
    ensures r <= used
    ensures used >= size ==> r + size == used
    ensures used < size ==> r == 0
  {
    if used >= size then used - size else 0
  }

  /** The counter left after `removeSize` of each entry of `es`, in order. */
  function Drain<K(==), V>(used: nat, es: seq<Entry<K, V>>, sz: (K, V) -> nat): nat
  {
    if |es| == 0 then used
    else FloorSub(Drain(used, es[..|es| - 1], sz), sz(es[|es| - 1].key, es[|es| - 1].value))
  }

  // ---------------------------------------------------------------------------
  // Map view
  // ---------------------------------------------------------------------------

  /** Removing a key removes exactly that key from the map view. */
  lemma {:induction false} ContentsRemove<K, V>(es: seq<Entry<K, V>>, k: K)
    ensures Contents(Remove(es, k)) == Contents(es) - {k}
    decreases |es|
  {
    if |es| > 0 {
      var p, e := es[..|es| - 1], es[|es| - 1];
      ContentsRemove(p, k);
      if e.key == k {
        assert Contents(es) - {k} == Contents(p) - {k};
      } else {
        var r := Remove(p, k) + [e];
        assert r[..|r| - 1] == Remove(p, k);
        calc {
          Contents(r);
          (Contents(p) - {k})[e.key := e.value];
          Contents(p)[e.key := e.value] - {k};
        }
      }
    }
  }

  /** Inserting is a map update, whether or not the key was present. */
  lemma ContentsInsert<K, V>(es: seq<Entry<K, V>>, k: K, v: V)
    ensures Contents(Insert(es, k, v)) == Contents(es)[k := v]
  {
    var r := Insert(es, k, v);
    assert r[..|r| - 1] == Remove(es, k);
    ContentsRemove(es, k);
  }

  /** Dropping the eldest entries keeps the rest of the map view as it was. */
  lemma {:induction false} ContentsSuffix<K, V>(es: seq<Entry<K, V>>, n: nat)
    requires n <= |es|
    ensures forall k :: k in Contents(es[n..]) ==> k in Contents(es) && Contents(es[n..])[k] == Contents(es)[k]
    decreases |es|
  {
    if n < |es| {
      var p := es[..|es| - 1];
      ContentsSuffix(p, n);
      assert es[n..][..|es[n..]| - 1] == p[n..];
    }
  }

  /** No entry for `k` is left after removing it. */
  lemma RemoveDropsKey<K, V>(es: seq<Entry<K, V>>, k: K)
    ensures k !in Contents(Remove(es, k))
  {
    ContentsRemove(es, k);
  }

  /** Removing an absent key is the identity. */
  lemma {:induction false} RemoveAbsent<K, V>(es: seq<Entry<K, V>>, k: K)
    requires k !in Contents(es)
    ensures Remove(es, k) == es
    decreases |es|
  {
    if |es| > 0 {
      var p := es[..|es| - 1];
      assert Contents(es) == Contents(p)[es[|es| - 1].key := es[|es| - 1].value];
      RemoveAbsent(p, k);
      assert p + [es[|es| - 1]] == es;
    }
  }

  // ---------------------------------------------------------------------------
  // Distinct keys
  // ---------------------------------------------------------------------------

  lemma {:induction false} RemoveKeepsNoDup<K, V>(es: seq<Entry<K, V>>, k: K)
    ensures NoDupKeys(es) ==> NoDupKeys(Remove(es, k))
    decreases |es|
  {
    if |es| > 0 && NoDupKeys(es) {
      var p, e := es[..|es| - 1], es[|es| - 1];
      RemoveKeepsNoDup(p, k);
      if e.key != k {
        var r := Remove(p, k) + [e];
        assert r[..|r| - 1] == Remove(p, k);
        ContentsRemove(p, k);
      }
    }
  }

  lemma InsertKeepsNoDup<K, V>(es: seq<Entry<K, V>>, k: K, v: V)
    requires NoDupKeys(es)
    ensures NoDupKeys(Insert(es, k, v))
  {
    var r := Insert(es, k, v);
    assert r[..|r| - 1] == Remove(es, k);
    RemoveKeepsNoDup(es, k);
    RemoveDropsKey(es, k);
  }

  lemma {:induction false} SuffixKeepsNoDup<K, V>(es: seq<Entry<K, V>>, n: nat)
    requires n <= |es|
    requires NoDupKeys(es)
    ensures NoDupKeys(es[n..])
    decreases |es|
  {
    if n < |es| {
      var p := es[..|es| - 1];
      SuffixKeepsNoDup(p, n);
      ContentsSuffix(p, n);
      assert es[n..][..|es[n..]| - 1] == p[n..];
    }
  }

  // ---------------------------------------------------------------------------
  // Size accounting
  // ---------------------------------------------------------------------------

  /** With distinct keys, removing a present key lowers the sum by exactly that entry's size. */
  lemma {:induction false} SumRemovePresent<K, V>(es: seq<Entry<K, V>>, k: K, sz: (K, V) -> nat)
    requires k in Contents(es)
    ensures NoDupKeys(es) ==> Sum(Remove(es, k), sz) + sz(k, Contents(es)[k]) == Sum(es, sz)
    decreases |es|
  {
    if !NoDupKeys(es) {
      return;
    }
    var p, e := es[..|es| - 1], es[|es| - 1];
    if e.key == k {
      RemoveAbsent(p, k);
    } else {
      SumRemovePresent(p, k, sz);
      var r := Remove(p, k) + [e];
      assert r[..|r| - 1] == Remove(p, k);
    }
  }

  /** Removing a key never raises the sum. */
  lemma {:induction false} SumRemoveBound<K, V>(es: seq<Entry<K, V>>, k: K, sz: (K, V) -> nat)
    ensures Sum(Remove(es, k), sz) <= Sum(es, sz)
    decreases |es|
  {
    if |es| > 0 {
      var p, e := es[..|es| - 1], es[|es| - 1];
      SumRemoveBound(p, k, sz);
      if e.key != k {
        var r := Remove(p, k) + [e];
        assert r[..|r| - 1] == Remove(p, k);
      }
    }
  }

  /** The sum of a sequence is the sum of any prefix plus the sum of the matching suffix. */
  lemma {:induction false} SumSplit<K, V>(es: seq<Entry<K, V>>, n: nat, sz: (K, V) -> nat)
    requires n <= |es|
    ensures Sum(es[..n], sz) + Sum(es[n..], sz) == Sum(es, sz)
    decreases |es|
  {
    if n < |es| {
      var p := es[..|es| - 1];
      SumSplit(p, n, sz);
      assert es[n..][..|es[n..]| - 1] == p[n..];
      assert es[..n] == p[..n];
    } else {
      assert es[..n] == es;
    }
  }

  /** Floored subtraction never removes less than the plain one: the drained counter is at least `used - Sum`. */
  lemma {:induction false} DrainLowerBound<K, V>(used: nat, es: seq<Entry<K, V>>, sz: (K, V) -> nat)
    ensures Drain(used, es, sz) + Sum(es, sz) >= used
    decreases |es|
  {
    if |es| > 0 {
      DrainLowerBound(used, es[..|es| - 1], sz);
    }
  }

  /** While the removed sizes stay within the counter, the floor never acts. */
  lemma {:induction false} DrainExact<K, V>(used: nat, es: seq<Entry<K, V>>, sz: (K, V) -> nat)
    requires Sum(es, sz) <= used
    ensures Drain(used, es, sz) + Sum(es, sz) == used
    decreases |es|
  {
    if |es| > 0 {
      DrainExact(used, es[..|es| - 1], sz);
    }
  }

  /** Draining more entries never leaves a larger counter. */
  lemma {:induction false} DrainMonotone<K, V>(used: nat, es: seq<Entry<K, V>>, m: nat, n: nat, sz: (K, V) -> nat)
    requires m <= n <= |es|
    ensures Drain(used, es[..n], sz) <= Drain(used, es[..m], sz)
    decreases n - m
  {
    if m < n {
      DrainMonotone(used, es, m, n - 1, sz);
      assert es[..n][..n - 1] == es[..n - 1];
    }
  }
}
