/**
 * The eviction scenarios of a 100-unit cache with three 40-unit entries, under
 * the source's string-length size estimate.
 */
module CacheScenarios {
  import opened CacheEntries
  import opened InMemoryCache

  /** Nineteen characters: with a one-character key the estimate is 2 + 38 = 40. */
  const Text: string := "0123456789012345678"

  const A: Entry<string, string> := Entry("A", Text)
  const B: Entry<string, string> := Entry("B", Text)
  const C: Entry<string, string> := Entry("C", Text)

  /** A fresh key that fits without eviction is appended and its size added. */
  lemma PutWithoutEviction<K, V>(c: Cache<K, V>, key: K, value: V, sz: (K, V) -> nat)
    requires key !in Contents(c.entries)
    requires c.used + sz(key, value) <= c.maxSize
    ensures Put(c, key, value, sz) == Done(Cache(c.entries + [Entry(key, value)], c.used + sz(key, value), c.maxSize))
  {
    assert Drain(c.used, c.entries[..0], sz) == c.used by {
      assert c.entries[..0] == [];
    }
    assert EvictsEldest(c, sz(key, value), 0, sz);
    PutEvictsLeast(c, key, value, sz, 0);
    assert Insert(c.entries[0..], key, value) == c.entries + [Entry(key, value)] by {
      assert c.entries[0..] == c.entries;
      RemoveAbsent(c.entries, key);
    }
  }

  /** A fresh key that needs exactly the eldest entry's room evicts that entry only. */
  lemma PutEvictingEldest<K, V>(c: Cache<K, V>, key: K, value: V, sz: (K, V) -> nat)
    requires |c.entries| > 0
    requires key !in Contents(c.entries[1..])
    requires c.used + sz(key, value) > c.maxSize
    requires FloorSub(c.used, sz(c.entries[0].key, c.entries[0].value)) + sz(key, value) <= c.maxSize
    ensures Put(c, key, value, sz) == Done(Cache(c.entries[1..] + [Entry(key, value)],
      FloorSub(c.used, sz(c.entries[0].key, c.entries[0].value)) + sz(key, value), c.maxSize))
  {
    var need := sz(key, value);
    var e := c.entries[0];
    assert c.entries[..0] == [];
    assert Drain(c.used, c.entries[..0], sz) == c.used;
    assert !FitsAfter(c, need, 0, sz);
    assert c.entries[..1] == [e] && [e][..0] == [];
    assert Drain(c.used, c.entries[..1], sz) == FloorSub(c.used, sz(e.key, e.value));
    assert FitsAfter(c, need, 1, sz);
    assert EvictsEldest(c, need, 1, sz);
    PutEvictsLeast(c, key, value, sz, 1);
    RemoveAbsent(c.entries[1..], key);
    assert Insert(c.entries[1..], key, value) == c.entries[1..] + [Entry(key, value)];
  }

  /** The first insertion into an empty cache stores the entry alone. */
  lemma FirstPut<K, V>(a: Entry<K, V>, maxSize: nat, sz: (K, V) -> nat)
    requires sz(a.key, a.value) <= maxSize
    ensures Put(Cache([], 0, maxSize), a.key, a.value, sz) == Done(Cache([a], sz(a.key, a.value), maxSize))
  {
    PutWithoutEviction(Cache([], 0, maxSize), a.key, a.value, sz);
    assert [] + [a] == [a];
  }

  /** A second, distinct key that fits is stored after the first. */
  lemma SecondPut<K, V>(a: Entry<K, V>, b: Entry<K, V>, maxSize: nat, sz: (K, V) -> nat)
    requires a.key != b.key
    requires sz(a.key, a.value) + sz(b.key, b.value) <= maxSize
    ensures Put(Cache([a], sz(a.key, a.value), maxSize), b.key, b.value, sz)
      == Done(Cache([a, b], sz(a.key, a.value) + sz(b.key, b.value), maxSize))
  {
    assert [a][..0] == [];
    assert Contents([a]) == map[a.key := a.value];
    PutWithoutEviction(Cache([a], sz(a.key, a.value), maxSize), b.key, b.value, sz);
    assert [a] + [b] == [a, b];
  }

  /** Two distinct keys that fit together are stored in insertion order with their sizes added. */
  lemma FirstTwoPuts<K, V>(a: Entry<K, V>, b: Entry<K, V>, maxSize: nat, sz: (K, V) -> nat)
    requires a.key != b.key
    requires sz(a.key, a.value) + sz(b.key, b.value) <= maxSize
    ensures Put(Cache([], 0, maxSize), a.key, a.value, sz) == Done(Cache([a], sz(a.key, a.value), maxSize))
    ensures Put(Cache([a], sz(a.key, a.value), maxSize), b.key, b.value, sz)
      == Done(Cache([a, b], sz(a.key, a.value) + sz(b.key, b.value), maxSize))
  {
    FirstPut(a, maxSize, sz);
    SecondPut(a, b, maxSize, sz);
  }

  /** A distinct third key that fits only without the eldest of two entries evicts exactly that one. */
  lemma ThirdPut<K, V>(a: Entry<K, V>, b: Entry<K, V>, c: Entry<K, V>, maxSize: nat, sz: (K, V) -> nat)
    requires b.key != c.key
    requires sz(a.key, a.value) + sz(b.key, b.value) <= maxSize
    requires sz(a.key, a.value) + sz(b.key, b.value) + sz(c.key, c.value) > maxSize
    requires sz(b.key, b.value) + sz(c.key, c.value) <= maxSize
    ensures Put(Cache([a, b], sz(a.key, a.value) + sz(b.key, b.value), maxSize), c.key, c.value, sz)
      == Done(Cache([b, c], sz(b.key, b.value) + sz(c.key, c.value), maxSize))
  {
    assert [a, b][1..] == [b];
    assert [b][..0] == [];
    assert Contents([b]) == map[b.key := b.value];
    PutEvictingEldest(Cache([a, b], sz(a.key, a.value) + sz(b.key, b.value), maxSize), c.key, c.value, sz);
    assert [b] + [c] == [b, c];
  }

  /** Reading the eldest of two entries returns its value and makes it the most recent. */
  lemma GetOfEldest<K, V>(a: Entry<K, V>, b: Entry<K, V>, used: nat, maxSize: nat)
    requires a.key != b.key
    ensures Get(Cache([a, b], used, maxSize), a.key) == GetResult(Wrappers.Some(a.value), Cache([b, a], used, maxSize))
  {
    assert [a, b][..1] == [a];
    assert [a][..0] == [];
    assert Contents([a]) == map[a.key := a.value];
    assert Contents([a, b]) == map[a.key := a.value][b.key := b.value];
    assert Remove([a], a.key) == [];
    assert Remove([a, b], a.key) == [b];
    assert Insert([a, b], a.key, a.value) == [b, a];
  }

  /** Evicting the middle one of three entries keeps the other two in their recency order. */
  lemma EvictOfMiddle<K, V>(a: Entry<K, V>, b: Entry<K, V>, c: Entry<K, V>, used: nat, maxSize: nat, sz: (K, V) -> nat)
    requires a.key != b.key && b.key != c.key && a.key != c.key
    ensures Evict(Cache([a, b, c], used, maxSize), b.key, sz).entries == [a, c]
  {
    assert [a, b, c][..2] == [a, b];
    assert [a, b][..1] == [a];
    assert [a][..0] == [];
    assert Remove([a], b.key) == [a];
    assert Remove([a, b], b.key) == [a];
    assert Remove([a, b, c], b.key) == [a, c];
  }

  /**
   * Three distinct keys where the first two fit together and the third fits
   * only without the first: with no reads in between, the third insertion
   * evicts the first, the least recently used, and nothing else.
   */
  lemma EvictsLeastRecentlyPut<K, V>(a: Entry<K, V>, b: Entry<K, V>, c: Entry<K, V>, maxSize: nat, sz: (K, V) -> nat)
    requires a.key != b.key && b.key != c.key
    requires sz(a.key, a.value) + sz(b.key, b.value) <= maxSize
    requires sz(a.key, a.value) + sz(b.key, b.value) + sz(c.key, c.value) > maxSize
    requires sz(b.key, b.value) + sz(c.key, c.value) <= maxSize
    ensures var c1 := Put(Cache([], 0, maxSize), a.key, a.value, sz).after;
      var c2 := Put(c1, b.key, b.value, sz).after;
      var c3 := Put(c2, c.key, c.value, sz);
      && c3.Done?
      && c3.after.entries == [b, c]
      && c3.after.used == sz(b.key, b.value) + sz(c.key, c.value)
  {
    FirstTwoPuts(a, b, maxSize, sz);
    ThirdPut(a, b, c, maxSize, sz);
  }

  /**
   * The same insertions with a read of the first key between the second and
   * the third: the read makes the first the most recent, so the third
   * insertion evicts the second instead.
   */
  lemma GetRefreshesRecency<K, V>(a: Entry<K, V>, b: Entry<K, V>, c: Entry<K, V>, maxSize: nat, sz: (K, V) -> nat)
    requires a.key != b.key && b.key != c.key && a.key != c.key
    requires sz(a.key, a.value) + sz(b.key, b.value) <= maxSize
    requires sz(a.key, a.value) + sz(b.key, b.value) + sz(c.key, c.value) > maxSize
    requires sz(a.key, a.value) + sz(c.key, c.value) <= maxSize
    ensures var c1 := Put(Cache([], 0, maxSize), a.key, a.value, sz).after;
      var c2 := Put(c1, b.key, b.value, sz).after;
      var g := Get(c2, a.key);
      var c3 := Put(g.after, c.key, c.value, sz);
      && g.value == Wrappers.Some(a.value)
      && c3.Done?
      && c3.after.entries == [a, c]
      && c3.after.used == sz(a.key, a.value) + sz(c.key, c.value)
  {
    var used := sz(a.key, a.value) + sz(b.key, b.value);
    var c2 := Cache([a, b], used, maxSize);
    var g := Cache([b, a], used, maxSize);
    FirstTwoPuts(a, b, maxSize, sz);
    assert Put(Cache([a], sz(a.key, a.value), maxSize), b.key, b.value, sz).after == c2;
    GetOfEldest(a, b, used, maxSize);
    assert Get(c2, a.key) == GetResult(Wrappers.Some(a.value), g);
    assert Put(g, c.key, c.value, sz) == Done(Cache([a, c], sz(a.key, a.value) + sz(c.key, c.value), maxSize)) by {
      ThirdPut(b, a, c, maxSize, sz);
      assert g == Cache([b, a], sz(b.key, b.value) + sz(a.key, a.value), maxSize);
    }
  }

  /** The 100-unit cache with entries A, B, C of 40 units each meets both scenarios' conditions. */
  lemma ScenarioSizes()
    ensures EstimateSize(A.key, A.value) == 40 && EstimateSize(B.key, B.value) == 40 && EstimateSize(C.key, C.value) == 40
    ensures A.key != B.key && B.key != C.key && A.key != C.key
  {
  }

  /** The state after `put` of A and then of B into an empty 100-unit cache. */
  function AfterAB(): Cache<string, string>
  {
    Put(Put(Cache([], 0, 100), A.key, A.value, EstimateSize).after, B.key, B.value, EstimateSize).after
  }

  /** With no read in between, `put` of C into the 100-unit cache evicts A and leaves B and C at 80 units. */
  lemma HundredUnitEvictsA()
    ensures var c3 := Put(AfterAB(), C.key, C.value, EstimateSize);
      c3.Done? && c3.after.entries == [B, C] && c3.after.used == 80
  {
    ScenarioSizes();
    EvictsLeastRecentlyPut(A, B, C, 100, EstimateSize);
  }

  /** After `get` of A, `put` of C into the 100-unit cache evicts B and leaves A and C at 80 units. */
  lemma HundredUnitGetEvictsB()
    ensures var g := Get(AfterAB(), A.key);
      var c3 := Put(g.after, C.key, C.value, EstimateSize);
      g.value == Wrappers.Some(A.value) && c3.Done? && c3.after.entries == [A, C] && c3.after.used == 80
  {
    ScenarioSizes();
    GetRefreshesRecency(A, B, C, 100, EstimateSize);
  }
}
