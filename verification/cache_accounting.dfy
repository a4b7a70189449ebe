/**
 * The size accounting of `InMemoryCache.put` when the key is already cached,
 * the failure it leads to, and the accounting the design intends.
 *
 * `put` stores the entry and adds its size without subtracting the size of the
 * value it replaces, so the counter drifts above the entries' total. Once an
 * evict empties the map while the counter is still positive, a later `put`
 * that needs room drains the empty map and throws from `iterator().next()`.
 */
module CacheAccounting {
  import opened CacheEntries
  import opened InMemoryCache

  /** Key and value text with `EstimateSize` 6: key "a", value "bb". */
  const SmallKey: string := "a"
  const SmallValue: string := "bb"

  /** An entry of estimated size 96: one key character and 47 value characters. */
  const BigKey: string := "k"
  const BigValue: string := "vvvvvvvvvvvvvvvvvvvvvvvvvvvvvvvvvvvvvvvvvvvvvvv"

  /** As written: putting the same entry twice counts its size twice. */
  lemma ReplaceOverCounts()
    ensures var c := Put(Put(Cache([], 0, 100), SmallKey, SmallValue, EstimateSize).after, SmallKey, SmallValue, EstimateSize);
      && c.Done?
      && Contents(c.after.entries) == map[SmallKey := SmallValue]
      && Sum(c.after.entries, EstimateSize) == 6
      && c.after.used == 12
      && !Exact(c.after, EstimateSize)
  {
    var c0: Cache<string, string> := Cache([], 0, 100);
    var e := Entry(SmallKey, SmallValue);
    assert EstimateSize(SmallKey, SmallValue) == 6;
    assert FitsAfter(c0, 6, 0, EstimateSize);
    var c1 := Put(c0, SmallKey, SmallValue, EstimateSize);
    assert c1 == Done(Cache([e], 6, 100));
    assert FitsAfter(c1.after, 6, 0, EstimateSize);
    var c2 := Put(c1.after, SmallKey, SmallValue, EstimateSize);
    assert Remove([e], SmallKey) == [];
    assert c2 == Done(Cache([e], 12, 100));
  }

  /**
   * As written: put A, put A again, evict A, then put an entry that needs
   * room. The map is empty but the counter is still 6, so the eviction loop
   * reaches `iterator().next()` on an empty map.
   */
  lemma OverCountCrashesPut()
    ensures var c1 := Put(Cache([], 0, 100), SmallKey, SmallValue, EstimateSize).after;
      var c2 := Put(c1, SmallKey, SmallValue, EstimateSize).after;
      var c3 := Evict(c2, SmallKey, EstimateSize);
      && c3.entries == [] && c3.used == 6
      && Put(c3, BigKey, BigValue, EstimateSize).Crash?
  {
    ReplaceOverCounts();
    var c1 := Put(Cache([], 0, 100), SmallKey, SmallValue, EstimateSize).after;
    var c2 := Put(c1, SmallKey, SmallValue, EstimateSize).after;
    var c3 := Evict(c2, SmallKey, EstimateSize);
    assert Remove(c2.entries, SmallKey) == [];
    assert c3 == Cache([], 6, 100);
    assert EstimateSize(BigKey, BigValue) == 96;
    assert !FitsAfter(c3, 96, 0, EstimateSize);
  }

  /**
   * The intended `put`: the replaced entry's size leaves the counter before
   * room is made, as `evict` would take it out. An oversized entry is still
   * dropped without touching the cache.
   */
  function PutCorrected<K(==), V>(c: Cache<K, V>, key: K, value: V, sz: (K, V) -> nat): (r: PutResult<K, V>)
    ensures sz(key, value) > c.maxSize ==> r == Done(c)
    ensures Exact(c, sz) ==> r.Done? && Exact(r.after, sz)
    ensures r.Done? && sz(key, value) <= c.maxSize ==>
      && key in Contents(r.after.entries) && Contents(r.after.entries)[key] == value
      && forall k :: k in Contents(r.after.entries) && k != key ==>
           k in Contents(c.entries) && Contents(r.after.entries)[k] == Contents(c.entries)[k]
  {
    if sz(key, value) > c.maxSize then Done(c)
    else
      var cleared := Evict(c, key, sz);
      PutFreshKeyKeepsExact(cleared, key, value, sz);
      Put(cleared, key, value, sz)
  }

  /**
   * On a key that is not cached the intended `put` and the shipped one agree:
   * the read-throughs of the service and the controller put only after a miss,
   * so their use of the shipped `put` is the intended one.
   */
  lemma PutCorrectedAgreesOnFreshKey<K, V>(c: Cache<K, V>, key: K, value: V, sz: (K, V) -> nat)
    requires key !in Contents(c.entries)
    ensures PutCorrected(c, key, value, sz) == Put(c, key, value, sz)
  {
  }

  /** With the intended accounting the counter is always exactly the entries' total, so no sequence of puts, gets, evicts and clears reaches the crash. */
  lemma {:induction false} CorrectedAccountingStaysExact<K, V>(c: Cache<K, V>, ops: seq<CacheOp<K, V>>, sz: (K, V) -> nat)
    requires Exact(c, sz)
    ensures Run(c, ops, sz).Some?
    ensures Exact(Run(c, ops, sz).value, sz)
    decreases |ops|
  {
    if |ops| > 0 {
      var c1 := Step(c, ops[0], sz);
      match ops[0] {
        case GetOp(k) => GetKeepsAccounting(c, k, sz);
        case PutOp(k, v) =>
        case EvictOp(k) =>
        case ClearOp =>
      }
      CorrectedAccountingStaysExact(c1.value, ops[1..], sz);
    }
  }

  datatype CacheOp<K, V> = GetOp(k: K) | PutOp(k: K, v: V) | EvictOp(k: K) | ClearOp

  /** One cache call with the intended `put`; `None` if it throws. */
  function Step<K(==), V>(c: Cache<K, V>, op: CacheOp<K, V>, sz: (K, V) -> nat): Wrappers.Option<Cache<K, V>>
  {
    match op
    case GetOp(k) => Wrappers.Some(Get(c, k).after)
    case PutOp(k, v) => (var r := PutCorrected(c, k, v, sz); if r.Done? then Wrappers.Some(r.after) else Wrappers.None)
    case EvictOp(k) => Wrappers.Some(Evict(c, k, sz))
    case ClearOp => Wrappers.Some(Clear(c))
  }

  /** A sequence of cache calls with the intended `put`, stopping at the first that throws. */
  function Run<K(==), V>(c: Cache<K, V>, ops: seq<CacheOp<K, V>>, sz: (K, V) -> nat): Wrappers.Option<Cache<K, V>>
    decreases |ops|
  {
    if |ops| == 0 then Wrappers.Some(c)
    else
      match Step(c, ops[0], sz)
      case None => Wrappers.None
      case Some(c1) => Run(c1, ops[1..], sz)
  }
}
