/**
 * `InMemoryCache<K, V>` of utils/InMemoryCache.java: an access-ordered map with
 * an aggregate size counter (the `ByteBuffer` position) bounded by `maxSize`.
 *
 * The cache is an immutable value; every operation returns the new cache. The
 * per-entry size estimate is the parameter `sz`; `EstimateSize` is the estimate
 * the source applies to the key's and the value's `toString()`.
 */
module InMemoryCache {
  import opened Wrappers
  import opened CacheEntries

  /** Default of `cache.max-size`. */
  const DefaultMaxSize: nat := 5242

  datatype Cache<K, V> = Cache(entries: seq<Entry<K, V>>, used: nat, maxSize: nat)

  datatype GetResult<K, V> = GetResult(value: Option<V>, after: Cache<K, V>)

  /**
   * The state the eviction loop leaves: room was made after evicting the
   * `evicted` eldest entries, or the map ran empty first.
   */
  datatype RoomResult<K, V> = Room(after: Cache<K, V>, evicted: nat) | Exhausted(after: Cache<K, V>)

  /**
   * `Done` is a normal return (including the silent rejection of an oversized
   * entry). `Crash` is the `NoSuchElementException` thrown by
   * `iterator().next()` on an empty map; `after` is what the loop had already
   * removed by then, since nothing rolls the cache back.
   */
  datatype PutResult<K, V> = Done(after: Cache<K, V>) | Crash(after: Cache<K, V>)

  /** Two bytes per character of the key's and the value's text. */
  function EstimateSize(keyText: string, valueText: string): nat
  {
    2 * |keyText| + 2 * |valueText|
  }

  /** A cache state the operations can reach: keys distinct, counter within budget, never below the entries' sizes. */
  predicate Valid<K(==), V>(c: Cache<K, V>, sz: (K, V) -> nat)
  {
    && NoDupKeys(c.entries)
    && c.used <= c.maxSize
    && Sum(c.entries, sz) <= c.used
  }

  /** The counter is exactly the entries' total size, the accounting the design intends. */
  predicate Exact<K(==), V>(c: Cache<K, V>, sz: (K, V) -> nat)
  {
    Valid(c, sz) && Sum(c.entries, sz) == c.used
  }

  /** The loop guard of `put`, negated: after draining the `m` eldest entries an entry of size `need` fits. */
  predicate FitsAfter<K(==), V>(c: Cache<K, V>, need: nat, m: nat, sz: (K, V) -> nat)
    requires m <= |c.entries|
  {
    Drain(c.used, c.entries[..m], sz) + need <= c.maxSize
  }

  /** Evicting the `n` eldest entries makes room, and no smaller number does: LRU eviction that stops as soon as the entry fits. */
  predicate EvictsEldest<K(==), V>(c: Cache<K, V>, need: nat, n: nat, sz: (K, V) -> nat)
  {
    && n <= |c.entries|
    && FitsAfter(c, need, n, sz)
    && forall m :: 0 <= m < n ==> !FitsAfter(c, need, m, sz)
  }

  /** `getCurrentSize`. */
  function CurrentSize<K(==), V>(c: Cache<K, V>, sz: (K, V) -> nat): (r: nat)
    requires Valid(c, sz)
    ensures Sum(c.entries, sz) <= r <= c.maxSize
  {
    c.used
  }

  /** `get`: a hit returns the stored value and moves the key to the most-recent end; a miss changes nothing. */
  function Get<K(==), V>(c: Cache<K, V>, k: K): (r: GetResult<K, V>)
    ensures k in Contents(c.entries) ==> r.value == Some(Contents(c.entries)[k])
    ensures k !in Contents(c.entries) ==> r.value == None && r.after == c
    ensures Contents(r.after.entries) == Contents(c.entries)
    ensures r.after.used == c.used && r.after.maxSize == c.maxSize
    ensures k in Contents(c.entries) ==>
      && |r.after.entries| > 0
      && r.after.entries[|r.after.entries| - 1] == Entry(k, Contents(c.entries)[k])
      && Remove(r.after.entries, k) == Remove(c.entries, k)
  {
    if k in Contents(c.entries) then
      var v := Contents(c.entries)[k];
      var es := Insert(c.entries, k, v);
      ContentsInsert(c.entries, k, v);
      RemoveDropsKey(c.entries, k);
      RemoveAbsent(Remove(c.entries, k), k);
      assert es[..|es| - 1] == Remove(c.entries, k);
      GetResult(Some(v), c.(entries := es))
    else
      GetResult(None, c)
  }

  /** `get` keeps the accounting: it only reorders. */
  lemma GetKeepsAccounting<K, V>(c: Cache<K, V>, k: K, sz: (K, V) -> nat)
    ensures Valid(c, sz) ==> Valid(Get(c, k).after, sz)
    ensures Exact(c, sz) ==> Exact(Get(c, k).after, sz)
  {
    if k in Contents(c.entries) && Valid(c, sz) {
      var v := Contents(c.entries)[k];
      var es := Insert(c.entries, k, v);
      InsertKeepsNoDup(c.entries, k, v);
      SumRemovePresent(c.entries, k, sz);
      assert es[..|es| - 1] == Remove(c.entries, k);
      assert Sum(es, sz) == Sum(c.entries, sz);
    }
  }

  /**
   * `evict`: an absent key changes nothing; a present key is removed, the
   * others keep their recency order, and the counter drops by its estimated
   * size, floored at zero.
   */
  function Evict<K(==), V>(c: Cache<K, V>, k: K, sz: (K, V) -> nat): (r: Cache<K, V>)
    ensures Contents(r.entries) == Contents(c.entries) - {k}
    ensures r.entries == Remove(c.entries, k)
    ensures k !in Contents(c.entries) ==> r == c
    ensures k in Contents(c.entries) ==> r.used == FloorSub(c.used, sz(k, Contents(c.entries)[k]))
    ensures r.maxSize == c.maxSize
    ensures Valid(c, sz) ==> Valid(r, sz)
    ensures Exact(c, sz) ==> Exact(r, sz)
  {
    ContentsRemove(c.entries, k);
    if k in Contents(c.entries) then
      var v := Contents(c.entries)[k];
      SumRemoveBound(c.entries, k, sz);
      SumRemovePresent(c.entries, k, sz);
      RemoveKeepsNoDup(c.entries, k);
      Cache(Remove(c.entries, k), FloorSub(c.used, sz(k, v)), c.maxSize)
    else
      RemoveAbsent(c.entries, k);
      c
  }

  /** `clear`: no entries and a zero counter. */
  function Clear<K(==), V>(c: Cache<K, V>): (r: Cache<K, V>)
    ensures Contents(r.entries) == map[]
    ensures r.used == 0 && r.maxSize == c.maxSize
  {
    Cache([], 0, c.maxSize)
  }

  /** After `clear` every key misses and the accounting is exact again, whatever state came before. */
  lemma ClearForgetsEverything<K, V>(c: Cache<K, V>, k: K, sz: (K, V) -> nat)
    ensures Get(Clear(c), k).value == None
    ensures Exact(Clear(c), sz)
  {
  }

  /**
   * The number of eldest entries the loop of `put` evicts, scanning from `n`:
   * the least count that makes room, or `None` when even an empty map does not.
   */
  function EvictionCount<K(==), V>(c: Cache<K, V>, need: nat, sz: (K, V) -> nat, n: nat): (r: Option<nat>)
    requires n <= |c.entries|
    requires forall m :: 0 <= m < n ==> !FitsAfter(c, need, m, sz)
    ensures r.Some? ==> n <= r.value && EvictsEldest(c, need, r.value, sz)
    ensures r.None? ==> forall m :: 0 <= m <= |c.entries| ==> !FitsAfter(c, need, m, sz)
    decreases |c.entries| - n
  {
    if FitsAfter(c, need, n, sz) then Some(n)
    else if n == |c.entries| then None
    else EvictionCount(c, need, sz, n + 1)
  }

  /**
   * The eviction loop of `put`: drop eldest entries, lowering the counter by
   * each one's size, until an entry of size `need` fits.
   */
  function MakeRoom<K(==), V>(c: Cache<K, V>, need: nat, sz: (K, V) -> nat): (r: RoomResult<K, V>)
    ensures r.after.maxSize == c.maxSize
    ensures r.Room? ==> r.after.used + need <= c.maxSize
    ensures r.Room? ==> EvictsEldest(c, need, r.evicted, sz)
    ensures r.Room? ==> r.after == Cache(c.entries[r.evicted..], Drain(c.used, c.entries[..r.evicted], sz), c.maxSize)
    ensures r.Exhausted? <==> forall m :: 0 <= m <= |c.entries| ==> !FitsAfter(c, need, m, sz)
    ensures r.Exhausted? ==> r.after == Cache([], Drain(c.used, c.entries, sz), c.maxSize)
    ensures Valid(c, sz) ==> Valid(r.after, sz)
    ensures Exact(c, sz) && need <= c.maxSize ==> r.Room? && Exact(r.after, sz)
  {
    ExactLeavesRoom(c, need, sz);
    match EvictionCount(c, need, sz, 0)
    case Some(n) =>
      var room := Cache(c.entries[n..], Drain(c.used, c.entries[..n], sz), c.maxSize);
      RoomKeepsAccounting(c, n, sz);
      Room(room, n)
    case None =>
      assert c.entries[..|c.entries|] == c.entries;
      DrainMonotone(c.used, c.entries, 0, |c.entries|, sz);
      Exhausted(Cache([], Drain(c.used, c.entries, sz), c.maxSize))
  }

  /** With exact accounting an emptied map leaves the whole budget, so any entry within it fits. */
  lemma ExactLeavesRoom<K, V>(c: Cache<K, V>, need: nat, sz: (K, V) -> nat)
    ensures Exact(c, sz) && need <= c.maxSize ==> FitsAfter(c, need, |c.entries|, sz)
  {
    if Exact(c, sz) && need <= c.maxSize {
      assert c.entries[..|c.entries|] == c.entries;
      DrainExact(c.used, c.entries, sz);
    }
  }

  /** The count the eviction loop settles on is the least one that makes room. */
  lemma {:induction false} EvictionCountIsLeast<K, V>(c: Cache<K, V>, need: nat, sz: (K, V) -> nat, k: nat, n: nat)
    requires k <= n && EvictsEldest(c, need, n, sz)
    ensures EvictionCount(c, need, sz, k) == Some(n)
    decreases n - k
  {
    if k < n {
      EvictionCountIsLeast(c, need, sz, k + 1, n);
    }
  }

  /** Dropping the `n` eldest entries with floored subtraction keeps the accounting invariants. */
  lemma RoomKeepsAccounting<K, V>(c: Cache<K, V>, n: nat, sz: (K, V) -> nat)
    requires n <= |c.entries|
    ensures Valid(c, sz) ==> Valid(Cache(c.entries[n..], Drain(c.used, c.entries[..n], sz), c.maxSize), sz)
    ensures Exact(c, sz) ==> Exact(Cache(c.entries[n..], Drain(c.used, c.entries[..n], sz), c.maxSize), sz)
  {
    var es := c.entries;
    DrainMonotone(c.used, es, 0, n, sz);
    assert es[..0] == [];
    SumSplit(es, n, sz);
    DrainLowerBound(c.used, es[..n], sz);
    if NoDupKeys(es) {
      SuffixKeepsNoDup(es, n);
    }
    if Exact(c, sz) {
      DrainExact(c.used, es[..n], sz);
    }
  }

  /** `addSize`, with the error branch of the source that only logs. */
  function AddSize(used: nat, need: nat, maxSize: nat): (r: nat)
    ensures used + need <= maxSize ==> r == used + need
    ensures used + need > maxSize ==> r == used
  {
    if used + need <= maxSize then used + need else used
  }

  /** The condition of the `removeEldestEntry` hook: the counter is over budget. */
  predicate EldestHookFires(used: nat, maxSize: nat)
  {
    used > maxSize
  }

  /**
   * `put`. An entry larger than the whole budget is dropped silently. Otherwise
   * the eldest entries are evicted until the entry fits, the entry is stored as
   * most recent, and its size is added to the counter. If the map runs empty
   * while the counter still leaves no room, the source throws.
   */
  function Put<K(==), V>(c: Cache<K, V>, key: K, value: V, sz: (K, V) -> nat): (r: PutResult<K, V>)
    ensures sz(key, value) > c.maxSize ==> r == Done(c)
    ensures r.after.maxSize == c.maxSize
    ensures r.Crash? <==> sz(key, value) <= c.maxSize && forall m :: 0 <= m <= |c.entries| ==> !FitsAfter(c, sz(key, value), m, sz)
    ensures r.Crash? ==> r.after.entries == [] && r.after.used == Drain(c.used, c.entries, sz)
    ensures r.Done? && sz(key, value) <= c.maxSize ==>
      && key in Contents(r.after.entries) && Contents(r.after.entries)[key] == value
      && |r.after.entries| > 0 && r.after.entries[|r.after.entries| - 1] == Entry(key, value)
      && r.after.used <= c.maxSize
    ensures forall k :: k in Contents(r.after.entries) ==>
      || (k == key && Contents(r.after.entries)[k] == value)
      || (k in Contents(c.entries) && Contents(r.after.entries)[k] == Contents(c.entries)[k])
    ensures Valid(c, sz) ==> Valid(r.after, sz)
  {
    var need := sz(key, value);
    if need > c.maxSize then Done(c)
    else
      match MakeRoom(c, need, sz)
      case Exhausted(drained) => Crash(drained)
      case Room(room, _) =>
        var es := Insert(room.entries, key, value);
        InsertFacts(c, room, key, value, sz);
        Done(Cache(es, AddSize(room.used, need, c.maxSize), c.maxSize))
  }

  /** What storing the entry after the eviction loop does to contents, order and accounting. */
  lemma InsertFacts<K, V>(c: Cache<K, V>, room: Cache<K, V>, key: K, value: V, sz: (K, V) -> nat)
    requires MakeRoom(c, sz(key, value), sz).Room? && MakeRoom(c, sz(key, value), sz).after == room
    ensures var es := Insert(room.entries, key, value);
      && Contents(es) == Contents(room.entries)[key := value]
      && es[|es| - 1] == Entry(key, value)
      && (forall k :: k in Contents(es) ==>
           || (k == key && Contents(es)[k] == value)
           || (k in Contents(c.entries) && Contents(es)[k] == Contents(c.entries)[k]))
      && (Valid(c, sz) ==> Valid(Cache(es, room.used + sz(key, value), c.maxSize), sz))
  {
    var es := Insert(room.entries, key, value);
    var n := MakeRoom(c, sz(key, value), sz).evicted;
    ContentsInsert(room.entries, key, value);
    ContentsSuffix(c.entries, n);
    RemoveDropsKey(room.entries, key);
    RemoveAbsent(Remove(room.entries, key), key);
    assert es[..|es| - 1] == Remove(room.entries, key);
    if Valid(c, sz) {
      InsertKeepsNoDup(room.entries, key, value);
      SumRemoveBound(room.entries, key, sz);
    }
  }

  /**
   * The two branches the counter bound makes dead: when `put` stores an entry
   * the counter is within budget, so `removeEldestEntry` never evicts, and
   * `addSize` always takes its first branch.
   */
  lemma HookAndAddSizeErrorAreDead<K, V>(c: Cache<K, V>, key: K, value: V, sz: (K, V) -> nat)
    requires sz(key, value) <= c.maxSize
    requires MakeRoom(c, sz(key, value), sz).Room?
    ensures !EldestHookFires(MakeRoom(c, sz(key, value), sz).after.used, c.maxSize)
    ensures AddSize(MakeRoom(c, sz(key, value), sz).after.used, sz(key, value), c.maxSize)
         == MakeRoom(c, sz(key, value), sz).after.used + sz(key, value)
  {
  }

  /**
   * When `n` is the least number of eldest entries whose eviction makes room,
   * `put` keeps the entries after them, stores the new entry as most recent,
   * and lowers the counter by their floored sizes before adding the new size.
   */
  lemma PutEvictsLeast<K, V>(c: Cache<K, V>, key: K, value: V, sz: (K, V) -> nat, n: nat)
    requires sz(key, value) <= c.maxSize
    requires EvictsEldest(c, sz(key, value), n, sz)
    ensures Put(c, key, value, sz)
      == Done(Cache(Insert(c.entries[n..], key, value), Drain(c.used, c.entries[..n], sz) + sz(key, value), c.maxSize))
  {
    EvictionCountIsLeast(c, sz(key, value), sz, 0, n);
  }

  /**
   * For a key not already cached, `put` on an exactly accounted cache never
   * throws, stays exact, and the new counter is the old one minus the sizes of
   * the evicted eldest entries plus the new entry's size.
   */
  lemma PutFreshKeyKeepsExact<K, V>(c: Cache<K, V>, key: K, value: V, sz: (K, V) -> nat)
    requires key !in Contents(c.entries)
    ensures Exact(c, sz) ==> Put(c, key, value, sz).Done? && Exact(Put(c, key, value, sz).after, sz)
    ensures Exact(c, sz) && sz(key, value) <= c.maxSize ==> exists n :: (0 <= n <= |c.entries|
      && Put(c, key, value, sz).after.used + Sum(c.entries[..n], sz) == c.used + sz(key, value)
      && Put(c, key, value, sz).after.entries == c.entries[n..] + [Entry(key, value)])
  {
    if !Exact(c, sz) || sz(key, value) > c.maxSize {
      return;
    }
    var need := sz(key, value);
    var n := MakeRoom(c, need, sz).evicted;
    PutEvictsLeast(c, key, value, sz, n);
    ContentsSuffix(c.entries, n);
    RemoveAbsent(c.entries[n..], key);
    SumSplit(c.entries, n, sz);
    DrainExact(c.used, c.entries[..n], sz);
  }

  /**
   * The loop of `put` as the source writes it, over a local entry sequence and
   * counter. The loop is bounded by the entries left, and the guard on an empty
   * map is explicit: it is where the source's `iterator().next()` throws.
   */
  method PutLoop<K(==), V>(c: Cache<K, V>, key: K, value: V, sz: (K, V) -> nat) returns (r: PutResult<K, V>)
    ensures r == Put(c, key, value, sz)
  {
    var need := sz(key, value);
    if need > c.maxSize {
      return Done(c);
    }
    var entries := c.entries;
    var used := c.used;
    var n := 0;
    while used + need > c.maxSize
      invariant n <= |c.entries|
      invariant entries == c.entries[n..]
      invariant used == Drain(c.used, c.entries[..n], sz)
      invariant forall m :: 0 <= m < n ==> !FitsAfter(c, need, m, sz)
      decreases |entries|
    {
      if |entries| == 0 {
        assert c.entries[..n] == c.entries;
        return Crash(Cache([], used, c.maxSize));
      }
      var eldest := entries[0];
      assert c.entries[..n + 1][..n] == c.entries[..n];
      entries := entries[1..];
      used := FloorSub(used, sz(eldest.key, eldest.value));
      n := n + 1;
    }
    PutEvictsLeast(c, key, value, sz, n);
    r := Done(Cache(Insert(entries, key, value), used + need, c.maxSize));
  }
}
