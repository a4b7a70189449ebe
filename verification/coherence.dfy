/**
 * Point-level coherence of the exchange-rate cache with the repository: every
 * rate the cache holds under a key is the rate of a stored row with that key.
 * It is kept by every modelled service operation and by the controllers' own
 * use of the one shared cache instance. With three-letter codes, and no rate
 * cached for a triple that two rows share, it makes `getExchangeRateValue`
 * answer what the repository alone would.
 */
module Coherence {
  import opened Wrappers
  import opened CacheEntries
  import opened InMemoryCache
  import opened CacheKey
  import opened ExchangeRateService
  import opened BulkDuplicates
  import opened BankService

  /** A stored row with key `k` has rate `rate`. */
  ghost predicate Backed(s: Store, k: string, rate: Decimal)
  {
    exists id :: id in s.rates && KeyOf(s.rates[id]) == k && s.rates[id].rate == rate
  }

  /** Every cached rate is backed by the store. */
  ghost predicate Coherent(s: Store, c: Cache<string, CachedValue>)
  {
    forall k :: k in Contents(c.entries) && Contents(c.entries)[k].RateVal? ==> Backed(s, k, Contents(c.entries)[k].rate)
  }

  /** The cache holds no rate at all (only what the controller puts). */
  predicate NoCachedRates(c: Cache<string, CachedValue>)
  {
    forall k :: k in Contents(c.entries) ==> Contents(c.entries)[k].Other?
  }

  /** Every stored id was handed out before `nextId`. */
  predicate IdsBelowNext(s: Store)
  {
    forall id :: id in s.rates ==> id < s.nextId
  }

  /**
   * The state invariant: fresh ids, exact cache accounting (every `put` of the
   * service and the controller follows a miss on its key), coherence, and,
   * with caching disabled (so that nothing is ever evicted), no cached rates.
   */
  ghost predicate Inv(cfg: Config, st: State)
  {
    && IdsBelowNext(st.store)
    && Exact(st.cache, cfg.sz)
    && Coherent(st.store, st.cache)
    && (!cfg.cacheEnabled ==> NoCachedRates(st.cache))
  }

  /**
   * Known currency codes and stored codes have three letters. This is an
   * assumption about the currency table: the entity column only caps a code at
   * three characters, and the `@Size(3, 3)` check guards only bulk requests.
   */
  predicate ThreeLetterCodes(s: Store)
  {
    && (forall code :: code in s.currencies ==> |code| == 3)
    && (forall id :: id in s.rates ==> |s.rates[id].from| == 3 && |s.rates[id].to| == 3)
  }

  /** The cache holds a rate under `k`. */
  predicate CachedRate(c: Cache<string, CachedValue>, k: string)
  {
    k in Contents(c.entries) && Contents(c.entries)[k].RateVal?
  }

  /**
   * No rate is cached under the key of a triple that two stored rows share:
   * a read of such a triple fails before its `put`, and every write evicts
   * the key of each row it stores.
   */
  predicate NoCachedDuplicate(st: State)
  {
    forall a, b :: a in st.store.rates && b in st.store.rates && a != b && SameTriple(st.store.rates[a], st.store.rates[b])
      ==> !CachedRate(st.cache, KeyOf(st.store.rates[a]))
  }

  /** What the read-after-write guarantee needs beyond `Inv`, with the shipped bulk create. */
  ghost predicate ReadsAgree(cfg: Config, st: State)
  {
    Inv(cfg, st) && ThreeLetterCodes(st.store) && NoCachedDuplicate(st)
  }

  /** `ReadsAgree` with unique triples, which only the corrected bulk create keeps. */
  ghost predicate Sound(cfg: Config, st: State)
  {
    Inv(cfg, st) && ThreeLetterCodes(st.store) && UniqueTriples(st.store)
  }

  /** The application starts with an empty cache. */
  function Start(s: Store, maxSize: nat): (st: State)
    ensures Contents(st.cache.entries) == map[] && st.cache.used == 0
  {
    State(s, Cache([], 0, maxSize))
  }

  /**
   * A controller read of the shared cache under its own key: a hit is
   * returned as it is; a miss whose lookup finds the entity puts the response
   * object it built. A miss whose lookup finds nothing answers 404 and
   * changes neither store nor cache, so a run leaves that call out.
   */
  function ControllerReadThrough(cfg: Config, st: State, key: string, response: string): (r: State)
    ensures r.store == st.store
    ensures key in Contents(st.cache.entries) ==> Contents(r.cache.entries) == Contents(st.cache.entries)
    ensures forall k :: k in Contents(r.cache.entries) ==>
      (k == key && Contents(r.cache.entries)[k] == Other(response))
      || (k in Contents(st.cache.entries) && Contents(r.cache.entries)[k] == Contents(st.cache.entries)[k])
    ensures Exact(st.cache, cfg.sz) ==> Exact(r.cache, cfg.sz)
  {
    if key in Contents(st.cache.entries) then
      GetKeepsAccounting(st.cache, key, cfg.sz);
      st.(cache := Get(st.cache, key).after)
    else
      PutFreshKeyKeepsExact(st.cache, key, Other(response), cfg.sz);
      st.(cache := Put(st.cache, key, Other(response), cfg.sz).after)
  }

  /** A controller `clear` after a mutation. */
  function ControllerClear(st: State): (r: State)
    ensures r.store == st.store && Contents(r.cache.entries) == map[]
  {
    st.(cache := Clear(st.cache))
  }

  /**
   * The bank controller's delete: `deleteBank`, whose cascade removes the
   * bank's rows without any eviction, then `clear` of the controller's cache.
   * The controller's `InMemoryCache<String, Object>` is taken to be the
   * `applicationCache` bean the exchange-rate service also receives.
   */
  function BankControllerDelete(st: State, bankId: int): (r: State)
    ensures Contents(r.cache.entries) == map[]
    ensures forall id :: id in r.store.rates ==> id in st.store.rates && r.store.rates[id] == st.store.rates[id]
  {
    ControllerClear(DeleteBank(st, bankId).after)
  }

  // ---------------------------------------------------------------------------
  // Frame lemmas
  // ---------------------------------------------------------------------------

  /** Dropping cache entries keeps coherence and the absence of cached rates. */
  lemma ShrinkCache(s: Store, c1: Cache<string, CachedValue>, c2: Cache<string, CachedValue>)
    requires forall k :: k in Contents(c2.entries) ==> k in Contents(c1.entries) && Contents(c2.entries)[k] == Contents(c1.entries)[k]
    ensures Coherent(s, c1) ==> Coherent(s, c2)
    ensures NoCachedRates(c1) ==> NoCachedRates(c2)
  {
  }

  /**
   * A store change keeps coherence when every row it removes or rewrites had
   * a key the cache does not hold.
   */
  lemma {:induction false} ChangeStore(s1: Store, s2: Store, c: Cache<string, CachedValue>, gone: set<nat>)
    requires Coherent(s1, c)
    requires forall id :: id in s1.rates && id !in gone ==> id in s2.rates && s2.rates[id] == s1.rates[id]
    requires forall id :: id in s1.rates && id in gone ==> KeyOf(s1.rates[id]) !in Contents(c.entries)
    ensures Coherent(s2, c)
  {
    forall k | k in Contents(c.entries) && Contents(c.entries)[k].RateVal?
      ensures Backed(s2, k, Contents(c.entries)[k].rate)
    {
      var id :| id in s1.rates && KeyOf(s1.rates[id]) == k && s1.rates[id].rate == Contents(c.entries)[k].rate;
      assert id in s2.rates && s2.rates[id] == s1.rates[id];
    }
  }

  /** With no cached rates coherence holds for any store. */
  lemma NoRatesCoherent(s: Store, c: Cache<string, CachedValue>)
    requires NoCachedRates(c)
    ensures Coherent(s, c)
  {
  }

  // ---------------------------------------------------------------------------
  // Inv is kept by every operation
  // ---------------------------------------------------------------------------

  lemma StartKeepsInv(cfg: Config, s: Store, maxSize: nat)
    requires IdsBelowNext(s)
    ensures Inv(cfg, Start(s, maxSize))
  {
  }

  lemma CreateKeepsInv(cfg: Config, st: State, bankId: int, from: string, to: string, rate: Decimal)
    requires Inv(cfg, st)
    ensures Inv(cfg, CreateExchangeRateWithCodes(cfg, st, bankId, from, to, rate).after)
  {
    var r := CreateExchangeRateWithCodes(cfg, st, bankId, from, to, rate);
    if r.status.Success? {
      ShrinkCache(st.store, st.cache, r.after.cache);
      ChangeStore(st.store, r.after.store, r.after.cache, {});
    }
  }

  lemma BulkKeepsInv(cfg: Config, st: State, reqs: seq<Request>)
    requires Inv(cfg, st)
    ensures Inv(cfg, CreateExchangeRatesBulk(cfg, st, reqs).after)
  {
    var r := CreateExchangeRatesBulk(cfg, st, reqs);
    if r.status.Success? && |reqs| > 0 {
      ShrinkCache(st.store, st.cache, r.after.cache);
      ChangeStore(st.store, r.after.store, r.after.cache, {});
    }
  }

  lemma UpdateKeepsInv(cfg: Config, st: State, id: int, from: string, to: string, newRate: Decimal)
    requires Inv(cfg, st)
    ensures Inv(cfg, UpdateExchangeRate(cfg, st, id, from, to, newRate).after)
  {
    var r := UpdateExchangeRate(cfg, st, id, from, to, newRate);
    if r.status.Success? {
      ShrinkCache(st.store, st.cache, r.after.cache);
      if cfg.cacheEnabled {
        ChangeStore(st.store, r.after.store, r.after.cache, {id});
      } else {
        NoRatesCoherent(r.after.store, r.after.cache);
      }
    }
  }

  lemma DeleteKeepsInv(cfg: Config, st: State, id: int)
    requires Inv(cfg, st)
    ensures Inv(cfg, DeleteExchangeRate(cfg, st, id).after)
  {
    var r := DeleteExchangeRate(cfg, st, id);
    if id in st.store.rates {
      ShrinkCache(st.store, st.cache, r.after.cache);
      if cfg.cacheEnabled {
        ChangeStore(st.store, r.after.store, r.after.cache, {id});
      } else {
        NoRatesCoherent(r.after.store, r.after.cache);
      }
    }
  }

  lemma ReadKeepsInv(cfg: Config, st: State, bankId: int, from: string, to: string)
    requires Inv(cfg, st)
    ensures Inv(cfg, GetExchangeRateValue(cfg, st, bankId, from, to).after)
  {
    ReadKeepsExact(cfg, st, bankId, from, to);
    var r := GetExchangeRateValue(cfg, st, bankId, from, to);
    var after := Contents(r.after.cache.entries);
    forall k | k in after && after[k].RateVal?
      ensures Backed(st.store, k, after[k].rate)
    {
      if !(k in Contents(st.cache.entries) && after[k] == Contents(st.cache.entries)[k]) {
        var id :| id in MatchingIds(st.store, bankId, from, to) && after[k] == RateVal(st.store.rates[id].rate);
        assert KeyOf(st.store.rates[id]) == k;
      }
    }
  }

  lemma ControllerReadThroughKeepsInv(cfg: Config, st: State, key: string, response: string)
    requires Inv(cfg, st)
    ensures Inv(cfg, ControllerReadThrough(cfg, st, key, response))
  {
  }

  lemma ControllerClearKeepsInv(cfg: Config, st: State)
    requires Inv(cfg, st)
    ensures Inv(cfg, ControllerClear(st))
  {
  }

  /** The bank controller's delete keeps the invariant: its `clear` drops whatever the cascade left stale. */
  lemma BankControllerDeleteKeepsInv(cfg: Config, st: State, bankId: int)
    requires Inv(cfg, st)
    ensures Inv(cfg, BankControllerDelete(st, bankId))
  {
  }

  /** Bank 1 with one `USD` to `EUR` row, whose rate a read has cached. */
  function OneCachedRate(sz: (string, CachedValue) -> nat): State
  {
    var k := Key(1, Usd, Eur);
    State(Store(map[0 := ExchangeRate(1, Usd, Eur, One)], {1}, {Usd, Eur}, 1), Cache([Entry(k, RateVal(One))], sz(k, RateVal(One)), sz(k, RateVal(One))))
  }

  /**
   * `deleteBank` alone, without the controller's `clear`, breaks coherence:
   * the cascade deletes the row, its rate stays cached, and the next read
   * returns the rate of a row the repository no longer has.
   */
  lemma DeleteBankLeavesStaleRate(sz: (string, CachedValue) -> nat)
    ensures Inv(Config(true, sz), OneCachedRate(sz))
    ensures var after := DeleteBank(OneCachedRate(sz), 1).after;
      && StoreAnswer(after.store, 1, Usd, Eur) == Success(None)
      && GetExchangeRateValue(Config(true, sz), after, 1, Usd, Eur).status == Success(Some(One))
      && !Coherent(after.store, after.cache)
  {
    var st := OneCachedRate(sz);
    var k := Key(1, Usd, Eur);
    var e := Entry(k, RateVal(One));
    assert [e][..0] == [];
    assert Contents([e]) == map[k := RateVal(One)];
    assert NoDupKeys([e]);
    assert Sum([e], sz) == sz(k, RateVal(One));
    assert Exact(st.cache, sz);
    assert Backed(st.store, k, One) by {
      assert KeyOf(st.store.rates[0]) == k;
    }
    var after := DeleteBank(st, 1).after;
    assert after.store.rates == map[];
    assert MatchingIds(after.store, 1, Usd, Eur) == {};
    assert !Backed(after.store, k, One);
  }

  // ---------------------------------------------------------------------------
  // NoCachedDuplicate is kept by every operation
  // ---------------------------------------------------------------------------

  /** With caching disabled no rate is cached, so there is no cached duplicate either. */
  lemma NoRatesNoDuplicate(st: State)
    requires NoCachedRates(st.cache)
    ensures NoCachedDuplicate(st)
  {
    forall k | k in Contents(st.cache.entries)
      ensures !Contents(st.cache.entries)[k].RateVal?
    {
    }
  }

  lemma CreateKeepsNoCachedDuplicate(cfg: Config, st: State, bankId: int, from: string, to: string, rate: Decimal)
    requires Inv(cfg, st) && NoCachedDuplicate(st)
    ensures NoCachedDuplicate(CreateExchangeRateWithCodes(cfg, st, bankId, from, to, rate).after)
  {
    var r := CreateExchangeRateWithCodes(cfg, st, bankId, from, to, rate);
    if r.status.Success? {
      if cfg.cacheEnabled {
        var n := st.store.nextId;
        var rates := r.after.store.rates;
        forall a, b | a in rates && b in rates && a != b && SameTriple(rates[a], rates[b])
          ensures !CachedRate(r.after.cache, KeyOf(rates[a]))
        {
          if a != n && b == n {
            assert false;
          }
        }
      } else {
        NoRatesNoDuplicate(r.after);
      }
    }
  }

  /** A pair of rows after a shipped bulk create: a cached rate means both were stored before it. */
  lemma BulkPairUncached(cfg: Config, st: State, reqs: seq<Request>, a: nat, b: nat)
    requires Inv(cfg, st) && NoCachedDuplicate(st) && cfg.cacheEnabled
    requires CreateExchangeRatesBulk(cfg, st, reqs).status.Success? && |reqs| > 0
    requires var rates := CreateExchangeRatesBulk(cfg, st, reqs).after.store.rates;
      a in rates && b in rates && a != b && SameTriple(rates[a], rates[b])
    ensures var r := CreateExchangeRatesBulk(cfg, st, reqs).after;
      !CachedRate(r.cache, KeyOf(r.store.rates[a]))
  {
    var s := st.store;
    var r := CreateExchangeRatesBulk(cfg, st, reqs).after;
    SavedRow(s, reqs, a);
    SavedRow(s, reqs, b);
    if s.nextId <= a {
      var i := a - s.nextId;
      assert KeyOf(RowOf(reqs[i])) in set j | 0 <= j < |reqs| :: KeyOf(RowOf(reqs[j]));
    } else if s.nextId <= b {
      assert false;
    }
  }

  /**
   * The shipped bulk create keeps `NoCachedDuplicate` although it can store
   * two rows with one triple: it evicts every saved row's key, and a stored
   * row's triple fails the duplicate check of each request.
   */
  lemma BulkKeepsNoCachedDuplicate(cfg: Config, st: State, reqs: seq<Request>)
    requires Inv(cfg, st) && NoCachedDuplicate(st)
    ensures NoCachedDuplicate(CreateExchangeRatesBulk(cfg, st, reqs).after)
  {
    var r := CreateExchangeRatesBulk(cfg, st, reqs);
    if r.status.Success? && |reqs| > 0 {
      if cfg.cacheEnabled {
        var rates := r.after.store.rates;
        forall a, b | a in rates && b in rates && a != b && SameTriple(rates[a], rates[b])
          ensures !CachedRate(r.after.cache, KeyOf(rates[a]))
        {
          BulkPairUncached(cfg, st, reqs, a, b);
        }
      } else {
        NoRatesNoDuplicate(r.after);
      }
    }
  }

  lemma UpdateKeepsNoCachedDuplicate(cfg: Config, st: State, id: int, from: string, to: string, newRate: Decimal)
    requires Inv(cfg, st) && NoCachedDuplicate(st)
    ensures NoCachedDuplicate(UpdateExchangeRate(cfg, st, id, from, to, newRate).after)
  {
    var r := UpdateExchangeRate(cfg, st, id, from, to, newRate);
    if r.status.Success? {
      if cfg.cacheEnabled {
        var prev := st.store.rates[id];
        var rates := r.after.store.rates;
        forall a, b | a in rates && b in rates && a != b && SameTriple(rates[a], rates[b])
          ensures !CachedRate(r.after.cache, KeyOf(rates[a]))
        {
          if a != id && b == id {
            if prev.from != from || prev.to != to {
              assert false;
            } else {
              assert KeyOf(rates[a]) == KeyOf(prev);
            }
          }
        }
      } else {
        NoRatesNoDuplicate(r.after);
      }
    }
  }

  lemma DeleteKeepsNoCachedDuplicate(cfg: Config, st: State, id: int)
    requires Inv(cfg, st) && NoCachedDuplicate(st)
    ensures NoCachedDuplicate(DeleteExchangeRate(cfg, st, id).after)
  {
    var r := DeleteExchangeRate(cfg, st, id);
    if id in st.store.rates && !cfg.cacheEnabled {
      NoRatesNoDuplicate(r.after);
    }
  }

  /**
   * A read caches a rate only for a triple exactly one row has: with two
   * rows the lookup fails and the key is left out of the cache.
   */
  lemma ReadKeepsNoCachedDuplicate(cfg: Config, st: State, bankId: int, from: string, to: string)
    requires Inv(cfg, st) && ThreeLetterCodes(st.store) && NoCachedDuplicate(st)
    ensures NoCachedDuplicate(GetExchangeRateValue(cfg, st, bankId, from, to).after)
  {
    var r := GetExchangeRateValue(cfg, st, bankId, from, to);
    var k := Key(bankId, from, to);
    var rates := st.store.rates;
    if cfg.cacheEnabled && !CachedRate(st.cache, k) {
      forall a, b | a in rates && b in rates && a != b && SameTriple(rates[a], rates[b])
        ensures !CachedRate(r.after.cache, KeyOf(rates[a]))
      {
        var ka := KeyOf(rates[a]);
        if CachedRate(r.after.cache, ka) {
          assert !CachedRate(st.cache, ka);
          var id :| id in MatchingIds(st.store, bankId, from, to) && Contents(r.after.cache.entries)[ka] == RateVal(rates[id].rate);
          KeyInjective(rates[a].bankId, rates[a].from, rates[a].to, bankId, from, to);
          assert false;
        }
      }
    }
  }

  lemma ControllerReadThroughKeepsNoCachedDuplicate(cfg: Config, st: State, key: string, response: string)
    requires NoCachedDuplicate(st)
    ensures NoCachedDuplicate(ControllerReadThrough(cfg, st, key, response))
  {
  }

  // ---------------------------------------------------------------------------
  // Read after write
  // ---------------------------------------------------------------------------

  /** Unique triples leave no triple two rows share, so no cached duplicate. */
  lemma SoundReadsAgree(cfg: Config, st: State)
    requires Sound(cfg, st)
    ensures ReadsAgree(cfg, st)
  {
  }

  /**
   * With three-letter codes and no rate cached for a shared triple, a read
   * answers exactly what the repository answers: a stale rate is never
   * returned, whatever sequence of writes came before, and the cache's own
   * `put` never throws.
   */
  lemma ReadAgreesWithStore(cfg: Config, st: State, bankId: int, from: string, to: string)
    requires ReadsAgree(cfg, st)
    requires |from| == 3 && |to| == 3
    ensures var r := GetExchangeRateValue(cfg, st, bankId, from, to).status;
      r == StoreAnswer(st.store, bankId, from, to)
  {
    ReadKeepsExact(cfg, st, bankId, from, to);
    var k := Key(bankId, from, to);
    var contents := Contents(st.cache.entries);
    if cfg.cacheEnabled && k in contents && contents[k].RateVal? {
      var id :| id in st.store.rates && KeyOf(st.store.rates[id]) == k && st.store.rates[id].rate == contents[k].rate;
      var row := st.store.rates[id];
      KeyInjective(row.bankId, row.from, row.to, bankId, from, to);
      forall other | other in MatchingIds(st.store, bankId, from, to)
        ensures other == id
      {
        assert SameTriple(st.store.rates[id], st.store.rates[other]);
      }
      assert MatchingIds(st.store, bankId, from, to) == {id};
    }
  }

  /** Every row a bulk create saves passed the code checks, so stored codes keep three letters. */
  lemma BulkKeepsThreeLetterCodes(cfg: Config, st: State, reqs: seq<Request>)
    requires IdsBelowNext(st.store) && ThreeLetterCodes(st.store)
    ensures ThreeLetterCodes(CreateExchangeRatesBulk(cfg, st, reqs).after.store)
  {
    var r := CreateExchangeRatesBulk(cfg, st, reqs);
    if r.status.Success? && |reqs| > 0 {
      forall id | id in r.after.store.rates
        ensures |r.after.store.rates[id].from| == 3 && |r.after.store.rates[id].to| == 3
      {
        SavedRow(st.store, reqs, id);
        if st.store.nextId <= id {
          assert CheckRequest(st.store, reqs[id - st.store.nextId]).Success?;
        }
      }
    }
  }

  /** The corrected bulk create keeps `Sound`. */
  lemma CheckedBulkKeepsSound(cfg: Config, st: State, reqs: seq<Request>)
    requires Sound(cfg, st)
    ensures Sound(cfg, CreateExchangeRatesBulkChecked(cfg, st, reqs).after)
  {
    BulkKeepsInv(cfg, st, reqs);
    BulkKeepsThreeLetterCodes(cfg, st, reqs);
    CheckedBulkKeepsUniqueTriples(cfg, st, reqs);
  }

  lemma CreateKeepsSound(cfg: Config, st: State, bankId: int, from: string, to: string, rate: Decimal)
    requires Sound(cfg, st)
    ensures Sound(cfg, CreateExchangeRateWithCodes(cfg, st, bankId, from, to, rate).after)
  {
    CreateKeepsInv(cfg, st, bankId, from, to, rate);
  }

  lemma UpdateKeepsSound(cfg: Config, st: State, id: int, from: string, to: string, newRate: Decimal)
    requires Sound(cfg, st)
    ensures Sound(cfg, UpdateExchangeRate(cfg, st, id, from, to, newRate).after)
  {
    UpdateKeepsInv(cfg, st, id, from, to, newRate);
  }

  lemma DeleteKeepsSound(cfg: Config, st: State, id: int)
    requires Sound(cfg, st)
    ensures Sound(cfg, DeleteExchangeRate(cfg, st, id).after)
  {
    DeleteKeepsInv(cfg, st, id);
  }

  lemma ReadKeepsSound(cfg: Config, st: State, bankId: int, from: string, to: string)
    requires Sound(cfg, st)
    ensures Sound(cfg, GetExchangeRateValue(cfg, st, bankId, from, to).after)
  {
    ReadKeepsInv(cfg, st, bankId, from, to);
  }

  // ---------------------------------------------------------------------------
  // Any sequence of calls
  // ---------------------------------------------------------------------------

  /** A call on the shared state: a service operation or a controller's own use of the cache. */
  datatype Op =
    | CreateOp(bankId: int, from: string, to: string, rate: Decimal)
    | BulkOp(reqs: seq<Request>)
    | UpdateOp(id: int, from: string, to: string, newRate: Decimal)
    | DeleteOp(id: int)
    | ReadOp(bankId: int, from: string, to: string)
    | ControllerReadOp(key: string, response: string)
    | ControllerClearOp
    | BankDeleteOp(bankId: int)

  /** The state after one call; `batchCheck` selects the bulk create with the in-batch duplicate check. */
  ghost function Apply(cfg: Config, st: State, op: Op, batchCheck: bool): State
  {
    match op
    case CreateOp(b, f, t, rate) => CreateExchangeRateWithCodes(cfg, st, b, f, t, rate).after
    case BulkOp(reqs) =>
      if batchCheck then CreateExchangeRatesBulkChecked(cfg, st, reqs).after
      else CreateExchangeRatesBulk(cfg, st, reqs).after
    case UpdateOp(id, f, t, rate) => UpdateExchangeRate(cfg, st, id, f, t, rate).after
    case DeleteOp(id) => DeleteExchangeRate(cfg, st, id).after
    case ReadOp(b, f, t) => GetExchangeRateValue(cfg, st, b, f, t).after
    case ControllerReadOp(key, response) => ControllerReadThrough(cfg, st, key, response)
    case ControllerClearOp => ControllerClear(st)
    case BankDeleteOp(bankId) => BankControllerDelete(st, bankId)
  }

  /** The state after a sequence of calls, in order. */
  ghost function Run(cfg: Config, st: State, ops: seq<Op>, batchCheck: bool): State
    decreases |ops|
  {
    if |ops| == 0 then st else Run(cfg, Apply(cfg, st, ops[0], batchCheck), ops[1..], batchCheck)
  }

  lemma ApplyKeepsInv(cfg: Config, st: State, op: Op, batchCheck: bool)
    requires Inv(cfg, st)
    ensures Inv(cfg, Apply(cfg, st, op, batchCheck))
  {
    match op
    case CreateOp(b, f, t, rate) => CreateKeepsInv(cfg, st, b, f, t, rate);
    case BulkOp(reqs) => BulkKeepsInv(cfg, st, reqs);
    case UpdateOp(id, f, t, rate) => UpdateKeepsInv(cfg, st, id, f, t, rate);
    case DeleteOp(id) => DeleteKeepsInv(cfg, st, id);
    case ReadOp(b, f, t) => ReadKeepsInv(cfg, st, b, f, t);
    case ControllerReadOp(key, response) => ControllerReadThroughKeepsInv(cfg, st, key, response);
    case ControllerClearOp => ControllerClearKeepsInv(cfg, st);
    case BankDeleteOp(bankId) => BankControllerDeleteKeepsInv(cfg, st, bankId);
  }

  /** Coherence and exact accounting survive any sequence of calls, with or without the in-batch check. */
  lemma {:induction false} RunKeepsInv(cfg: Config, st: State, ops: seq<Op>, batchCheck: bool)
    requires Inv(cfg, st)
    ensures Inv(cfg, Run(cfg, st, ops, batchCheck))
    decreases |ops|
  {
    if |ops| > 0 {
      ApplyKeepsInv(cfg, st, ops[0], batchCheck);
      RunKeepsInv(cfg, Apply(cfg, st, ops[0], batchCheck), ops[1..], batchCheck);
    }
  }

  lemma ApplyKeepsSound(cfg: Config, st: State, op: Op)
    requires Sound(cfg, st)
    ensures Sound(cfg, Apply(cfg, st, op, true))
  {
    match op
    case CreateOp(b, f, t, rate) => CreateKeepsSound(cfg, st, b, f, t, rate);
    case BulkOp(reqs) => CheckedBulkKeepsSound(cfg, st, reqs);
    case UpdateOp(id, f, t, rate) => UpdateKeepsSound(cfg, st, id, f, t, rate);
    case DeleteOp(id) => DeleteKeepsSound(cfg, st, id);
    case ReadOp(b, f, t) => ReadKeepsSound(cfg, st, b, f, t);
    case ControllerReadOp(key, response) => ControllerReadThroughKeepsInv(cfg, st, key, response);
    case ControllerClearOp => ControllerClearKeepsInv(cfg, st);
    case BankDeleteOp(bankId) => BankControllerDeleteKeepsInv(cfg, st, bankId);
  }

  /** With the in-batch check, `Sound` survives any sequence of calls. */
  lemma {:induction false} RunKeepsSound(cfg: Config, st: State, ops: seq<Op>)
    requires Sound(cfg, st)
    ensures Sound(cfg, Run(cfg, st, ops, true))
    decreases |ops|
  {
    if |ops| > 0 {
      ApplyKeepsSound(cfg, st, ops[0]);
      RunKeepsSound(cfg, Apply(cfg, st, ops[0], true), ops[1..]);
    }
  }

  /** Every single call, with either bulk create, keeps `ReadsAgree`. */
  lemma ApplyKeepsReadsAgree(cfg: Config, st: State, op: Op, batchCheck: bool)
    requires ReadsAgree(cfg, st)
    ensures ReadsAgree(cfg, Apply(cfg, st, op, batchCheck))
  {
    ApplyKeepsInv(cfg, st, op, batchCheck);
    match op
    case CreateOp(b, f, t, rate) => CreateKeepsNoCachedDuplicate(cfg, st, b, f, t, rate);
    case BulkOp(reqs) =>
      BulkKeepsNoCachedDuplicate(cfg, st, reqs);
      BulkKeepsThreeLetterCodes(cfg, st, reqs);
    case UpdateOp(id, f, t, rate) => UpdateKeepsNoCachedDuplicate(cfg, st, id, f, t, rate);
    case DeleteOp(id) => DeleteKeepsNoCachedDuplicate(cfg, st, id);
    case ReadOp(b, f, t) => ReadKeepsNoCachedDuplicate(cfg, st, b, f, t);
    case ControllerReadOp(key, response) => ControllerReadThroughKeepsNoCachedDuplicate(cfg, st, key, response);
    case ControllerClearOp =>
    case BankDeleteOp(bankId) =>
  }

  /** With either bulk create, `ReadsAgree` survives any sequence of calls. */
  lemma {:induction false} RunKeepsReadsAgree(cfg: Config, st: State, ops: seq<Op>, batchCheck: bool)
    requires ReadsAgree(cfg, st)
    ensures ReadsAgree(cfg, Run(cfg, st, ops, batchCheck))
    decreases |ops|
  {
    if |ops| > 0 {
      ApplyKeepsReadsAgree(cfg, st, ops[0], batchCheck);
      RunKeepsReadsAgree(cfg, Apply(cfg, st, ops[0], batchCheck), ops[1..], batchCheck);
    }
  }

  /**
   * Starting from an empty cache over a store with three-letter codes, a
   * read of a three-letter pair after any sequence of calls, with the shipped
   * or the corrected bulk create, answers what the repository answers at that
   * point, including its non-unique failure for a triple two rows share.
   */
  lemma ReadAfterAnyRun(cfg: Config, s: Store, maxSize: nat, ops: seq<Op>, batchCheck: bool, bankId: int, from: string, to: string)
    requires IdsBelowNext(s) && ThreeLetterCodes(s)
    requires |from| == 3 && |to| == 3
    ensures var st := Run(cfg, Start(s, maxSize), ops, batchCheck);
      GetExchangeRateValue(cfg, st, bankId, from, to).status == StoreAnswer(st.store, bankId, from, to)
  {
    StartKeepsInv(cfg, s, maxSize);
    RunKeepsReadsAgree(cfg, Start(s, maxSize), ops, batchCheck);
    ReadAgreesWithStore(cfg, Run(cfg, Start(s, maxSize), ops, batchCheck), bankId, from, to);
  }
}
