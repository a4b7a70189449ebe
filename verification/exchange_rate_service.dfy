/**
 * The exchange-rate operations of service/ExchangeRateService.java that read
 * through or invalidate the point cache. The repositories are an abstract
 * store; each operation is a transition from (store, cache) to a status and the
 * next (store, cache). A thrown exception is a non-`Success` status: the
 * store is left as it was (nothing was saved, or the transaction rolls back),
 * and the cache is left as the calls made before the throw left it.
 */
module ExchangeRateService {
  import opened Wrappers
  import opened CacheEntries
  import opened InMemoryCache
  import opened CacheKey

  /** A `BigDecimal` as unscaled value and scale; the model only stores and compares rates. */
  datatype Decimal = Decimal(unscaled: int, scale: int)

  /** An `ExchangeRate` row without its id: bank, source code, target code, rate. */
  datatype ExchangeRate = ExchangeRate(bankId: int, from: string, to: string, rate: Decimal)

  /** A saved row: the identity the store assigned and the row. */
  datatype Saved = Saved(id: nat, row: ExchangeRate)

  /**
   * What the exchange-rate cache holds. The service puts only rates; other
   * users of the same cache instance put other objects under their own keys.
   */
  datatype CachedValue = RateVal(rate: Decimal) | Other(text: string)

  /**
   * The repositories: exchange-rate rows by id, the ids the bank repository
   * knows, the codes the currency repository knows, and the next identity value.
   */
  datatype Store = Store(rates: map<nat, ExchangeRate>, banks: set<int>, currencies: set<string>, nextId: nat)

  datatype State = State(store: Store, cache: Cache<string, CachedValue>)

  /** `cache.enabled` and the size estimate of the cache's entries. */
  datatype Config = Config(cacheEnabled: bool, sz: (string, CachedValue) -> nat)

  /**
   * `NotFound` is `CurrencyNotFoundException` (unknown bank or rate id),
   * `InvalidInput` is `InvalidInputDataException`, `NonUniqueResult` is the
   * repository's failure when a triple lookup matches several rows, and
   * `CacheFailure` is the exception `put` throws on an over-counted empty cache.
   */
  datatype Status<T> = Success(value: T) | NotFound | InvalidInput | NonUniqueResult | CacheFailure

  datatype Step<T> = Step(status: Status<T>, after: State)

  /** The same failure, for a caller with a different result type. */
  function Failure<T, U>(s: Status<T>): (r: Status<U>)
    requires !s.Success?
    ensures !r.Success?
    ensures r.NotFound? == s.NotFound? && r.InvalidInput? == s.InvalidInput?
    ensures r.NonUniqueResult? == s.NonUniqueResult? && r.CacheFailure? == s.CacheFailure?
  {
    match s
    case NotFound => NotFound
    case InvalidInput => InvalidInput
    case NonUniqueResult => NonUniqueResult
    case CacheFailure => CacheFailure
  }

  /** One element of a bulk-create request. */
  datatype Request = Request(bankId: int, from: string, to: string, rate: Decimal)

  /** Outcome of `findByBankIdAndFromCurrencyCodeAndToCurrencyCode`. */
  datatype Found = NoMatch | Match(id: nat) | MultipleMatches

  /** The point-cache key of a row. */
  function KeyOf(r: ExchangeRate): string
  {
    Key(r.bankId, r.from, r.to)
  }

  function RowOf(req: Request): ExchangeRate
  {
    ExchangeRate(req.bankId, req.from, req.to, req.rate)
  }

  /** Two rows that the triple lookup cannot tell apart. */
  predicate SameTriple(a: ExchangeRate, b: ExchangeRate)
  {
    a.bankId == b.bankId && a.from == b.from && a.to == b.to
  }

  /** No two stored rows share bank and codes: the single-result lookup never fails. */
  predicate UniqueTriples(s: Store)
  {
    forall a, b :: a in s.rates && b in s.rates && SameTriple(s.rates[a], s.rates[b]) ==> a == b
  }

  /** The ids of the rows with the given bank and codes. */
  function MatchingIds(s: Store, bankId: int, from: string, to: string): (ids: set<nat>)
    ensures forall id :: id in ids <==> id in s.rates && s.rates[id].bankId == bankId && s.rates[id].from == from && s.rates[id].to == to
  {
    set id | id in s.rates && s.rates[id].bankId == bankId && s.rates[id].from == from && s.rates[id].to == to
  }

  /** The single-result triple lookup of the exchange-rate repository. */
  ghost function FindByTriple(s: Store, bankId: int, from: string, to: string): (r: Found)
    ensures r == NoMatch <==> MatchingIds(s, bankId, from, to) == {}
    ensures r.Match? ==> MatchingIds(s, bankId, from, to) == {r.id}
    ensures r == MultipleMatches ==> exists a, b :: a in MatchingIds(s, bankId, from, to) && b in MatchingIds(s, bankId, from, to) && a != b
  {
    var ids := MatchingIds(s, bankId, from, to);
    if ids == {} then NoMatch
    else
      var id :| id in ids;
      if ids == {id} then Match(id)
      else
        var other :| other in ids - {id};
        MultipleMatches
  }

  /** With unique triples a stored row is exactly what the lookup of its own triple finds. */
  lemma UniqueTriplesLookup(s: Store, id: nat)
    requires UniqueTriples(s) && id in s.rates
    ensures MatchingIds(s, s.rates[id].bankId, s.rates[id].from, s.rates[id].to) == {id}
    ensures FindByTriple(s, s.rates[id].bankId, s.rates[id].from, s.rates[id].to) == Match(id)
  {
    var row := s.rates[id];
    forall other | other in MatchingIds(s, row.bankId, row.from, row.to)
      ensures other == id
    {
      assert SameTriple(s.rates[other], s.rates[id]);
    }
  }

  /** What the repository alone answers for a triple: the rate, `null`, or the non-unique failure. */
  ghost function StoreAnswer(s: Store, bankId: int, from: string, to: string): (r: Status<Option<Decimal>>)
    ensures r == Success(None) <==> MatchingIds(s, bankId, from, to) == {}
    ensures forall id :: MatchingIds(s, bankId, from, to) == {id} ==> r == Success(Some(s.rates[id].rate))
    ensures r.Success? && r.value.Some? ==> exists id :: MatchingIds(s, bankId, from, to) == {id} && s.rates[id].rate == r.value.value
    ensures forall a, b :: a in MatchingIds(s, bankId, from, to) && b in MatchingIds(s, bankId, from, to) && a != b ==> r == NonUniqueResult
    ensures r == NonUniqueResult ==> exists a, b :: a != b && a in MatchingIds(s, bankId, from, to) && b in MatchingIds(s, bankId, from, to)
    ensures r.Success? || r == NonUniqueResult
  {
    match FindByTriple(s, bankId, from, to)
    case NoMatch => Success(None)
    case Match(id) => Success(Some(s.rates[id].rate))
    case MultipleMatches => NonUniqueResult
  }

  /** `validateCurrencyCode`: the currency repository knows the code. */
  predicate ValidCurrencyCode(s: Store, code: string)
  {
    code in s.currencies
  }

  /** `validateDuplicateRate`: fails when a stored row already has the bank and codes. */
  ghost function ValidateDuplicateRate(s: Store, bankId: int, from: string, to: string): (r: Status<()>)
    ensures r.Success? <==> MatchingIds(s, bankId, from, to) == {}
    ensures forall id :: MatchingIds(s, bankId, from, to) == {id} ==> r == InvalidInput
    ensures forall a, b :: a in MatchingIds(s, bankId, from, to) && b in MatchingIds(s, bankId, from, to) && a != b ==> r == NonUniqueResult
    ensures r.Success? || r == InvalidInput || r == NonUniqueResult
  {
    match FindByTriple(s, bankId, from, to)
    case NoMatch => Success(())
    case Match(_) => InvalidInput
    case MultipleMatches => NonUniqueResult
  }

  /** `clearCacheForRate`: evict the row's key, only when caching is enabled. */
  function ClearCacheForRate(cfg: Config, c: Cache<string, CachedValue>, bankId: int, from: string, to: string): (r: Cache<string, CachedValue>)
    ensures cfg.cacheEnabled ==> Contents(r.entries) == Contents(c.entries) - {Key(bankId, from, to)}
    ensures cfg.cacheEnabled ==> r.entries == Remove(c.entries, Key(bankId, from, to))
    ensures !cfg.cacheEnabled ==> r == c
    ensures r.maxSize == c.maxSize
    ensures Valid(c, cfg.sz) ==> Valid(r, cfg.sz)
    ensures Exact(c, cfg.sz) ==> Exact(r, cfg.sz)
  {
    if cfg.cacheEnabled then Evict(c, Key(bankId, from, to), cfg.sz) else c
  }

  /** The store after `save` of a new row: it gets the next identity value. */
  function Save(s: Store, row: ExchangeRate): (r: Store)
    ensures r.rates == s.rates[s.nextId := row] && r.nextId == s.nextId + 1
    ensures r.banks == s.banks && r.currencies == s.currencies
  {
    s.(rates := s.rates[s.nextId := row], nextId := s.nextId + 1)
  }

  // ---------------------------------------------------------------------------
  // createExchangeRateWithCodes
  // ---------------------------------------------------------------------------

  /**
   * Bank, then source code, then target code, then uniqueness of the triple;
   * the first failing check decides the status and nothing is saved or
   * evicted. On success the row is saved and then its key evicted.
   */
  ghost function CreateExchangeRateWithCodes(cfg: Config, st: State, bankId: int, from: string, to: string, rate: Decimal): (r: Step<Saved>)
    ensures bankId !in st.store.banks ==> r.status == NotFound
    ensures bankId in st.store.banks && !ValidCurrencyCode(st.store, from) ==> r.status == InvalidInput
    ensures bankId in st.store.banks && ValidCurrencyCode(st.store, from) && !ValidCurrencyCode(st.store, to) ==> r.status == InvalidInput
    ensures forall id ::
      (bankId in st.store.banks && ValidCurrencyCode(st.store, from) && ValidCurrencyCode(st.store, to)
       && MatchingIds(st.store, bankId, from, to) == {id}) ==> r.status == InvalidInput
    ensures forall a, b ::
      (bankId in st.store.banks && ValidCurrencyCode(st.store, from) && ValidCurrencyCode(st.store, to)
       && a in MatchingIds(st.store, bankId, from, to) && b in MatchingIds(st.store, bankId, from, to) && a != b)
      ==> r.status == NonUniqueResult
    ensures r.status.Success? <==>
      bankId in st.store.banks && ValidCurrencyCode(st.store, from) && ValidCurrencyCode(st.store, to) && MatchingIds(st.store, bankId, from, to) == {}
    ensures !r.status.Success? ==> r.after == st
    ensures r.status.Success? ==>
      && r.status.value == Saved(st.store.nextId, ExchangeRate(bankId, from, to, rate))
      && r.after.store == Save(st.store, ExchangeRate(bankId, from, to, rate))
      && (cfg.cacheEnabled ==> Contents(r.after.cache.entries) == Contents(st.cache.entries) - {Key(bankId, from, to)})
    ensures !cfg.cacheEnabled ==> r.after.cache == st.cache
    ensures Valid(st.cache, cfg.sz) ==> Valid(r.after.cache, cfg.sz)
    ensures Exact(st.cache, cfg.sz) ==> Exact(r.after.cache, cfg.sz)
  {
    if bankId !in st.store.banks then Step(NotFound, st)
    else if !ValidCurrencyCode(st.store, from) then Step(InvalidInput, st)
    else if !ValidCurrencyCode(st.store, to) then Step(InvalidInput, st)
    else
      var dup := ValidateDuplicateRate(st.store, bankId, from, to);
      if !dup.Success? then Step(if dup == InvalidInput then InvalidInput else NonUniqueResult, st)
      else
        var row := ExchangeRate(bankId, from, to, rate);
        var store := Save(st.store, row);
        Step(Success(Saved(st.store.nextId, row)), State(store, ClearCacheForRate(cfg, st.cache, bankId, from, to)))
  }

  // ---------------------------------------------------------------------------
  // createExchangeRatesBulk
  // ---------------------------------------------------------------------------

  /** The per-request checks of the bulk mapping lambda, in the order the source makes them. */
  ghost function CheckRequest(s: Store, req: Request): (r: Status<()>)
    ensures r.Success? <==>
      req.bankId in s.banks && ValidCurrencyCode(s, req.from) && ValidCurrencyCode(s, req.to) && MatchingIds(s, req.bankId, req.from, req.to) == {}
    ensures req.bankId !in s.banks ==> r == NotFound
    ensures req.bankId in s.banks && !(ValidCurrencyCode(s, req.from) && ValidCurrencyCode(s, req.to)) ==> r == InvalidInput
    ensures forall id ::
      (req.bankId in s.banks && ValidCurrencyCode(s, req.from) && ValidCurrencyCode(s, req.to)
       && MatchingIds(s, req.bankId, req.from, req.to) == {id}) ==> r == InvalidInput
    ensures forall a, b ::
      (req.bankId in s.banks && ValidCurrencyCode(s, req.from) && ValidCurrencyCode(s, req.to)
       && a in MatchingIds(s, req.bankId, req.from, req.to) && b in MatchingIds(s, req.bankId, req.from, req.to) && a != b)
      ==> r == NonUniqueResult
  {
    if req.bankId !in s.banks then NotFound
    else if !ValidCurrencyCode(s, req.from) then InvalidInput
    else if !ValidCurrencyCode(s, req.to) then InvalidInput
    else ValidateDuplicateRate(s, req.bankId, req.from, req.to)
  }

  /** The stream stops at the first request that fails; its failure is the result. */
  ghost function CheckAll(s: Store, reqs: seq<Request>): (r: Status<()>)
    ensures r.Success? <==> forall i :: 0 <= i < |reqs| ==> CheckRequest(s, reqs[i]).Success?
    ensures !r.Success? ==>
      exists i :: (0 <= i < |reqs| && r == CheckRequest(s, reqs[i])
        && forall j :: 0 <= j < i ==> CheckRequest(s, reqs[j]).Success?)
    decreases |reqs|
  {
    if |reqs| == 0 then Success(())
    else
      var first := CheckRequest(s, reqs[0]);
      if !first.Success? then first
      else
        var rest := CheckAll(s, reqs[1..]);
        if !rest.Success? then
          ghost var i :| 0 <= i < |reqs[1..]| && rest == CheckRequest(s, reqs[1..][i])
            && forall j :: 0 <= j < i ==> CheckRequest(s, reqs[1..][j]).Success?;
          assert rest == CheckRequest(s, reqs[i + 1]);
          rest
        else
          rest
  }

  /** The rows a batch adds: request `i` under id `start + i`. */
  function NewRows(start: nat, reqs: seq<Request>): (m: map<nat, ExchangeRate>)
    ensures forall id :: id in m ==> start <= id < start + |reqs|
    decreases |reqs|
  {
    if |reqs| == 0 then map[]
    else NewRows(start + 1, reqs[1..])[start := RowOf(reqs[0])]
  }

  /** Updating a key the right operand lacks commutes with the union. */
  lemma UpdateThenUnion<K, V>(m: map<K, V>, n: map<K, V>, k: K, v: V)
    requires k !in n
    ensures m[k := v] + n == m + n[k := v]
  {
  }

  /** Request `i` of a batch is the row under id `start + i`. */
  lemma {:induction false} NewRowsAt(start: nat, reqs: seq<Request>, i: nat)
    requires i < |reqs|
    ensures start + i in NewRows(start, reqs) && NewRows(start, reqs)[start + i] == RowOf(reqs[i])
    decreases i
  {
    if i > 0 {
      NewRowsAt(start + 1, reqs[1..], i - 1);
      assert reqs[1..][i - 1] == reqs[i];
    }
  }

  /**
   * `saveAll`: the rows get consecutive identity values in request order, as
   * if saved one at a time; every other row, bank and currency is kept.
   */
  function SaveAll(s: Store, reqs: seq<Request>): (r: (Store, seq<Saved>))
    ensures r.0 == s.(rates := s.rates + NewRows(s.nextId, reqs), nextId := s.nextId + |reqs|)
    ensures |r.1| == |reqs|
    ensures forall i :: 0 <= i < |reqs| ==> r.1[i] == Saved(s.nextId + i, RowOf(reqs[i]))
    decreases |reqs|
  {
    if |reqs| == 0 then
      assert NewRows(s.nextId, reqs) == map[];
      (s, [])
    else
      var s1 := Save(s, RowOf(reqs[0]));
      var rest := SaveAll(s1, reqs[1..]);
      UpdateThenUnion(s.rates, NewRows(s1.nextId, reqs[1..]), s.nextId, RowOf(reqs[0]));
      var saved := [Saved(s.nextId, RowOf(reqs[0]))] + rest.1;
      assert forall i :: 1 <= i < |reqs| ==> saved[i] == rest.1[i - 1] && reqs[1..][i - 1] == reqs[i];
      (rest.0, saved)
  }

  /** `clearCacheForRate` for each saved row, in order. */
  function ClearCacheForRates(cfg: Config, c: Cache<string, CachedValue>, saved: seq<Saved>): (r: Cache<string, CachedValue>)
    ensures cfg.cacheEnabled ==> Contents(r.entries) == Contents(c.entries) - set i | 0 <= i < |saved| :: KeyOf(saved[i].row)
    ensures !cfg.cacheEnabled ==> r == c
    ensures r.maxSize == c.maxSize
    ensures Valid(c, cfg.sz) ==> Valid(r, cfg.sz)
    ensures Exact(c, cfg.sz) ==> Exact(r, cfg.sz)
    decreases |saved|
  {
    if |saved| == 0 then c
    else
      var row := saved[0].row;
      var c1 := ClearCacheForRate(cfg, c, row.bankId, row.from, row.to);
      assert cfg.cacheEnabled ==> Contents(c1.entries) == Contents(c.entries) - {KeyOf(row)};
      var r := ClearCacheForRates(cfg, c1, saved[1..]);
      SavedKeysSplit(saved);
      r
  }

  /** The keys of a list of saved rows are the first row's key and the keys of the rest. */
  lemma SavedKeysSplit(saved: seq<Saved>)
    requires |saved| > 0
    ensures (set i | 0 <= i < |saved| :: KeyOf(saved[i].row))
      == {KeyOf(saved[0].row)} + set i | 0 <= i < |saved[1..]| :: KeyOf(saved[1..][i].row)
  {
    forall i | 0 < i < |saved|
      ensures KeyOf(saved[i].row) in set j | 0 <= j < |saved[1..]| :: KeyOf(saved[1..][j].row)
    {
      assert saved[1..][i - 1] == saved[i];
    }
  }

  /**
   * An empty list returns an empty list and touches nothing. Otherwise every
   * request is checked against the stored rows (not against the other requests
   * of the batch) and the first failure aborts before `saveAll`; on success all
   * rows are saved and each saved row's key is evicted.
   */
  ghost function CreateExchangeRatesBulk(cfg: Config, st: State, reqs: seq<Request>): (r: Step<seq<Saved>>)
    ensures |reqs| == 0 ==> r == Step(Success([]), st)
    ensures r.status.Success? <==> forall i :: 0 <= i < |reqs| ==> CheckRequest(st.store, reqs[i]).Success?
    ensures !r.status.Success? ==>
      exists i :: (0 <= i < |reqs| && !CheckRequest(st.store, reqs[i]).Success? && r.status == Failure(CheckRequest(st.store, reqs[i]))
        && forall j :: 0 <= j < i ==> CheckRequest(st.store, reqs[j]).Success?)
    ensures |reqs| > 0 && reqs[0].bankId !in st.store.banks ==> r.status == NotFound
    ensures !r.status.Success? ==> r.after == st
    ensures r.status.Success? ==>
      && |r.status.value| == |reqs|
      && (forall i :: 0 <= i < |reqs| ==> r.status.value[i] == Saved(st.store.nextId + i, RowOf(reqs[i])))
      && r.after.store == SaveAll(st.store, reqs).0
      && (cfg.cacheEnabled ==> Contents(r.after.cache.entries) == Contents(st.cache.entries) - set i | 0 <= i < |reqs| :: KeyOf(RowOf(reqs[i])))
    ensures !cfg.cacheEnabled ==> r.after.cache == st.cache
    ensures Valid(st.cache, cfg.sz) ==> Valid(r.after.cache, cfg.sz)
    ensures Exact(st.cache, cfg.sz) ==> Exact(r.after.cache, cfg.sz)
  {
    if |reqs| == 0 then Step(Success([]), st)
    else
      var check := CheckAll(st.store, reqs);
      if !check.Success? then Step(Failure(check), st)
      else
        var (store, saved) := SaveAll(st.store, reqs);
        var cache := ClearCacheForRates(cfg, st.cache, saved);
        assert (set i | 0 <= i < |saved| :: KeyOf(saved[i].row)) == set i | 0 <= i < |reqs| :: KeyOf(RowOf(reqs[i]));
        Step(Success(saved), State(store, cache))
  }

  // ---------------------------------------------------------------------------
  // updateExchangeRate
  // ---------------------------------------------------------------------------

  /**
   * The duplicate check of `updateExchangeRate`: only made when a code
   * changes, and a match is a conflict only if it is another row.
   */
  ghost function UpdateConflict(s: Store, id: int, prev: ExchangeRate, from: string, to: string): (r: Status<()>)
    ensures prev.from == from && prev.to == to ==> r.Success?
    ensures (prev.from != from || prev.to != to) ==>
      (r.Success? <==> MatchingIds(s, prev.bankId, from, to) <= {id})
    ensures forall other ::
      ((prev.from != from || prev.to != to) && other != id && MatchingIds(s, prev.bankId, from, to) == {other})
      ==> r == InvalidInput
    ensures forall a, b ::
      ((prev.from != from || prev.to != to)
       && a in MatchingIds(s, prev.bankId, from, to) && b in MatchingIds(s, prev.bankId, from, to) && a != b)
      ==> r == NonUniqueResult
  {
    if prev.from == from && prev.to == to then Success(())
    else
      match FindByTriple(s, prev.bankId, from, to)
      case NoMatch => Success(())
      case Match(other) => if other == id then Success(()) else InvalidInput
      case MultipleMatches => NonUniqueResult
  }

  /** The two evictions of an update: the key before it, then the key after it. */
  function ClearCacheForRows(cfg: Config, c: Cache<string, CachedValue>, prev: ExchangeRate, row: ExchangeRate): (r: Cache<string, CachedValue>)
    ensures cfg.cacheEnabled ==> Contents(r.entries) == Contents(c.entries) - {KeyOf(prev), KeyOf(row)}
    ensures !cfg.cacheEnabled ==> r == c
    ensures Valid(c, cfg.sz) ==> Valid(r, cfg.sz)
    ensures Exact(c, cfg.sz) ==> Exact(r, cfg.sz)
  {
    var c1 := ClearCacheForRate(cfg, c, prev.bankId, prev.from, prev.to);
    ClearCacheForRate(cfg, c1, row.bankId, row.from, row.to)
  }

  /**
   * Unknown id, then source code, then target code, then a conflicting row:
   * the first failing check decides the status with nothing saved or evicted.
   * On success the key of the row before the update is evicted, the row is
   * saved with its new codes and rate (the bank does not change), and the key
   * after the update is evicted.
   */
  ghost function UpdateExchangeRate(cfg: Config, st: State, id: int, from: string, to: string, newRate: Decimal): (r: Step<Saved>)
    ensures id !in st.store.rates ==> r.status == NotFound
    ensures id in st.store.rates && !ValidCurrencyCode(st.store, from) ==> r.status == InvalidInput
    ensures id in st.store.rates && ValidCurrencyCode(st.store, from) && !ValidCurrencyCode(st.store, to) ==> r.status == InvalidInput
    ensures r.status.Success? <==>
      && id in st.store.rates && ValidCurrencyCode(st.store, from) && ValidCurrencyCode(st.store, to)
      && UpdateConflict(st.store, id, st.store.rates[id], from, to).Success?
    ensures forall other ::
      (id in st.store.rates && ValidCurrencyCode(st.store, from) && ValidCurrencyCode(st.store, to)
       && (st.store.rates[id].from != from || st.store.rates[id].to != to) && other != id
       && MatchingIds(st.store, st.store.rates[id].bankId, from, to) == {other})
      ==> r.status == InvalidInput
    ensures forall a, b ::
      (id in st.store.rates && ValidCurrencyCode(st.store, from) && ValidCurrencyCode(st.store, to)
       && (st.store.rates[id].from != from || st.store.rates[id].to != to)
       && a in MatchingIds(st.store, st.store.rates[id].bankId, from, to)
       && b in MatchingIds(st.store, st.store.rates[id].bankId, from, to) && a != b)
      ==> r.status == NonUniqueResult
    ensures !r.status.Success? ==> r.after == st
    ensures r.status.Success? ==> id in st.store.rates && 0 <= id
    ensures r.status.Success? ==>
      var prev := st.store.rates[id];
      var row := prev.(from := from, to := to, rate := newRate);
      && r.status.value.id == id && r.status.value.row == row
      && r.after.store == st.store.(rates := st.store.rates[id := row])
      && (cfg.cacheEnabled ==> Contents(r.after.cache.entries) == Contents(st.cache.entries) - {KeyOf(prev), KeyOf(row)})
    ensures !cfg.cacheEnabled ==> r.after.cache == st.cache
    ensures Valid(st.cache, cfg.sz) ==> Valid(r.after.cache, cfg.sz)
    ensures Exact(st.cache, cfg.sz) ==> Exact(r.after.cache, cfg.sz)
  {
    if id !in st.store.rates then Step(NotFound, st)
    else if !ValidCurrencyCode(st.store, from) then Step(InvalidInput, st)
    else if !ValidCurrencyCode(st.store, to) then Step(InvalidInput, st)
    else
      var prev := st.store.rates[id];
      var stored: nat := id;
      var conflict := UpdateConflict(st.store, id, prev, from, to);
      if !conflict.Success? then Step(Failure(conflict), st)
      else
        var row := prev.(from := from, to := to, rate := newRate);
        var store := st.store.(rates := st.store.rates[stored := row]);
        Step(Success(Saved(stored, row)), State(store, ClearCacheForRows(cfg, st.cache, prev, row)))
  }

  // ---------------------------------------------------------------------------
  // deleteExchangeRate
  // ---------------------------------------------------------------------------

  /** A present row has its key evicted and is deleted (`true`); a missing id returns `false` and touches nothing. */
  function DeleteExchangeRate(cfg: Config, st: State, id: int): (r: Step<bool>)
    ensures r.status == Success(id in st.store.rates)
    ensures id !in st.store.rates ==> r.after == st
    ensures id in st.store.rates ==>
      && r.after.store == st.store.(rates := st.store.rates - {id})
      && (cfg.cacheEnabled ==> Contents(r.after.cache.entries) == Contents(st.cache.entries) - {KeyOf(st.store.rates[id])})
    ensures !cfg.cacheEnabled ==> r.after.cache == st.cache
    ensures Valid(st.cache, cfg.sz) ==> Valid(r.after.cache, cfg.sz)
    ensures Exact(st.cache, cfg.sz) ==> Exact(r.after.cache, cfg.sz)
  {
    if id in st.store.rates then
      var row := st.store.rates[id];
      var cache := ClearCacheForRate(cfg, st.cache, row.bankId, row.from, row.to);
      Step(Success(true), State(st.store.(rates := st.store.rates - {id}), cache))
    else
      Step(Success(false), st)
  }

  /** A negative row id names no stored row: update answers not-found and delete `false`, both changing nothing. */
  lemma NegativeIdIsMissing(cfg: Config, st: State, id: int, from: string, to: string, newRate: Decimal)
    requires id < 0
    ensures UpdateExchangeRate(cfg, st, id, from, to, newRate) == Step(NotFound, st)
    ensures DeleteExchangeRate(cfg, st, id) == Step(Success(false), st)
  {
  }

  // ---------------------------------------------------------------------------
  // getExchangeRateValue
  // ---------------------------------------------------------------------------

  /**
   * Read-through lookup. With caching enabled a cached rate is returned with
   * no repository lookup and no `put`; a cached value of another type is
   * evicted and treated as a miss. On a miss the repository is asked; a found
   * rate is put under the key and returned, no row returns `null` with no
   * `put`. With caching disabled the cache is not touched.
   */
  ghost function GetExchangeRateValue(cfg: Config, st: State, bankId: int, from: string, to: string): (r: Step<Option<Decimal>>)
    ensures r.after.store == st.store
    ensures !cfg.cacheEnabled ==> r == Step(StoreAnswer(st.store, bankId, from, to), st)
    ensures var k := Key(bankId, from, to);
      cfg.cacheEnabled && k in Contents(st.cache.entries) && Contents(st.cache.entries)[k].RateVal? ==>
        && r.status == Success(Some(Contents(st.cache.entries)[k].rate))
        && Contents(r.after.cache.entries) == Contents(st.cache.entries)
        && r.after.cache.used == st.cache.used
        && |r.after.cache.entries| > 0
        && r.after.cache.entries[|r.after.cache.entries| - 1] == Entry(k, Contents(st.cache.entries)[k])
        && Remove(r.after.cache.entries, k) == Remove(st.cache.entries, k)
    ensures var k := Key(bankId, from, to);
      cfg.cacheEnabled && !(k in Contents(st.cache.entries) && Contents(st.cache.entries)[k].RateVal?) ==>
        && (StoreAnswer(st.store, bankId, from, to) != Success(None) && StoreAnswer(st.store, bankId, from, to).Success? ==>
             r.status == StoreAnswer(st.store, bankId, from, to) || r.status == CacheFailure)
        && (StoreAnswer(st.store, bankId, from, to) == Success(None) ==>
             r.status == Success(None) && Contents(r.after.cache.entries) == Contents(st.cache.entries) - {k})
        && (StoreAnswer(st.store, bankId, from, to) == NonUniqueResult ==>
             r.status == NonUniqueResult && Contents(r.after.cache.entries) == Contents(st.cache.entries) - {k})
        && (r.status.Success? && r.status.value.Some? && cfg.sz(k, RateVal(r.status.value.value)) <= st.cache.maxSize ==>
             k in Contents(r.after.cache.entries) && Contents(r.after.cache.entries)[k] == RateVal(r.status.value.value))
    ensures r.after.cache.maxSize == st.cache.maxSize
    ensures forall key :: key in Contents(r.after.cache.entries) ==>
      || (key in Contents(st.cache.entries) && Contents(r.after.cache.entries)[key] == Contents(st.cache.entries)[key])
      || (cfg.cacheEnabled && key == Key(bankId, from, to)
          && exists id :: id in MatchingIds(st.store, bankId, from, to) && Contents(r.after.cache.entries)[key] == RateVal(st.store.rates[id].rate))
  {
    var k := Key(bankId, from, to);
    var g := Get(st.cache, k);
    if cfg.cacheEnabled && g.value.Some? && g.value.value.RateVal? then
      Step(Success(Some(g.value.value.rate)), st.(cache := g.after))
    else
      var cache :=
        if !cfg.cacheEnabled then st.cache
        else if g.value.Some? then Evict(g.after, k, cfg.sz)
        else g.after;
      match StoreAnswer(st.store, bankId, from, to)
      case Success(None) => Step(Success(None), st.(cache := cache))
      case Success(Some(rate)) =>
        if !cfg.cacheEnabled then Step(Success(Some(rate)), st)
        else
          var p := Put(cache, k, RateVal(rate), cfg.sz);
          Step(if p.Done? then Success(Some(rate)) else CacheFailure, st.(cache := p.after))
      case _ => Step(NonUniqueResult, st.(cache := cache))
  }

  /** `put` inside the read-through keeps the cache's accounting invariant. */
  lemma GetExchangeRateValueKeepsAccounting(cfg: Config, st: State, bankId: int, from: string, to: string)
    requires Valid(st.cache, cfg.sz)
    ensures Valid(GetExchangeRateValue(cfg, st, bankId, from, to).after.cache, cfg.sz)
  {
    GetKeepsAccounting(st.cache, Key(bankId, from, to), cfg.sz);
  }

  /**
   * The read-through puts only a key it has just found missing or evicted, so
   * on an exactly accounted cache its `put` never throws and the accounting
   * stays exact.
   */
  lemma ReadKeepsExact(cfg: Config, st: State, bankId: int, from: string, to: string)
    requires Exact(st.cache, cfg.sz)
    ensures GetExchangeRateValue(cfg, st, bankId, from, to).status != CacheFailure
    ensures Exact(GetExchangeRateValue(cfg, st, bankId, from, to).after.cache, cfg.sz)
  {
    var k := Key(bankId, from, to);
    GetKeepsAccounting(st.cache, k, cfg.sz);
    if cfg.cacheEnabled {
      var g := Get(st.cache, k);
      var cache := if g.value.Some? && g.value.value.Other? then Evict(g.after, k, cfg.sz) else g.after;
      if !(g.value.Some? && g.value.value.RateVal?) {
        assert k !in Contents(cache.entries);
        match StoreAnswer(st.store, bankId, from, to)
        case Success(Some(rate)) => PutFreshKeyKeepsExact(cache, k, RateVal(rate), cfg.sz);
        case _ =>
      }
    }
  }
}
