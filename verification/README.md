# Exchange-rate cache: a Dafny model

This project models the caching core of the currency converter service.

1. `InMemoryCache<K, V>` is a bounded LRU cache. It sits over an access-ordered `LinkedHashMap`, and its aggregate size counter is the position of a `ByteBuffer`. `put` has three steps:
   - it drops an entry larger than the whole budget;
   - it evicts eldest entries until the new entry fits;
   - it stores the entry as most recent and adds its estimated size.

   `get` refreshes recency. `evict` and `clear` lower the counter.
2. `ExchangeRateService` adds point-level read-through and invalidation on top of that cache. The point key is `bankId-from-to`. `getExchangeRateValue` reads through the cache. The four writes (create, bulk create, update, delete) each evict the keys of the rows they touch. The `cache.enabled` switch bypasses the cache entirely.

## Modules

- `CacheEntries` (`cache_entries.dfy`): the recency-ordered entry sequence, eldest first.
  - `Contents` is its map view.
  - `Remove` and `Insert` are the map's remove and access-ordered put.
  - `Sum` is the entries' total size.
  - `Drain` is the counter left by repeated floored `removeSize`.
- `InMemoryCache` (`in_memory_cache.dfy`): the cache as an immutable value `Cache(entries, used, maxSize)`. The size estimate is a parameter `sz`; `EstimateSize` is the source's two-bytes-per-character estimate.
  - Operations: `Get`, `Evict`, `Clear`, `Put`, the eviction loop `MakeRoom`, and the loop as an imperative method `PutLoop`.
  - Invariants: `Valid` means distinct keys, the counter within budget, and the counter never below the entries' total. `Exact` means the counter equals the total.
- `CacheScenarios` (`cache_scenarios.dfy`): the LRU scenarios. Three 40-unit entries go into a 100-unit cache, with and without a read in between.
- `CacheAccounting` (`cache_accounting.dfy`): the over-count on replacing a cached key, the failure it leads to, and the intended `put`.
- `CacheKey` (`cache_key.dfy`): `getCacheKey` and the injectivity of the key for three-letter codes.
- `ExchangeRateService` (`exchange_rate_service.dfy`): the repositories as an abstract `Store`. Each service operation is a transition from `State(store, cache)` to a `Status` and the next state:
  - the `Status` is `Success | NotFound | InvalidInput | NonUniqueResult | CacheFailure`;
  - a failure leaves the store unchanged, since nothing was saved or the transaction rolls back.
- `BulkDuplicates` (`bulk_duplicates.dfy`): the bulk create does not check for duplicates within a batch. This module shows the consequence and gives a bulk create with the missing check.
- `BankService` (`bank_service.dfy`): `deleteBank`, whose cascade deletes the bank's exchange-rate rows without evicting their keys.
- `Coherence` (`coherence.dfy`): the coherence theorem. Every rate cached under a key is the rate of a stored row with that key. It holds across every modelled service operation and across the controllers' own use of the shared cache, including the bank controller's delete. Two `InMemoryCache` beans exist: `applicationCache` of type `InMemoryCache<String, Object>` (config/CacheConfig.java:18-22) and the raw-typed `inMemoryCache` from the class's own `@Component`. The model takes the service and the exchange-rate, bank and currency controllers, all of which ask for `InMemoryCache<String, Object>`, to receive the one `applicationCache` instance by generic-type matching; the field `@Qualifier` names match no bean and are not copied onto the constructor parameters.
  - A second invariant, `NoCachedDuplicate`, says no rate is cached under the key of a triple that two stored rows share. The shipped bulk create keeps it too, although it can store such rows.
  - With three-letter codes and both invariants, a read answers what the repository answers, including its non-unique failure. This holds after any sequence of calls, with the shipped bulk create or the corrected one.

The model follows the code where it departs from what a size-bounded cache would usually do:
- `evict` and the eviction loop recompute the entry's size and subtract it floored at zero (`Math.max(0, …)`). They do not subtract a size recorded at insertion.
- Replacing a cached key does not subtract the old entry's size (see Findings).

Code-level choices:
- The eviction loop of `put` has an explicit guard on an empty map, which the source does not. The source throws `NoSuchElementException` from `iterator().next()` there. The model returns `Crash` with the state the loop had already reached; the service turns it into `CacheFailure`.
- `PutLoop` is bounded by `decreases |entries|`. It needs no precondition excluding that state.

## Model

| member | source | states |
|---|---|---|
| `CacheEntries.ContentsRemove` | src/main/java/com/example/currencyconverter/utils/InMemoryCache.java:65-66 | removing a key from the access-ordered map removes exactly that key from the map view; every other key keeps its value |
| `CacheEntries.ContentsInsert` | src/main/java/com/example/currencyconverter/utils/InMemoryCache.java:60 | storing through the access-ordered map is a map update, whether or not the key was present |
| `CacheEntries.ContentsSuffix` | src/main/java/com/example/currencyconverter/utils/InMemoryCache.java:53-55 | after the eldest entries are dropped, every key still present has the value it had before |
| `CacheEntries.RemoveAbsent` | src/main/java/com/example/currencyconverter/utils/InMemoryCache.java:65-67 | removing a key that is not present leaves the entries and their order unchanged |
| `CacheEntries.SumRemovePresent` | src/main/java/com/example/currencyconverter/utils/InMemoryCache.java:92-95 | with distinct keys, removing a present key lowers the entries' total by exactly that entry's estimated size |
| `CacheEntries.DrainLowerBound` | src/main/java/com/example/currencyconverter/utils/InMemoryCache.java:92-95 | floored subtraction never takes off more than the sizes: the drained counter plus the drained sizes is at least the starting counter |
| `CacheEntries.DrainExact` | src/main/java/com/example/currencyconverter/utils/InMemoryCache.java:92-95 | while the removed sizes fit within the counter, the floor at zero never acts |
| `CacheEntries.DrainMonotone` | src/main/java/com/example/currencyconverter/utils/InMemoryCache.java:52-56 | every further eviction of the loop can only lower the counter |
| `InMemoryCache.CurrentSize` | src/main/java/com/example/currencyconverter/utils/InMemoryCache.java:97-99 | in a reachable state the reported size lies between the entries' total and the budget |
| `InMemoryCache.Get` | src/main/java/com/example/currencyconverter/utils/InMemoryCache.java:36-44 | a hit returns the stored value and makes the key most recent; the other entries keep their relative order, and the contents and counter do not change. A miss returns nothing and changes nothing |
| `InMemoryCache.GetKeepsAccounting` | src/main/java/com/example/currencyconverter/utils/InMemoryCache.java:36-37 | `get` only reorders, so it keeps both the reachable-state invariant and exact accounting |
| `InMemoryCache.Evict` | src/main/java/com/example/currencyconverter/utils/InMemoryCache.java:65-71 | the key leaves the map and every other key stays, with the survivors in their recency order. An absent key changes nothing. A present key lowers the counter by its estimated size, floored at zero. The invariants are kept |
| `InMemoryCache.Clear` | src/main/java/com/example/currencyconverter/utils/InMemoryCache.java:73-77 | no entries and a zero counter, budget unchanged |
| `InMemoryCache.ClearForgetsEverything` | src/main/java/com/example/currencyconverter/utils/InMemoryCache.java:73-77 | after `clear` every key misses and the accounting is exact again, whatever state came before |
| `InMemoryCache.EvictionCount` | src/main/java/com/example/currencyconverter/utils/InMemoryCache.java:52-53 | the number of eldest entries the loop drops is the least count that makes room; there is none exactly when even an emptied map leaves no room |
| `InMemoryCache.MakeRoom` | src/main/java/com/example/currencyconverter/utils/InMemoryCache.java:52-58 | the loop evicts only from the eldest end and stops at the least count that makes room. The counter then leaves room for the entry. It runs empty exactly when no count makes room, and it keeps both invariants. With exact accounting a non-oversized entry always finds room |
| `InMemoryCache.ExactLeavesRoom` | src/main/java/com/example/currencyconverter/utils/InMemoryCache.java:47-53 | with exact accounting an emptied map leaves the whole budget, so `iterator().next()` is never reached on an empty map |
| `InMemoryCache.EvictionCountIsLeast` | src/main/java/com/example/currencyconverter/utils/InMemoryCache.java:52-58 | any count that is the least one making room is the count the loop settles on |
| `InMemoryCache.RoomKeepsAccounting` | src/main/java/com/example/currencyconverter/utils/InMemoryCache.java:55-56 | dropping eldest entries with floored size subtraction keeps distinct keys, the budget bound and the sum bound, and keeps exactness |
| `InMemoryCache.HookAndAddSizeErrorAreDead` | src/main/java/com/example/currencyconverter/utils/InMemoryCache.java:24-31 | when `put` stores an entry the counter is within budget, so the `removeEldestEntry` hook never fires and `addSize` always takes its first branch |
| `InMemoryCache.Put` | src/main/java/com/example/currencyconverter/utils/InMemoryCache.java:46-63 | an oversized entry leaves the cache unchanged. Otherwise the key maps to the value as the most recent entry, and the counter stays within budget. Every other key is either gone or keeps its value. `put` throws exactly when no number of evictions makes room; it then leaves an empty map and the drained counter. Reachable states stay reachable |
| `InMemoryCache.InsertFacts` | src/main/java/com/example/currencyconverter/utils/InMemoryCache.java:60-61 | storing after the loop updates the map with the key as most recent; every other key is from before with its old value; the invariant holds with the size added |
| `InMemoryCache.PutEvictsLeast` | src/main/java/com/example/currencyconverter/utils/InMemoryCache.java:52-61 | when `n` is the least number of eldest entries whose eviction makes room, `put` keeps exactly the entries after them. It appends the new entry and sets the counter to the drained counter plus the new size |
| `InMemoryCache.PutFreshKeyKeepsExact` | src/main/java/com/example/currencyconverter/utils/InMemoryCache.java:52-61 | for a key not cached, `put` on an exact cache never throws and stays exact. The new counter is the old one, minus the evicted eldest entries' sizes, plus the new size |
| `InMemoryCache.PutLoop` | src/main/java/com/example/currencyconverter/utils/InMemoryCache.java:46-63 | the imperative eviction loop, with its empty-map guard, computes the same result as `Put` |
| `CacheScenarios.PutWithoutEviction` | src/main/java/com/example/currencyconverter/utils/InMemoryCache.java:52-61 | a fresh key that fits is appended as most recent and its size added; nothing is evicted |
| `CacheScenarios.PutEvictingEldest` | src/main/java/com/example/currencyconverter/utils/InMemoryCache.java:52-58 | a fresh key that fits only once the eldest entry is gone evicts that entry and nothing else |
| `CacheScenarios.GetOfEldest` | src/main/java/com/example/currencyconverter/utils/InMemoryCache.java:36-37 | reading the eldest of two entries returns its value and makes it the most recent |
| `CacheScenarios.EvictsLeastRecentlyPut` | src/main/java/com/example/currencyconverter/utils/InMemoryCache.java:52-58 | put A, B, then C, where C fits only without A: C evicts A, leaving `[B, C]` and their total size |
| `CacheScenarios.GetRefreshesRecency` | src/main/java/com/example/currencyconverter/utils/InMemoryCache.java:22 | the same puts with `get(A)` before C: C evicts B instead, leaving `[A, C]` |
| `CacheScenarios.ScenarioSizes` | src/main/java/com/example/currencyconverter/utils/InMemoryCache.java:79-81 | with a one-character key and a 19-character value the estimate is 40, so three such entries in a 100-unit cache meet both scenarios' conditions |
| `CacheAccounting.ReplaceOverCounts` | src/main/java/com/example/currencyconverter/utils/InMemoryCache.java:60-61 | putting the same entry twice leaves one entry of size 6 with the counter at 12, so accounting is no longer exact |
| `CacheAccounting.OverCountCrashesPut` | src/main/java/com/example/currencyconverter/utils/InMemoryCache.java:52-53 | after put A, put A, evict A, the map is empty with the counter at 6, and a put that needs room throws |
| `CacheAccounting.PutCorrected` | src/main/java/com/example/currencyconverter/utils/InMemoryCache.java:46-63 | the intended `put` takes the replaced entry's size out first. It keeps exact accounting and never throws on an exact cache. The key maps to the value, and every other key keeps its value |
| `CacheAccounting.PutCorrectedAgreesOnFreshKey` | src/main/java/com/example/currencyconverter/utils/InMemoryCache.java:46-63 | on a key that is not cached, the intended and the shipped `put` give the same result |
| `CacheAccounting.CorrectedAccountingStaysExact` | src/main/java/com/example/currencyconverter/utils/InMemoryCache.java:46-77 | with the intended `put`, any sequence of gets, puts, evicts and clears from an exact cache never throws and stays exact |
| `CacheKey.LongToStringInjective` | src/main/java/com/example/currencyconverter/service/ExchangeRateService.java:42 | different bank ids render to different decimal text, negative ids included |
| `CacheKey.KeyInjective` | src/main/java/com/example/currencyconverter/service/ExchangeRateService.java:41-43 | with three-character codes, two keys are equal exactly when bank id and both codes are equal |
| `CacheKey.KeyOfUsdEur` | src/test/java/com/example/currencyconverter/ExchangeRateServiceTest.java:135 | bank 1 with USD to EUR has key `1-USD-EUR` |
| `CacheKey.KeyCollidesForDashedCodes` | src/main/java/com/example/currencyconverter/service/ExchangeRateService.java:41-43 | without the fixed code length the key is not injective: a dash inside a code moves the boundary |
| `ExchangeRateService.FindByTriple` | src/main/java/com/example/currencyconverter/repository/ExchangeRateRepository.java:10-11 | the single-result lookup finds nothing exactly when no row has the triple. It finds an id only when that id is the sole match, and fails only when two distinct rows match |
| `ExchangeRateService.UniqueTriplesLookup` | src/main/java/com/example/currencyconverter/repository/ExchangeRateRepository.java:10-11 | with unique triples the lookup of a stored row's triple finds exactly that row |
| `ExchangeRateService.StoreAnswer` | src/main/java/com/example/currencyconverter/service/ExchangeRateService.java:206-215 | the repository's answer is `null` exactly when no row matches. A sole match answers with that row's rate, and a rate is only returned for a sole match. Two distinct matching rows give the non-unique failure, and that failure only comes from two distinct matches |
| `ExchangeRateService.ValidateDuplicateRate` | src/main/java/com/example/currencyconverter/service/ExchangeRateService.java:268-278 | the check passes exactly when no stored row has the triple. A single stored match gives invalid input; two or more give the repository's non-unique failure |
| `ExchangeRateService.ClearCacheForRate` | src/main/java/com/example/currencyconverter/service/ExchangeRateService.java:255-261 | when enabled, exactly the row's key leaves the cache and the other entries keep their order; when disabled the cache is untouched; the accounting invariants are kept |
| `ExchangeRateService.CreateExchangeRateWithCodes` | src/main/java/com/example/currencyconverter/service/ExchangeRateService.java:46-72 | an unknown bank gives not-found. An invalid source or target code gives invalid input. With bank and codes known, one stored row with the triple gives invalid input and two give the non-unique failure. Success happens exactly when bank and both codes are known and the triple is new. A failure changes nothing. On success the row is saved under the next id and its key evicted, with the cache untouched when disabled |
| `ExchangeRateService.CheckRequest` | src/main/java/com/example/currencyconverter/service/ExchangeRateService.java:104-118 | a bulk request passes exactly when its bank and codes are known and its triple is not stored; an unknown bank is not-found, a bad code is invalid input, one stored row with the triple is invalid input, and two are the non-unique failure |
| `ExchangeRateService.CheckAll` | src/main/java/com/example/currencyconverter/service/ExchangeRateService.java:103-126 | the batch passes exactly when every request does; otherwise the result is the failure of the first failing request |
| `ExchangeRateService.NewRowsAt` | src/main/java/com/example/currencyconverter/service/ExchangeRateService.java:127 | request `i` of a saved batch is the row under id `start + i` |
| `ExchangeRateService.SaveAll` | src/main/java/com/example/currencyconverter/service/ExchangeRateService.java:127 | `saveAll` adds the batch under consecutive new ids in request order, returns one saved row per request, and keeps every other row, bank and code |
| `ExchangeRateService.ClearCacheForRates` | src/main/java/com/example/currencyconverter/service/ExchangeRateService.java:129 | when enabled, exactly the saved rows' keys leave the cache; when disabled the cache is untouched |
| `ExchangeRateService.CreateExchangeRatesBulk` | src/main/java/com/example/currencyconverter/service/ExchangeRateService.java:84-133 | an empty list returns an empty list and changes nothing. The call succeeds exactly when every request passes its checks against the stored rows. A failure has the status of the first failing request, so an unknown bank in the first request is not-found. A failure changes nothing. On success every request is saved in order, and exactly their keys are evicted |
| `ExchangeRateService.UpdateConflict` | src/main/java/com/example/currencyconverter/service/ExchangeRateService.java:147-159 | with unchanged codes there is no check; otherwise the update passes exactly when no row but the updated one has the new triple. A single match that is another row gives invalid input; two matches give the non-unique failure |
| `ExchangeRateService.ClearCacheForRows` | src/main/java/com/example/currencyconverter/service/ExchangeRateService.java:160-168 | the update's two evictions drop exactly the keys before and after the update, keep the accounting invariants, and change nothing when caching is disabled |
| `ExchangeRateService.UpdateExchangeRate` | src/main/java/com/example/currencyconverter/service/ExchangeRateService.java:135-170 | an unknown id gives not-found, and a bad code gives invalid input. Success happens exactly when the id exists, both codes are known and there is no conflict. When the codes change, a single other row with the new triple gives invalid input, and two matching rows give the non-unique failure. A failure changes nothing. On success only that row changes, with the bank kept, and both the pre-update and post-update keys are evicted |
| `ExchangeRateService.DeleteExchangeRate` | src/main/java/com/example/currencyconverter/service/ExchangeRateService.java:241-254 | the result says whether the id existed. An existing row is deleted and its key evicted. A missing id changes nothing |
| `ExchangeRateService.NegativeIdIsMissing` | src/main/java/com/example/currencyconverter/service/ExchangeRateService.java:135-145 | a negative row id, which the source accepts as a `Long`, finds no row: update answers not-found and delete answers `false`, and neither changes store or cache |
| `ExchangeRateService.GetExchangeRateValue` | src/main/java/com/example/currencyconverter/service/ExchangeRateService.java:189-223 | the read never changes the store. Disabled, it is exactly the repository's answer with the cache untouched. A cached rate is returned with the contents and counter unchanged, and its key becomes the most recent. Otherwise the key is gone unless a found rate was put under it. The only cache entry it adds is a matching row's rate under the read's key |
| `ExchangeRateService.GetExchangeRateValueKeepsAccounting` | src/main/java/com/example/currencyconverter/service/ExchangeRateService.java:217-220 | the read-through keeps the cache's reachable-state invariant |
| `ExchangeRateService.ReadKeepsExact` | src/main/java/com/example/currencyconverter/service/ExchangeRateService.java:194-220 | the read-through puts only a key it found missing or evicted, so on an exact cache its `put` never throws and accounting stays exact |
| `BulkDuplicates.CheckBatch` | src/main/java/com/example/currencyconverter/service/ExchangeRateService.java:103-126 | the corrected checks pass exactly when every request passes the source's checks and no two requests of the batch share a triple |
| `BulkDuplicates.CreateExchangeRatesBulkChecked` | src/main/java/com/example/currencyconverter/service/ExchangeRateService.java:84-133 | the corrected bulk create succeeds exactly when the corrected checks pass, then does what the source does; a failure changes nothing |
| `BulkDuplicates.SavedRow` | src/main/java/com/example/currencyconverter/service/ExchangeRateService.java:127 | after `saveAll`, an id below the old next id holds its old row and an id at or above holds the matching request |
| `BulkDuplicates.SaveAllKeepsUniqueTriples` | src/main/java/com/example/currencyconverter/service/ExchangeRateService.java:127 | saving a batch of pairwise distinct, all-new triples keeps stored triples unique |
| `BulkDuplicates.CheckedBulkKeepsUniqueTriples` | src/main/java/com/example/currencyconverter/service/ExchangeRateService.java:118 | the corrected bulk create never leaves two rows with the same triple |
| `BulkDuplicates.BulkAdmitsDuplicateTriples` | src/main/java/com/example/currencyconverter/service/ExchangeRateService.java:118 | the same request twice in one batch is accepted and stored twice, after which the lookup for that triple fails; the corrected create rejects the batch |
| `Coherence.Start` | src/main/java/com/example/currencyconverter/utils/InMemoryCache.java:20-34 | a new cache has no entries and a zero counter |
| `Coherence.ControllerReadThrough` | src/main/java/com/example/currencyconverter/controller/ExchangeRateController.java:59-75 | a controller hit leaves the contents unchanged, and a miss whose lookup finds the entity puts only the controller's own response object (a not-found miss changes nothing and is no step of a run). Exact accounting is kept |
| `Coherence.ControllerClear` | src/main/java/com/example/currencyconverter/controller/ExchangeRateController.java:53-55 | the controller's `clear` empties the shared cache and leaves the store alone |
| `Coherence.StartKeepsInv` | src/main/java/com/example/currencyconverter/utils/InMemoryCache.java:20-34 | an empty cache over a store with fresh ids satisfies the invariant |
| `Coherence.CreateKeepsInv` | src/main/java/com/example/currencyconverter/service/ExchangeRateService.java:68-70 | create keeps coherence, exact accounting and fresh ids |
| `Coherence.BulkKeepsInv` | src/main/java/com/example/currencyconverter/service/ExchangeRateService.java:127-129 | bulk create, as shipped, keeps coherence, exact accounting and fresh ids |
| `Coherence.UpdateKeepsInv` | src/main/java/com/example/currencyconverter/service/ExchangeRateService.java:160-168 | update keeps coherence, because the old row's key is evicted before its rate changes |
| `Coherence.DeleteKeepsInv` | src/main/java/com/example/currencyconverter/service/ExchangeRateService.java:246-247 | delete keeps coherence, because the row's key is evicted before the row goes |
| `Coherence.ReadKeepsInv` | src/main/java/com/example/currencyconverter/service/ExchangeRateService.java:194-220 | the read-through caches only a rate the repository returned for the same key |
| `Coherence.ControllerReadThroughKeepsInv` | src/main/java/com/example/currencyconverter/controller/ExchangeRateController.java:61-71 | the controller's own use of the shared cache keeps the invariant |
| `Coherence.ControllerClearKeepsInv` | src/main/java/com/example/currencyconverter/controller/ExchangeRateController.java:105-108 | the controller's `clear` keeps the invariant |
| `Coherence.ReadAgreesWithStore` | src/main/java/com/example/currencyconverter/service/ExchangeRateService.java:189-223 | with three-letter codes, coherence, and no rate cached for a shared triple, a read returns exactly the repository's answer: never a stale rate, and never a `put` failure |
| `Coherence.CheckedBulkKeepsSound` | src/main/java/com/example/currencyconverter/service/ExchangeRateService.java:103-129 | the corrected bulk create keeps the invariant, three-letter codes and unique triples |
| `Coherence.CreateKeepsSound` | src/main/java/com/example/currencyconverter/service/ExchangeRateService.java:57-70 | create keeps the invariant, three-letter codes and unique triples |
| `Coherence.UpdateKeepsSound` | src/main/java/com/example/currencyconverter/service/ExchangeRateService.java:145-166 | update keeps the invariant, three-letter codes and unique triples |
| `Coherence.DeleteKeepsSound` | src/main/java/com/example/currencyconverter/service/ExchangeRateService.java:241-254 | delete keeps the invariant, three-letter codes and unique triples |
| `Coherence.ReadKeepsSound` | src/main/java/com/example/currencyconverter/service/ExchangeRateService.java:189-223 | a read keeps the invariant, three-letter codes and unique triples |
| `Coherence.ApplyKeepsInv` | src/main/java/com/example/currencyconverter/service/ExchangeRateService.java:46-261 | every single service or controller call keeps the invariant |
| `Coherence.RunKeepsInv` | src/main/java/com/example/currencyconverter/service/ExchangeRateService.java:46-261 | coherence and exact accounting survive any sequence of calls, with the shipped or the corrected bulk create |
| `Coherence.ApplyKeepsSound` | src/main/java/com/example/currencyconverter/service/ExchangeRateService.java:46-261 | every single call, with the corrected bulk create, keeps the invariant, three-letter codes and unique triples |
| `Coherence.RunKeepsSound` | src/main/java/com/example/currencyconverter/service/ExchangeRateService.java:46-261 | with the corrected bulk create, any sequence of calls keeps the invariant, three-letter codes and unique triples |
| `Coherence.ReadAfterAnyRun` | src/main/java/com/example/currencyconverter/service/ExchangeRateService.java:189-223 | starting from an empty cache over a store with three-letter codes, a read of a three-letter pair after any sequence of calls answers exactly what the repository answers at that point. This holds with the shipped bulk create and with the corrected one |
| `Coherence.CreateKeepsNoCachedDuplicate` | src/main/java/com/example/currencyconverter/service/ExchangeRateService.java:57-70 | create never leaves a rate cached for a triple two rows share: the new triple matched no stored row, and its key is evicted |
| `Coherence.BulkKeepsNoCachedDuplicate` | src/main/java/com/example/currencyconverter/service/ExchangeRateService.java:103-129 | the shipped bulk create, even when it stores one triple twice, leaves no rate cached for a shared triple, because every saved row's key is evicted |
| `Coherence.UpdateKeepsNoCachedDuplicate` | src/main/java/com/example/currencyconverter/service/ExchangeRateService.java:145-168 | update leaves no rate cached for a shared triple: changed codes pass the conflict check, and unchanged codes keep a key that was just evicted |
| `Coherence.DeleteKeepsNoCachedDuplicate` | src/main/java/com/example/currencyconverter/service/ExchangeRateService.java:241-254 | delete leaves no rate cached for a shared triple |
| `Coherence.ReadKeepsNoCachedDuplicate` | src/main/java/com/example/currencyconverter/service/ExchangeRateService.java:206-220 | a read caches a rate only when exactly one row has the triple; with two rows the lookup fails and the key stays out of the cache |
| `Coherence.ControllerReadThroughKeepsNoCachedDuplicate` | src/main/java/com/example/currencyconverter/controller/ExchangeRateController.java:59-75 | the controller puts only its own response objects, never a rate |
| `Coherence.BulkKeepsThreeLetterCodes` | src/main/java/com/example/currencyconverter/service/ExchangeRateService.java:104-127 | every row a bulk create saves passed the code checks, so stored codes keep three letters |
| `Coherence.ApplyKeepsReadsAgree` | src/main/java/com/example/currencyconverter/service/ExchangeRateService.java:46-261 | every single call, with either bulk create, keeps the invariant, three-letter codes and the absence of a cached shared triple |
| `Coherence.RunKeepsReadsAgree` | src/main/java/com/example/currencyconverter/service/ExchangeRateService.java:46-261 | any sequence of calls, with either bulk create, keeps the invariant, three-letter codes and the absence of a cached shared triple |
| `BankService.DeleteBank` | src/main/java/com/example/currencyconverter/service/BankService.java:85-91 | a known bank is deleted with every row of that bank, because the bank entity cascades removal to its rate collection, and the call answers true. An unknown id answers false and changes nothing. Other rows are kept, and the cache is never touched |
| `Coherence.BankControllerDelete` | src/main/java/com/example/currencyconverter/controller/BankController.java:125-127 | the bank controller's delete leaves only rows that were stored before, and its `clear` empties the shared cache |
| `Coherence.BankControllerDeleteKeepsInv` | src/main/java/com/example/currencyconverter/controller/BankController.java:125-127 | the bank controller's delete keeps the invariant, because its `clear` drops whatever the cascade left stale |
| `Coherence.DeleteBankLeavesStaleRate` | src/main/java/com/example/currencyconverter/service/BankService.java:85-91 | `deleteBank` without the controller's `clear` breaks coherence. A coherent state has bank 1 with one cached `USD`-`EUR` rate. After the delete the repository has no row for that triple, yet a read returns the cached rate |
| `CacheScenarios.EvictOfMiddle` | src/main/java/com/example/currencyconverter/utils/InMemoryCache.java:65-71 | evicting the middle one of three entries leaves the other two in their recency order |
| `CacheScenarios.HundredUnitEvictsA` | src/main/java/com/example/currencyconverter/utils/InMemoryCache.java:52-61 | in a 100-unit cache under the source's estimate, put A, B, then C: C evicts A, leaving `[B, C]` with the counter at 80 |
| `CacheScenarios.HundredUnitGetEvictsB` | src/main/java/com/example/currencyconverter/utils/InMemoryCache.java:22 | the same puts with `get(A)` before C: `get` returns A's value, and C evicts B, leaving `[A, C]` with the counter at 80 |

## Left out

- Concurrency: the cache is unsynchronized and shared. The model is sequential, one call at a time.
- `ByteBuffer` and `toString()`: the counter is a `nat` and the size estimate is a parameter `sz`. `EstimateSize` states the source's estimate over the key's and the value's text.
- Integer widths: `int` sizes and the `Long` bank and row ids are unbounded. A row id parameter is an `int`, so a negative id is a legal call; stored ids are `nat`, so it behaves like any missing id. The 32-bit wrap-around of `estimateSize` and of `position + entrySize` is not modelled; it needs sizes above 2^30, and allocating a `ByteBuffer` for such a budget takes a gigabyte of heap.
- `BigDecimal`: a rate is an opaque `Decimal(unscaled, scale)`. Rates are only stored, compared and returned, never computed with.
- Repositories, JPA and `@Transactional`: the store is an abstract map from id to row, plus the set of known bank ids, the set of known currency codes, and the next identity value. Rollback is modelled only as "a failure leaves the store unchanged".
- `null`: a `null` key, value, list element or bank id is not modelled. The bulk request list is non-null, since `requests.size()` runs before the null check.
- `getMinRate`, `getAllExchangeRates`, `getAllExchangeRatesByBankId` and `getExchangeRate` are left out. They do not touch the point cache, and `findMinRate` is not declared by the repository.
- Controllers: two uses of the shared cache are modelled. The exchange-rate and currency controllers' appear as a read-through of a response object under their own keys, and as `clear` after each mutation. The bank controller's delete appears as `deleteBank` followed by `clear`. HTTP handling, the rest of the bank controller, and the other controllers and services are not part of this model.
- Coherence assumes that rows change only through the modelled calls. Any other writer of exchange-rate rows that skips eviction breaks it. `Coherence.DeleteBankLeavesStaleRate` shows this for `deleteBank` called without the controller's `clear`.
- Three-letter codes: the key is injective only for three-character codes, and every stored and known code is assumed to have three letters from the start (`Coherence.ThreeLetterCodes`). The entity column only caps codes at three characters, and the `@Size(3, 3)` check guards only bulk requests.
- Logging is left out.
- `InMemoryCache.Put`: the ensures carries the facts about one call. The fact that `put` evicts exactly the least number of eldest entries, and the resulting counter, is stated in the lemma `InMemoryCache.PutEvictsLeast` instead.
- `ExchangeRateService.GetExchangeRateValue`: the ensures allows `CacheFailure` on a miss, because the shipped `put` can throw on an over-counted cache. `ExchangeRateService.ReadKeepsExact` and `Coherence.ReadAgreesWithStore` rule it out on the states the application reaches.

## Findings

| source | as written | input that shows it | evidently intended | confidence | as-written member | corrected member |
|---|---|---|---|---|---|---|
| src/main/java/com/example/currencyconverter/utils/InMemoryCache.java:60-61 | `put` of a key already cached adds the new entry's size without subtracting the size of the entry it replaces, so the counter drifts above the entries' total | in a 100-unit cache, put `a`→`bb` twice: one entry of size 6, counter 12. Then evict `a`: the map is empty, counter 6. Then put `k` with a 47-character value (size 96): the loop calls `iterator().next()` on the empty map | the replaced entry's size leaves the counter first, as `evict` would take it out | not executed; the service and the exchange-rate controller only `put` after a miss, so their sequential use never replaces a key (`CacheAccounting.PutCorrectedAgreesOnFreshKey`) | `InMemoryCache.Put`, `CacheAccounting.ReplaceOverCounts`, `CacheAccounting.OverCountCrashesPut` | `CacheAccounting.PutCorrected`, `CacheAccounting.CorrectedAccountingStaysExact` |
| src/main/java/com/example/currencyconverter/service/ExchangeRateService.java:118 | each bulk request is checked for a duplicate only against the stored rows, never against the earlier requests of the same batch | a store that knows bank 1, `USD` and `EUR` and has no rates; a batch of two identical requests (1, `USD`, `EUR`, 1). Both are saved, after which the single-result lookup behind `getExchangeRateValue(1, "USD", "EUR")` matches two rows and fails | a request whose triple an earlier request of the batch has is rejected like a stored duplicate | not executed | `ExchangeRateService.CreateExchangeRatesBulk`, `BulkDuplicates.BulkAdmitsDuplicateTriples` | `BulkDuplicates.CreateExchangeRatesBulkChecked`, `BulkDuplicates.CheckedBulkKeepsUniqueTriples`, `Coherence.RunKeepsSound` |

`Coherence.RunKeepsSound` uses the corrected bulk create: only that version keeps stored triples unique. `Coherence.ReadAfterAnyRun` holds with either version. With the shipped one, a read of a duplicated triple answers the repository's non-unique failure rather than a cached rate. The read-throughs call the shipped `put` only on a missing key, and there `CacheAccounting.PutCorrectedAgreesOnFreshKey` shows it equals the corrected one.
