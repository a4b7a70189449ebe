/**
 * The bulk create checks every request against the rows already stored, never
 * against the other requests of the same batch, so one batch can store two
 * rows with the same bank and codes; the single-result triple lookup behind
 * `getExchangeRateValue` then fails for that triple. `CreateExchangeRatesBulkChecked`
 * also rejects a request whose triple an earlier request of the batch has.
 */
module BulkDuplicates {
  import opened Wrappers
  import opened InMemoryCache
  import opened ExchangeRateService

  /** No two requests of the batch name the same bank and codes. */
  predicate BatchDistinct(reqs: seq<Request>)
  {
    forall i, j :: 0 <= i < j < |reqs| ==> !SameTriple(RowOf(reqs[i]), RowOf(reqs[j]))
  }

  /**
   * The corrected per-request checks, in request order: the checks of the
   * source, then `InvalidInput` when an earlier request of the batch has the
   * same triple.
   */
  ghost function CheckBatch(s: Store, reqs: seq<Request>): (r: Status<()>)
    ensures r.Success? <==> (forall i :: 0 <= i < |reqs| ==> CheckRequest(s, reqs[i]).Success?) && BatchDistinct(reqs)
    decreases |reqs|
  {
    if |reqs| == 0 then Success(())
    else
      var init := reqs[..|reqs| - 1];
      var last := reqs[|reqs| - 1];
      var prev := CheckBatch(s, init);
      assert forall i :: 0 <= i < |init| ==> init[i] == reqs[i];
      if !prev.Success? then prev
      else
        var own := CheckRequest(s, last);
        if !own.Success? then own
        else if exists j :: 0 <= j < |init| && SameTriple(RowOf(init[j]), RowOf(last)) then InvalidInput
        else Success(())
  }

  /** The bulk create with the in-batch duplicate check added; otherwise as the source. */
  ghost function CreateExchangeRatesBulkChecked(cfg: Config, st: State, reqs: seq<Request>): (r: Step<seq<Saved>>)
    ensures r.status.Success? <==> CheckBatch(st.store, reqs).Success?
    ensures r.status.Success? ==> r == CreateExchangeRatesBulk(cfg, st, reqs)
    ensures !r.status.Success? ==> r.after == st
  {
    var check := CheckBatch(st.store, reqs);
    if check.Success? then CreateExchangeRatesBulk(cfg, st, reqs)
    else Step(Failure(check), st)
  }

  /** A row whose triple matches nothing stored differs from every stored row. */
  lemma NoMatchDiffers(s: Store, row: ExchangeRate, a: nat)
    requires a in s.rates
    requires MatchingIds(s, row.bankId, row.from, row.to) == {}
    ensures !SameTriple(s.rates[a], row) && !SameTriple(row, s.rates[a])
  {
    assert a !in MatchingIds(s, row.bankId, row.from, row.to);
  }

  /** A key of the right operand of a union maps to its value there. */
  lemma RightOfUnion<K, V>(m: map<K, V>, n: map<K, V>, k: K)
    requires k in n
    ensures k in m + n && (m + n)[k] == n[k]
  {
  }

  /** Below `nextId` a saved batch holds the row stored before. */
  lemma SavedOldRow(s: Store, reqs: seq<Request>, id: nat)
    requires id < s.nextId && id in s.rates + NewRows(s.nextId, reqs)
    ensures id in s.rates && (s.rates + NewRows(s.nextId, reqs))[id] == s.rates[id]
  {
    assert id !in NewRows(s.nextId, reqs);
  }

  /** An id at or above `nextId` in a saved batch is one the batch assigned. */
  lemma NewIdInBatch(s: Store, reqs: seq<Request>, id: nat)
    requires forall id :: id in s.rates ==> id < s.nextId
    requires s.nextId <= id && id in s.rates + NewRows(s.nextId, reqs)
    ensures id - s.nextId < |reqs|
  {
    assert id !in s.rates;
  }

  /** Request `id - nextId` of a batch is the row a save of it holds under `id`. */
  lemma BatchRowAt(s: Store, reqs: seq<Request>, id: nat)
    requires s.nextId <= id && id - s.nextId < |reqs|
    ensures id in s.rates + NewRows(s.nextId, reqs) && (s.rates + NewRows(s.nextId, reqs))[id] == RowOf(reqs[id - s.nextId])
  {
    NewRowsAt(s.nextId, reqs, id - s.nextId);
    RightOfUnion(s.rates, NewRows(s.nextId, reqs), id);
  }

  /** From `nextId` on a saved batch holds request `id - nextId`. */
  lemma SavedNewRow(s: Store, reqs: seq<Request>, id: nat)
    requires forall id :: id in s.rates ==> id < s.nextId
    requires s.nextId <= id && id in s.rates + NewRows(s.nextId, reqs)
    ensures id - s.nextId < |reqs| && (s.rates + NewRows(s.nextId, reqs))[id] == RowOf(reqs[id - s.nextId])
  {
    NewIdInBatch(s, reqs, id);
    BatchRowAt(s, reqs, id);
  }

  /** The row a saved batch holds under `id`: the stored row below `nextId`, request `id - nextId` above. */
  lemma SavedRow(s: Store, reqs: seq<Request>, id: nat)
    requires forall id :: id in s.rates ==> id < s.nextId
    requires id in s.rates + NewRows(s.nextId, reqs)
    ensures id < s.nextId ==> id in s.rates && (s.rates + NewRows(s.nextId, reqs))[id] == s.rates[id]
    ensures s.nextId <= id ==> id - s.nextId < |reqs| && (s.rates + NewRows(s.nextId, reqs))[id] == RowOf(reqs[id - s.nextId])
  {
    if s.nextId <= id {
      SavedNewRow(s, reqs, id);
    } else {
      SavedOldRow(s, reqs, id);
    }
  }

  /** Two rows of a saved batch never share a triple, whether stored before or saved now. */
  lemma SavedRowsDiffer(s: Store, reqs: seq<Request>, a: nat, b: nat)
    requires UniqueTriples(s)
    requires forall id :: id in s.rates ==> id < s.nextId
    requires forall i :: 0 <= i < |reqs| ==> MatchingIds(s, reqs[i].bankId, reqs[i].from, reqs[i].to) == {}
    requires BatchDistinct(reqs)
    requires a in s.rates + NewRows(s.nextId, reqs) && b in s.rates + NewRows(s.nextId, reqs) && a != b
    ensures !SameTriple((s.rates + NewRows(s.nextId, reqs))[a], (s.rates + NewRows(s.nextId, reqs))[b])
  {
    SavedRow(s, reqs, a);
    SavedRow(s, reqs, b);
    if a < s.nextId && b < s.nextId {
    } else if a < s.nextId {
      NoMatchDiffers(s, RowOf(reqs[b - s.nextId]), a);
    } else if b < s.nextId {
      NoMatchDiffers(s, RowOf(reqs[a - s.nextId]), b);
    } else if a < b {
      assert !SameTriple(RowOf(reqs[a - s.nextId]), RowOf(reqs[b - s.nextId]));
    } else {
      assert !SameTriple(RowOf(reqs[b - s.nextId]), RowOf(reqs[a - s.nextId]));
    }
  }

  /** Saving a batch of distinct triples that are all new keeps stored triples unique. */
  lemma SaveAllKeepsUniqueTriples(s: Store, reqs: seq<Request>)
    requires UniqueTriples(s)
    requires forall id :: id in s.rates ==> id < s.nextId
    requires forall i :: 0 <= i < |reqs| ==> MatchingIds(s, reqs[i].bankId, reqs[i].from, reqs[i].to) == {}
    requires BatchDistinct(reqs)
    ensures UniqueTriples(SaveAll(s, reqs).0)
  {
    var rates := s.rates + NewRows(s.nextId, reqs);
    assert SaveAll(s, reqs).0.rates == rates;
    forall a, b | a in rates && b in rates && a != b
      ensures !SameTriple(rates[a], rates[b])
    {
      SavedRowsDiffer(s, reqs, a, b);
    }
  }

  /** The corrected bulk create never leaves two rows that the triple lookup cannot tell apart. */
  lemma CheckedBulkKeepsUniqueTriples(cfg: Config, st: State, reqs: seq<Request>)
    requires UniqueTriples(st.store)
    requires forall id :: id in st.store.rates ==> id < st.store.nextId
    ensures UniqueTriples(CreateExchangeRatesBulkChecked(cfg, st, reqs).after.store)
  {
    if CheckBatch(st.store, reqs).Success? && |reqs| > 0 {
      SaveAllKeepsUniqueTriples(st.store, reqs);
    }
  }

  const Usd: string := "USD"
  const Eur: string := "EUR"
  const One: Decimal := Decimal(1, 0)
  const Twice: seq<Request> := [Request(1, Usd, Eur, One), Request(1, Usd, Eur, One)]

  /** A store that knows bank 1 and both codes and has no rate yet. */
  const Fresh: Store := Store(map[], {1}, {Usd, Eur}, 0)

  /**
   * The same request twice in one batch: the source stores both rows, after
   * which the lookup behind `getExchangeRateValue` for that triple fails; the
   * corrected create rejects the batch.
   */
  lemma BulkAdmitsDuplicateTriples(cfg: Config, c: Cache<string, CachedValue>)
    ensures var r := CreateExchangeRatesBulk(cfg, State(Fresh, c), Twice);
      && r.status.Success?
      && r.after.store.rates == map[0 := RowOf(Twice[0]), 1 := RowOf(Twice[1])]
      && !UniqueTriples(r.after.store)
      && StoreAnswer(r.after.store, 1, Usd, Eur) == NonUniqueResult
    ensures CreateExchangeRatesBulkChecked(cfg, State(Fresh, c), Twice).status == InvalidInput
  {
    var st := State(Fresh, c);
    assert MatchingIds(Fresh, 1, Usd, Eur) == {};
    assert CheckRequest(Fresh, Twice[0]).Success?;
    assert CheckRequest(Fresh, Twice[1]).Success?;
    var r := CreateExchangeRatesBulk(cfg, st, Twice);
    var s2 := SaveAll(Fresh, Twice).0;
    assert s2.rates.Keys == {0, 1};
    assert s2.rates == map[0 := RowOf(Twice[0]), 1 := RowOf(Twice[1])];
    assert MatchingIds(s2, 1, Usd, Eur) == {0, 1};
    assert !BatchDistinct(Twice) by {
      assert SameTriple(RowOf(Twice[0]), RowOf(Twice[1]));
    }
  }
}
