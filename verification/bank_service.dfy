/**
 * `deleteBank` of service/BankService.java, over the store of the
 * exchange-rate model. The bank entity owns its exchange-rate rows with
 * `cascade = ALL` and `orphanRemoval`, so deleting a bank deletes every row
 * of that bank with it. Nothing in this service touches the point cache.
 */
module BankService {
  import opened ExchangeRateService

  /** The rows of every bank but `bankId`. */
  function RowsWithoutBank(rates: map<nat, ExchangeRate>, bankId: int): (m: map<nat, ExchangeRate>)
    ensures forall id :: id in m <==> id in rates && rates[id].bankId != bankId
    ensures forall id :: id in m ==> m[id] == rates[id]
  {
    map id | id in rates && rates[id].bankId != bankId :: rates[id]
  }

  /**
   * A known bank is deleted together with its rows (`true`); an unknown id
   * returns `false` and changes nothing. The cache is never touched.
   */
  function DeleteBank(st: State, bankId: int): (r: Step<bool>)
    ensures r.status == Success(bankId in st.store.banks)
    ensures bankId !in st.store.banks ==> r.after == st
    ensures bankId in st.store.banks ==>
      && r.after.store.banks == st.store.banks - {bankId}
      && (forall id :: id in r.after.store.rates <==> id in st.store.rates && st.store.rates[id].bankId != bankId)
      && r.after.store.currencies == st.store.currencies
      && r.after.store.nextId == st.store.nextId
    ensures forall id :: id in r.after.store.rates ==> id in st.store.rates && r.after.store.rates[id] == st.store.rates[id]
    ensures r.after.cache == st.cache
  {
    if bankId in st.store.banks then
      var store := st.store.(rates := RowsWithoutBank(st.store.rates, bankId), banks := st.store.banks - {bankId});
      Step(Success(true), st.(store := store))
    else
      Step(Success(false), st)
  }
}
