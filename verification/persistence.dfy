/** The cursor store: one record per account in a key-value table, holding
    the id of the last processed status. The table is a map from account id
    to the record's `value` attribute; `None` is a record without one. */
module Persistence {
  import opened Optional

  type Store = map<string, Option<string>>

  const DefaultValue := "0"

  /** What a read returns, and the table after it. */
  datatype Read = Read(value: string, store: Store)

  /** `writeRecord(accountId, value)`: a put of the whole record, whatever was
      there before. Only that account's record changes. */
  function WriteRecord(store: Store, accountId: string, value: string): (s: Store)
    ensures accountId in s && s[accountId] == Some(value)
    ensures s.Keys == store.Keys + {accountId}
    ensures forall k | k in store && k != accountId :: s[k] == store[k]
  {
    store[accountId := Some(value)]
  }

  /** `getLastProcessedById(accountId)`. An absent record is created with
      value "0" and "0" is returned; a present record is left alone and its
      value returned, or "0" when that value is missing or empty. */
  function GetLastProcessedById(store: Store, accountId: string): (r: Read)
    ensures accountId !in store ==> r.value == DefaultValue && r.store == WriteRecord(store, accountId, DefaultValue)
    ensures accountId in store ==> r.store == store
    ensures accountId in store && store[accountId].Some? && store[accountId].value != "" ==>
              r.value == store[accountId].value
    ensures accountId in store && (store[accountId].None? || store[accountId].value == "") ==>
              r.value == DefaultValue
    ensures r.value != ""
    ensures accountId in r.store
  {
    if accountId !in store then
      Read(DefaultValue, WriteRecord(store, accountId, DefaultValue))
    else
      var stored := store[accountId].GetOr("");
      Read(if stored == "" then DefaultValue else stored, store)
  }

  /** Reading twice returns the same value, and the second read changes nothing. */
  lemma ReadTwice(store: Store, accountId: string)
    ensures var first := GetLastProcessedById(store, accountId);
            var second := GetLastProcessedById(first.store, accountId);
            second.value == first.value && second.store == first.store
  {
  }

  /** A read after `writeRecord(k, v)` returns `v`, or "0" when `v` is empty. */
  lemma ReadAfterWrite(store: Store, accountId: string, value: string)
    ensures GetLastProcessedById(WriteRecord(store, accountId, value), accountId).value
            == if value == "" then DefaultValue else value
  {
  }

  /** Last writer wins: of two writes to one record only the second shows. */
  lemma LastWriterWins(store: Store, accountId: string, v1: string, v2: string)
    ensures WriteRecord(WriteRecord(store, accountId, v1), accountId, v2) == WriteRecord(store, accountId, v2)
  {
  }

  /** A write to one account does not change what a read of another returns. */
  lemma WriteIsolated(store: Store, written: string, other: string, value: string)
    requires written != other
    ensures GetLastProcessedById(WriteRecord(store, written, value), other).value
            == GetLastProcessedById(store, other).value
  {
  }

  /** A read leaves the value any later read of any account returns unchanged:
      reads only ever add the record "0", which reads as "0" too. */
  lemma ReadPreservesReads(store: Store, accountId: string, other: string)
    ensures GetLastProcessedById(GetLastProcessedById(store, accountId).store, other).value
            == GetLastProcessedById(store, other).value
  {
  }
}
