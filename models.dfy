/**
 The persistent documents of the accounts service: accounts with a list of
 per-currency balance entries, and ledger records of applied transactions.
 Amounts are integers in minor units; identifiers are natural numbers.
 */
module Models {

  datatype Option<T> = None | Some(value: T)

  /** One element of an account's `balance` list. */
  datatype Entry = Entry(amount: int, currency: string)

  /** An account document: its identifier, its owner and its balance list. */
  datatype Account = Account(id: nat, owner: string, balance: seq<Entry>)

  /** A `transactionType` string that is neither of the two the handler recognises. */
  type UnknownName = s: string | s != "INBOUND" && s != "OUTBOUND" witness ""

  /**
   The `transactionType` of a request, as the handler's string comparisons
   classify it. The ledger schema admits only the first two.
   */
  datatype TxType = Inbound | Outbound | Other(name: UnknownName)

  /** The classification of the raw `transactionType` string a client sends. */
  function TypeOf(t: string): (r: TxType)
    ensures r == Inbound <==> t == "INBOUND"
    ensures r == Outbound <==> t == "OUTBOUND"
    ensures r.Other? ==> r.name == t
  {
    if t == "INBOUND" then Inbound
    else if t == "OUTBOUND" then Outbound
    else Other(t)
  }

  /**
   A ledger record. `balance` is the resulting amount for `currency`, or
   `None` when the handler never assigned it; `timestamp` is an opaque clock value.
   */
  datatype Transaction = Transaction(
    account: nat,
    amount: int,
    txType: TxType,
    currency: string,
    balance: Option<int>,
    timestamp: nat)

  /** What the ledger schema accepts: a known type and a present balance. */
  predicate Admissible(tx: Transaction)
  {
    !tx.txType.Other? && tx.balance.Some?
  }

  /** No two entries of a balance list share a currency. */
  predicate UniqueCurrencies(bal: seq<Entry>)
  {
    forall i, j :: 0 <= i < j < |bal| ==> bal[i].currency != bal[j].currency
  }

  /** Every entry of a balance list is non-negative. */
  predicate NonNegative(bal: seq<Entry>)
  {
    forall i :: 0 <= i < |bal| ==> bal[i].amount >= 0
  }

  /** The balance invariants the transaction path is meant to keep. */
  predicate WellFormed(bal: seq<Entry>)
  {
    UniqueCurrencies(bal) && NonNegative(bal)
  }
}
