/**
 The service's persistent state: the account collection, the append-only
 transaction ledger and the log of published events. `State` is the value
 view that the operations are specified against; `Db` holds the same fields
 and is what the controllers update in place.
 */
module Store {
  import opened Models

  datatype State = State(
    accounts: map<nat, Account>,
    nextId: nat,
    ledger: seq<Transaction>,
    events: seq<Transaction>)

  /**
   Identifiers are handed out in order from `nextId`, stored under their own
   key and never removed.
   */
  predicate Indexed(s: State)
  {
    && (forall id :: id in s.accounts ==> id < s.nextId && s.accounts[id].id == id)
    && (forall id: nat :: id < s.nextId ==> id in s.accounts)
  }

  /** Every record in the ledger passed the ledger schema. */
  predicate LedgerAdmissible(s: State)
  {
    forall i :: 0 <= i < |s.ledger| ==> Admissible(s.ledger[i])
  }

  /** Every account's balance list has unique currencies and non-negative amounts. */
  predicate Consistent(s: State)
  {
    forall id :: id in s.accounts ==> WellFormed(s.accounts[id].balance)
  }

  class Db {
    var accounts: map<nat, Account>
    var nextId: nat
    var ledger: seq<Transaction>
    var events: seq<Transaction>

    function Snapshot(): State
      reads this
    {
      State(accounts, nextId, ledger, events)
    }

    ghost predicate Valid()
      reads this
    {
      Indexed(Snapshot()) && LedgerAdmissible(Snapshot())
    }

    /** An empty database: no accounts, no ledger records, no events. */
    constructor ()
      ensures Valid()
      ensures Snapshot() == State(map[], 0, [], [])
    {
      accounts := map[];
      nextId := 0;
      ledger := [];
      events := [];
    }
  }
}
