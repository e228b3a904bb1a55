/**
 The account controller: create, full-replace update, get by id and list,
 as operations on the account collection of a `Db`. `Create` and `Update`
 specify the two writes over `State`.
 */
module Accounts {
  import opened Models
  import opened Store

  datatype CreateOutcome = Created(account: Account) | CreateFailed
  datatype UpdateOutcome = Updated(account: Account) | NotFound | UpdateFailed

  /** Create with the supplied owner and balance list; `saveOk` says whether the save succeeds. */
  function Create(s: State, owner: string, balance: seq<Entry>, saveOk: bool): (r: (State, CreateOutcome))
    ensures r.1.Created? <==> saveOk
    ensures r.0.ledger == s.ledger && r.0.events == s.events
    ensures r.1.Created? ==> r.1.account.id == s.nextId && r.0.nextId == s.nextId + 1
  {
    if !saveOk then (s, CreateFailed)
    else
      var acc := Account(s.nextId, owner, balance);
      (s.(accounts := s.accounts[acc.id := acc], nextId := s.nextId + 1), Created(acc))
  }

  /** Replace owner and balance list of account `id` wholesale. */
  function Update(s: State, id: nat, owner: string, balance: seq<Entry>, saveOk: bool): (r: (State, UpdateOutcome))
    ensures r.1.NotFound? <==> id !in s.accounts
    ensures r.1.Updated? <==> id in s.accounts && saveOk
    ensures !r.1.Updated? ==> r.0 == s
    ensures r.0.nextId == s.nextId && r.0.ledger == s.ledger && r.0.events == s.events
  {
    if id !in s.accounts then (s, NotFound)
    else if !saveOk then (s, UpdateFailed)
    else
      var acc := s.accounts[id].(owner := owner, balance := balance);
      (s.(accounts := s.accounts[id := acc]), Updated(acc))
  }

  /** The POST /accounts handler. */
  method CreateAccount(db: Db, owner: string, balance: seq<Entry>, saveOk: bool) returns (r: CreateOutcome)
    requires db.Valid()
    modifies db
    ensures db.Valid()
    ensures (db.Snapshot(), r) == Create(old(db.Snapshot()), owner, balance, saveOk)
  {
    if !saveOk {
      return CreateFailed;
    }
    var account := Account(db.nextId, owner, balance);
    db.accounts := db.accounts[account.id := account];
    db.nextId := db.nextId + 1;
    r := Created(account);
  }

  /** The PUT /accounts/:id handler: load, assign owner and balance in place, save. */
  method UpdateAccount(db: Db, id: nat, owner: string, balance: seq<Entry>, saveOk: bool)
    returns (r: UpdateOutcome)
    requires db.Valid()
    modifies db
    ensures db.Valid()
    ensures (db.Snapshot(), r) == Update(old(db.Snapshot()), id, owner, balance, saveOk)
  {
    if id !in db.accounts {
      return NotFound;
    }
    var account := db.accounts[id];
    account := account.(owner := owner);
    account := account.(balance := balance);
    if !saveOk {
      return UpdateFailed;
    }
    db.accounts := db.accounts[id := account];
    r := Updated(account);
  }

  /** The GET /accounts/:id handler: the stored account, or not found. */
  method GetAccount(db: Db, id: nat) returns (r: Option<Account>)
    ensures r.Some? <==> id in db.accounts
    ensures r.Some? ==> r.value == db.accounts[id]
  {
    if id in db.accounts {
      r := Some(db.accounts[id]);
    } else {
      r := None;
    }
  }

  /** The GET /accounts handler: every stored account, in creation order. */
  method ListAccounts(db: Db) returns (r: seq<Account>)
    requires db.Valid()
    ensures |r| == db.nextId
    ensures forall i :: 0 <= i < |r| ==> i in db.accounts && r[i] == db.accounts[i]
    ensures forall id :: id in db.accounts ==> db.accounts[id] in r
  {
    r := [];
    var i := 0;
    while i < db.nextId
      invariant i <= db.nextId
      invariant |r| == i
      invariant forall j :: 0 <= j < i ==> j in db.accounts && r[j] == db.accounts[j]
    {
      r := r + [db.accounts[i]];
      i := i + 1;
    }
    forall id | id in db.accounts ensures db.accounts[id] in r {
      assert r[id] == db.accounts[id];
    }
  }

  /**
   A successful create stores a new account, under an id not used before,
   holding exactly the supplied owner and balance list; nothing else changes.
   A failed save changes nothing.
   */
  lemma CreateStores(s: State, owner: string, balance: seq<Entry>, saveOk: bool)
    requires Indexed(s)
    ensures var (s', out) := Create(s, owner, balance, saveOk);
      && (!saveOk ==> s' == s && out == CreateFailed)
      && (saveOk ==>
            && out.Created?
            && out.account.id !in s.accounts
            && out.account.owner == owner && out.account.balance == balance
            && s'.accounts == s.accounts[out.account.id := out.account]
            && s'.ledger == s.ledger && s'.events == s.events
            && Indexed(s'))
  {
  }

  /** An update of an unknown id answers not found and changes nothing. */
  lemma UpdateUnknown(s: State, id: nat, owner: string, balance: seq<Entry>, saveOk: bool)
    requires id !in s.accounts
    ensures Update(s, id, owner, balance, saveOk) == (s, NotFound)
  {
  }

  /**
   A successful update replaces owner and balance list with the supplied values
   (no merge), keeps the id, and leaves every other account, the ledger and
   the events unchanged.
   */
  lemma UpdateReplaces(s: State, id: nat, owner: string, balance: seq<Entry>)
    requires Indexed(s) && id in s.accounts
    ensures var (s', out) := Update(s, id, owner, balance, true);
      && out == Updated(Account(id, owner, balance))
      && s'.accounts.Keys == s.accounts.Keys
      && s'.accounts[id] == Account(id, owner, balance)
      && (forall other :: other in s.accounts && other != id ==> s'.accounts[other] == s.accounts[other])
      && s'.nextId == s.nextId && s'.ledger == s.ledger && s'.events == s.events
      && Indexed(s')
  {
  }

  /**
   Update performs no balance checks: after a successful update of a consistent
   store, the store is consistent exactly when the supplied balance list is
   well formed. Any duplicate currency or negative amount gets stored.
   */
  lemma UpdateConsistentIff(s: State, id: nat, owner: string, balance: seq<Entry>)
    requires Consistent(s) && id in s.accounts
    ensures Consistent(Update(s, id, owner, balance, true).0) <==> WellFormed(balance)
  {
    var s' := Update(s, id, owner, balance, true).0;
    assert s'.accounts[id].balance == balance;
  }

  /** The same holds of create: it stores whatever balance list it is given. */
  lemma CreateConsistentIff(s: State, owner: string, balance: seq<Entry>)
    requires Indexed(s) && Consistent(s)
    ensures Consistent(Create(s, owner, balance, true).0) <==> WellFormed(balance)
  {
    var s' := Create(s, owner, balance, true).0;
    assert s'.accounts[s.nextId].balance == balance;
  }

  /** A concrete update that breaks both balance invariants of a consistent store. */
  lemma UpdateBreaksInvariants()
    ensures var s := State(map[0 := Account(0, "ann", [])], 1, [], []);
      var bad := [Entry(-5, "USD"), Entry(3, "USD")];
      && Consistent(s)
      && Update(s, 0, "ann", bad, true).1.Updated?
      && !UniqueCurrencies(Update(s, 0, "ann", bad, true).0.accounts[0].balance)
      && !NonNegative(Update(s, 0, "ann", bad, true).0.accounts[0].balance)
  {
    var bad := [Entry(-5, "USD"), Entry(3, "USD")];
    assert bad[0].currency == bad[1].currency;
    assert bad[0].amount < 0;
  }
}
