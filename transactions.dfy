/**
 The transaction controller: applying a transaction request to an account
 (the POST handler) and listing the ledger records of an account (the GET
 handler). `Post` is the specification of one request over `State`;
 `PostTransaction` performs it in place on a `Db`.
 */
module Transactions {
  import opened Models
  import opened Balance
  import opened Store

  /** The request body: account id, amount, the raw `transactionType` string and currency. */
  datatype Request = Request(account: nat, amount: int, txType: string, currency: string)

  /** How a request ends, one alternative per response the handler can give. */
  datatype Outcome =
    | Posted(tx: Transaction)   // the saved ledger record is returned
    | AccountNotFound           // no account with the requested id
    | InsufficientFunds         // OUTBOUND refused
    | AccountSaveFailed         // saving the mutated account threw
    | LedgerSaveFailed          // saving the ledger record threw

  /** Publish the record, then try to append it to the ledger. */
  function Record(s: State, tx: Transaction, ledgerSaveOk: bool): (r: (State, Outcome))
    ensures r.0.accounts == s.accounts && r.0.nextId == s.nextId
    ensures r.0.events == s.events + [tx]
    ensures r.1 == Posted(tx) || r.1 == LedgerSaveFailed
    ensures r.1.Posted? <==> ledgerSaveOk && Admissible(tx)
    ensures r.0.ledger == if r.1.Posted? then s.ledger + [tx] else s.ledger
  {
    var published := s.(events := s.events + [tx]);
    if ledgerSaveOk && Admissible(tx) then (published.(ledger := s.ledger + [tx]), Posted(tx))
    else (published, LedgerSaveFailed)
  }

  /**
   One request against state `s`. `now` is the clock value stamped on the
   record; `accountSaveOk` and `ledgerSaveOk` say whether the two saves succeed.
   */
  function Post(s: State, req: Request, now: nat, accountSaveOk: bool, ledgerSaveOk: bool): (r: (State, Outcome))
    ensures r.0.nextId == s.nextId && r.0.accounts.Keys == s.accounts.Keys
    ensures forall id :: id in s.accounts && id != req.account ==> r.0.accounts[id] == s.accounts[id]
    ensures r.0.ledger == if r.1.Posted? then s.ledger + [r.1.tx] else s.ledger
    ensures |r.0.events| <= |s.events| + 1
  {
    if req.account !in s.accounts then (s, AccountNotFound)
    else
      var acc := s.accounts[req.account];
      var txType := TypeOf(req.txType);
      match Apply(acc.balance, txType, req.amount, req.currency)
      case Insufficient => (s, InsufficientFunds)
      case Untouched =>
        Record(s, Transaction(req.account, req.amount, txType, req.currency, None, now), ledgerSaveOk)
      case Applied(bal, resulting) =>
        if !accountSaveOk then (s, AccountSaveFailed)
        else
          var saved := s.(accounts := s.accounts[req.account := acc.(balance := bal)]);
          Record(saved, Transaction(req.account, req.amount, txType, req.currency, Some(resulting), now), ledgerSaveOk)
  }

  /** The POST handler, updating the database step by step. */
  method PostTransaction(db: Db, req: Request, now: nat, accountSaveOk: bool, ledgerSaveOk: bool)
    returns (r: Outcome)
    requires db.Valid()
    modifies db
    ensures db.Valid()
    ensures (db.Snapshot(), r) == Post(old(db.Snapshot()), req, now, accountSaveOk, ledgerSaveOk)
  {
    if req.account !in db.accounts {
      return AccountNotFound;
    }
    var account := db.accounts[req.account];
    var bal := account.balance;
    var balance: Option<int> := None;
    if req.txType == "INBOUND" {
      var found := FindCurrency(bal, req.currency);
      if found.None? {
        bal := bal + [Entry(req.amount, req.currency)];
        balance := Some(req.amount);
      } else {
        var k := found.value;
        bal := bal[k := bal[k].(amount := bal[k].amount + req.amount)];
        balance := Some(bal[k].amount);
      }
      if !accountSaveOk {
        return AccountSaveFailed;
      }
      db.accounts := db.accounts[req.account := account.(balance := bal)];
    } else if req.txType == "OUTBOUND" {
      var found := FindCurrency(bal, req.currency);
      if found.None? || bal[found.value].amount < req.amount {
        return InsufficientFunds;
      }
      var k := found.value;
      bal := bal[k := bal[k].(amount := bal[k].amount - req.amount)];
      balance := Some(bal[k].amount);
      if !accountSaveOk {
        return AccountSaveFailed;
      }
      db.accounts := db.accounts[req.account := account.(balance := bal)];
    }
    var tx := Transaction(req.account, req.amount, TypeOf(req.txType), req.currency, balance, now);
    db.events := db.events + [tx];
    if ledgerSaveOk && Admissible(tx) {
      db.ledger := db.ledger + [tx];
      r := Posted(tx);
    } else {
      r := LedgerSaveFailed;
    }
  }

  /** The ledger records whose `account` is `id`, in ledger order. */
  function ByAccount(ledger: seq<Transaction>, id: nat): (r: seq<Transaction>)
    ensures |r| <= |ledger|
    ensures forall i :: 0 <= i < |r| ==> r[i].account == id
  {
    if ledger == [] then []
    else
      var last := ledger[|ledger| - 1];
      ByAccount(ledger[..|ledger| - 1], id) + (if last.account == id then [last] else [])
  }

  /** The GET handler: one pass over the ledger, keeping the records of `id`. */
  method ListTransactions(db: Db, id: nat) returns (r: seq<Transaction>)
    ensures r == ByAccount(db.ledger, id)
  {
    r := [];
    var i := 0;
    while i < |db.ledger|
      invariant 0 <= i <= |db.ledger|
      invariant r == ByAccount(db.ledger[..i], id)
    {
      var tx := db.ledger[i];
      assert db.ledger[..i + 1][..i] == db.ledger[..i];
      if tx.account == id {
        r := r + [tx];
      }
      i := i + 1;
    }
    assert db.ledger[..i] == db.ledger;
  }

  /** A listing holds exactly the records of the account, and only those. */
  lemma {:induction false} ByAccountMembers(ledger: seq<Transaction>, id: nat)
    ensures forall tx :: tx in ByAccount(ledger, id) <==> tx in ledger && tx.account == id
  {
    if ledger != [] {
      var init := ledger[..|ledger| - 1];
      ByAccountMembers(init, id);
      assert ledger == init + [ledger[|ledger| - 1]];
    }
  }

  /** Extending the ledger only extends each account's listing. */
  lemma {:induction false} ByAccountPrefix(ledger: seq<Transaction>, more: seq<Transaction>, id: nat)
    ensures ByAccount(ledger, id) <= ByAccount(ledger + more, id)
  {
    if more != [] {
      var init := more[..|more| - 1];
      ByAccountPrefix(ledger, init, id);
      assert (ledger + more)[..|ledger + more| - 1] == ledger + init;
    } else {
      assert ledger + more == ledger;
    }
  }

  /** An unknown account id changes nothing. */
  lemma PostUnknownAccount(s: State, req: Request, now: nat, accountSaveOk: bool, ledgerSaveOk: bool)
    requires req.account !in s.accounts
    ensures Post(s, req, now, accountSaveOk, ledgerSaveOk) == (s, AccountNotFound)
  {
  }

  /**
   OUTBOUND is refused exactly when the account exists and has no entry for the
   currency or its first entry holds less than the request; a refusal changes
   nothing, so no zero entry appears.
   */
  lemma PostRefused(s: State, req: Request, now: nat, accountSaveOk: bool, ledgerSaveOk: bool)
    ensures var (s', out) := Post(s, req, now, accountSaveOk, ledgerSaveOk);
      && (out == InsufficientFunds <==>
            && req.account in s.accounts
            && req.txType == "OUTBOUND"
            && forall k: nat :: IsFirst(s.accounts[req.account].balance, req.currency, k) ==>
                 s.accounts[req.account].balance[k].amount < req.amount)
      && (out == InsufficientFunds ==> s' == s)
  {
    if req.account in s.accounts {
      var bal := s.accounts[req.account].balance;
      OutboundGuard(bal, req.amount, req.currency);
    }
  }

  /** Requests that fail before the account is saved leave no trace at all. */
  lemma PostFailureNoTrace(s: State, req: Request, now: nat, accountSaveOk: bool, ledgerSaveOk: bool)
    ensures var (s', out) := Post(s, req, now, accountSaveOk, ledgerSaveOk);
      out in {AccountNotFound, InsufficientFunds, AccountSaveFailed} ==> s' == s
  {
  }

  /**
   An accepted request changes only the requested account, and only its balance
   list; it publishes exactly one event and appends exactly one ledger record,
   the same record, whose fields are the request's and whose balance is the
   new amount of the first entry for the currency.
   */
  lemma PostAccepted(s: State, req: Request, now: nat, accountSaveOk: bool, ledgerSaveOk: bool)
    requires Post(s, req, now, accountSaveOk, ledgerSaveOk).1.Posted?
    ensures var (s', out) := Post(s, req, now, accountSaveOk, ledgerSaveOk);
      && req.account in s.accounts
      && s'.ledger == s.ledger + [out.tx]
      && s'.events == s.events + [out.tx]
      && s'.nextId == s.nextId
      && s'.accounts.Keys == s.accounts.Keys
      && (forall id :: id in s.accounts && id != req.account ==> s'.accounts[id] == s.accounts[id])
      && s'.accounts[req.account].id == s.accounts[req.account].id
      && s'.accounts[req.account].owner == s.accounts[req.account].owner
      && out.tx.account == req.account && out.tx.amount == req.amount
      && out.tx.txType == TypeOf(req.txType) && out.tx.currency == req.currency
      && out.tx.timestamp == now
      && var bal' := s'.accounts[req.account].balance;
         && FirstIndex(bal', req.currency).Some?
         && out.tx.balance == Some(bal'[FirstIndex(bal', req.currency).value].amount)
  {
    var acc := s.accounts[req.account];
    ResultingMatchesEntry(acc.balance, TypeOf(req.txType), req.amount, req.currency);
  }

  /**
   If the ledger save fails after a successful account save, the account
   mutation and the published event stay exactly as on success; only the
   ledger record is missing, and the caller gets an error.
   */
  lemma LedgerFailureKeepsMutation(s: State, req: Request, now: nat, accountSaveOk: bool)
    requires Post(s, req, now, accountSaveOk, true).1.Posted?
    ensures Post(s, req, now, accountSaveOk, false)
         == (Post(s, req, now, accountSaveOk, true).0.(ledger := s.ledger), LedgerSaveFailed)
  {
  }

  /**
   A type that is neither INBOUND nor OUTBOUND leaves the account alone,
   still publishes an event, and is then refused by the ledger.
   */
  lemma PostUnknownType(s: State, req: Request, now: nat, accountSaveOk: bool, ledgerSaveOk: bool)
    requires req.account in s.accounts && req.txType != "INBOUND" && req.txType != "OUTBOUND"
    ensures var (s', out) := Post(s, req, now, accountSaveOk, ledgerSaveOk);
      && out == LedgerSaveFailed
      && s' == s.(events := s.events + [Transaction(req.account, req.amount, Other(req.txType), req.currency, None, now)])
  {
  }

  /**
   A request keeps the database's structural invariants, and keeps every
   balance list well formed when its amount is not negative.
   */
  lemma PostKeepsInvariants(s: State, req: Request, now: nat, accountSaveOk: bool, ledgerSaveOk: bool)
    requires Indexed(s) && LedgerAdmissible(s)
    ensures var s' := Post(s, req, now, accountSaveOk, ledgerSaveOk).0;
      Indexed(s') && LedgerAdmissible(s')
    ensures Consistent(s) && req.amount >= 0 ==> Consistent(Post(s, req, now, accountSaveOk, ledgerSaveOk).0)
  {
    if req.account in s.accounts && Consistent(s) && req.amount >= 0 {
      ApplyKeepsWellFormed(s.accounts[req.account].balance, TypeOf(req.txType), req.amount, req.currency);
    }
  }

  /** One request together with the clock value and the outcome of the two saves. */
  datatype Call = Call(req: Request, now: nat, accountSaveOk: bool, ledgerSaveOk: bool)

  /** Requests handled one at a time, with the outcome of each. */
  function Replay(s: State, calls: seq<Call>): (State, seq<Outcome>)
    decreases |calls|
  {
    if calls == [] then (s, [])
    else
      var c := calls[0];
      var (s1, out) := Post(s, c.req, c.now, c.accountSaveOk, c.ledgerSaveOk);
      var (s2, outs) := Replay(s1, calls[1..]);
      (s2, [out] + outs)
  }

  /** The records of the accepted requests, in order. */
  function Accepted(outs: seq<Outcome>): seq<Transaction>
  {
    if outs == [] then []
    else (if outs[0].Posted? then [outs[0].tx] else []) + Accepted(outs[1..])
  }

  /**
   After any run of requests the ledger is the old ledger followed by exactly
   one record per accepted request, in order.
   */
  lemma {:induction false} ReplayLedger(s: State, calls: seq<Call>)
    ensures Replay(s, calls).0.ledger == s.ledger + Accepted(Replay(s, calls).1)
    decreases |calls|
  {
    if calls != [] {
      var c := calls[0];
      var (s1, out) := Post(s, c.req, c.now, c.accountSaveOk, c.ledgerSaveOk);
      ReplayLedger(s1, calls[1..]);
      var outs := Replay(s, calls).1;
      assert outs == [out] + Replay(s1, calls[1..]).1;
      assert outs[1..] == Replay(s1, calls[1..]).1;
      assert Accepted(outs) == Accepted([out]) + Accepted(outs[1..]);
    }
  }

  /** Every non-negative run of requests keeps every balance list well formed. */
  lemma {:induction false} ReplayKeepsConsistent(s: State, calls: seq<Call>)
    requires Indexed(s) && LedgerAdmissible(s) && Consistent(s)
    requires forall i :: 0 <= i < |calls| ==> calls[i].req.amount >= 0
    ensures var s' := Replay(s, calls).0;
      Indexed(s') && LedgerAdmissible(s') && Consistent(s')
    decreases |calls|
  {
    if calls != [] {
      var c := calls[0];
      PostKeepsInvariants(s, c.req, c.now, c.accountSaveOk, c.ledgerSaveOk);
      ReplayKeepsConsistent(Post(s, c.req, c.now, c.accountSaveOk, c.ledgerSaveOk).0, calls[1..]);
    }
  }

  /** No run of requests removes or alters a record an earlier listing returned. */
  lemma ListingOnlyGrows(s: State, calls: seq<Call>, id: nat)
    ensures ByAccount(s.ledger, id) <= ByAccount(Replay(s, calls).0.ledger, id)
  {
    ReplayLedger(s, calls);
    ByAccountPrefix(s.ledger, Accepted(Replay(s, calls).1), id);
  }

  /**
   A worked run on one account with no balances: INBOUND 100 USD, INBOUND 50 USD,
   OUTBOUND 200 USD (refused), OUTBOUND 150 USD (leaves a zero entry).
   */
  lemma UsdWalkthrough()
    ensures var s := State(map[0 := Account(0, "ann", [])], 1, [], []);
      var calls := [
        Call(Request(0, 100, "INBOUND", "USD"), 1, true, true),
        Call(Request(0, 50, "INBOUND", "USD"), 2, true, true),
        Call(Request(0, 200, "OUTBOUND", "USD"), 3, true, true),
        Call(Request(0, 150, "OUTBOUND", "USD"), 4, true, true)];
      var (s', outs) := Replay(s, calls);
      && s'.accounts[0].balance == [Entry(0, "USD")]
      && outs[2] == InsufficientFunds
      && |s'.ledger| == 3
      && s'.ledger[2].balance == Some(0)
  {
    var bal := [Entry(100, "USD")];
    assert FirstIndex([], "USD") == None;
    assert FirstIndex(bal, "USD") == Some(0);
    assert FirstIndex([Entry(150, "USD")], "USD") == Some(0);
  }
}
