# accounts-service: transaction application, modelled in Dafny

The accounts service keeps accounts. Each account has an owner and a list of
per-currency balance entries `{amount, currency}`. The service also keeps an
append-only ledger of transaction records. Its one piece of real logic is the
`POST /transaction` handler. It looks up the account and finds the entry for
the currency by a linear scan. INBOUND adds to that entry, or appends a new one.
OUTBOUND refuses with "Insufficient funds" when there is no entry or the entry
is too small, and otherwise subtracts. The handler then saves the account,
publishes an event, and appends a ledger record whose `balance` is the new
amount for the currency. Beside it sit the ledger listing
`GET /transactions/:account` and the account CRUD handlers (create, full-replace
update, get, list).

Files:

- `models.dfy` (module `Models`): the account and transaction documents, the
  transaction type (`Inbound`, `Outbound`, or an `Other` string that is neither)
  with `TypeOf`, which classifies the raw string, and the
  balance-list invariants `UniqueCurrencies`, `NonNegative` and `WellFormed`.
- `balance.dfy` (module `Balance`): the currency lookup (`FirstIndex`, and the
  loop `FindCurrency`) and `Apply`, the effect of one request on a balance list.
- `store.dfy` (module `Store`): `State` is the value view of the database:
  accounts keyed by id, the next id, the ledger, and the published events. `Db`
  is the class holding the same fields, which the handlers update in place.
- `transactions.dfy` (module `Transactions`): `Post` specifies one request over
  `State`, and `PostTransaction` performs it on a `Db`. `ByAccount` and
  `ListTransactions` give the ledger listing. `Replay` runs a sequence of
  requests one at a time.
- `accounts.dfy` (module `Accounts`): create, update, get and list.

Outside effects become parameters:

- `now` is the clock value stamped on a record.
- `accountSaveOk`, `ledgerSaveOk` and `saveOk` say whether a database save
  succeeds. This makes the partial-failure path statable: the account is saved,
  the event is published, and then the ledger save fails.

Publishing appends the record to `events` and never fails toward the caller.

Behaviour of the code a reader may not expect:

- An OUTBOUND request for a currency the account has no entry for is refused
  even when its amount is 0. The code tests `!currencyBalance` before comparing
  amounts. It does not treat the missing entry as a zero balance.
- The handler never checks the sign of `amount`. Non-negativity of balances is
  therefore proved only for requests whose amount is at least 0.
- The handler classifies `transactionType` by comparing the raw string with
  "INBOUND" and "OUTBOUND"; `TypeOf` does the same, and `Other` can only hold a
  string that is neither. A `transactionType` other than these two falls through both
  branches. No balance changes and no account is saved. The record is still
  published, with no `balance`. The ledger schema then rejects it because of
  the type enum and the required `balance`, so the caller gets an error.
- `find` selects the FIRST entry for the currency. The update handler can store
  duplicate currencies, and then only the first entry for a currency is ever
  touched by transactions.

## Model

| member | source | states |
|---|---|---|
| `Models.TypeOf` | controller/transactions.js:17-27 | a raw `transactionType` string is INBOUND iff it equals "INBOUND", OUTBOUND iff it equals "OUTBOUND", and otherwise is kept as an unknown name |
| `Models.Admissible` | models/transaction.js:16-32 | no contract: the ledger schema's test, a type from the enum and a present `balance`; its meaning for the handler is given by `Transactions.Record`, `Transactions.PostUnknownType` and `Transactions.PostKeepsInvariants` |
| `Balance.Apply` | controller/transactions.js:17-34 | the effect of the two branches on a balance list: untouched iff the type is unknown, refused only for OUTBOUND, the list either keeps its length or gains exactly `Entry(amount, currency)`, and OUTBOUND never adds an entry; the per-branch meaning is in `InboundExisting`, `InboundNew`, `OutboundGuard`, `OutboundAccepted` and `ResultingMatchesEntry` |
| `Balance.FirstIndex` | controller/transactions.js:18 | the entry `find` selects: `Some(k)` iff `k` is the first entry with that currency; `None` iff no entry has it |
| `Balance.FindCurrency` | controller/transactions.js:28 | the linear scan returns exactly the first entry for the currency, or none |
| `Balance.InboundExisting` | controller/transactions.js:22-24 | INBOUND with an existing entry adds the amount to the first entry for the currency; every other entry and the list length are unchanged; the resulting balance is the new amount |
| `Balance.InboundNew` | controller/transactions.js:19-21 | INBOUND with no entry appends exactly `Entry(amount, currency)` and records `balance = amount`; unique currencies stay unique |
| `Balance.OutboundGuard` | controller/transactions.js:28-30 | OUTBOUND is refused iff no entry exists or the first entry holds less than the request; OUTBOUND is never a no-op |
| `Balance.OutboundAccepted` | controller/transactions.js:31-33 | an accepted OUTBOUND subtracts from the first entry only, records the difference, and keeps a zero entry in the list |
| `Balance.ResultingMatchesEntry` | controller/transactions.js:17-34 | the recorded balance equals the amount the new list holds in its entry for the currency |
| `Balance.ApplyKeepsNonNegative` | controller/transactions.js:17-35 | with non-negative entries and a non-negative request, every entry and the recorded balance stay non-negative |
| `Balance.ApplyKeepsUniqueCurrencies` | controller/transactions.js:17-34 | an applied request never creates a second entry for a currency |
| `Balance.ApplyKeepsWellFormed` | controller/transactions.js:17-35 | both balance invariants together are preserved by an applied request |
| `Transactions.Record` | controller/transactions.js:37-49 | publishing then saving the record: the event is always added, the record is appended and returned iff the save succeeds and the schema admits it, accounts are untouched |
| `Transactions.Post` | controller/transactions.js:12-51 | one request changes no account other than the requested one, adds no account, adds at most one event, and adds a ledger record exactly when it returns that record; the case-by-case meaning is in `PostUnknownAccount`, `PostRefused`, `PostFailureNoTrace`, `PostAccepted`, `LedgerFailureKeepsMutation` and `PostUnknownType` |
| `Transactions.PostTransaction` | controller/transactions.js:12-51 | the handler's in-place run leaves the database and outcome exactly as `Post` specifies and keeps the database invariant |
| `Transactions.PostUnknownAccount` | controller/transactions.js:13-15 | an unknown account id answers not found; accounts, ledger and events are unchanged |
| `Transactions.PostRefused` | controller/transactions.js:27-30 | "Insufficient funds" iff the account exists, the type is OUTBOUND, and no first entry holds enough; a refusal changes no state |
| `Transactions.PostFailureNoTrace` | controller/transactions.js:13-35 | not found, insufficient funds and a failed account save leave accounts, ledger and events unchanged |
| `Transactions.PostAccepted` | controller/transactions.js:37-47 | an accepted request changes only the target account's balance list; it adds one event and one ledger record (the same record), which carries the request's fields and the new amount for the currency |
| `Transactions.LedgerFailureKeepsMutation` | controller/transactions.js:44-49 | when the ledger save fails, the account mutation and the event are exactly those of the successful run, the ledger is unchanged and the caller gets an error |
| `Transactions.PostUnknownType` | controller/transactions.js:17-49 | a type that is neither INBOUND nor OUTBOUND changes no account, still publishes a record without balance, and fails at the ledger |
| `Transactions.PostKeepsInvariants` | controller/transactions.js:17-35 | one request keeps ids indexed and ledger records schema-valid, and keeps every balance list well formed when the amount is non-negative |
| `Transactions.ListTransactions` | controller/transactions.js:54-61 | the listing is `ByAccount(ledger, id)`; the ledger is only read |
| `Transactions.ByAccount` | controller/transactions.js:56 | the filter keeps only records of the account and never more records than the ledger holds; membership both ways is `ByAccountMembers` |
| `Transactions.ByAccountMembers` | controller/transactions.js:56-57 | a record is listed for `id` iff it is in the ledger and its `account` is `id` |
| `Transactions.ByAccountPrefix` | controller/transactions.js:56-57 | appending to the ledger only extends each account's listing |
| `Transactions.ReplayLedger` | controller/transactions.js:44-47 | after any sequence of requests, the ledger is the old ledger followed by exactly one record per accepted request, in order |
| `Transactions.ReplayKeepsConsistent` | controller/transactions.js:17-35 | any sequence of non-negative requests keeps every balance list free of duplicate currencies and negative amounts |
| `Transactions.ListingOnlyGrows` | controller/transactions.js:54-57 | no sequence of requests removes or alters a record an earlier listing returned |
| `Transactions.UsdWalkthrough` | controller/transactions.js:17-47 | INBOUND 100, INBOUND 50, OUTBOUND 200 (refused), OUTBOUND 150 on one account leave `[USD 0]` and three ledger records, the last with balance 0 |
| `Accounts.Create` | controller/accounts.js:20-26 | a create succeeds iff the save does, takes the next id, and leaves ledger and events alone; the stored contents are stated by `CreateStores` |
| `Accounts.Update` | controller/accounts.js:35-39 | not found iff the id is absent, updated iff present and the save succeeds, no change at all otherwise, ledger and events untouched; the replacement is stated by `UpdateReplaces` |
| `Accounts.CreateAccount` | controller/accounts.js:19-30 | the create handler's run matches `Create` and keeps the database invariant |
| `Accounts.UpdateAccount` | controller/accounts.js:33-44 | the update handler's run matches `Update` and keeps the database invariant |
| `Accounts.GetAccount` | controller/accounts.js:46-54 | returns the stored account iff the id is present, not found otherwise; reads only |
| `Accounts.ListAccounts` | controller/accounts.js:9-16 | returns every stored account, each once, in creation order; reads only |
| `Accounts.CreateStores` | controller/accounts.js:20-26 | a successful create stores and returns an account with a new id and exactly the supplied owner and balance list, and changes nothing else; a failed save changes nothing |
| `Accounts.CreateConsistentIff` | controller/accounts.js:20-23 | create stores any balance list: a consistent store stays consistent iff the supplied list is well formed |
| `Accounts.UpdateUnknown` | controller/accounts.js:35-36 | update of an unknown id answers not found and changes nothing |
| `Accounts.UpdateReplaces` | controller/accounts.js:37-40 | update replaces owner and the whole balance list (no merge), keeps the id, and leaves every other account, the ledger and the events unchanged |
| `Accounts.UpdateConsistentIff` | controller/accounts.js:37-38 | update checks nothing: after it, a consistent store is consistent iff the supplied list is well formed |
| `Accounts.UpdateBreaksInvariants` | controller/accounts.js:37-39 | a concrete update stores a duplicate currency and a negative amount into a consistent store |

## Left out

- HTTP routing, status codes, JSON bodies, JWT authentication and role checks, rate limiting and the API documentation are not modelled. Outcomes are datatype alternatives instead of responses.
- MongoDB persistence is reduced to maps and sequences. A save that can fail is a boolean parameter. Schema validation is modelled only where it decides behaviour the handler relies on: the ledger's type enum and its required `balance`. All other schema rejections fall under the save flags.
- Ids are natural numbers handed out in order. A malformed id that makes `findById` throw is treated as an absent id. Failures of `find` and `findById` themselves are not modelled: lookups always answer.
- The ledger record's own `_id` is not modelled. Its `timestamp` is the `now` parameter.
- Event publishing is an append to `events` that never fails toward the caller. The event bus's errors are swallowed by the publisher, and the envelope fields (source, detail type, bus name) are not modelled.
- Amounts are integers in minor units. JavaScript floating-point arithmetic and its rounding are not modelled.
- `amount` is assumed to be a JSON number. The handler never checks its type: a string amount would be concatenated by `+=` on INBOUND with an existing entry and cast on save, but compared and subtracted numerically on OUTBOUND. The model does not represent that.
- Listing order is not promised by the source: `Transaction.find` and `Account.find` run without a sort, and MongoDB guarantees no order then. The model fixes ledger insertion order and id order. The order claims of `ListTransactions`, `ListAccounts`, `ByAccountPrefix` and `ListingOnlyGrows` hold of that order only; `ByAccountMembers` states the listing by membership, which holds under any order.
- Concurrency is not modelled: requests run one at a time. The lost update between two interleaved requests on one account is therefore not represented.
- A failed account save in the transaction handler is an uncaught rejection in the source. It is modelled as the `AccountSaveFailed` outcome with no further effect.
