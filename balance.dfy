/**
 The effect of one transaction request on an account's balance list: the
 linear search for the currency's entry and the INBOUND / OUTBOUND branches
 of the transaction handler, on values.
 */
module Balance {
  import opened Models

  /** `k` is the entry the handler's `find` selects for `currency`: the first one. */
  predicate IsFirst(bal: seq<Entry>, currency: string, k: nat)
  {
    k < |bal| && bal[k].currency == currency
    && forall j :: 0 <= j < k ==> bal[j].currency != currency
  }

  /** The position of the first entry for `currency`, or `None` when there is none. */
  function FirstIndex(bal: seq<Entry>, currency: string): (r: Option<nat>)
    ensures r.Some? ==> IsFirst(bal, currency, r.value)
    ensures r.None? ==> forall j :: 0 <= j < |bal| ==> bal[j].currency != currency
  {
    if bal == [] then None
    else if bal[0].currency == currency then Some(0)
    else match FirstIndex(bal[1..], currency)
      case None => None
      case Some(k) => Some(k + 1)
  }

  /** The first entry for a currency is unique. */
  lemma FirstIsUnique(bal: seq<Entry>, currency: string, k: nat, m: nat)
    requires IsFirst(bal, currency, k) && IsFirst(bal, currency, m)
    ensures k == m
  {
  }

  /** The scan the handler performs with `account.balance.find(...)`. */
  method FindCurrency(bal: seq<Entry>, currency: string) returns (r: Option<nat>)
    ensures r == FirstIndex(bal, currency)
  {
    var i := 0;
    while i < |bal|
      invariant 0 <= i <= |bal|
      invariant forall j :: 0 <= j < i ==> bal[j].currency != currency
    {
      if bal[i].currency == currency {
        FirstIsUnique(bal, currency, i, FirstIndex(bal, currency).value);
        return Some(i);
      }
      i := i + 1;
    }
    return None;
  }

  /**
   What a request does to a balance list: `Applied` with the new list and the
   resulting amount for the currency, `Insufficient` for a refused OUTBOUND,
   `Untouched` for a type that is neither INBOUND nor OUTBOUND.
   */
  datatype Effect = Applied(balance: seq<Entry>, resulting: int) | Insufficient | Untouched

  function Apply(bal: seq<Entry>, txType: TxType, amount: int, currency: string): (r: Effect)
    ensures r.Untouched? <==> txType.Other?
    ensures r.Insufficient? ==> txType == Outbound
    ensures r.Applied? ==> |r.balance| == |bal| || r.balance == bal + [Entry(amount, currency)]
    ensures r.Applied? && txType == Outbound ==> |r.balance| == |bal|
  {
    match txType
    case Inbound =>
      (match FirstIndex(bal, currency)
       case None => Applied(bal + [Entry(amount, currency)], amount)
       case Some(k) =>
         var e := bal[k].(amount := bal[k].amount + amount);
         Applied(bal[k := e], e.amount))
    case Outbound =>
      (match FirstIndex(bal, currency)
       case None => Insufficient
       case Some(k) =>
         if bal[k].amount < amount then Insufficient
         else
           var e := bal[k].(amount := bal[k].amount - amount);
           Applied(bal[k := e], e.amount))
    case Other(_) => Untouched
  }

  /** INBOUND on an existing currency adds to the first entry for it and to nothing else. */
  lemma InboundExisting(bal: seq<Entry>, amount: int, currency: string, k: nat)
    requires IsFirst(bal, currency, k)
    ensures var r := Apply(bal, Inbound, amount, currency);
      && r.Applied?
      && |r.balance| == |bal|
      && r.balance[k] == Entry(bal[k].amount + amount, currency)
      && r.resulting == bal[k].amount + amount
      && forall j :: 0 <= j < |bal| && j != k ==> r.balance[j] == bal[j]
  {
    FirstIsUnique(bal, currency, k, FirstIndex(bal, currency).value);
  }

  /** INBOUND on a new currency appends exactly one entry holding the request amount. */
  lemma InboundNew(bal: seq<Entry>, amount: int, currency: string)
    requires forall j :: 0 <= j < |bal| ==> bal[j].currency != currency
    ensures Apply(bal, Inbound, amount, currency) == Applied(bal + [Entry(amount, currency)], amount)
    ensures UniqueCurrencies(bal) ==> UniqueCurrencies(bal + [Entry(amount, currency)])
  {
  }

  /**
   OUTBOUND is refused exactly when there is no entry for the currency or the
   first entry holds less than the request; it never leaves the list untouched.
   */
  lemma OutboundGuard(bal: seq<Entry>, amount: int, currency: string)
    ensures !Apply(bal, Outbound, amount, currency).Untouched?
    ensures Apply(bal, Outbound, amount, currency).Insufficient?
        <==> forall k: nat :: IsFirst(bal, currency, k) ==> bal[k].amount < amount
  {
    match FirstIndex(bal, currency)
    case None =>
    case Some(m) =>
      forall k | IsFirst(bal, currency, k) ensures k == m {
        FirstIsUnique(bal, currency, k, m);
      }
  }

  /**
   An accepted OUTBOUND subtracts from the first entry only; an entry brought
   to zero stays in the list.
   */
  lemma OutboundAccepted(bal: seq<Entry>, amount: int, currency: string, k: nat)
    requires IsFirst(bal, currency, k) && bal[k].amount >= amount
    ensures var r := Apply(bal, Outbound, amount, currency);
      && r.Applied?
      && |r.balance| == |bal|
      && r.balance[k] == Entry(bal[k].amount - amount, currency)
      && r.resulting == bal[k].amount - amount
      && forall j :: 0 <= j < |bal| && j != k ==> r.balance[j] == bal[j]
  {
    FirstIsUnique(bal, currency, k, FirstIndex(bal, currency).value);
  }

  /** The recorded balance is the amount the new list holds for the currency. */
  lemma ResultingMatchesEntry(bal: seq<Entry>, txType: TxType, amount: int, currency: string)
    requires Apply(bal, txType, amount, currency).Applied?
    ensures var r := Apply(bal, txType, amount, currency);
      FirstIndex(r.balance, currency).Some?
      && r.balance[FirstIndex(r.balance, currency).value].amount == r.resulting
  {
    var r := Apply(bal, txType, amount, currency);
    var k := match FirstIndex(bal, currency) case Some(k) => k case None => |bal|;
    assert IsFirst(r.balance, currency, k);
    FirstIsUnique(r.balance, currency, k, FirstIndex(r.balance, currency).value);
  }

  /** With non-negative entries and a non-negative request, an applied request leaves every entry non-negative. */
  lemma ApplyKeepsNonNegative(bal: seq<Entry>, txType: TxType, amount: int, currency: string)
    requires NonNegative(bal) && amount >= 0
    requires Apply(bal, txType, amount, currency).Applied?
    ensures NonNegative(Apply(bal, txType, amount, currency).balance)
    ensures Apply(bal, txType, amount, currency).resulting >= 0
  {
  }

  /** An applied request never introduces a second entry for a currency. */
  lemma ApplyKeepsUniqueCurrencies(bal: seq<Entry>, txType: TxType, amount: int, currency: string)
    requires UniqueCurrencies(bal)
    requires Apply(bal, txType, amount, currency).Applied?
    ensures UniqueCurrencies(Apply(bal, txType, amount, currency).balance)
  {
  }

  /** Both invariants together: the transaction path keeps a well-formed list well-formed. */
  lemma ApplyKeepsWellFormed(bal: seq<Entry>, txType: TxType, amount: int, currency: string)
    requires WellFormed(bal) && amount >= 0
    ensures var r := Apply(bal, txType, amount, currency);
      r.Applied? ==> WellFormed(r.balance) && r.resulting >= 0
  {
    if Apply(bal, txType, amount, currency).Applied? {
      ApplyKeepsNonNegative(bal, txType, amount, currency);
      ApplyKeepsUniqueCurrencies(bal, txType, amount, currency);
    }
  }
}
