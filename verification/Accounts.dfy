/** An account as Horizon reports it, in stroops, with the offers it has resting on the ledger. */
module Accounts {
  import opened Models
  import opened Arithmetic
  import opened PriceRatios
  import opened Liabilities

  /** One balance entry; the native entry has the largest int64 as its limit. */
  datatype Balance = Balance(balance: int, selling: int, buying: int, limit: int, authorized: bool)

  /** An offer as the ledger stores it: always a sell of `amount` at `price` buying per selling. */
  datatype Offer = Offer(selling: Asset, buying: Asset, amount: nat, price: PriceRatio)

  datatype Account = Account(
    id: string,
    balances: map<Asset, Balance>,
    offers: map<nat, Offer>,
    subentries: int,
    otherEntries: nat,
    sponsoring: nat,
    sponsored: nat,
    authRequired: bool,
    memoRequired: bool)

  predicate Issues(account: Account, asset: Asset) {
    asset.Credit? && asset.issuer == account.id
  }

  function FindBalance(account: Account, asset: Asset): Option<Balance> {
    if asset in account.balances then Some(account.balances[asset]) else None
  }

  /** `_account_can_hold`: native, its own asset, or an asset it has a trustline for. */
  predicate CanHold(account: Account, asset: Asset) {
    asset.Native? || Issues(account, asset) || asset in account.balances
  }

  /** The ledger entries an account has to hold a reserve for. */
  function ReserveUnits(account: Account, extraSubentries: int): nat {
    Max(2 + account.subentries + account.sponsoring - account.sponsored + extraSubentries, 0)
  }

  /** A balance carries the reserve when it pays for every entry the account has or sponsors, with the sponsored ones taken off. */
  lemma ReserveMeaning(account: Account, extraSubentries: int, baseReserve: nat, free: nat)
    ensures ReserveUnits(account, extraSubentries) * baseReserve <= free <==>
      (2 + account.subentries + extraSubentries + account.sponsoring) * baseReserve <= free + account.sponsored * baseReserve
  {
    var units := 2 + account.subentries + extraSubentries + account.sponsoring - account.sponsored;
    if units <= 0 { MulMonotone(units, 0, baseReserve); }
    assert (units + account.sponsored) * baseReserve == units * baseReserve + account.sponsored * baseReserve;
  }

  function MinimumBalance(account: Account, baseReserve: nat): nat {
    ReserveUnits(account, 0) * baseReserve
  }

  /** `_available_balance_stroops`. */
  function AvailableBalance(raw: Option<Balance>): nat {
    match raw
    case None => 0
    case Some(b) => Max(b.balance - b.selling, 0)
  }

  /** What a stored offer owes, as the ledger counts it. */
  function OfferOwed(offer: Offer): Owed {
    OfferLiabilities(Sell, offer.amount, offer.price)
  }
}
