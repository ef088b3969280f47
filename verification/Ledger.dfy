/** The ledger, the transactions the services build for it, and what each of them does to it. */
module Ledgers {
  import opened Models
  import opened Arithmetic
  import opened PriceRatios
  import opened Liabilities
  import opened Accounts

  /** An offer the user asks for: amounts in base units, the price counter per base. */
  datatype OfferIntent = OfferIntent(pair: MarketPair, side: Side, amount: nat, price: PriceRatio)

  function SellingAsset(intent: OfferIntent): Asset {
    if intent.side.Buy? then intent.pair.counter else intent.pair.base
  }

  function BuyingAsset(intent: OfferIntent): Asset {
    if intent.side.Buy? then intent.pair.base else intent.pair.counter
  }

  /** A built transaction; `limit` 0 removes a trustline. */
  datatype Operation =
    | Payment(destination: string, asset: Asset, amount: nat)
    | CreateAccount(destination: string, starting: nat)
    | ChangeTrust(line: Asset, limit: nat, authorized: bool)
    | PlaceOffer(intent: OfferIntent, trustline: Option<nat>)
    | ReplaceOffer(offerId: nat, intent: OfferIntent)
    | RemoveOffer(offerId: nat)

  datatype Transaction = Transaction(source: string, fee: nat, operation: Operation)

  datatype Ledger = Ledger(accounts: map<string, Account>, baseReserve: nat, feePool: int, nextOffer: nat)

  // ---------- effects on one account ----------

  function AddToBalance(account: Account, asset: Asset, delta: int): Account {
    if asset !in account.balances then
      account
    else
      var b := account.balances[asset];
      account.(balances := account.balances[asset := b.(balance := b.balance + delta)])
  }

  function PayFee(account: Account, fee: nat): Account {
    AddToBalance(account, Native, 0 - fee)
  }

  function SetTrustLine(account: Account, asset: Asset, limit: nat, authorized: bool): Account {
    if asset in account.balances then
      account.(balances := account.balances[asset := account.balances[asset].(limit := limit)])
    else
      account.(balances := account.balances[asset := Balance(0, 0, 0, limit, authorized)],
               subentries := account.subentries + 1)
  }

  function RemoveTrustLine(account: Account, asset: Asset): Account {
    account.(balances := account.balances - {asset}, subentries := account.subentries - 1)
  }

  /** The part of an offer's liabilities that falls on one asset. */
  function OwedIn(offer: Offer, asset: Asset): Owed {
    var o := OfferOwed(offer);
    Owed(if offer.selling == asset then o.selling else 0, if offer.buying == asset then o.buying else 0)
  }

  /** Liabilities booked on every balance entry, `sign` +1 to take them on and -1 to release them. */
  function Book(balances: map<Asset, Balance>, offer: Offer, sign: int): map<Asset, Balance> {
    map x | x in balances :: balances[x].(
      selling := balances[x].selling + sign * OwedIn(offer, x).selling,
      buying := balances[x].buying + sign * OwedIn(offer, x).buying)
  }

  function DropOffer(account: Account, id: nat): Account
    requires id in account.offers
  {
    account.(
      balances := Book(account.balances, account.offers[id], -1),
      offers := account.offers - {id},
      subentries := account.subentries - 1)
  }

  /** An offer that would sell nothing does not rest. */
  function RestOffer(account: Account, id: nat, offer: Offer): Account {
    if offer.amount == 0 then
      account
    else
      account.(
        balances := Book(account.balances, offer, 1),
        offers := account.offers[id := offer],
        subentries := account.subentries + 1)
  }

  /** The offer the ledger rests for an intent that crosses nothing. */
  function RestingOffer(intent: OfferIntent): Offer {
    Offer(
      SellingAsset(intent),
      BuyingAsset(intent),
      OfferLiabilities(intent.side, intent.amount, intent.price).selling,
      StoredPrice(intent.side, intent.price))
  }

  // ---------- effects on the ledger ----------

  function Put(ledger: Ledger, account: Account): Ledger {
    ledger.(accounts := ledger.accounts[account.id := account])
  }

  function Credited(ledger: Ledger, destination: string, asset: Asset, amount: nat): Ledger {
    if destination in ledger.accounts then
      Put(ledger, AddToBalance(ledger.accounts[destination], asset, amount))
    else
      ledger
  }

  function NewAccount(id: string, starting: nat): Account {
    Account(id, map[Native := Balance(starting, 0, 0, INT64_MAX, true)], map[], 0, 0, 0, 0, false, false)
  }

  function ApplyToSource(account: Account, operation: Operation, nextOffer: nat): Account {
    match operation
    case Payment(_, asset, amount) => AddToBalance(account, asset, 0 - amount)
    case CreateAccount(_, starting) => AddToBalance(account, Native, 0 - starting)
    case ChangeTrust(asset, limit, authorized) =>
      if limit == 0 then RemoveTrustLine(account, asset) else SetTrustLine(account, asset, limit, authorized)
    case PlaceOffer(intent, trustline) =>
      var holder := if trustline.Some? then SetTrustLine(account, BuyingAsset(intent), trustline.value, true) else account;
      RestOffer(holder, nextOffer, RestingOffer(intent))
    case ReplaceOffer(id, intent) =>
      if id !in account.offers then account
      else RestOffer(DropOffer(account, id), id, RestingOffer(intent))
    case RemoveOffer(id) =>
      if id !in account.offers then account else DropOffer(account, id)
  }

  /** What the ledger does with a transaction it accepts. */
  function Apply(ledger: Ledger, tx: Transaction): Ledger {
    if tx.source !in ledger.accounts then
      ledger
    else
      var payer := PayFee(ledger.accounts[tx.source], tx.fee);
      var source := ApplyToSource(payer, tx.operation, ledger.nextOffer);
      var l := Put(ledger, source).(feePool := ledger.feePool + tx.fee);
      match tx.operation
      case Payment(destination, asset, amount) => Credited(l, destination, asset, amount)
      case CreateAccount(destination, starting) =>
        if destination in ledger.accounts then l else Put(l, NewAccount(destination, starting))
      case PlaceOffer(_, _) => l.(nextOffer := ledger.nextOffer + 1)
      case _ => l
  }
}
