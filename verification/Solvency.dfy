/** No accepted request, in any run, leaves an account unable to honour what it owes. */
module Solvency {
  import opened Models
  import opened Arithmetic
  import opened PriceRatios
  import opened Liabilities
  import opened Accounts
  import opened Ledgers
  import opened Availability
  import opened Transfers
  import opened Trustlines
  import opened Offers

  function Plus(a: Owed, b: Owed): Owed {
    Owed(a.selling + b.selling, a.buying + b.buying)
  }

  /** All that a set of resting offers owes in one asset. */
  ghost function TotalOwed(offers: map<nat, Offer>, asset: Asset): Owed {
    if offers == map[] then
      Owed(0, 0)
    else
      var id :| id in offers;
      Plus(OwedIn(offers[id], asset), TotalOwed(offers - {id}, asset))
  }

  /** Any offer may be taken out of the sum first. */
  lemma {:induction false} TotalOwedSplit(offers: map<nat, Offer>, asset: Asset, id: nat)
    requires id in offers
    ensures TotalOwed(offers, asset) == Plus(OwedIn(offers[id], asset), TotalOwed(offers - {id}, asset))
  {
    hide OwedIn;
    var first :| first in offers
      && TotalOwed(offers, asset) == Plus(OwedIn(offers[first], asset), TotalOwed(offers - {first}, asset));
    if first != id {
      TotalOwedSplit(offers - {first}, asset, id);
      TotalOwedSplit(offers - {id}, asset, first);
      var rest := offers - {first} - {id};
      assert rest == offers - {id} - {first};
      var a, b, c := OwedIn(offers[first], asset), OwedIn(offers[id], asset), TotalOwed(rest, asset);
      assert Plus(a, Plus(b, c)) == Plus(b, Plus(a, c));
    }
  }

  ghost predicate OfferSound(account: Account, offer: Offer) {
    && offer.selling != offer.buying
    && 0 < OfferOwed(offer).selling && 0 < OfferOwed(offer).buying
    && CanHold(account, offer.selling) && CanHold(account, offer.buying)
  }

  /** A balance entry covers what it owes and has room for what it is owed. */
  predicate BalanceSound(b: Balance) {
    0 <= b.selling <= b.balance && 0 <= b.buying && b.balance + b.buying <= b.limit <= INT64_MAX
  }

  /** The liabilities on every entry are those of the account's own offers. */
  ghost predicate Booked(account: Account) {
    forall x :: x in account.balances ==>
      BookedPair(account.balances[x]) == (TotalOwed(account.offers, x).selling as int, TotalOwed(account.offers, x).buying as int)
  }

  /** Selling and buying liabilities as they stand on an entry. */
  function BookedPair(b: Balance): (int, int) {
    (b.selling, b.buying)
  }

  ghost predicate AccountSolvent(account: Account, baseReserve: nat, nextOffer: nat) {
    && Native in account.balances && account.balances[Native].limit == INT64_MAX
    && MinimumBalance(account, baseReserve) <= account.balances[Native].balance - account.balances[Native].selling
    && (forall x :: x in account.balances ==> BalanceSound(account.balances[x]) && !Issues(account, x))
    && Booked(account)
    && account.subentries == |account.balances| - 1 + |account.offers| + account.otherEntries
    && (forall id :: id in account.offers ==> id < nextOffer && OfferSound(account, account.offers[id]))
  }

  ghost predicate Solvent(ledger: Ledger) {
    forall id :: id in ledger.accounts ==>
      ledger.accounts[id].id == id && AccountSolvent(ledger.accounts[id], ledger.baseReserve, ledger.nextOffer)
  }

  // ---------- sums of liabilities ----------

  predicate Uses(offer: Offer, asset: Asset) {
    offer.selling == asset || offer.buying == asset
  }

  lemma {:induction false} UnusedAssetOwesNothing(offers: map<nat, Offer>, asset: Asset)
    requires forall id :: id in offers ==> !Uses(offers[id], asset)
    ensures TotalOwed(offers, asset) == Owed(0, 0)
  {
    if offers != map[] {
      var id :| id in offers;
      TotalOwedSplit(offers, asset, id);
      UnusedAssetOwesNothing(offers - {id}, asset);
    }
  }

  lemma UsedAssetOwes(offers: map<nat, Offer>, asset: Asset, id: nat)
    requires id in offers && Uses(offers[id], asset)
    requires 0 < OfferOwed(offers[id]).selling && 0 < OfferOwed(offers[id]).buying
    ensures TotalOwed(offers, asset) != Owed(0, 0)
  {
    TotalOwedSplit(offers, asset, id);
  }

  lemma TotalOwedWith(offers: map<nat, Offer>, asset: Asset, id: nat, offer: Offer)
    requires id !in offers
    ensures TotalOwed(offers[id := offer], asset) == Plus(OwedIn(offer, asset), TotalOwed(offers, asset))
  {
    hide OwedIn;
    TotalOwedSplit(offers[id := offer], asset, id);
    assert offers[id := offer] - {id} == offers;
  }

  // ---------- effects on one account keep it solvent ----------

  lemma ReserveGrows(account: Account, few: int, many: int, baseReserve: nat)
    requires few <= many
    ensures ReserveUnits(account, few) * baseReserve <= ReserveUnits(account, many) * baseReserve
    ensures ReserveUnits(account, many) * baseReserve
         <= ReserveUnits(account, few) * baseReserve + (many - few) * baseReserve
  {
    MulMonotone(ReserveUnits(account, few), ReserveUnits(account, many), baseReserve);
    MulMonotone(ReserveUnits(account, many), ReserveUnits(account, few) + (many - few), baseReserve);
  }

  lemma ReserveAfter(a: Account, a': Account, entries: int, r: nat)
    requires a'.subentries == a.subentries + entries
    requires a'.sponsoring == a.sponsoring && a'.sponsored == a.sponsored
    ensures MinimumBalance(a', r) == ReserveUnits(a, entries) * r
    ensures forall extra :: ReserveUnits(a', extra) == ReserveUnits(a, entries + extra)
  {
  }

  /** Offers stay sound as long as the account keeps its identity and the assets it can hold. */
  lemma OffersStaySound(a: Account, a': Account)
    requires a'.id == a.id && a.balances.Keys <= a'.balances.Keys
    ensures forall o: Offer :: OfferSound(a, o) ==> OfferSound(a', o)
  {
    hide OfferOwed;
  }

  /** One entry may change its balance or limit, as long as it stays sound and owes the same. */
  lemma EntryChangeKeeps(a: Account, r: nat, next: nat, x: Asset, b: Balance)
    requires AccountSolvent(a, r, next) && x in a.balances
    requires BalanceSound(b) && BookedPair(b) == BookedPair(a.balances[x])
    requires x.Native? ==> b.limit == INT64_MAX && MinimumBalance(a, r) <= b.balance - b.selling
    ensures AccountSolvent(a.(balances := a.balances[x := b]), r, next)
  {
    hide OfferOwed, OwedIn, TotalOwed, ReserveUnits, MinimumBalance, OfferSound, BalanceSound;
    var a' := a.(balances := a.balances[x := b]);
    ReserveAfter(a, a', 0, r);
    ReserveAfter(a, a, 0, r);
    OffersStaySound(a, a');
    assert a'.balances.Keys == a.balances.Keys;
    assert |a'.balances| == |a.balances|;
  }

  lemma BalanceChangeKeeps(a: Account, r: nat, next: nat, asset: Asset, delta: int)
    requires AccountSolvent(a, r, next) && asset in a.balances
    requires BalanceSound(a.balances[asset].(balance := a.balances[asset].balance + delta))
    requires asset.Native? ==>
      MinimumBalance(a, r) <= a.balances[Native].balance + delta - a.balances[Native].selling
    ensures AccountSolvent(AddToBalance(a, asset, delta), r, next)
  {
    hide OfferOwed, OwedIn, TotalOwed, ReserveUnits, MinimumBalance, OfferSound;
    EntryChangeKeeps(a, r, next, asset, a.balances[asset].(balance := a.balances[asset].balance + delta));
  }

  lemma NewLimitKeeps(a: Account, r: nat, next: nat, asset: Asset, limit: nat, authorized: bool)
    requires AccountSolvent(a, r, next) && asset.Credit? && asset in a.balances
    requires a.balances[asset].balance + a.balances[asset].buying <= limit <= INT64_MAX
    ensures AccountSolvent(SetTrustLine(a, asset, limit, authorized), r, next)
  {
    hide OfferOwed, OwedIn, TotalOwed, ReserveUnits, MinimumBalance, OfferSound;
    EntryChangeKeeps(a, r, next, asset, a.balances[asset].(limit := limit));
  }

  lemma NewLineKeeps(a: Account, r: nat, next: nat, asset: Asset, limit: nat, authorized: bool)
    requires AccountSolvent(a, r, next) && asset.Credit? && !Issues(a, asset) && asset !in a.balances
    requires limit <= INT64_MAX
    requires ReserveUnits(a, 1) * r <= a.balances[Native].balance - a.balances[Native].selling
    ensures AccountSolvent(SetTrustLine(a, asset, limit, authorized), r, next)
  {
    hide OfferOwed, OwedIn, TotalOwed;
    var a' := SetTrustLine(a, asset, limit, authorized);
    forall id | id in a.offers ensures !Uses(a.offers[id], asset) && OfferSound(a', a.offers[id]) {
      assert OfferSound(a, a.offers[id]);
    }
    UnusedAssetOwesNothing(a.offers, asset);
  }

  /** An entry that owes and is owed nothing is in no resting offer. */
  lemma IdleLineUnused(a: Account, r: nat, next: nat, asset: Asset)
    requires AccountSolvent(a, r, next) && asset in a.balances
    requires a.balances[asset].selling == a.balances[asset].buying == 0
    ensures forall id :: id in a.offers ==> !Uses(a.offers[id], asset)
  {
    hide OfferOwed, OwedIn, MinimumBalance;
    assert BookedPair(a.balances[asset]) == (0, 0);
    forall id | id in a.offers ensures !Uses(a.offers[id], asset) {
      assert OfferSound(a, a.offers[id]);
      if Uses(a.offers[id], asset) { UsedAssetOwes(a.offers, asset, id); }
    }
  }

  lemma UnusedStaysSound(a: Account, a': Account, offer: Offer, asset: Asset)
    requires OfferSound(a, offer) && !Uses(offer, asset)
    requires a'.id == a.id && a.balances.Keys - {asset} <= a'.balances.Keys
    ensures OfferSound(a', offer)
  {
    hide OfferOwed;
  }

  lemma RemovedLineKeeps(a: Account, r: nat, next: nat, asset: Asset)
    requires AccountSolvent(a, r, next) && asset.Credit? && asset in a.balances
    requires a.balances[asset].selling == a.balances[asset].buying == 0
    ensures AccountSolvent(RemoveTrustLine(a, asset), r, next)
  {
    hide OfferOwed, OwedIn, ReserveUnits, MinimumBalance, TotalOwed, BalanceSound, OfferSound, Uses;
    var a' := RemoveTrustLine(a, asset);
    ReserveGrows(a, -1, 0, r);
    ReserveAfter(a, a', -1, r);
    ReserveAfter(a, a, 0, r);
    IdleLineUnused(a, r, next, asset);
    forall id | id in a.offers ensures OfferSound(a', a.offers[id]) {
      UnusedStaysSound(a, a', a.offers[id], asset);
    }
    assert |a'.balances| == |a.balances| - 1 by {
      assert a'.balances.Keys == a.balances.Keys - {asset};
    }
  }

  /** What solvency says about one balance entry. */
  lemma SolventEntry(a: Account, r: nat, next: nat, x: Asset)
    requires AccountSolvent(a, r, next) && x in a.balances
    ensures BalanceSound(a.balances[x]) && !Issues(a, x)
    ensures BookedPair(a.balances[x]) == (TotalOwed(a.offers, x).selling as int, TotalOwed(a.offers, x).buying as int)
  {
    hide OfferOwed, OwedIn, ReserveUnits, MinimumBalance, OfferSound, TotalOwed, BalanceSound;
  }

  lemma DroppedEntry(a: Account, r: nat, next: nat, id: nat, x: Asset)
    requires AccountSolvent(a, r, next) && id in a.offers && x in a.balances
    ensures var a' := DropOffer(a, id);
      && BalanceSound(a'.balances[x]) && !Issues(a', x)
      && a'.balances[x].selling <= a.balances[x].selling
      && BookedPair(a'.balances[x]) == (TotalOwed(a'.offers, x).selling as int, TotalOwed(a'.offers, x).buying as int)
  {
    hide OfferOwed, OwedIn, ReserveUnits, MinimumBalance, OfferSound, TotalOwed, AccountSolvent;
    SolventEntry(a, r, next, x);
    TotalOwedSplit(a.offers, x, id);
  }

  lemma DroppedOfferKeeps(a: Account, r: nat, next: nat, id: nat)
    requires AccountSolvent(a, r, next) && id in a.offers
    ensures AccountSolvent(DropOffer(a, id), r, next)
  {
    hide OfferOwed, OwedIn, ReserveUnits, MinimumBalance, TotalOwed;
    var a' := DropOffer(a, id);
    ReserveGrows(a, -1, 0, r);
    ReserveAfter(a, a', -1, r);
    ReserveAfter(a, a, 0, r);
    forall x | x in a'.balances
      ensures BalanceSound(a'.balances[x]) && !Issues(a', x)
      ensures a'.balances[x].selling <= a.balances[x].selling
      ensures BookedPair(a'.balances[x]) == (TotalOwed(a'.offers, x).selling as int, TotalOwed(a'.offers, x).buying as int)
    {
      DroppedEntry(a, r, next, id, x);
    }
    forall other | other in a'.offers ensures OfferSound(a', a'.offers[other]) {
      assert OfferSound(a, a.offers[other]);
    }
    assert |a'.balances| == |a.balances| && |a'.offers| == |a.offers| - 1 by {
      assert a'.balances.Keys == a.balances.Keys;
      assert a'.offers.Keys == a.offers.Keys - {id};
    }
  }

  /** There is room in the account for what one more offer would owe. */
  ghost predicate HasRoomFor(a: Account, r: nat, offer: Offer) {
    && Native in a.balances
    && var o := OfferOwed(offer);
    && (forall x :: x in a.balances ==>
          && OwedIn(offer, x).selling <= a.balances[x].balance - a.balances[x].selling
          && OwedIn(offer, x).buying <= a.balances[x].limit - a.balances[x].balance - a.balances[x].buying)
    && ReserveUnits(a, 1) * r + OwedIn(offer, Native).selling <= a.balances[Native].balance - a.balances[Native].selling
  }

  lemma RestedEntry(a: Account, r: nat, next: nat, id: nat, offer: Offer, x: Asset)
    requires AccountSolvent(a, r, next) && id !in a.offers && offer.amount != 0
    requires HasRoomFor(a, r, offer) && x in a.balances
    ensures var a' := RestOffer(a, id, offer);
      && BalanceSound(a'.balances[x]) && !Issues(a', x)
      && BookedPair(a'.balances[x]) == (TotalOwed(a'.offers, x).selling as int, TotalOwed(a'.offers, x).buying as int)
  {
    hide OfferOwed, OwedIn, ReserveUnits, MinimumBalance, OfferSound, TotalOwed, AccountSolvent;
    SolventEntry(a, r, next, x);
    TotalOwedWith(a.offers, x, id, offer);
  }

  lemma RestedOfferKeeps(a: Account, r: nat, next: nat, id: nat, offer: Offer)
    requires AccountSolvent(a, r, next) && id !in a.offers && id < next
    requires offer.amount != 0 ==> OfferSound(a, offer) && HasRoomFor(a, r, offer)
    ensures AccountSolvent(RestOffer(a, id, offer), r, next)
  {
    hide OfferOwed, OwedIn, ReserveUnits, MinimumBalance, TotalOwed, OfferSound;
    if offer.amount != 0 {
      var a' := RestOffer(a, id, offer);
      ReserveAfter(a, a', 1, r);
      OffersStaySound(a, a');
      forall x | x in a'.balances
        ensures BalanceSound(a'.balances[x]) && !Issues(a', x)
        ensures BookedPair(a'.balances[x]) == (TotalOwed(a'.offers, x).selling as int, TotalOwed(a'.offers, x).buying as int)
      {
        RestedEntry(a, r, next, id, offer, x);
      }
      assert |a'.balances| == |a.balances| by {
        assert a'.balances.Keys == a.balances.Keys;
      }
    }
  }

  // ---------- requests, steps and runs ----------

  /** What a user may ask one of the services to prepare. */
  datatype Request =
    | Pay(destination: string, asset: Asset, amount: int, memo: bool)
    | AddTrust(line: Asset, chosenLimit: Option<int>)
    | LimitTrust(line: Asset, newLimit: int)
    | RemoveTrust(line: Asset)
    | CreateOffer(intent: OfferIntent, allowTrustline: bool)
    | UpdateOffer(offerId: nat, intent: OfferIntent)
    | CancelOffer(offerId: nat, pair: Option<MarketPair>)

  /** A request with the wallet that makes it and the network fee of the moment. */
  datatype Call = Call(source: string, canSign: bool, fee: nat, request: Request)

  function Prepare(ledger: Ledger, call: Call): Result<Transaction> {
    if call.source !in ledger.accounts then
      Failure(NetworkFailure)
    else
      var account := ledger.accounts[call.source];
      var (canSign, fee) := (call.canSign, call.fee);
      match call.request
      case Pay(destination, asset, amount, memo) =>
        PreparePayment(canSign, ledger, account, destination, asset, amount, memo, fee)
      case AddTrust(line, limit) => PrepareAdd(canSign, ledger, account, line, limit, fee)
      case LimitTrust(line, limit) => PrepareLimit(canSign, ledger, account, line, limit, fee)
      case RemoveTrust(line) => PrepareRemove(canSign, ledger, account, line, fee)
      case CreateOffer(intent, allow) => PrepareCreate(canSign, ledger, account, intent, allow, fee)
      case UpdateOffer(id, intent) => PrepareUpdate(canSign, ledger, account, id, intent, fee)
      case CancelOffer(id, pair) => PrepareCancel(canSign, ledger, account, id, pair, fee)
  }

  /** A refused request leaves the ledger alone; an accepted one is signed, submitted and applied. */
  function Step(ledger: Ledger, call: Call): Ledger {
    match Prepare(ledger, call)
    case Success(tx) => Apply(ledger, tx)
    case Failure(_) => ledger
  }

  function Run(ledger: Ledger, calls: seq<Call>): Ledger
    decreases |calls|
  {
    if |calls| == 0 then
      ledger
    else
      hide Step;
      Run(Step(ledger, calls[0]), calls[1..])
  }

  lemma LaterOfferIds(a: Account, r: nat, next: nat, next': nat)
    requires AccountSolvent(a, r, next) && next <= next'
    ensures AccountSolvent(a, r, next')
  {
    hide OfferOwed, OwedIn, ReserveUnits, MinimumBalance, OfferSound;
  }

  lemma PutKeeps(ledger: Ledger, a: Account, next: nat, feePool: int)
    requires Solvent(ledger) && ledger.nextOffer <= next
    requires AccountSolvent(a, ledger.baseReserve, next)
    ensures Solvent(Put(ledger, a).(feePool := feePool, nextOffer := next))
  {
    hide AccountSolvent;
    forall id | id in ledger.accounts
      ensures AccountSolvent(ledger.accounts[id], ledger.baseReserve, next)
    {
      LaterOfferIds(ledger.accounts[id], ledger.baseReserve, ledger.nextOffer, next);
    }
  }

  /** The native balance above liabilities and the reserve for `extra` more entries. */
  function Headroom(a: Account, r: nat, extra: int): int
    requires Native in a.balances
  {
    a.balances[Native].balance - a.balances[Native].selling - ReserveUnits(a, extra) * r
  }

  lemma FeeKeeps(a: Account, r: nat, next: nat, fee: nat)
    requires AccountSolvent(a, r, next) && fee <= Headroom(a, r, 0)
    ensures AccountSolvent(PayFee(a, fee), r, next)
  {
    hide OfferOwed, OwedIn, ReserveUnits, OfferSound, Booked;
    BalanceChangeKeeps(a, r, next, Native, 0 - fee);
  }

  lemma NewAccountSolvent(id: string, starting: nat, r: nat, next: nat)
    requires 2 * r <= starting <= INT64_MAX
    ensures AccountSolvent(NewAccount(id, starting), r, next)
  {
    UnusedAssetOwesNothing(map[], Native);
  }

  /** The paying half of an accepted transfer. */
  lemma PayerKeeps(a: Account, r: nat, next: nat, asset: Asset, amount: nat, fee: nat)
    requires AccountSolvent(a, r, next) && ValidateTransfer(a, asset, amount, r, fee).Success?
    ensures AccountSolvent(AddToBalance(PayFee(a, fee), asset, 0 - amount), r, next)
  {
    hide OfferOwed, OwedIn, ReserveUnits, MinimumBalance, OfferSound, Booked;
    var paid := PayFee(a, fee);
    ReserveAfter(a, a, 0, r);
    ReserveAfter(a, paid, 0, r);
    FeeKeeps(a, r, next, fee);
    if asset in a.balances {
      assert amount <= AvailableForTransfer(a, asset, r, fee);
      BalanceChangeKeeps(paid, r, next, asset, 0 - amount);
    }
  }

  /** The receiving half, also when the receiver has just paid. */
  lemma ReceiverKeeps(a: Account, a': Account, r: nat, next: nat, asset: Asset, amount: nat)
    requires AccountSolvent(a, r, next) && AccountSolvent(a', r, next)
    requires ValidateReceive(a, asset, amount).Success? && a'.id == a.id && a'.balances.Keys == a.balances.Keys
    requires asset in a.balances ==>
      a'.balances[asset].balance <= a.balances[asset].balance
      && a'.balances[asset].(balance := 0) == a.balances[asset].(balance := 0)
    ensures AccountSolvent(AddToBalance(a', asset, amount), r, next)
  {
    hide OfferOwed, OwedIn, ReserveUnits, OfferSound, Booked;
    if asset in a'.balances {
      BalanceChangeKeeps(a', r, next, asset, amount);
    }
  }

  lemma AcceptedAmount(a: Account, asset: Asset, amount: int, r: nat, fee: nat)
    ensures ValidateTransfer(a, asset, amount, r, fee).Success? ==>
      0 < amount && ValidateTransfer(a, asset, amount, r, fee).value == amount
  {
  }

  lemma PayerBalances(a: Account, asset: Asset, amount: nat, fee: nat)
    ensures var a' := AddToBalance(PayFee(a, fee), asset, 0 - amount);
      && a'.id == a.id && a'.balances.Keys == a.balances.Keys
      && (asset in a.balances ==>
            && a'.balances[asset].balance <= a.balances[asset].balance
            && a'.balances[asset].(balance := 0) == a.balances[asset].(balance := 0))
  {
  }

  lemma PaidTransferKeeps(ledger: Ledger, a: Account, to: string, asset: Asset, amount: nat, fee: nat)
    requires Solvent(ledger) && a.id in ledger.accounts && ledger.accounts[a.id] == a && to in ledger.accounts
    requires ValidateTransfer(a, asset, amount, ledger.baseReserve, fee).Success?
    requires ValidateReceive(ledger.accounts[to], asset, amount).Success?
    ensures Solvent(Apply(ledger, Transaction(a.id, fee, Payment(to, asset, amount))))
  {
    hide AccountSolvent, ValidateTransfer, ValidateReceive, Issues;
    var r, next := ledger.baseReserve, ledger.nextOffer;
    PayerKeeps(a, r, next, asset, amount, fee);
    PayerBalances(a, asset, amount, fee);
    var payer := AddToBalance(PayFee(a, fee), asset, 0 - amount);
    var l := Put(ledger, payer).(feePool := ledger.feePool + fee);
    PutKeeps(ledger, payer, next, ledger.feePool + fee);
    hide PayFee;
    ReceiverKeeps(ledger.accounts[to], l.accounts[to], r, next, asset, amount);
    PutKeeps(l, AddToBalance(l.accounts[to], asset, amount), next, l.feePool);
  }

  lemma CreationKeeps(ledger: Ledger, a: Account, to: string, amount: nat, fee: nat)
    requires Solvent(ledger) && a.id in ledger.accounts && ledger.accounts[a.id] == a && to !in ledger.accounts
    requires ValidateTransfer(a, Native, amount, ledger.baseReserve, fee).Success? && 2 * ledger.baseReserve <= amount
    ensures Solvent(Apply(ledger, Transaction(a.id, fee, CreateAccount(to, amount))))
  {
    hide AccountSolvent, ValidateTransfer, Issues;
    var r, next := ledger.baseReserve, ledger.nextOffer;
    PayerKeeps(a, r, next, Native, amount, fee);
    PayerBalances(a, Native, amount, fee);
    CreationInRange(a, r, next, amount, fee);
    NewAccountSolvent(to, amount, r, next);
    var payer := AddToBalance(PayFee(a, fee), Native, 0 - amount);
    var l := Put(ledger, payer).(feePool := ledger.feePool + fee);
    PutKeeps(ledger, payer, next, ledger.feePool + fee);
    PutKeeps(l, NewAccount(to, amount), next, l.feePool);
  }

  lemma TransferKeeps(ledger: Ledger, a: Account, canSign: bool, to: string, asset: Asset, amount: int, memo: bool, fee: nat)
    requires Solvent(ledger) && a.id in ledger.accounts && ledger.accounts[a.id] == a
    requires PreparePayment(canSign, ledger, a, to, asset, amount, memo, fee).Success?
    ensures Solvent(Apply(ledger, PreparePayment(canSign, ledger, a, to, asset, amount, memo, fee).value))
  {
    hide Solvent, Apply, ValidateTransfer, ValidateReceive;
    AcceptedAmount(a, asset, amount, ledger.baseReserve, fee);
    if to in ledger.accounts {
      PaidTransferKeeps(ledger, a, to, asset, amount, fee);
    } else {
      CreationKeeps(ledger, a, to, amount, fee);
    }
  }

  lemma CreationInRange(a: Account, r: nat, next: nat, amount: int, fee: nat)
    requires AccountSolvent(a, r, next) && ValidateTransfer(a, Native, amount, r, fee).Success?
    ensures amount <= INT64_MAX
  {
    hide OfferOwed, OwedIn, ReserveUnits, OfferSound, Booked;
  }

  // ---------- trustlines ----------

  lemma AddedLineKeeps(a: Account, r: nat, next: nat, asset: Asset, limit: nat, authorized: bool, fee: nat)
    requires AccountSolvent(a, r, next) && EnsureNativeCapacity(a, r, fee, r).Success?
    requires asset.Credit? && !Issues(a, asset) && asset !in a.balances && limit <= INT64_MAX
    ensures AccountSolvent(SetTrustLine(PayFee(a, fee), asset, limit, authorized), r, next)
  {
    hide OfferOwed, OwedIn, ReserveUnits, MinimumBalance, OfferSound, Booked, BalanceSound, SetTrustLine;
    var paid := PayFee(a, fee);
    ReserveAfter(a, a, 0, r);
    ReserveAfter(a, paid, 0, r);
    ReserveGrows(a, 0, 1, r);
    FeeKeeps(a, r, next, fee);
    NewLineKeeps(paid, r, next, asset, limit, authorized);
  }

  lemma LimitedLineKeeps(a: Account, r: nat, next: nat, asset: Asset, limit: nat, authorized: bool, fee: nat)
    requires AccountSolvent(a, r, next) && EnsureNativeCapacity(a, r, fee, 0).Success?
    requires asset.Credit? && asset in a.balances
    requires a.balances[asset].balance + a.balances[asset].buying <= limit <= INT64_MAX
    ensures AccountSolvent(SetTrustLine(PayFee(a, fee), asset, limit, authorized), r, next)
  {
    hide OfferOwed, OwedIn, ReserveUnits, MinimumBalance, OfferSound, Booked, BalanceSound, SetTrustLine;
    ReserveAfter(a, a, 0, r);
    FeeKeeps(a, r, next, fee);
    NewLimitKeeps(PayFee(a, fee), r, next, asset, limit, authorized);
  }

  lemma DroppedLineKeeps(a: Account, r: nat, next: nat, asset: Asset, fee: nat)
    requires AccountSolvent(a, r, next) && EnsureNativeCapacity(a, r, fee, 0).Success?
    requires asset.Credit? && asset in a.balances && a.balances[asset].selling == a.balances[asset].buying == 0
    ensures AccountSolvent(RemoveTrustLine(PayFee(a, fee), asset), r, next)
  {
    hide OfferOwed, OwedIn, ReserveUnits, MinimumBalance, OfferSound, Booked, BalanceSound, RemoveTrustLine;
    ReserveAfter(a, a, 0, r);
    FeeKeeps(a, r, next, fee);
    RemovedLineKeeps(PayFee(a, fee), r, next, asset);
  }

  lemma AddTrustKeeps(ledger: Ledger, a: Account, canSign: bool, asset: Asset, limit: Option<int>, fee: nat)
    requires Solvent(ledger) && a.id in ledger.accounts && ledger.accounts[a.id] == a
    requires PrepareAdd(canSign, ledger, a, asset, limit, fee).Success?
    ensures Solvent(Apply(ledger, PrepareAdd(canSign, ledger, a, asset, limit, fee).value))
  {
    hide AccountSolvent, EnsureNativeCapacity;
    var tx := PrepareAdd(canSign, ledger, a, asset, limit, fee).value;
    AddedLineKeeps(a, ledger.baseReserve, ledger.nextOffer, asset, tx.operation.limit, tx.operation.authorized, fee);
    PutKeeps(ledger, SetTrustLine(PayFee(a, fee), asset, tx.operation.limit, tx.operation.authorized),
             ledger.nextOffer, ledger.feePool + fee);
  }

  lemma LimitTrustKeeps(ledger: Ledger, a: Account, canSign: bool, asset: Asset, limit: int, fee: nat)
    requires Solvent(ledger) && a.id in ledger.accounts && ledger.accounts[a.id] == a
    requires PrepareLimit(canSign, ledger, a, asset, limit, fee).Success?
    ensures Solvent(Apply(ledger, PrepareLimit(canSign, ledger, a, asset, limit, fee).value))
  {
    hide AccountSolvent, EnsureNativeCapacity;
    var tx := PrepareLimit(canSign, ledger, a, asset, limit, fee).value;
    LimitedLineKeeps(a, ledger.baseReserve, ledger.nextOffer, asset, tx.operation.limit, tx.operation.authorized, fee);
    PutKeeps(ledger, SetTrustLine(PayFee(a, fee), asset, tx.operation.limit, tx.operation.authorized),
             ledger.nextOffer, ledger.feePool + fee);
  }

  lemma RemoveTrustKeeps(ledger: Ledger, a: Account, canSign: bool, asset: Asset, fee: nat)
    requires Solvent(ledger) && a.id in ledger.accounts && ledger.accounts[a.id] == a
    requires PrepareRemove(canSign, ledger, a, asset, fee).Success?
    ensures Solvent(Apply(ledger, PrepareRemove(canSign, ledger, a, asset, fee).value))
  {
    hide AccountSolvent, EnsureNativeCapacity;
    DroppedLineKeeps(a, ledger.baseReserve, ledger.nextOffer, asset, fee);
    PutKeeps(ledger, RemoveTrustLine(PayFee(a, fee), asset), ledger.nextOffer, ledger.feePool + fee);
  }

  // ---------- offers ----------

  /** The ledger books for a resting offer what the preflight computed for the intent. */
  lemma RestingOwes(intent: OfferIntent)
    requires intent.amount <= INT64_MAX
    ensures OfferOwed(RestingOffer(intent)) == OfferLiabilities(intent.side, intent.amount, intent.price)
    ensures RestingOffer(intent).amount != 0 ==>
      0 < OfferOwed(RestingOffer(intent)).selling && 0 < OfferOwed(RestingOffer(intent)).buying
  {
    hide OfferLiabilities;
    StoredOfferAgrees(intent.side, intent.amount, intent.price);
    NothingForNothing(intent.side, intent.amount, intent.price);
  }

  lemma OwedInOne(offer: Offer, x: Asset)
    ensures OwedIn(offer, x).selling == if offer.selling == x then OfferOwed(offer).selling else 0
    ensures OwedIn(offer, x).buying == if offer.buying == x then OfferOwed(offer).buying else 0
  {
  }

  lemma RoomFor(a: Account, r: nat, next: nat, offer: Offer)
    requires AccountSolvent(a, r, next) && offer.selling != offer.buying
    requires OwedIn(offer, Native).selling <= Headroom(a, r, 1)
    requires offer.selling in a.balances ==>
      OfferOwed(offer).selling <= a.balances[offer.selling].balance - a.balances[offer.selling].selling
    requires offer.buying in a.balances ==>
      OfferOwed(offer).buying
        <= a.balances[offer.buying].limit - a.balances[offer.buying].balance - a.balances[offer.buying].buying
    ensures HasRoomFor(a, r, offer)
  {
    hide OfferOwed, ReserveUnits, MinimumBalance, OfferSound, Booked;
  }

  /** What an accepted new-offer preflight leaves free, stated on the account itself. */
  lemma NewOfferFacts(a: Account, r: nat, next: nat, intent: OfferIntent, fee: nat, entries: nat, adds: bool)
    requires AccountSolvent(a, r, next)
    requires PreflightNewOffer(a, intent, r, fee, entries, adds).Success?
    ensures var o := OfferLiabilities(intent.side, intent.amount, intent.price);
      var selling, buying := SellingAsset(intent), BuyingAsset(intent);
      && fee + (if selling.Native? then o.selling else 0) <= Headroom(a, r, entries)
      && (selling in a.balances ==> o.selling <= a.balances[selling].balance - a.balances[selling].selling)
      && (buying in a.balances ==>
            o.buying <= a.balances[buying].limit - a.balances[buying].balance - a.balances[buying].buying)
      && (buying !in a.balances && !Issues(a, buying) ==> o.buying <= if adds then FRESNICA_TRUSTLINE_LIMIT else 0)
  {
    hide OfferLiabilities, OfferOwed, OwedIn, ReserveUnits, OfferSound, Booked;
    ReserveAfter(a, a, 0, r);
    assert !Issues(a, SellingAsset(intent)) || SellingAsset(intent) !in a.balances;
    assert BalanceSound(a.balances[Native]);
    if BuyingAsset(intent) in a.balances { assert BalanceSound(a.balances[BuyingAsset(intent)]); }
    if SellingAsset(intent) in a.balances { assert BalanceSound(a.balances[SellingAsset(intent)]); }
  }

  /** The account the offer is put on: fee paid and, where needed, the new trustline opened. */
  function Holder(a: Account, buying: Asset, fee: nat, adds: bool): Account {
    if adds then SetTrustLine(PayFee(a, fee), buying, FRESNICA_TRUSTLINE_LIMIT, true) else PayFee(a, fee)
  }

  lemma HolderKeeps(a: Account, r: nat, next: nat, buying: Asset, fee: nat, adds: bool)
    requires AccountSolvent(a, r, next) && adds == !CanHold(a, buying)
    requires fee <= Headroom(a, r, if adds then 2 else 1)
    ensures var holder := Holder(a, buying, fee, adds);
      && AccountSolvent(holder, r, next)
      && Headroom(holder, r, 1) == Headroom(a, r, if adds then 2 else 1) - fee
  {
    hide OfferLiabilities, OfferOwed, OwedIn, ReserveUnits, MinimumBalance, Booked, OfferSound;
    ReserveAfter(a, a, 0, r);
    ReserveGrows(a, 0, 1, r);
    ReserveGrows(a, 1, 2, r);
    var paid := PayFee(a, fee);
    FeeKeeps(a, r, next, fee);
    ReserveAfter(a, paid, 0, r);
    if adds {
      NewLineKeeps(paid, r, next, buying, FRESNICA_TRUSTLINE_LIMIT, true);
      ReserveAfter(paid, Holder(a, buying, fee, adds), 1, r);
    }
  }

  lemma PlacedOfferHasRoom(a: Account, r: nat, next: nat, intent: OfferIntent, fee: nat, adds: bool)
    requires AccountSolvent(a, r, next)
    requires WellFormed(intent) && adds == !CanHold(a, BuyingAsset(intent))
    requires PreflightNewOffer(a, intent, r, fee, if adds then 2 else 1, adds).Success?
    ensures var holder := Holder(a, BuyingAsset(intent), fee, adds);
      HasRoomFor(holder, r, RestingOffer(intent)) && AccountSolvent(holder, r, next)
  {
    hide OfferLiabilities, OfferOwed, OwedIn, ReserveUnits, MinimumBalance, Booked, PreflightNewOffer, AccountSolvent, HasRoomFor;
    var buying, offer := BuyingAsset(intent), RestingOffer(intent);
    NewOfferFacts(a, r, next, intent, fee, if adds then 2 else 1, adds);
    RestingOwes(intent);
    HolderKeeps(a, r, next, buying, fee, adds);
    OwedInOne(offer, Native);
    RoomFor(Holder(a, buying, fee, adds), r, next, offer);
  }

  lemma PlacedOfferKeeps(a: Account, r: nat, next: nat, intent: OfferIntent, fee: nat, adds: bool)
    requires AccountSolvent(a, r, next)
    requires WellFormed(intent) && adds == !CanHold(a, BuyingAsset(intent))
    requires CanHold(a, SellingAsset(intent))
    requires PreflightNewOffer(a, intent, r, fee, if adds then 2 else 1, adds).Success?
    ensures AccountSolvent(
      ApplyToSource(PayFee(a, fee), PlaceOffer(intent, if adds then Some(FRESNICA_TRUSTLINE_LIMIT) else None), next), r, next + 1)
  {
    hide OfferLiabilities, OfferOwed, OwedIn, ReserveUnits, MinimumBalance, Booked, PreflightNewOffer;
    var buying, offer := BuyingAsset(intent), RestingOffer(intent);
    var holder := Holder(a, buying, fee, adds);
    assert HasRoomFor(holder, r, offer) && AccountSolvent(holder, r, next) by {
      PlacedOfferHasRoom(a, r, next, intent, fee, adds);
    }
    RestingOwes(intent);
    LaterOfferIds(holder, r, next, next + 1);
    hide AccountSolvent, HasRoomFor;
    RestedOfferKeeps(holder, r, next + 1, next, offer);
  }

  lemma CreateOfferKeeps(ledger: Ledger, a: Account, canSign: bool, intent: OfferIntent, allow: bool, fee: nat)
    requires Solvent(ledger) && a.id in ledger.accounts && ledger.accounts[a.id] == a
    requires PrepareCreate(canSign, ledger, a, intent, allow, fee).Success?
    ensures Solvent(Apply(ledger, PrepareCreate(canSign, ledger, a, intent, allow, fee).value))
  {
    hide OfferLiabilities, OfferOwed, OwedIn, ReserveUnits, MinimumBalance, Booked, PreflightNewOffer, AccountSolvent;
    var tx := PrepareCreate(canSign, ledger, a, intent, allow, fee).value;
    PlacedOfferKeeps(a, ledger.baseReserve, ledger.nextOffer, intent, tx.fee, !CanHold(a, BuyingAsset(intent)));
    PutKeeps(ledger, ApplyToSource(PayFee(a, tx.fee), tx.operation, ledger.nextOffer), ledger.nextOffer + 1, ledger.feePool + tx.fee);
  }

  /** What an accepted update preflight leaves free once the old offer is released. */
  lemma UpdateFacts(a: Account, r: nat, next: nat, intent: OfferIntent, stored: Offer, fee: nat)
    requires AccountSolvent(a, r, next)
    requires PreflightUpdateOffer(a, intent, stored, r, fee).Success?
    ensures var o := OfferLiabilities(intent.side, intent.amount, intent.price);
      var released := OfferOwed(stored);
      var selling, buying := SellingAsset(intent), BuyingAsset(intent);
      && fee <= Headroom(a, r, 0)
      && (selling.Native? ==> fee + o.selling - released.selling <= Headroom(a, r, 0))
      && (selling in a.balances ==>
            o.selling - released.selling <= a.balances[selling].balance - a.balances[selling].selling)
      && (buying in a.balances ==>
            o.buying - released.buying <= a.balances[buying].limit - a.balances[buying].balance - a.balances[buying].buying)
  {
    hide OfferLiabilities, OfferOwed, OwedIn, ReserveUnits, OfferSound, Booked;
    ReserveAfter(a, a, 0, r);
    assert BalanceSound(a.balances[Native]);
    if BuyingAsset(intent) in a.balances { assert BalanceSound(a.balances[BuyingAsset(intent)]); }
    if SellingAsset(intent) in a.balances { assert BalanceSound(a.balances[SellingAsset(intent)]); }
  }

  /** The account between the two halves of an update: fee paid, the stored offer released. */
  function Released(a: Account, id: nat, fee: nat): Account
    requires id in a.offers
  {
    DropOffer(PayFee(a, fee), id)
  }

  lemma ReleasedKeeps(a: Account, r: nat, next: nat, id: nat, fee: nat)
    requires AccountSolvent(a, r, next) && id in a.offers && fee <= Headroom(a, r, 0)
    ensures var d := Released(a, id, fee);
      && AccountSolvent(d, r, next) && d.balances.Keys == a.balances.Keys && d.id == a.id
      && d.offers == a.offers - {id}
      && Headroom(d, r, 1) == Headroom(a, r, 0) - fee + OwedIn(a.offers[id], Native).selling
  {
    hide OfferOwed, OwedIn, ReserveUnits, MinimumBalance, Booked, OfferSound;
    ReserveAfter(a, a, 0, r);
    var paid := PayFee(a, fee);
    FeeKeeps(a, r, next, fee);
    ReserveAfter(a, paid, 0, r);
    DroppedOfferKeeps(paid, r, next, id);
    ReserveAfter(paid, Released(a, id, fee), -1, r);
  }

  lemma ReleasedEntry(a: Account, id: nat, fee: nat, x: Asset)
    requires id in a.offers && x in a.balances
    ensures var b, d := a.balances[x], Released(a, id, fee).balances[x];
      && d.selling == b.selling - OwedIn(a.offers[id], x).selling
      && d.buying == b.buying - OwedIn(a.offers[id], x).buying
      && d.limit == b.limit && d.balance == b.balance - if x.Native? then fee else 0
  {
    hide OfferOwed, OwedIn;
  }

  lemma RoomAfterRelease(a: Account, r: nat, next: nat, id: nat, intent: OfferIntent, fee: nat)
    requires AccountSolvent(a, r, next) && id in a.offers
    requires WellFormed(intent) && ViewSide(a.offers[id], intent.pair) == Some(intent.side)
    requires PreflightUpdateOffer(a, intent, a.offers[id], r, fee).Success?
    ensures HasRoomFor(Released(a, id, fee), r, RestingOffer(intent))
    ensures AccountSolvent(Released(a, id, fee), r, next)
  {
    hide OfferLiabilities, OfferOwed, OwedIn, ReserveUnits, MinimumBalance, PreflightUpdateOffer, AccountSolvent, HasRoomFor;
    var stored, offer := a.offers[id], RestingOffer(intent);
    UpdateFacts(a, r, next, intent, stored, fee);
    RestingOwes(intent);
    ReleasedKeeps(a, r, next, id, fee);
    OwedInOne(stored, stored.selling);
    OwedInOne(stored, stored.buying);
    OwedInOne(stored, Native);
    OwedInOne(offer, Native);
    assert offer.selling == stored.selling && offer.buying == stored.buying;
    if offer.selling in a.balances { ReleasedEntry(a, id, fee, offer.selling); }
    if offer.buying in a.balances { ReleasedEntry(a, id, fee, offer.buying); }
    hide DropOffer;
    RoomFor(Released(a, id, fee), r, next, offer);
  }

  lemma ReplacedOfferKeeps(a: Account, r: nat, next: nat, id: nat, intent: OfferIntent, fee: nat)
    requires AccountSolvent(a, r, next) && id in a.offers
    requires WellFormed(intent) && ViewSide(a.offers[id], intent.pair) == Some(intent.side)
    requires PreflightUpdateOffer(a, intent, a.offers[id], r, fee).Success?
    ensures AccountSolvent(ApplyToSource(PayFee(a, fee), ReplaceOffer(id, intent), next), r, next)
  {
    hide OfferLiabilities, OfferOwed, OwedIn, ReserveUnits, MinimumBalance, Booked, PreflightUpdateOffer, HasRoomFor;
    RoomAfterRelease(a, r, next, id, intent, fee);
    ReplacementSound(a, r, next, id, intent, fee);
    hide AccountSolvent, OfferSound, DropOffer, RestOffer, RestingOffer, PayFee;
    RestedOfferKeeps(Released(a, id, fee), r, next, id, RestingOffer(intent));
  }

  lemma ReplacementSound(a: Account, r: nat, next: nat, id: nat, intent: OfferIntent, fee: nat)
    requires AccountSolvent(a, r, next) && id in a.offers
    requires WellFormed(intent) && ViewSide(a.offers[id], intent.pair) == Some(intent.side)
    ensures id < next && id !in Released(a, id, fee).offers
    ensures RestingOffer(intent).amount != 0 ==> OfferSound(Released(a, id, fee), RestingOffer(intent))
  {
    hide OfferLiabilities, OfferOwed, OwedIn, ReserveUnits, MinimumBalance, Booked, BalanceSound;
    RestingOwes(intent);
    assert OfferSound(a, a.offers[id]);
  }

  lemma UpdateOfferKeeps(ledger: Ledger, a: Account, canSign: bool, id: nat, intent: OfferIntent, fee: nat)
    requires Solvent(ledger) && a.id in ledger.accounts && ledger.accounts[a.id] == a
    requires PrepareUpdate(canSign, ledger, a, id, intent, fee).Success?
    ensures Solvent(Apply(ledger, PrepareUpdate(canSign, ledger, a, id, intent, fee).value))
  {
    hide OfferLiabilities, OfferOwed, OwedIn, ReserveUnits, MinimumBalance, Booked, PreflightUpdateOffer, AccountSolvent;
    ReplacedOfferKeeps(a, ledger.baseReserve, ledger.nextOffer, id, intent, fee);
    PutKeeps(ledger, ApplyToSource(PayFee(a, fee), ReplaceOffer(id, intent), ledger.nextOffer), ledger.nextOffer, ledger.feePool + fee);
  }

  lemma FeeCovered(a: Account, r: nat, next: nat, fee: nat)
    requires AccountSolvent(a, r, next)
    ensures EnsureOfferFeeCapacity(a, r, fee).Success? <==> fee <= Headroom(a, r, 0)
  {
    hide OfferOwed, OwedIn, ReserveUnits, Booked, OfferSound;
    assert BalanceSound(a.balances[Native]);
    ReserveAfter(a, a, 0, r);
  }

  lemma CancelOfferKeeps(ledger: Ledger, a: Account, canSign: bool, id: nat, pair: Option<MarketPair>, fee: nat)
    requires Solvent(ledger) && a.id in ledger.accounts && ledger.accounts[a.id] == a
    requires PrepareCancel(canSign, ledger, a, id, pair, fee).Success?
    ensures Solvent(Apply(ledger, PrepareCancel(canSign, ledger, a, id, pair, fee).value))
  {
    hide AccountSolvent, EnsureOfferFeeCapacity, DropOffer;
    var r, next := ledger.baseReserve, ledger.nextOffer;
    FeeCovered(a, r, next, fee);
    assert AccountSolvent(a, r, next);
    ReleasedKeeps(a, r, next, id, fee);
    PutKeeps(ledger, Released(a, id, fee), next, ledger.feePool + fee);
  }

  /** One step: whatever is asked, the ledger stays solvent. */
  lemma StepKeepsSolvent(ledger: Ledger, call: Call)
    requires Solvent(ledger)
    ensures Solvent(Step(ledger, call))
  {
    hide AccountSolvent, PreparePayment, PrepareAdd, PrepareLimit, PrepareRemove, PrepareCreate, PrepareUpdate, PrepareCancel, Apply;
    if Prepare(ledger, call).Success? {
      var a := ledger.accounts[call.source];
      match call.request
      case Pay(to, asset, amount, memo) => TransferKeeps(ledger, a, call.canSign, to, asset, amount, memo, call.fee);
      case AddTrust(line, limit) => AddTrustKeeps(ledger, a, call.canSign, line, limit, call.fee);
      case LimitTrust(line, limit) => LimitTrustKeeps(ledger, a, call.canSign, line, limit, call.fee);
      case RemoveTrust(line) => RemoveTrustKeeps(ledger, a, call.canSign, line, call.fee);
      case CreateOffer(intent, allow) => CreateOfferKeeps(ledger, a, call.canSign, intent, allow, call.fee);
      case UpdateOffer(id, intent) => UpdateOfferKeeps(ledger, a, call.canSign, id, intent, call.fee);
      case CancelOffer(id, pair) => CancelOfferKeeps(ledger, a, call.canSign, id, pair, call.fee);
    }
  }

  /** Every run of payments, trustline changes and offers, accepted or refused, stays solvent. */
  lemma {:induction false} RunKeepsSolvent(ledger: Ledger, calls: seq<Call>)
    requires Solvent(ledger)
    ensures Solvent(Run(ledger, calls))
    decreases |calls|
  {
    hide Solvent, Step;
    if |calls| != 0 {
      StepKeepsSolvent(ledger, calls[0]);
      RunKeepsSolvent(Step(ledger, calls[0]), calls[1..]);
    }
  }
}
