/**
 * The preflights refuse nothing they could accept: past the checks that are not about money,
 * a request is accepted exactly when the ledger it leads to is still solvent.
 */
module Exactness {
  import opened Models
  import opened Arithmetic
  import opened PriceRatios
  import opened Liabilities
  import opened Accounts
  import opened Availability
  import opened Ledgers
  import opened Transfers
  import opened Trustlines
  import opened OfferLaws
  import opened Offers
  import opened Solvency

  /** The account issues the asset, or holds it with full authorization. */
  predicate MayMove(a: Account, asset: Asset) {
    asset.Native? || asset.issuer == a.id || (asset in a.balances && a.balances[asset].authorized)
  }

  /** Buying the asset would take a trustline the account does not have. */
  predicate NeedsLine(a: Account, asset: Asset) {
    asset.Credit? && asset.issuer != a.id && asset !in a.balances
  }

  /** Sponsors never carry more entries than the account has. */
  predicate SponsorshipSound(a: Account) {
    a.sponsored <= 2 + a.subentries + a.sponsoring
  }

  /** An accepted request builds this transaction. */
  predicate Builds(r: Result<Transaction>, tx: Transaction) {
    r.Success? ==> r.value == tx
  }

  // ---------- transfers ----------

  lemma PayerRoom(a: Account, r: nat, next: nat, asset: Asset, amount: nat, fee: nat)
    requires AccountSolvent(a, r, next) && MayMove(a, asset) && 0 < amount <= INT64_MAX
    requires AccountSolvent(AddToBalance(PayFee(a, fee), asset, 0 - amount), r, next)
    ensures ValidateTransfer(a, asset, amount, r, fee).Success?
  {
    hide OfferOwed, OwedIn, ReserveUnits, OfferSound, Booked;
    var a' := AddToBalance(PayFee(a, fee), asset, 0 - amount);
    ReserveAfter(a, a', 0, r);
    ReserveAfter(a, a, 0, r);
    assert BalanceSound(a'.balances[Native]);
    assert asset in a.balances ==> BalanceSound(a'.balances[asset]);
  }

  lemma ReceiverRoom(b: Account, r: nat, next: nat, asset: Asset, amount: nat)
    requires AccountSolvent(b, r, next) && MayMove(b, asset) && 0 < amount <= INT64_MAX
    requires AccountSolvent(AddToBalance(b, asset, amount), r, next)
    ensures ValidateReceive(b, asset, amount).Success?
  {
    hide OfferOwed, OwedIn, ReserveUnits, MinimumBalance, OfferSound, Booked;
    var b' := AddToBalance(b, asset, amount);
    assert asset in b.balances ==> BalanceSound(b'.balances[asset]);
  }

  lemma PaidAccounts(ledger: Ledger, a: Account, to: string, asset: Asset, amount: nat, fee: nat)
    requires a.id in ledger.accounts && ledger.accounts[a.id] == a && to in ledger.accounts && to != a.id
    requires ledger.accounts[to].id == to
    ensures var after := Apply(ledger, Transaction(a.id, fee, Payment(to, asset, amount)));
      && a.id in after.accounts && after.accounts[a.id] == AddToBalance(PayFee(a, fee), asset, 0 - amount)
      && to in after.accounts && after.accounts[to] == AddToBalance(ledger.accounts[to], asset, amount)
      && after.baseReserve == ledger.baseReserve && after.nextOffer == ledger.nextOffer
  {
  }

  /** A payment between two accounts that may move the asset. */
  lemma PaymentExact(ledger: Ledger, a: Account, to: string, asset: Asset, amount: nat, memo: bool, fee: nat)
    requires Solvent(ledger) && a.id in ledger.accounts && ledger.accounts[a.id] == a
    requires to in ledger.accounts && to != a.id && (memo || !ledger.accounts[to].memoRequired)
    requires MayMove(a, asset) && MayMove(ledger.accounts[to], asset) && 0 < amount <= INT64_MAX
    ensures PreparePayment(true, ledger, a, to, asset, amount, memo, fee).Success?
       <==> Solvent(Apply(ledger, Transaction(a.id, fee, Payment(to, asset, amount))))
    ensures Builds(PreparePayment(true, ledger, a, to, asset, amount, memo, fee),
                   Transaction(a.id, fee, Payment(to, asset, amount)))
  {
    hide AccountSolvent, ValidateTransfer, ValidateReceive, Apply, AddToBalance, PayFee;
    var r, next := ledger.baseReserve, ledger.nextOffer;
    PaidAccounts(ledger, a, to, asset, amount, fee);
    var after := Apply(ledger, Transaction(a.id, fee, Payment(to, asset, amount)));
    AcceptedAmount(a, asset, amount, r, fee);
    if PreparePayment(true, ledger, a, to, asset, amount, memo, fee).Success? {
      TransferKeeps(ledger, a, true, to, asset, amount, memo, fee);
    }
    if Solvent(after) {
      PayerRoom(a, r, next, asset, amount, fee);
      ReceiverRoom(ledger.accounts[to], r, next, asset, amount);
    }
  }

  lemma StartingBalanceNeeded(id: string, starting: nat, r: nat, next: nat)
    ensures AccountSolvent(NewAccount(id, starting), r, next) ==> 2 * r <= starting
  {
    hide OfferOwed, OwedIn, OfferSound, Booked;
  }

  /** A payment that has to create its destination. */
  lemma AccountCreationExact(ledger: Ledger, a: Account, to: string, amount: nat, memo: bool, fee: nat)
    requires Solvent(ledger) && a.id in ledger.accounts && ledger.accounts[a.id] == a
    requires to !in ledger.accounts && 0 < amount <= INT64_MAX
    ensures PreparePayment(true, ledger, a, to, Native, amount, memo, fee).Success?
       <==> Solvent(Apply(ledger, Transaction(a.id, fee, CreateAccount(to, amount))))
    ensures Builds(PreparePayment(true, ledger, a, to, Native, amount, memo, fee),
                   Transaction(a.id, fee, CreateAccount(to, amount)))
  {
    hide AccountSolvent, ValidateTransfer;
    var r, next := ledger.baseReserve, ledger.nextOffer;
    var after := Apply(ledger, Transaction(a.id, fee, CreateAccount(to, amount)));
    AcceptedAmount(a, Native, amount, r, fee);
    if PreparePayment(true, ledger, a, to, Native, amount, memo, fee).Success? {
      TransferKeeps(ledger, a, true, to, Native, amount, memo, fee);
    }
    if Solvent(after) {
      assert after.accounts[a.id] == AddToBalance(PayFee(a, fee), Native, 0 - amount);
      assert after.accounts[to] == NewAccount(to, amount);
      PayerRoom(a, r, next, Native, amount, fee);
      StartingBalanceNeeded(to, amount, r, next);
    }
  }

  // ---------- trustlines ----------

  lemma NewEntryReserve(a: Account, r: nat)
    requires SponsorshipSound(a)
    ensures ReserveUnits(a, 1) * r == ReserveUnits(a, 0) * r + r
  {
    assert (ReserveUnits(a, 0) + 1) * r == ReserveUnits(a, 0) * r + r;
  }

  lemma NewLineRoom(a: Account, r: nat, next: nat, asset: Asset, limit: nat, authorized: bool, fee: nat)
    requires AccountSolvent(a, r, next) && SponsorshipSound(a) && asset.Credit? && asset !in a.balances
    requires AccountSolvent(SetTrustLine(PayFee(a, fee), asset, limit, authorized), r, next)
    ensures EnsureNativeCapacity(a, r, fee, r).Success?
  {
    hide OfferOwed, OwedIn, ReserveUnits, OfferSound, Booked;
    var a' := SetTrustLine(PayFee(a, fee), asset, limit, authorized);
    ReserveAfter(a, a', 1, r);
    ReserveAfter(a, a, 0, r);
    NewEntryReserve(a, r);
  }

  lemma LineIdentity(a: Account, asset: Asset, limit: nat, authorized: bool, fee: nat)
    ensures SetTrustLine(PayFee(a, fee), asset, limit, authorized).id == a.id
  {
  }

  /** A first trustline to an asset whose issuer exists. */
  lemma AddExact(ledger: Ledger, a: Account, asset: Asset, limit: Option<int>, fee: nat)
    requires Solvent(ledger) && a.id in ledger.accounts && ledger.accounts[a.id] == a && SponsorshipSound(a)
    requires asset.Credit? && !Issues(a, asset) && asset !in a.balances && asset.issuer in ledger.accounts
    requires limit.Some? ==> 0 < limit.value <= INT64_MAX
    ensures var line := if limit.Some? then limit.value else 7_082_698_378_736_765_000;
      var tx := Transaction(a.id, fee, ChangeTrust(asset, line, !ledger.accounts[asset.issuer].authRequired));
      && (PrepareAdd(true, ledger, a, asset, limit, fee).Success? <==> Solvent(Apply(ledger, tx)))
      && Builds(PrepareAdd(true, ledger, a, asset, limit, fee), tx)
  {
    hide AccountSolvent, EnsureNativeCapacity, SetTrustLine, PayFee;
    var r, next := ledger.baseReserve, ledger.nextOffer;
    var line: nat := if limit.Some? then limit.value else FRESNICA_TRUSTLINE_LIMIT;
    var authorized := !ledger.accounts[asset.issuer].authRequired;
    var after := Apply(ledger, Transaction(a.id, fee, ChangeTrust(asset, line, authorized)));
    if PrepareAdd(true, ledger, a, asset, limit, fee).Success? {
      AddTrustKeeps(ledger, a, true, asset, limit, fee);
    }
    if Solvent(after) {
      LineIdentity(a, asset, line, authorized, fee);
      assert after.accounts[a.id] == SetTrustLine(PayFee(a, fee), asset, line, authorized);
      NewLineRoom(a, r, next, asset, line, authorized, fee);
    }
  }

  lemma NewLimitRoom(a: Account, r: nat, next: nat, asset: Asset, limit: nat, authorized: bool, fee: nat)
    requires AccountSolvent(a, r, next) && asset.Credit? && asset in a.balances
    requires AccountSolvent(SetTrustLine(PayFee(a, fee), asset, limit, authorized), r, next)
    ensures EnsureNativeCapacity(a, r, fee, 0).Success?
    ensures a.balances[asset].balance + a.balances[asset].buying <= limit
  {
    hide OfferOwed, OwedIn, ReserveUnits, OfferSound, Booked;
    var a' := SetTrustLine(PayFee(a, fee), asset, limit, authorized);
    ReserveAfter(a, a', 0, r);
    ReserveAfter(a, a, 0, r);
    assert BalanceSound(a'.balances[asset]);
  }

  /** A new limit on a trustline whose issuer exists. */
  lemma LimitExact(ledger: Ledger, a: Account, asset: Asset, limit: nat, fee: nat)
    requires Solvent(ledger) && a.id in ledger.accounts && ledger.accounts[a.id] == a
    requires asset.Credit? && !Issues(a, asset) && asset in a.balances && asset.issuer in ledger.accounts
    requires 0 < limit <= INT64_MAX
    ensures PrepareLimit(true, ledger, a, asset, limit, fee).Success?
       <==> Solvent(Apply(ledger, Transaction(a.id, fee, ChangeTrust(asset, limit, a.balances[asset].authorized))))
    ensures Builds(PrepareLimit(true, ledger, a, asset, limit, fee),
                   Transaction(a.id, fee, ChangeTrust(asset, limit, a.balances[asset].authorized)))
  {
    hide AccountSolvent, EnsureNativeCapacity;
    var r, next := ledger.baseReserve, ledger.nextOffer;
    var authorized := a.balances[asset].authorized;
    var after := Apply(ledger, Transaction(a.id, fee, ChangeTrust(asset, limit, authorized)));
    if PrepareLimit(true, ledger, a, asset, limit, fee).Success? {
      LimitTrustKeeps(ledger, a, true, asset, limit, fee);
    }
    if Solvent(after) {
      assert after.accounts[a.id] == SetTrustLine(PayFee(a, fee), asset, limit, authorized);
      NewLimitRoom(a, r, next, asset, limit, authorized, fee);
    }
  }

  /** Once a line is gone from a solvent account, no offer used it, so nothing was owed in it. */
  lemma RemovedLineIdle(a: Account, r: nat, next: nat, asset: Asset, fee: nat)
    requires AccountSolvent(a, r, next) && asset.Credit? && asset in a.balances
    requires AccountSolvent(RemoveTrustLine(PayFee(a, fee), asset), r, next)
    ensures a.balances[asset].selling == a.balances[asset].buying == 0
  {
    hide OfferOwed, OwedIn, ReserveUnits, MinimumBalance;
    var a' := RemoveTrustLine(PayFee(a, fee), asset);
    assert !Issues(a, asset);
    forall id | id in a.offers ensures !Uses(a.offers[id], asset) {
      assert OfferSound(a', a'.offers[id]);
    }
    UnusedAssetOwesNothing(a.offers, asset);
    assert BookedPair(a.balances[asset]) == (0, 0);
  }

  /** A trustline can go exactly when it is empty and in no offer, the fee being free while it is still there. */
  lemma RemoveExact(ledger: Ledger, a: Account, asset: Asset, fee: nat)
    requires Solvent(ledger) && a.id in ledger.accounts && ledger.accounts[a.id] == a
    requires asset.Credit? && !Issues(a, asset) && asset in a.balances
    ensures PrepareRemove(true, ledger, a, asset, fee).Success? <==>
      && a.balances[asset].balance == 0 && EnsureNativeCapacity(a, ledger.baseReserve, fee, 0).Success?
      && Solvent(Apply(ledger, Transaction(a.id, fee, ChangeTrust(asset, 0, false))))
    ensures Builds(PrepareRemove(true, ledger, a, asset, fee), Transaction(a.id, fee, ChangeTrust(asset, 0, false)))
  {
    hide AccountSolvent, EnsureNativeCapacity;
    var after := Apply(ledger, Transaction(a.id, fee, ChangeTrust(asset, 0, false)));
    if PrepareRemove(true, ledger, a, asset, fee).Success? {
      RemoveTrustKeeps(ledger, a, true, asset, fee);
    }
    if Solvent(after) {
      assert after.accounts[a.id] == RemoveTrustLine(PayFee(a, fee), asset);
      RemovedLineIdle(a, ledger.baseReserve, ledger.nextOffer, asset, fee);
    }
  }

  // ---------- offers ----------

  /** The buying room the preflights ask for in the native asset: they do not count the fee as leaving first. */
  ghost predicate NativeRoom(a: Account, intent: OfferIntent, released: nat)
    requires Native in a.balances
  {
    BuyingAsset(intent).Native? ==>
      OfferLiabilities(intent.side, intent.amount, intent.price).buying
        <= INT64_MAX - a.balances[Native].balance - a.balances[Native].buying + released
  }

  /** The money half of `NewOfferFacts`, which is all the preflight asks. */
  lemma RoomPassesPreflight(a: Account, r: nat, next: nat, intent: OfferIntent, fee: nat, entries: nat, adds: bool)
    requires AccountSolvent(a, r, next) && NativeRoom(a, intent, 0)
    requires CanHold(a, SellingAsset(intent)) && adds == !CanHold(a, BuyingAsset(intent))
    requires var o := OfferLiabilities(intent.side, intent.amount, intent.price);
      var selling, buying := SellingAsset(intent), BuyingAsset(intent);
      && fee + (if selling.Native? then o.selling else 0) <= Headroom(a, r, entries)
      && (selling in a.balances ==> o.selling <= a.balances[selling].balance - a.balances[selling].selling)
      && (buying in a.balances && buying.Credit? ==>
            o.buying <= a.balances[buying].limit - a.balances[buying].balance - a.balances[buying].buying)
      && (adds ==> o.buying <= FRESNICA_TRUSTLINE_LIMIT)
    ensures PreflightNewOffer(a, intent, r, fee, entries, adds).Success?
  {
    hide OfferLiabilities, OfferOwed, OwedIn, ReserveUnits, OfferSound, Booked;
    IntentFitsInt64(intent);
    assert BalanceSound(a.balances[Native]);
    if BuyingAsset(intent) in a.balances { assert BalanceSound(a.balances[BuyingAsset(intent)]); }
    if SellingAsset(intent) in a.balances { assert BalanceSound(a.balances[SellingAsset(intent)]); }
  }

  /** What a solvent account with one more offer says about the account before. */
  lemma RestedRoom(holder: Account, r: nat, next: nat, id: nat, offer: Offer)
    requires Native in holder.balances && offer.amount != 0
    requires AccountSolvent(RestOffer(holder, id, offer), r, next)
    ensures OwedIn(offer, Native).selling <= Headroom(holder, r, 1)
    ensures forall x :: x in holder.balances ==>
      && OwedIn(offer, x).selling <= holder.balances[x].balance - holder.balances[x].selling
      && OwedIn(offer, x).buying <= holder.balances[x].limit - holder.balances[x].balance - holder.balances[x].buying
  {
    hide OfferOwed, OwedIn, ReserveUnits, OfferSound, Booked;
    var a' := RestOffer(holder, id, offer);
    ReserveAfter(holder, a', 1, r);
    forall x | x in holder.balances
      ensures OwedIn(offer, x).selling <= holder.balances[x].balance - holder.balances[x].selling
      ensures OwedIn(offer, x).buying <= holder.balances[x].limit - holder.balances[x].balance - holder.balances[x].buying
    {
      assert BalanceSound(a'.balances[x]);
    }
  }

  lemma HolderEntries(a: Account, r: nat, buying: Asset, fee: nat, adds: bool)
    requires Native in a.balances && adds == !CanHold(a, buying)
    ensures var h := Holder(a, buying, fee, adds);
      && Native in h.balances && Headroom(h, r, 1) == Headroom(a, r, if adds then 2 else 1) - fee
      && (forall x :: x in a.balances ==>
            && x in h.balances
            && h.balances[x] == a.balances[x].(balance := a.balances[x].balance - if x.Native? then fee else 0))
      && (adds ==> buying in h.balances && h.balances[buying] == Balance(0, 0, 0, FRESNICA_TRUSTLINE_LIMIT, true))
  {
    hide ReserveUnits;
    ReserveAfter(a, PayFee(a, fee), 0, r);
    if adds { ReserveAfter(PayFee(a, fee), Holder(a, buying, fee, adds), 1, r); }
  }

  lemma PlacedOfferRoom(a: Account, r: nat, next: nat, intent: OfferIntent, fee: nat, adds: bool)
    requires AccountSolvent(a, r, next) && NativeRoom(a, intent, 0)
    requires WellFormed(intent) && RestingOffer(intent).amount != 0
    requires CanHold(a, SellingAsset(intent)) && adds == !CanHold(a, BuyingAsset(intent))
    requires AccountSolvent(RestOffer(Holder(a, BuyingAsset(intent), fee, adds), next, RestingOffer(intent)), r, next + 1)
    ensures PreflightNewOffer(a, intent, r, fee, if adds then 2 else 1, adds).Success?
  {
    hide OfferLiabilities, OfferOwed, OwedIn, ReserveUnits, AccountSolvent, PreflightNewOffer, Holder, RestOffer, MinimumBalance;
    var buying, selling, offer := BuyingAsset(intent), SellingAsset(intent), RestingOffer(intent);
    var holder := Holder(a, buying, fee, adds);
    assert Native in a.balances by { SolventHoldsNative(a, r, next); }
    HolderEntries(a, r, buying, fee, adds);
    RestedRoom(holder, r, next + 1, next, offer);
    RestingOwes(intent);
    OwedInOne(offer, Native);
    OwedInOne(offer, selling);
    OwedInOne(offer, buying);
    RoomPassesPreflight(a, r, next, intent, fee, if adds then 2 else 1, adds);
  }

  lemma RestedIdentity(holder: Account, id: nat, offer: Offer)
    ensures RestOffer(holder, id, offer).id == holder.id
  {
  }

  lemma SolventHoldsNative(a: Account, r: nat, next: nat)
    requires AccountSolvent(a, r, next)
    ensures Native in a.balances
  {
  }

  /** The transaction `prepare_create` builds when it accepts. */
  function Placement(a: Account, intent: OfferIntent, fee: nat): Transaction {
    if NeedsLine(a, BuyingAsset(intent)) then Transaction(a.id, fee * 2, PlaceOffer(intent, Some(7_082_698_378_736_765_000)))
    else Transaction(a.id, fee, PlaceOffer(intent, None))
  }

  /** Everything `prepare_create` checks that is not about money. */
  predicate Placeable(ledger: Ledger, a: Account, intent: OfferIntent, allow: bool) {
    && WellFormed(intent) && MayMove(a, SellingAsset(intent))
    && var buying := BuyingAsset(intent);
       if NeedsLine(a, buying) then allow && buying.issuer in ledger.accounts && !ledger.accounts[buying.issuer].authRequired
       else MayMove(a, buying)
  }

  /**
   * An offer that rests is accepted exactly when the account can bear it; only when it buys
   * the native asset does the preflight also ask for room for the fee it is about to burn.
   */
  lemma CreateExact(ledger: Ledger, a: Account, intent: OfferIntent, allow: bool, fee: nat)
    requires Solvent(ledger) && a.id in ledger.accounts && ledger.accounts[a.id] == a
    requires Placeable(ledger, a, intent, allow) && RestingOffer(intent).amount != 0
    ensures PrepareCreate(true, ledger, a, intent, allow, fee).Success?
       <==> Solvent(Apply(ledger, Placement(a, intent, fee))) && Native in a.balances && NativeRoom(a, intent, 0)
    ensures Builds(PrepareCreate(true, ledger, a, intent, allow, fee), Placement(a, intent, fee))
  {
    hide OfferLiabilities, OfferOwed, AccountSolvent, PreflightNewOffer, RestOffer, NativeRoom;
    var r, next := ledger.baseReserve, ledger.nextOffer;
    var adds := !CanHold(a, BuyingAsset(intent));
    var tx := Placement(a, intent, fee);
    SolventHoldsNative(a, r, next);
    if PrepareCreate(true, ledger, a, intent, allow, fee).Success? {
      CreateOfferKeeps(ledger, a, true, intent, allow, fee);
      AcceptedNativeRoom(a, r, next, intent, tx.fee, if adds then 2 else 1, adds);
    }
    if Solvent(Apply(ledger, tx)) && NativeRoom(a, intent, 0) {
      RestedIdentity(Holder(a, BuyingAsset(intent), tx.fee, adds), next, RestingOffer(intent));
      assert Apply(ledger, tx).accounts[a.id]
          == RestOffer(Holder(a, BuyingAsset(intent), tx.fee, adds), next, RestingOffer(intent));
      PlacedOfferRoom(a, r, next, intent, tx.fee, adds);
    }
  }

  lemma AcceptedNativeRoom(a: Account, r: nat, next: nat, intent: OfferIntent, fee: nat, entries: nat, adds: bool)
    requires AccountSolvent(a, r, next) && PreflightNewOffer(a, intent, r, fee, entries, adds).Success?
    ensures Native in a.balances && NativeRoom(a, intent, 0)
  {
    hide OfferLiabilities, OfferOwed, OwedIn, ReserveUnits, OfferSound, Booked;
    NewOfferFacts(a, r, next, intent, fee, entries, adds);
  }

  lemma ReplacedOfferRoom(a: Account, r: nat, next: nat, id: nat, intent: OfferIntent, fee: nat)
    requires AccountSolvent(a, r, next) && id in a.offers && fee <= Headroom(a, r, 0)
    requires WellFormed(intent) && SameTrade(a.offers[id], intent)
    requires RestingOffer(intent).amount != 0 && NativeRoom(a, intent, OfferOwed(a.offers[id]).buying)
    requires AccountSolvent(RestOffer(Released(a, id, fee), id, RestingOffer(intent)), r, next)
    ensures UpdateFits(a, r, OfferLiabilities(intent.side, intent.amount, intent.price), OfferOwed(a.offers[id]),
                       SellingAsset(intent), BuyingAsset(intent), fee)
  {
    hide OfferLiabilities, OfferOwed, OwedIn, ReserveUnits, AccountSolvent, RestOffer, MinimumBalance, DropOffer;
    var stored, offer, d := a.offers[id], RestingOffer(intent), Released(a, id, fee);
    SolventHoldsNative(a, r, next);
    ReleasedKeeps(a, r, next, id, fee);
    RestedRoom(d, r, next, id, offer);
    RestingOwes(intent);
    OwedInOne(stored, Native);
    OwedInOne(stored, stored.selling);
    OwedInOne(stored, stored.buying);
    OwedInOne(offer, Native);
    OwedInOne(offer, offer.selling);
    OwedInOne(offer, offer.buying);
    assert stored.selling == offer.selling && stored.buying == offer.buying;
    if offer.selling in a.balances { ReleasedEntry(a, id, fee, offer.selling); }
    if offer.buying in a.balances { ReleasedEntry(a, id, fee, offer.buying); NativeLimit(a, r, next); }
  }

  lemma NativeLimit(a: Account, r: nat, next: nat)
    requires AccountSolvent(a, r, next)
    ensures Native in a.balances && a.balances[Native].limit == INT64_MAX
  {
  }

  /**
   * An update is accepted exactly when the account can pay the fee before anything is
   * released and can bear the new offer in place of the old; for native proceeds the room is
   * again counted before the fee leaves.
   */
  lemma UpdateExact(ledger: Ledger, a: Account, id: nat, intent: OfferIntent, fee: nat)
    requires Solvent(ledger) && a.id in ledger.accounts && ledger.accounts[a.id] == a && id in a.offers
    requires WellFormed(intent) && SameTrade(a.offers[id], intent)
    requires MayMove(a, SellingAsset(intent)) && MayMove(a, BuyingAsset(intent)) && RestingOffer(intent).amount != 0
    ensures PrepareUpdate(true, ledger, a, id, intent, fee).Success? <==>
      && Native in a.balances && fee <= Headroom(a, ledger.baseReserve, 0)
      && Solvent(Apply(ledger, Transaction(a.id, fee, ReplaceOffer(id, intent))))
      && NativeRoom(a, intent, OfferOwed(a.offers[id]).buying)
    ensures Builds(PrepareUpdate(true, ledger, a, id, intent, fee), Transaction(a.id, fee, ReplaceOffer(id, intent)))
  {
    hide OfferLiabilities, OfferOwed, AccountSolvent, PreflightUpdateOffer, RestOffer, DropOffer, UpdateFits, NativeRoom, ReserveUnits;
    var r, next := ledger.baseReserve, ledger.nextOffer;
    var tx := Transaction(a.id, fee, ReplaceOffer(id, intent));
    SolventHoldsNative(a, r, next);
    UpdatePreflightMeaning(a, r, next, intent, a.offers[id], fee);
    if PrepareUpdate(true, ledger, a, id, intent, fee).Success? {
      UpdateOfferKeeps(ledger, a, true, id, intent, fee);
      FitsNativeRoom(a, r, next, intent, OfferOwed(a.offers[id]), fee);
    }
    if fee <= Headroom(a, r, 0) && Solvent(Apply(ledger, tx)) && NativeRoom(a, intent, OfferOwed(a.offers[id]).buying) {
      RestedIdentity(Released(a, id, fee), id, RestingOffer(intent));
      DroppedIdentity(PayFee(a, fee), id);
      assert Apply(ledger, tx).accounts[a.id] == RestOffer(Released(a, id, fee), id, RestingOffer(intent));
      ReplacedOfferRoom(a, r, next, id, intent, fee);
    }
  }

  lemma FitsNativeRoom(a: Account, r: nat, next: nat, intent: OfferIntent, was: Owed, fee: nat)
    requires AccountSolvent(a, r, next)
    requires UpdateFits(a, r, OfferLiabilities(intent.side, intent.amount, intent.price), was,
                        SellingAsset(intent), BuyingAsset(intent), fee)
    ensures NativeRoom(a, intent, was.buying) && fee <= Headroom(a, r, 0)
  {
    hide OfferLiabilities, OfferOwed, OwedIn, ReserveUnits, OfferSound, Booked;
  }

  lemma DroppedIdentity(a: Account, id: nat)
    requires id in a.offers
    ensures DropOffer(a, id).id == a.id
  {
  }

  /** A cancellation is accepted exactly when its fee is free before the release, and is then always bearable. */
  lemma CancelExact(ledger: Ledger, a: Account, id: nat, pair: Option<MarketPair>, fee: nat)
    requires Solvent(ledger) && a.id in ledger.accounts && ledger.accounts[a.id] == a && id in a.offers
    requires pair.Some? ==> InMarket(a.offers[id], pair.value)
    ensures Native in a.balances
    ensures PrepareCancel(true, ledger, a, id, pair, fee).Success? <==> fee <= Headroom(a, ledger.baseReserve, 0)
    ensures Builds(PrepareCancel(true, ledger, a, id, pair, fee), Transaction(a.id, fee, RemoveOffer(id)))
    ensures fee <= Headroom(a, ledger.baseReserve, 0) ==> Solvent(Apply(ledger, Transaction(a.id, fee, RemoveOffer(id))))
  {
    hide AccountSolvent, EnsureOfferFeeCapacity, Headroom, Apply;
    SolventHoldsNative(a, ledger.baseReserve, ledger.nextOffer);
    FeeCovered(a, ledger.baseReserve, ledger.nextOffer, fee);
    if fee <= Headroom(a, ledger.baseReserve, 0) {
      CancelOfferKeeps(ledger, a, true, id, pair, fee);
    }
  }

  // ---------- what the ledger holds afterwards ----------

  /** The account that made an accepted request, as the ledger leaves it. */
  function SourceAfter(ledger: Ledger, tx: Transaction): Account
    requires tx.source in ledger.accounts
  {
    Apply(ledger, tx).accounts[tx.source]
  }

  /** An account opened by a payment holds that payment and nothing else, and puts nothing in the way of further ones. */
  lemma AccountOpened(ledger: Ledger, a: Account, to: string, amount: int, memo: bool, fee: nat)
    requires a.id in ledger.accounts && to !in ledger.accounts
    requires PreparePayment(true, ledger, a, to, Native, amount, memo, fee).Success?
    ensures var after := Apply(ledger, PreparePayment(true, ledger, a, to, Native, amount, memo, fee).value);
      && to in after.accounts
      && var b := after.accounts[to];
         && b.id == to && b.balances == map[Native := Balance(amount, 0, 0, 9_223_372_036_854_775_807, true)]
         && b.offers == map[] && b.subentries == b.sponsoring == b.sponsored == 0 && !b.memoRequired && !b.authRequired
  {
    hide MinimumBalance;
  }

  /** The line an accepted request opens, and whether it is any good without the issuer. */
  lemma LineOpened(ledger: Ledger, a: Account, asset: Asset, limit: Option<int>, fee: nat)
    requires a.id in ledger.accounts && ledger.accounts[a.id] == a && PrepareAdd(true, ledger, a, asset, limit, fee).Success?
    ensures asset in SourceAfter(ledger, PrepareAdd(true, ledger, a, asset, limit, fee).value).balances
    ensures var a' := SourceAfter(ledger, PrepareAdd(true, ledger, a, asset, limit, fee).value);
      && a'.balances[asset] == Balance(0, 0, 0, if limit.Some? then limit.value else 7_082_698_378_736_765_000,
                                       !ledger.accounts[asset.issuer].authRequired)
      && (MayMove(a', asset) <==> !ledger.accounts[asset.issuer].authRequired)
  {
    hide EnsureNativeCapacity;
  }

  /** A changed limit changes nothing else of the line; a removed line is gone, and no other. */
  lemma LineChanged(ledger: Ledger, a: Account, asset: Asset, limit: int, fee: nat)
    requires a.id in ledger.accounts && ledger.accounts[a.id] == a
    ensures PrepareLimit(true, ledger, a, asset, limit, fee).Success? ==>
      var a' := SourceAfter(ledger, PrepareLimit(true, ledger, a, asset, limit, fee).value);
      asset in a.balances && asset in a'.balances && a'.balances[asset] == a.balances[asset].(limit := limit)
    ensures PrepareRemove(true, ledger, a, asset, fee).Success? ==>
      SourceAfter(ledger, PrepareRemove(true, ledger, a, asset, fee).value).balances.Keys == a.balances.Keys - {asset}
  {
    hide EnsureNativeCapacity;
  }

  /** The intent's offer rests beside the others under its id, unless it would sell nothing. */
  predicate Rests(offers: map<nat, Offer>, others: map<nat, Offer>, id: nat, intent: OfferIntent) {
    var owed := OfferLiabilities(intent.side, intent.amount, intent.price);
    if owed.selling == 0 then offers == others
    else id in offers && offers == others[id := offers[id]] && SameTrade(offers[id], intent) && OfferOwed(offers[id]) == owed
  }

  lemma RestedOffers(a: Account, id: nat, intent: OfferIntent)
    requires WellFormed(intent)
    ensures Rests(RestOffer(a, id, RestingOffer(intent)).offers, a.offers, id, intent)
  {
    hide OfferLiabilities, OfferOwed, Book;
    RestingOwes(intent);
  }

  /** After an accepted offer request the offer asked for rests, owing what was checked, and all others are as they were. */
  lemma OfferPlaced(ledger: Ledger, a: Account, intent: OfferIntent, allow: bool, fee: nat)
    requires a.id in ledger.accounts && ledger.accounts[a.id] == a
    requires PrepareCreate(true, ledger, a, intent, allow, fee).Success?
    ensures Rests(SourceAfter(ledger, PrepareCreate(true, ledger, a, intent, allow, fee).value).offers,
                  a.offers, ledger.nextOffer, intent)
  {
    hide PreflightNewOffer, OfferLiabilities, RestOffer, RestingOffer, Rests;
    var tx := PrepareCreate(true, ledger, a, intent, allow, fee).value;
    var paid := PayFee(a, tx.fee);
    var holder := if NeedsLine(a, BuyingAsset(intent)) then SetTrustLine(paid, BuyingAsset(intent), 7_082_698_378_736_765_000, true) else paid;
    RestedOffers(holder, ledger.nextOffer, intent);
    RestedIdentity(holder, ledger.nextOffer, RestingOffer(intent));
  }

  lemma OfferReplaced(ledger: Ledger, a: Account, id: nat, intent: OfferIntent, fee: nat)
    requires a.id in ledger.accounts && ledger.accounts[a.id] == a
    requires PrepareUpdate(true, ledger, a, id, intent, fee).Success?
    ensures Rests(SourceAfter(ledger, PrepareUpdate(true, ledger, a, id, intent, fee).value).offers,
                  a.offers - {id}, id, intent)
  {
    hide PreflightUpdateOffer, OfferLiabilities, RestOffer, RestingOffer, Rests, Book;
    var dropped := DropOffer(PayFee(a, fee), id);
    RestedOffers(dropped, id, intent);
    RestedIdentity(dropped, id, RestingOffer(intent));
  }

  lemma OfferCancelled(ledger: Ledger, a: Account, id: nat, pair: Option<MarketPair>, fee: nat)
    requires a.id in ledger.accounts && ledger.accounts[a.id] == a
    requires PrepareCancel(true, ledger, a, id, pair, fee).Success?
    ensures SourceAfter(ledger, PrepareCancel(true, ledger, a, id, pair, fee).value).offers == a.offers - {id}
  {
    hide EnsureOfferFeeCapacity, Book;
  }

  // ---------- checks that are not about money ----------

  /** Nothing is paid without a signer, full authorization at both ends and the memo the receiver insists on. */
  lemma PaymentChecks(
    canSign: bool, ledger: Ledger, a: Account, to: string, asset: Asset, amount: int, memo: bool, fee: nat)
    requires Solvent(ledger) && a.id in ledger.accounts && ledger.accounts[a.id] == a
    requires PreparePayment(canSign, ledger, a, to, asset, amount, memo, fee).Success?
    ensures canSign && 0 < amount <= INT64_MAX && MayMove(a, asset)
    ensures if to in ledger.accounts then MayMove(ledger.accounts[to], asset) && (memo || !ledger.accounts[to].memoRequired)
            else asset.Native? && 2 * ledger.baseReserve <= amount
  {
    hide OfferOwed, OwedIn, ReserveUnits, MinimumBalance, OfferSound, Booked;
    AcceptedAmount(a, asset, amount, ledger.baseReserve, fee);
    assert asset in a.balances ==> BalanceSound(a.balances[asset]);
  }

  lemma TrustlineChecks(canSign: bool, ledger: Ledger, a: Account, asset: Asset, limit: Option<int>, newLimit: int, fee: nat)
    ensures PrepareAdd(canSign, ledger, a, asset, limit, fee).Success? ==>
      && canSign && asset.Credit? && !Issues(a, asset) && asset !in a.balances && asset.issuer in ledger.accounts
      && (limit.Some? ==> 0 < limit.value <= INT64_MAX)
    ensures PrepareLimit(canSign, ledger, a, asset, newLimit, fee).Success? ==>
      && canSign && asset.Credit? && !Issues(a, asset) && asset in a.balances && asset.issuer in ledger.accounts
      && 0 < newLimit <= INT64_MAX
    ensures PrepareRemove(canSign, ledger, a, asset, fee).Success? ==>
      canSign && asset.Credit? && !Issues(a, asset) && asset in a.balances
  {
    hide EnsureNativeCapacity;
  }

  /** No offer is placed, changed or cancelled past its checks. */
  lemma OfferChecks(
    canSign: bool, ledger: Ledger, a: Account, id: nat, intent: OfferIntent, pair: Option<MarketPair>, allow: bool, fee: nat)
    ensures PrepareCreate(canSign, ledger, a, intent, allow, fee).Success? ==> canSign && Placeable(ledger, a, intent, allow)
    ensures PrepareUpdate(canSign, ledger, a, id, intent, fee).Success? ==>
      && canSign && id in a.offers && WellFormed(intent) && SameTrade(a.offers[id], intent)
      && MayMove(a, SellingAsset(intent)) && MayMove(a, BuyingAsset(intent))
    ensures PrepareCancel(canSign, ledger, a, id, pair, fee).Success? ==>
      canSign && id in a.offers && (pair.Some? ==> InMarket(a.offers[id], pair.value))
  {
    hide PreflightNewOffer, PreflightUpdateOffer, EnsureOfferFeeCapacity;
  }

  /** What each refusal of a payment says of it. */
  lemma PaymentRefusals(
    canSign: bool, ledger: Ledger, a: Account, to: string, asset: Asset, amount: int, memo: bool, fee: nat)
    requires PreparePayment(canSign, ledger, a, to, asset, amount, memo, fee).Failure?
    ensures var error, creates := PreparePayment(canSign, ledger, a, to, asset, amount, memo, fee).error, to !in ledger.accounts;
      && (error == WatchOnly <==> !canSign)
      && (error == MemoRequired <==> PreparePayment(canSign, ledger, a, to, asset, amount, true, fee).Success?)
      && (error == TransactionRefused ==>
            !MayMove(a, asset) || if creates then asset.Credit? else !MayMove(ledger.accounts[to], asset))
      && (error == InvalidAmount ==> amount <= 0 || (creates && amount < 2 * ledger.baseReserve))
      && (error == InsufficientBalance ==> 0 < amount && MayMove(a, asset))
      && error in {WatchOnly, MemoRequired, TransactionRefused, InvalidAmount, InsufficientBalance}
      && (canSign && amount <= 0 && (creates ==> asset.Native?) ==> error == InvalidAmount)
      && (canSign && 0 < amount && !MayMove(a, asset) ==> error == TransactionRefused)
  {
    hide ReserveUnits;
  }

  /** The asset is one a trustline request can be about: issued, and by somebody else. */
  predicate Foreign(a: Account, asset: Asset) {
    asset.Credit? && asset.issuer != a.id
  }

  /** Which refusal a trustline request gets: of the checks that fail, the first decides. */
  lemma AddRefusals(canSign: bool, ledger: Ledger, a: Account, asset: Asset, limit: Option<int>, fee: nat)
    requires PrepareAdd(canSign, ledger, a, asset, limit, fee).Failure?
    ensures var badLimit := limit.Some? && !(1 <= limit.value <= 9_223_372_036_854_775_807);
      PrepareAdd(canSign, ledger, a, asset, limit, fee).error ==
        if !canSign then WatchOnly
        else if Foreign(a, asset) && badLimit then InvalidAmount
        else if !Foreign(a, asset) || asset in a.balances || asset.issuer !in ledger.accounts then TransactionRefused
        else InsufficientBalance
  {
    hide MinimumBalance;
  }

  lemma LimitRefusals(canSign: bool, ledger: Ledger, a: Account, asset: Asset, limit: int, fee: nat)
    requires PrepareLimit(canSign, ledger, a, asset, limit, fee).Failure?
    ensures var held := asset in a.balances;
      PrepareLimit(canSign, ledger, a, asset, limit, fee).error ==
        if !canSign then WatchOnly
        else if !Foreign(a, asset) then TransactionRefused
        else if !(1 <= limit <= 9_223_372_036_854_775_807)
                || (held && limit < a.balances[asset].balance + a.balances[asset].buying) then InvalidAmount
        else if !held || asset.issuer !in ledger.accounts then TransactionRefused
        else InsufficientBalance
  {
    hide MinimumBalance;
  }

  lemma RemoveRefusals(canSign: bool, ledger: Ledger, a: Account, asset: Asset, fee: nat)
    requires PrepareRemove(canSign, ledger, a, asset, fee).Failure?
    ensures PrepareRemove(canSign, ledger, a, asset, fee).error ==
      if !canSign then WatchOnly
      else if Foreign(a, asset) && asset in a.balances && BookedPair(a.balances[asset]) == (0, 0) && a.balances[asset].balance == 0
      then InsufficientBalance
      else TransactionRefused
  {
    hide MinimumBalance;
  }

  lemma PreflightRefusals(a: Account, intent: OfferIntent, stored: Offer, r: nat, fee: nat, entries: nat, adds: bool)
    requires Native in a.balances
    ensures PreflightNewOffer(a, intent, r, fee, entries, adds).Failure? ==>
      PreflightNewOffer(a, intent, r, fee, entries, adds).error == InsufficientBalance
    ensures PreflightUpdateOffer(a, intent, stored, r, fee).Failure? ==>
      PreflightUpdateOffer(a, intent, stored, r, fee).error == InsufficientBalance
  {
    hide OfferLiabilities, OfferOwed, ReserveUnits, MinimumBalance, AvailableBalance;
  }

  /** Which new offers are refused for their amount, and which for what stands in their way. */
  lemma CreateRefusals(canSign: bool, ledger: Ledger, a: Account, intent: OfferIntent, allow: bool, fee: nat)
    requires Native in a.balances && PrepareCreate(canSign, ledger, a, intent, allow, fee).Failure?
    ensures var error := PrepareCreate(canSign, ledger, a, intent, allow, fee).error;
      && (error == WatchOnly <==> !canSign)
      && (error == InvalidAmount <==>
            canSign && intent.pair.base != intent.pair.counter && !(1 <= intent.amount <= 9_223_372_036_854_775_807))
      && (error == TransactionRefused <==>
            canSign && (intent.pair.base == intent.pair.counter || (WellFormed(intent) && NotPlaceable(ledger, a, intent, allow))))
  {
    var adds := NeedsLine(a, BuyingAsset(intent));
    PreflightRefusals(a, intent, RestingOffer(intent), ledger.baseReserve, fee * if adds then 2 else 1, if adds then 2 else 1, adds);
    hide PreflightNewOffer, OfferLiabilities;
  }

  /** The same for updates. */
  lemma UpdateRefusals(canSign: bool, ledger: Ledger, a: Account, id: nat, intent: OfferIntent, fee: nat)
    requires Native in a.balances && PrepareUpdate(canSign, ledger, a, id, intent, fee).Failure?
    ensures var error := PrepareUpdate(canSign, ledger, a, id, intent, fee).error;
      && (error == WatchOnly <==> !canSign)
      && (error == InvalidAmount <==>
            canSign && intent.pair.base != intent.pair.counter && !(1 <= intent.amount <= 9_223_372_036_854_775_807))
      && (error == TransactionRefused <==>
            canSign && (intent.pair.base == intent.pair.counter
              || (WellFormed(intent) && (id !in a.offers || !SameTrade(a.offers[id], intent)
                                         || !MayMove(a, SellingAsset(intent)) || !MayMove(a, BuyingAsset(intent))))))
  {
    if id in a.offers { PreflightRefusals(a, intent, a.offers[id], ledger.baseReserve, fee, 1, false); }
    hide PreflightUpdateOffer, OfferLiabilities;
  }

  lemma CancelRefusals(canSign: bool, ledger: Ledger, a: Account, id: nat, pair: Option<MarketPair>, fee: nat)
    requires PrepareCancel(canSign, ledger, a, id, pair, fee).Failure?
    ensures PrepareCancel(canSign, ledger, a, id, pair, fee).error ==
      if !canSign then WatchOnly
      else if id !in a.offers || (pair.Some? && !InMarket(a.offers[id], pair.value)) then TransactionRefused
      else InsufficientBalance
  {
    hide MinimumBalance, AvailableBalance;
  }

  /** An intent the account or the issuer stands in the way of, whatever it costs. */
  predicate NotPlaceable(ledger: Ledger, a: Account, intent: OfferIntent, allow: bool) {
    !MayMove(a, SellingAsset(intent))
    || var buying := BuyingAsset(intent);
       if NeedsLine(a, buying) then allow && (buying.issuer !in ledger.accounts || ledger.accounts[buying.issuer].authRequired)
       else !MayMove(a, buying)
  }

  /** An asset an account neither holds nor issues can be neither sent nor received by it. */
  lemma UnheldMovesNothing(a: Account, asset: Asset, amount: int, r: nat, fee: nat)
    requires asset !in a.balances && (asset.Credit? ==> asset.issuer != a.id)
    ensures ValidateTransfer(a, asset, amount, r, fee).Failure? && ValidateReceive(a, asset, amount).Failure?
  {
    hide MinimumBalance;
  }

  /** Only the int64 range limits what an account can hold of the native asset, whatever limit its entry carries. */
  lemma NativeHasNoLimit(a: Account, limit: int, amount: int, newLine: nat)
    requires Native in a.balances
    ensures var b := a.(balances := a.balances[Native := a.balances[Native].(limit := limit)]);
      && ValidateReceive(b, Native, amount) == ValidateReceive(a, Native, amount)
      && ReceivingCapacityStroops(b, Native, newLine) == ReceivingCapacityStroops(a, Native, newLine)
  {
  }

  /** An account that does not hold the native asset gets nothing accepted that costs a fee. */
  lemma NothingWithoutNative(ledger: Ledger, call: Call)
    requires call.source in ledger.accounts && Native !in ledger.accounts[call.source].balances && 0 < call.fee
    ensures Prepare(ledger, call).Failure?
  {
    hide OfferLiabilities, OfferOwed, ReserveUnits, MinimumBalance, ReceivingCapacityStroops, EnsureFullOfferAuthorization;
  }

  /** Whoever would have to confirm a new trustline is told so exactly when the money would do. */
  lemma ConfirmationAsked(ledger: Ledger, a: Account, intent: OfferIntent, fee: nat)
    requires WellFormed(intent) && MayMove(a, SellingAsset(intent)) && NeedsLine(a, BuyingAsset(intent))
    ensures PrepareCreate(true, ledger, a, intent, false, fee) == Failure(TrustlineConfirmationRequired)
       <==> PreflightNewOffer(a, intent, ledger.baseReserve, fee * 2, 2, true).Success?
  {
    PreflightErrors(a, intent, ledger.baseReserve, fee * 2, 2, true);
    hide PreflightNewOffer;
  }

  lemma PreflightErrors(a: Account, intent: OfferIntent, r: nat, fee: nat, entries: nat, adds: bool)
    ensures PreflightNewOffer(a, intent, r, fee, entries, adds) != Failure(TrustlineConfirmationRequired)
  {
    hide OfferLiabilities, ReserveUnits;
  }

  // ---------- offers too small to rest ----------

  lemma EmptyOwes(intent: OfferIntent)
    requires WellFormed(intent) && RestingOffer(intent).amount == 0
    ensures OfferLiabilities(intent.side, intent.amount, intent.price) == Owed(0, 0)
  {
    hide OfferLiabilities;
    NothingForNothing(intent.side, intent.amount, intent.price);
  }

  /** An offer that rounds to nothing is accepted exactly when an entry it will not take could be carried. */
  lemma CreateEmptyExact(ledger: Ledger, a: Account, intent: OfferIntent, allow: bool, fee: nat)
    requires Solvent(ledger) && a.id in ledger.accounts && ledger.accounts[a.id] == a
    requires Placeable(ledger, a, intent, allow) && RestingOffer(intent).amount == 0
    ensures Native in a.balances
    ensures var entries := if NeedsLine(a, BuyingAsset(intent)) then 2 else 1;
      PrepareCreate(true, ledger, a, intent, allow, fee).Success?
      <==> fee * entries <= Headroom(a, ledger.baseReserve, entries)
  {
    hide OfferLiabilities, OfferOwed, AccountSolvent, PreflightNewOffer, Headroom;
    var r, next := ledger.baseReserve, ledger.nextOffer;
    var adds := !CanHold(a, BuyingAsset(intent));
    var entries := if adds then 2 else 1;
    SolventHoldsNative(a, r, next);
    EmptyOwes(intent);
    EmptyPreflight(a, r, next, intent, fee * entries, entries, adds);
  }

  lemma EmptyPreflight(a: Account, r: nat, next: nat, intent: OfferIntent, fee: nat, entries: nat, adds: bool)
    requires AccountSolvent(a, r, next) && OfferLiabilities(intent.side, intent.amount, intent.price) == Owed(0, 0)
    requires CanHold(a, SellingAsset(intent)) && adds == !CanHold(a, BuyingAsset(intent))
    ensures PreflightNewOffer(a, intent, r, fee, entries, adds).Success? <==> fee <= Headroom(a, r, entries)
  {
    hide OfferLiabilities, OfferOwed, OwedIn, ReserveUnits, MinimumBalance, OfferSound, Booked;
    assert BalanceSound(a.balances[Native]);
    if BuyingAsset(intent) in a.balances { assert BalanceSound(a.balances[BuyingAsset(intent)]); }
    if SellingAsset(intent) in a.balances { assert BalanceSound(a.balances[SellingAsset(intent)]); }
  }

  /** An update to nothing needs only its fee. */
  lemma UpdateEmptyExact(ledger: Ledger, a: Account, id: nat, intent: OfferIntent, fee: nat)
    requires Solvent(ledger) && a.id in ledger.accounts && ledger.accounts[a.id] == a && id in a.offers
    requires WellFormed(intent) && SameTrade(a.offers[id], intent)
    requires MayMove(a, SellingAsset(intent)) && MayMove(a, BuyingAsset(intent)) && RestingOffer(intent).amount == 0
    ensures Native in a.balances
    ensures PrepareUpdate(true, ledger, a, id, intent, fee).Success? <==> fee <= Headroom(a, ledger.baseReserve, 0)
  {
    hide OfferLiabilities, OfferOwed, AccountSolvent, PreflightUpdateOffer, UpdateFits, Headroom;
    var r, next := ledger.baseReserve, ledger.nextOffer;
    SolventHoldsNative(a, r, next);
    EmptyOwes(intent);
    UpdatePreflightMeaning(a, r, next, intent, a.offers[id], fee);
    EmptyFits(a, r, next, intent, OfferOwed(a.offers[id]), fee);
  }

  lemma EmptyFits(a: Account, r: nat, next: nat, intent: OfferIntent, was: Owed, fee: nat)
    requires AccountSolvent(a, r, next)
    ensures UpdateFits(a, r, Owed(0, 0), was, SellingAsset(intent), BuyingAsset(intent), fee) <==> fee <= Headroom(a, r, 0)
  {
    hide OfferLiabilities, OfferOwed, OwedIn, ReserveUnits, MinimumBalance, OfferSound, Booked;
    assert forall x :: x in a.balances ==> BalanceSound(a.balances[x]);
  }

  // ---------- where the preflight refuses too much ----------

  const DOLLAR: Asset := Credit("USD", "I")

  /** One stroop of a credit asset offered for one stroop of the native asset. */
  const LAST_STROOP: OfferIntent := OfferIntent(MarketPair(DOLLAR, Native), Sell, 1, PriceRatio(1, 1))

  lemma LastStroopOwes()
    ensures OfferLiabilities(Sell, 1, PriceRatio(1, 1)) == Owed(1, 1)
    ensures RestingOffer(LAST_STROOP) == Offer(DOLLAR, Native, 1, PriceRatio(1, 1))
  {
  }

  /** An account with a native and a credit entry and nothing resting. */
  function IdleAccount(native: nat, dollars: nat): Account {
    Account("A", map[Native := Balance(native, 0, 0, INT64_MAX, true), DOLLAR := Balance(dollars, 0, 0, 2, true)],
            map[], 1, 0, 0, 0, false, false)
  }

  /** One whose native entry is filled to the last stroop. */
  function FullAccount(): Account {
    IdleAccount(INT64_MAX, 1)
  }

  /** There is no room left in it for the proceeds, but the fee would make some. */
  lemma NativeProceedsRefused()
    ensures var a, ledger := FullAccount(), Ledger(map[FullAccount().id := FullAccount()], 0, 0, 0);
      && Solvent(ledger) && Placeable(ledger, a, LAST_STROOP, false) && RestingOffer(LAST_STROOP).amount != 0
      && Solvent(Apply(ledger, Placement(a, LAST_STROOP, 1)))
      && PrepareCreate(true, ledger, a, LAST_STROOP, false, 1).Failure?
  {
    hide OfferLiabilities, OfferOwed, AccountSolvent, RestOffer, PayFee;
    var a := FullAccount();
    var ledger := Ledger(map[a.id := a], 0, 0, 0);
    IdleSolvent(INT64_MAX, 1);
    LastStroopOwes();
    FullAccountBears();
    PutKeeps(ledger, RestOffer(PayFee(a, 1), 0, RestingOffer(LAST_STROOP)), 1, 1);
    RestedIdentity(PayFee(a, 1), 0, RestingOffer(LAST_STROOP));
  }

  /** A solvent account that holds the two assets and has nothing resting. */
  lemma IdleSolvent(native: nat, dollars: nat)
    requires native <= INT64_MAX && dollars <= 2
    ensures AccountSolvent(IdleAccount(native, dollars), 0, 0)
  {
    hide OfferLiabilities;
    var a := IdleAccount(native, dollars);
    assert a.balances.Keys == {Native, DOLLAR};
    UnusedAssetOwesNothing(map[], Native);
    UnusedAssetOwesNothing(map[], DOLLAR);
  }

  lemma FullAccountBears()
    ensures PayFee(FullAccount(), 1).id == FullAccount().id
    ensures AccountSolvent(RestOffer(PayFee(FullAccount(), 1), 0, RestingOffer(LAST_STROOP)), 0, 1)
  {
    hide OfferLiabilities, OfferOwed, OwedIn, AccountSolvent, RestOffer;
    var offer, paid := RestingOffer(LAST_STROOP), PayFee(FullAccount(), 1);
    LastStroopOwes();
    RestingOwes(LAST_STROOP);
    IdleSolvent(INT64_MAX, 1);
    FeeKeeps(FullAccount(), 0, 0, 1);
    OwedInOne(offer, Native);
    RoomFor(paid, 0, 0, offer);
    LaterOfferIds(paid, 0, 0, 1);
    RestedOfferKeeps(paid, 0, 1, 0, offer);
  }

  /** Two stroops where there was one, in the same market and on the same side. */
  const TWO_STROOPS: OfferIntent := LAST_STROOP.(amount := 2)

  lemma TwoStroopsOwe()
    ensures OfferLiabilities(Sell, 2, PriceRatio(1, 1)) == Owed(2, 2)
  {
  }

  /** An account with one resting offer whose proceeds fill its native entry to the last stroop. */
  function ReservedAccount(): Account {
    Account("A", map[Native := Balance(INT64_MAX - 1, 0, 1, INT64_MAX, true), DOLLAR := Balance(2, 1, 0, 2, true)],
            map[0 := Offer(DOLLAR, Native, 1, PriceRatio(1, 1))], 2, 0, 0, 0, false, false)
  }

  function ReservedLedger(): Ledger {
    Ledger(map["A" := ReservedAccount()], 0, 0, 1)
  }

  /** The fee of a cancellation makes the room that the update is refused for. */
  lemma UpdateRefusedWhereCancelPasses()
    ensures var a, ledger := ReservedAccount(), ReservedLedger();
      var l := AfterCancel(ledger, "A", 0, 1);
      && Solvent(ledger) && ViewSide(a.offers[0], TWO_STROOPS.pair) == Some(TWO_STROOPS.side)
      && PrepareCancel(true, ledger, a, 0, None, 1).Success?
      && "A" in l.accounts && PrepareCreate(true, l, l.accounts["A"], TWO_STROOPS, false, 1).Success?
      && PrepareUpdate(true, ledger, a, 0, TWO_STROOPS, 1).Failure?
  {
    hide OfferLiabilities, OfferOwed, AccountSolvent, Released, AfterCancel, PreflightNewOffer, UpdateFits, PreflightUpdateOffer;
    var a, ledger := ReservedAccount(), ReservedLedger();
    LastStroopOwes();
    TwoStroopsOwe();
    ReservedSolvent();
    AfterCancelIsReleased(ledger, "A", 0, 1);
    ReservedReleased();
    ReleasedTakesTwo();
    assert OfferOwed(a.offers[0]) == Owed(1, 1) by { StoredLastStroop(); }
    UpdateDominatesCancelThenCreate(true, ledger, "A", 0, TWO_STROOPS, false, 1);
  }

  lemma StoredLastStroop()
    ensures OfferOwed(Offer(DOLLAR, Native, 1, PriceRatio(1, 1))) == Owed(1, 1)
  {
  }

  lemma ReservedSolvent()
    ensures AccountSolvent(ReservedAccount(), 0, 1)
  {
    hide OfferLiabilities, OfferOwed, OwedIn, AccountSolvent, RestOffer;
    var a, offer := IdleAccount(INT64_MAX - 1, 2), Offer(DOLLAR, Native, 1, PriceRatio(1, 1));
    StoredLastStroop();
    IdleSolvent(INT64_MAX - 1, 2);
    OwedInOne(offer, Native);
    RoomFor(a, 0, 0, offer);
    LaterOfferIds(a, 0, 0, 1);
    RestedOfferKeeps(a, 0, 1, 0, offer);
    ReservedRested();
  }

  lemma ReservedRested()
    ensures RestOffer(IdleAccount(INT64_MAX - 1, 2), 0, Offer(DOLLAR, Native, 1, PriceRatio(1, 1))) == ReservedAccount()
  {
    hide OfferOwed;
    var d := RestOffer(IdleAccount(INT64_MAX - 1, 2), 0, Offer(DOLLAR, Native, 1, PriceRatio(1, 1)));
    StoredLastStroop();
    assert d.balances == ReservedAccount().balances;
  }

  lemma ReservedReleased()
    ensures Released(ReservedAccount(), 0, 1) == IdleAccount(INT64_MAX - 2, 2)
  {
    hide OfferOwed;
    var d := Released(ReservedAccount(), 0, 1);
    StoredLastStroop();
    assert d.balances == IdleAccount(INT64_MAX - 2, 2).balances;
    assert d.offers == map[];
  }

  lemma ReleasedTakesTwo()
    ensures PreflightNewOffer(IdleAccount(INT64_MAX - 2, 2), TWO_STROOPS, 0, 1, 1, false).Success?
  {
    hide OfferLiabilities;
    TwoStroopsOwe();
  }
}
