/** How the three offer preflights relate to each other. */
module OfferLaws {
  import opened Models
  import opened Arithmetic
  import opened PriceRatios
  import opened Liabilities
  import opened Accounts
  import opened Ledgers
  import opened Trustlines
  import opened Offers
  import opened Solvency

  // ---------- acceptance is downward closed in the amount ----------

  lemma SmallerOfferPassesPreflight(
    account: Account, less: OfferIntent, more: OfferIntent, r: nat, fee: nat, entries: nat, adds: bool)
    requires less == more.(amount := less.amount) && less.amount <= more.amount <= INT64_MAX
    requires PreflightNewOffer(account, more, r, fee, entries, adds).Success?
    ensures PreflightNewOffer(account, less, r, fee, entries, adds).Success?
  {
    hide OfferLiabilities, ReserveUnits, ReceivingCapacityStroops;
    LiabilitiesMonotone(more.side, less.amount, more.amount, more.price);
  }

  lemma SmallerUpdatePassesPreflight(
    account: Account, less: OfferIntent, more: OfferIntent, stored: Offer, r: nat, fee: nat)
    requires less == more.(amount := less.amount) && less.amount <= more.amount <= INT64_MAX
    requires PreflightUpdateOffer(account, more, stored, r, fee).Success?
    ensures PreflightUpdateOffer(account, less, stored, r, fee).Success?
  {
    hide OfferLiabilities, OfferOwed, ReserveUnits, MinimumBalance, ReceivingCapacityStroops;
    LiabilitiesMonotone(more.side, less.amount, more.amount, more.price);
  }

  /** An accepted offer stays acceptable at every smaller amount. */
  lemma CreateDownwardClosed(
    canSign: bool, ledger: Ledger, account: Account, less: OfferIntent, more: OfferIntent, allow: bool, fee: nat)
    requires less == more.(amount := less.amount) && 0 < less.amount <= more.amount
    requires PrepareCreate(canSign, ledger, account, more, allow, fee).Success?
    ensures PrepareCreate(canSign, ledger, account, less, allow, fee).Success?
  {
    hide PreflightNewOffer;
    var count := if CanHold(account, BuyingAsset(more)) then 1 else 2;
    SmallerOfferPassesPreflight(account, less, more, ledger.baseReserve, fee * count, count, !CanHold(account, BuyingAsset(more)));
  }

  lemma UpdateDownwardClosed(
    canSign: bool, ledger: Ledger, account: Account, id: nat, less: OfferIntent, more: OfferIntent, fee: nat)
    requires less == more.(amount := less.amount) && 0 < less.amount <= more.amount
    requires PrepareUpdate(canSign, ledger, account, id, more, fee).Success?
    ensures PrepareUpdate(canSign, ledger, account, id, less, fee).Success?
  {
    hide PreflightUpdateOffer;
    SmallerUpdatePassesPreflight(account, less, more, account.offers[id], ledger.baseReserve, fee);
  }

  // ---------- update against cancel and create ----------

  /** The update preflight of a solvent account, stated on its balances. */
  ghost predicate UpdateFits(a: Account, r: nat, owed: Owed, was: Owed, selling: Asset, buying: Asset, fee: nat)
    requires Native in a.balances
  {
    && fee <= Headroom(a, r, 0)
    && (selling.Native? ==> fee + owed.selling - was.selling <= Headroom(a, r, 0))
    && (selling in a.balances ==>
          owed.selling - was.selling <= a.balances[selling].balance - a.balances[selling].selling)
    && (buying in a.balances ==>
          owed.buying - was.buying <= a.balances[buying].limit - a.balances[buying].balance - a.balances[buying].buying)
  }

  lemma IntentFitsInt64(intent: OfferIntent)
    ensures OfferLiabilities(intent.side, intent.amount, intent.price).buying <= INT64_MAX
  {
    hide Exchange;
    match intent.side
    case Sell => LiabilitiesFitInt64(intent.price.n, intent.price.d, intent.amount, INT64_MAX);
    case Buy => LiabilitiesFitInt64(intent.price.d, intent.price.n, INT64_MAX, intent.amount);
  }

  lemma UpdatePreflightMeaning(a: Account, r: nat, next: nat, intent: OfferIntent, stored: Offer, fee: nat)
    requires AccountSolvent(a, r, next)
    requires CanHold(a, SellingAsset(intent)) && CanHold(a, BuyingAsset(intent))
    ensures PreflightUpdateOffer(a, intent, stored, r, fee).Success?
       <==> UpdateFits(a, r, OfferLiabilities(intent.side, intent.amount, intent.price), OfferOwed(stored),
                       SellingAsset(intent), BuyingAsset(intent), fee)
  {
    hide OfferLiabilities, OfferOwed, OwedIn, ReserveUnits, OfferSound, Booked;
    ReserveAfter(a, a, 0, r);
    IntentFitsInt64(intent);
    assert BalanceSound(a.balances[Native]);
    if BuyingAsset(intent) in a.balances { assert BalanceSound(a.balances[BuyingAsset(intent)]); }
    if SellingAsset(intent) in a.balances { assert BalanceSound(a.balances[SellingAsset(intent)]); }
  }

  /** Releasing an offer and paying one fee frees what the update preflight counts as freed, less the fee. */
  lemma CreateAfterCancelFits(a: Account, r: nat, next: nat, id: nat, intent: OfferIntent, fee: nat)
    requires AccountSolvent(a, r, next) && id in a.offers && fee <= Headroom(a, r, 0)
    requires ViewSide(a.offers[id], intent.pair) == Some(intent.side)
    requires PreflightNewOffer(Released(a, id, fee), intent, r, fee, 1, false).Success?
    requires var buying := BuyingAsset(intent);
      buying.Native? ==> (OfferLiabilities(intent.side, intent.amount, intent.price).buying
        <= INT64_MAX - a.balances[Native].balance - a.balances[Native].buying + OfferOwed(a.offers[id]).buying)
    ensures UpdateFits(a, r, OfferLiabilities(intent.side, intent.amount, intent.price), OfferOwed(a.offers[id]),
                       SellingAsset(intent), BuyingAsset(intent), fee)
  {
    hide OfferLiabilities, OfferOwed, OwedIn, ReserveUnits, MinimumBalance, OfferSound, Booked, PreflightNewOffer, DropOffer;
    var stored, d := a.offers[id], Released(a, id, fee);
    var selling, buying := SellingAsset(intent), BuyingAsset(intent);
    ReleasedKeeps(a, r, next, id, fee);
    NewOfferFacts(d, r, next, intent, fee, 1, false);
    OwedInOne(stored, Native);
    OwedInOne(stored, selling);
    OwedInOne(stored, buying);
    assert stored.selling == selling && stored.buying == buying;
    if selling in a.balances { ReleasedEntry(a, id, fee, selling); }
    if buying in a.balances { ReleasedEntry(a, id, fee, buying); }
  }

  /** The ledger after an accepted cancellation. */
  function AfterCancel(ledger: Ledger, source: string, id: nat, fee: nat): Ledger {
    Apply(ledger, Transaction(source, fee, RemoveOffer(id)))
  }

  lemma AfterCancelIsReleased(ledger: Ledger, source: string, id: nat, fee: nat)
    requires source in ledger.accounts && id in ledger.accounts[source].offers && ledger.accounts[source].id == source
    ensures var l := AfterCancel(ledger, source, id, fee);
      && source in l.accounts && l.accounts[source] == Released(ledger.accounts[source], id, fee)
      && l.baseReserve == ledger.baseReserve
  {
    hide Book;
  }

  /**
   * If cancelling an offer and then placing another in its market and on its side would be
   * accepted, so is the direct update -- always when the bought asset is issued, and for the
   * native asset exactly when the proceeds fit without the fee the cancellation would burn.
   */
  lemma UpdateDominatesCancelThenCreate(
    canSign: bool, ledger: Ledger, source: string, id: nat, intent: OfferIntent, allow: bool, fee: nat)
    requires Solvent(ledger) && source in ledger.accounts && id in ledger.accounts[source].offers
    requires SameTrade(ledger.accounts[source].offers[id], intent)
    requires PrepareCancel(canSign, ledger, ledger.accounts[source], id, None, fee).Success?
    requires var l := AfterCancel(ledger, source, id, fee);
      source in l.accounts && PrepareCreate(canSign, l, l.accounts[source], intent, allow, fee).Success?
    ensures var a := ledger.accounts[source];
      PrepareUpdate(canSign, ledger, a, id, intent, fee).Success?
      <==> (BuyingAsset(intent).Native? ==>
              OfferLiabilities(intent.side, intent.amount, intent.price).buying
                <= INT64_MAX - a.balances[Native].balance - a.balances[Native].buying + OfferOwed(a.offers[id]).buying)
  {
    hide OfferLiabilities, OfferOwed, ReserveUnits, MinimumBalance, PreflightNewOffer, PreflightUpdateOffer, UpdateFits,
         EnsureOfferFeeCapacity, DropOffer, Booked, Headroom, AfterCancel, Released, ViewSide, EnsureFullOfferAuthorization;
    var a, r, next := ledger.accounts[source], ledger.baseReserve, ledger.nextOffer;
    assert AccountSolvent(a, r, next);
    AfterCancelIsReleased(ledger, source, id, fee);
    FeeCovered(a, r, next, fee);
    ReleasedKeeps(a, r, next, id, fee);
    assert OfferSound(a, a.offers[id]);
    ViewedExactly(a.offers[id], intent);
    SameAuthorization(a, id, fee, SellingAsset(intent));
    SameAuthorization(a, id, fee, BuyingAsset(intent));
    UpdatePreflightMeaning(a, r, next, intent, a.offers[id], fee);
    if BuyingAsset(intent).Native? ==>
         OfferLiabilities(intent.side, intent.amount, intent.price).buying
           <= INT64_MAX - a.balances[Native].balance - a.balances[Native].buying + OfferOwed(a.offers[id]).buying {
      CreateAfterCancelFits(a, r, next, id, intent, fee);
    } else {
      NativeRoomNeeded(a, r, next, intent, a.offers[id], fee);
    }
  }

  lemma SameAuthorization(a: Account, id: nat, fee: nat, asset: Asset)
    requires id in a.offers
    ensures EnsureFullOfferAuthorization(Released(a, id, fee), asset) == EnsureFullOfferAuthorization(a, asset)
  {
    hide OwedIn;
  }

  lemma NativeRoomNeeded(a: Account, r: nat, next: nat, intent: OfferIntent, stored: Offer, fee: nat)
    requires AccountSolvent(a, r, next) && BuyingAsset(intent).Native?
    requires INT64_MAX - a.balances[Native].balance - a.balances[Native].buying + OfferOwed(stored).buying
           < OfferLiabilities(intent.side, intent.amount, intent.price).buying
    ensures !UpdateFits(a, r, OfferLiabilities(intent.side, intent.amount, intent.price), OfferOwed(stored),
                        SellingAsset(intent), BuyingAsset(intent), fee)
  {
    hide OfferLiabilities, OfferOwed, ReserveUnits, Booked, OfferSound;
  }

  // ---------- resubmitting an unchanged offer ----------

  /** An update that owes what the stored offer owes needs nothing but its fee. */
  lemma UnchangedUpdateNeedsOnlyFee(ledger: Ledger, source: string, id: nat, intent: OfferIntent, fee: nat)
    requires Solvent(ledger) && source in ledger.accounts && id in ledger.accounts[source].offers
    requires WellFormed(intent)
    requires SameTrade(ledger.accounts[source].offers[id], intent)
    requires OfferLiabilities(intent.side, intent.amount, intent.price) == OfferOwed(ledger.accounts[source].offers[id])
    requires EnsureFullOfferAuthorization(ledger.accounts[source], SellingAsset(intent)).Success?
    requires EnsureFullOfferAuthorization(ledger.accounts[source], BuyingAsset(intent)).Success?
    ensures var a := ledger.accounts[source];
      PrepareUpdate(true, ledger, a, id, intent, fee).Success?
      <==> EnsureOfferFeeCapacity(a, ledger.baseReserve, fee).Success?
  {
    hide OfferLiabilities, OfferOwed, ReserveUnits, MinimumBalance, PreflightUpdateOffer, EnsureOfferFeeCapacity, Booked;
    var a, r, next := ledger.accounts[source], ledger.baseReserve, ledger.nextOffer;
    assert AccountSolvent(a, r, next);
    FeeCovered(a, r, next, fee);
    assert OfferSound(a, a.offers[id]);
    UpdatePreflightMeaning(a, r, next, intent, a.offers[id], fee);
    assert forall x :: x in a.balances ==> BalanceSound(a.balances[x]);
  }

  /** The intent that rested an offer, asked for again on the account that holds it. */
  lemma ResubmittedIntentOwesTheSame(intent: OfferIntent)
    requires WellFormed(intent)
    ensures OfferLiabilities(intent.side, intent.amount, intent.price) == OfferOwed(RestingOffer(intent))
    ensures ViewSide(RestingOffer(intent), intent.pair) == Some(intent.side)
  {
    hide OfferLiabilities;
    RestingOwes(intent);
  }
}
