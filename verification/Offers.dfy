/** Offer create, update and cancel preflights (offer_service.py). */
module Offers {
  import opened Models
  import opened Arithmetic
  import opened PriceRatios
  import opened Liabilities
  import opened Accounts
  import opened Ledgers
  import opened Trustlines

  /** `_validated_intent`, and the int64 range an offer operation can carry. */
  function ValidatedIntent(intent: OfferIntent): Result<OfferIntent> {
    if intent.pair.base == intent.pair.counter then Failure(TransactionRefused)
    else if intent.amount == 0 || INT64_MAX < intent.amount then Failure(InvalidAmount)
    else Success(intent)
  }

  /** Two different assets, and an amount the ledger can carry. */
  predicate WellFormed(intent: OfferIntent) {
    intent.pair.base != intent.pair.counter && 1 <= intent.amount <= 9_223_372_036_854_775_807
  }

  /** Every well-formed intent is let through as it is, a buy like a sell, and no other. */
  lemma ValidatedExactly(intent: OfferIntent)
    ensures ValidatedIntent(intent).Success? <==> WellFormed(intent)
    ensures ValidatedIntent(intent).Success? ==> ValidatedIntent(intent).value == intent
    ensures ValidatedIntent(intent).Failure? ==>
      ValidatedIntent(intent).error == if intent.pair.base == intent.pair.counter then TransactionRefused else InvalidAmount
  {
  }

  /** The side `offer_view_for_pair` gives a stored offer in a market orientation. */
  function ViewSide(offer: Offer, pair: MarketPair): Option<Side> {
    if offer.selling == pair.base && offer.buying == pair.counter then Some(Sell)
    else if offer.selling == pair.counter && offer.buying == pair.base then Some(Buy)
    else None
  }

  /** The stored offer sells what the intent sells, for what the intent buys. */
  predicate SameTrade(offer: Offer, intent: OfferIntent) {
    offer.selling == SellingAsset(intent) && offer.buying == BuyingAsset(intent)
  }

  /** The stored offer trades the two assets of the market, either way round. */
  predicate InMarket(offer: Offer, pair: MarketPair) {
    (offer.selling == pair.base && offer.buying == pair.counter) || (offer.selling == pair.counter && offer.buying == pair.base)
  }

  /** A stored offer is seen on one side of a market exactly when it trades what an offer on that side does. */
  lemma ViewedExactly(offer: Offer, intent: OfferIntent)
    requires WellFormed(intent)
    ensures ViewSide(offer, intent.pair) == Some(intent.side) <==> SameTrade(offer, intent)
    ensures ViewSide(offer, intent.pair).Some? <==> InMarket(offer, intent.pair)
  {
  }

  function EnsureFullOfferAuthorization(account: Account, asset: Asset): Result<()> {
    if asset.Native? || Issues(account, asset) then
      Success(())
    else
      match FindBalance(account, asset)
      case None => Failure(TransactionRefused)
      case Some(raw) => if raw.authorized then Success(()) else Failure(TransactionRefused)
  }

  /** `_receiving_capacity_stroops`. */
  function ReceivingCapacityStroops(account: Account, asset: Asset, newTrustlineLimit: nat): Result<nat> {
    if Issues(account, asset) then
      Success(INT64_MAX)
    else
      match FindBalance(account, asset)
      case None => if asset.Native? then Failure(TransactionRefused) else Success(newTrustlineLimit)
      case Some(raw) =>
        if asset.Native? then
          Success(Max(INT64_MAX - raw.balance - raw.buying, 0))
        else
          Success(Max(raw.limit - raw.balance - raw.buying, 0))
  }

  function PreflightNewOffer(
    account: Account, intent: OfferIntent, baseReserve: nat, fee: nat, extraSubentries: nat, addsTrustline: bool
  ): Result<()>
  {
    var selling, buying := SellingAsset(intent), BuyingAsset(intent);
    var owed := OfferLiabilities(intent.side, intent.amount, intent.price);
    var reserve := ReserveUnits(account, extraSubentries) * baseReserve;
    var requiredSelling := owed.selling + if selling.Native? then reserve + fee else 0;
    if (selling.Native? || selling.issuer != account.id)
       && requiredSelling > AvailableBalance(FindBalance(account, selling)) then
      Failure(InsufficientBalance)
    else if !selling.Native? && reserve + fee > AvailableBalance(FindBalance(account, Native)) then
      Failure(InsufficientBalance)
    else
      var newLimit := if addsTrustline then FRESNICA_TRUSTLINE_LIMIT else 0;
      var capacity :- ReceivingCapacityStroops(account, buying, newLimit);
      if owed.buying > capacity then Failure(InsufficientBalance) else Success(())
  }

  function EnsureOfferFeeCapacity(account: Account, baseReserve: nat, fee: nat): Result<()> {
    var free := Max(AvailableBalance(FindBalance(account, Native)) - MinimumBalance(account, baseReserve), 0);
    if free < fee then Failure(InsufficientBalance) else Success(())
  }

  function PreflightUpdateOffer(
    account: Account, intent: OfferIntent, offer: Offer, baseReserve: nat, fee: nat
  ): Result<()>
  {
    var selling, buying := SellingAsset(intent), BuyingAsset(intent);
    var _ :- EnsureOfferFeeCapacity(account, baseReserve, fee);
    var newOwed := OfferLiabilities(intent.side, intent.amount, intent.price);
    var oldOwed := OfferOwed(offer);
    var availableAfterRelease := AvailableBalance(FindBalance(account, selling)) + oldOwed.selling;
    var requiredSelling := newOwed.selling
      + if selling.Native? then MinimumBalance(account, baseReserve) + fee else 0;
    if (selling.Native? || selling.issuer != account.id) && requiredSelling > availableAfterRelease then
      Failure(InsufficientBalance)
    else
      var capacity :- ReceivingCapacityStroops(account, buying, 0);
      var receiveAfterRelease := if Issues(account, buying) then INT64_MAX as nat else capacity + oldOwed.buying;
      if newOwed.buying > receiveAfterRelease then Failure(InsufficientBalance) else Success(())
  }

  function PrepareCreate(
    canSign: bool, ledger: Ledger, account: Account, rawIntent: OfferIntent, allowTrustline: bool, fee: nat
  ): Result<Transaction>
  {
    if !canSign then
      Failure(WatchOnly)
    else
      var intent :- ValidatedIntent(rawIntent);
      var selling, buying := SellingAsset(intent), BuyingAsset(intent);
      var addsTrustline := !CanHold(account, buying);
      var _ :- EnsureFullOfferAuthorization(account, selling);
      var _ :- if addsTrustline then Success(()) else EnsureFullOfferAuthorization(account, buying);
      if addsTrustline && allowTrustline
         && (buying.issuer !in ledger.accounts || ledger.accounts[buying.issuer].authRequired) then
        Failure(TransactionRefused)
      else
        var operationCount := if addsTrustline then 2 else 1;
        var _ :- PreflightNewOffer(account, intent, ledger.baseReserve, fee * operationCount, operationCount, addsTrustline);
        if addsTrustline && !allowTrustline then
          Failure(TrustlineConfirmationRequired)
        else
          Success(Transaction(account.id, fee * operationCount,
            PlaceOffer(intent, if addsTrustline then Some(FRESNICA_TRUSTLINE_LIMIT) else None)))
  }

  function PrepareUpdate(canSign: bool, ledger: Ledger, account: Account, offerId: nat, rawIntent: OfferIntent, fee: nat): Result<Transaction> {
    if !canSign then
      Failure(WatchOnly)
    else
      var intent :- ValidatedIntent(rawIntent);
      if offerId !in account.offers || ViewSide(account.offers[offerId], intent.pair) != Some(intent.side) then
        Failure(TransactionRefused)
      else
        var _ :- EnsureFullOfferAuthorization(account, SellingAsset(intent));
        var _ :- EnsureFullOfferAuthorization(account, BuyingAsset(intent));
        var _ :- PreflightUpdateOffer(account, intent, account.offers[offerId], ledger.baseReserve, fee);
        Success(Transaction(account.id, fee, ReplaceOffer(offerId, intent)))
  }

  function PrepareCancel(
    canSign: bool, ledger: Ledger, account: Account, offerId: nat, pair: Option<MarketPair>, fee: nat
  ): Result<Transaction>
  {
    if !canSign then
      Failure(WatchOnly)
    else if offerId !in account.offers then
      Failure(TransactionRefused)
    else if pair.Some? && ViewSide(account.offers[offerId], pair.value).None? then
      Failure(TransactionRefused)
    else
      var _ :- EnsureOfferFeeCapacity(account, ledger.baseReserve, fee);
      Success(Transaction(account.id, fee, RemoveOffer(offerId)))
  }
}
