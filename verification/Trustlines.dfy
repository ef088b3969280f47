/** Trustline add, limit and remove preflights (trustline_service.py). */
module Trustlines {
  import opened Models
  import opened Accounts
  import opened Availability
  import opened Ledgers

  /** 708269837873.6765 of an asset, in stroops. */
  const FRESNICA_TRUSTLINE_LIMIT: nat := 7_082_698_378_736_765_000

  /** Wallet and asset checks every trustline request starts with. */
  function CheckedAsset(canSign: bool, account: Account, asset: Asset): Result<()> {
    if !canSign then Failure(WatchOnly)
    else if asset.Native? || Issues(account, asset) then Failure(TransactionRefused)
    else Success(())
  }

  /** `_limit`, and the int64 range a ChangeTrust operation can carry. */
  function CheckedLimit(limit: int): Result<nat> {
    if limit <= 0 || INT64_MAX < limit then Failure(InvalidAmount) else Success(limit)
  }

  function EnsureNativeCapacity(account: Account, baseReserve: nat, fee: nat, additionalReserve: nat): Result<()> {
    var free :- FreeNative(account, baseReserve);
    if free < fee + additionalReserve then Failure(InsufficientBalance) else Success(())
  }

  function PrepareAdd(canSign: bool, ledger: Ledger, account: Account, asset: Asset, limit: Option<int>, fee: nat): Result<Transaction> {
    var _ :- CheckedAsset(canSign, account, asset);
    var limitValue :- CheckedLimit(if limit.Some? then limit.value else FRESNICA_TRUSTLINE_LIMIT);
    if FindBalance(account, asset).Some? then
      Failure(TransactionRefused)
    else if asset.issuer !in ledger.accounts then
      Failure(TransactionRefused)
    else
      var authorized := !ledger.accounts[asset.issuer].authRequired;
      var _ :- EnsureNativeCapacity(account, ledger.baseReserve, fee, ledger.baseReserve);
      Success(Transaction(account.id, fee, ChangeTrust(asset, limitValue, authorized)))
  }

  function PrepareLimit(canSign: bool, ledger: Ledger, account: Account, asset: Asset, limit: int, fee: nat): Result<Transaction> {
    var _ :- CheckedAsset(canSign, account, asset);
    var limitValue :- CheckedLimit(limit);
    match FindBalance(account, asset)
    case None => Failure(TransactionRefused)
    case Some(raw) =>
      if limitValue < raw.balance + raw.buying then
        Failure(InvalidAmount)
      else if asset.issuer !in ledger.accounts then
        Failure(TransactionRefused)
      else
        var _ :- EnsureNativeCapacity(account, ledger.baseReserve, fee, 0);
        Success(Transaction(account.id, fee, ChangeTrust(asset, limitValue, raw.authorized)))
  }

  function PrepareRemove(canSign: bool, ledger: Ledger, account: Account, asset: Asset, fee: nat): Result<Transaction> {
    var _ :- CheckedAsset(canSign, account, asset);
    match FindBalance(account, asset)
    case None => Failure(TransactionRefused)
    case Some(raw) =>
      if raw.balance != 0 || raw.selling != 0 || raw.buying != 0 then
        Failure(TransactionRefused)
      else
        var _ :- EnsureNativeCapacity(account, ledger.baseReserve, fee, 0);
        Success(Transaction(account.id, fee, ChangeTrust(asset, 0, false)))
  }
}
