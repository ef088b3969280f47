/** What an account may spend and receive (availability.py). */
module Availability {
  import opened Models
  import opened Arithmetic
  import opened Accounts

  function AvailableForTransfer(account: Account, asset: Asset, baseReserve: nat, fee: nat): nat {
    if Issues(account, asset) then
      INT64_MAX
    else
      match FindBalance(account, asset)
      case None => 0
      case Some(raw) =>
        if !asset.Native? then
          Max(raw.balance - raw.selling, 0)
        else
          Max(raw.balance - raw.selling - MinimumBalance(account, baseReserve) - fee, 0)
  }

  function EnsureFullAuthorization(raw: Option<Balance>): Result<()> {
    if raw.Some? && raw.value.authorized then Success(()) else Failure(TransactionRefused)
  }

  function PositiveAmount(amount: int): Result<nat> {
    if amount <= 0 then Failure(InvalidAmount) else Success(amount)
  }

  /** The native balance above liabilities and reserve; negative when the account is short. */
  function FreeNative(account: Account, baseReserve: nat): Result<int> {
    match FindBalance(account, Native)
    case None => Failure(InsufficientBalance)
    case Some(native) => Success(native.balance - native.selling - MinimumBalance(account, baseReserve))
  }

  function ValidateTransfer(account: Account, asset: Asset, amount: int, baseReserve: nat, fee: nat): Result<nat> {
    var requested :- PositiveAmount(amount);
    var _ :- if asset.Credit? && asset.issuer != account.id
             then EnsureFullAuthorization(FindBalance(account, asset)) else Success(());
    if requested > AvailableForTransfer(account, asset, baseReserve, fee) then
      Failure(InsufficientBalance)
    else if !asset.Native? then
      var freeBeforeFee :- FreeNative(account, baseReserve);
      if freeBeforeFee < fee then Failure(InsufficientBalance) else Success(requested)
    else
      Success(requested)
  }

  function ReceivingCapacity(account: Account, asset: Asset): nat {
    if Issues(account, asset) then
      INT64_MAX
    else
      match FindBalance(account, asset)
      case None => 0
      case Some(raw) =>
        if asset.Native? then
          Max(INT64_MAX - raw.balance - raw.buying, 0)
        else
          Max(raw.limit - raw.balance - raw.buying, 0)
  }

  function ValidateReceive(account: Account, asset: Asset, amount: int): Result<nat> {
    var requested :- PositiveAmount(amount);
    var _ :- if asset.Credit? && asset.issuer != account.id
             then EnsureFullAuthorization(FindBalance(account, asset)) else Success(());
    if requested > ReceivingCapacity(account, asset) then Failure(InsufficientBalance) else Success(requested)
  }
}
