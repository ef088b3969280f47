/** Payment and account-creation preflight (transfer_service.py). */
module Transfers {
  import opened Models
  import opened Accounts
  import opened Availability
  import opened Ledgers

  function PreparePayment(
    canSign: bool, ledger: Ledger, source: Account, destination: string, asset: Asset, amount: int, memo: bool, fee: nat
  ): Result<Transaction>
  {
    if !canSign then
      Failure(WatchOnly)
    else
      var createDestination := destination !in ledger.accounts;
      if createDestination && !asset.Native? then
        Failure(TransactionRefused)
      else
        var requested :- ValidateTransfer(source, asset, amount, ledger.baseReserve, fee);
        if createDestination then
          if requested < 2 * ledger.baseReserve then
            Failure(InvalidAmount)
          else
            Success(Transaction(source.id, fee, CreateAccount(destination, requested)))
        else
          var receiver := ledger.accounts[destination];
          var _ :- ValidateReceive(receiver, asset, requested);
          if !memo && receiver.memoRequired then
            Failure(MemoRequired)
          else
            Success(Transaction(source.id, fee, Payment(destination, asset, requested)))
  }
}
