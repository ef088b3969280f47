/** Accepted requests move assets and burn fees; only issuers create or destroy units. */
module Conservation {
  import opened Models
  import opened Liabilities
  import opened Accounts
  import opened Ledgers
  import opened Availability
  import opened Transfers
  import opened Trustlines
  import opened Offers
  import opened Solvency

  function Held(a: Account, asset: Asset): int {
    if asset in a.balances then a.balances[asset].balance else 0
  }

  ghost function TotalHeld(accounts: map<string, Account>, asset: Asset): int {
    if accounts == map[] then
      0
    else
      var id :| id in accounts;
      Held(accounts[id], asset) + TotalHeld(accounts - {id}, asset)
  }

  lemma {:induction false} TotalHeldSplit(accounts: map<string, Account>, asset: Asset, id: string)
    requires id in accounts
    ensures TotalHeld(accounts, asset) == Held(accounts[id], asset) + TotalHeld(accounts - {id}, asset)
  {
    var first :| first in accounts
      && TotalHeld(accounts, asset) == Held(accounts[first], asset) + TotalHeld(accounts - {first}, asset);
    if first != id {
      TotalHeldSplit(accounts - {first}, asset, id);
      TotalHeldSplit(accounts - {id}, asset, first);
      assert accounts - {first} - {id} == accounts - {id} - {first};
    }
  }

  /** All units of an asset, with the native units burnt as fees. */
  ghost function Supply(ledger: Ledger, asset: Asset): int {
    TotalHeld(ledger.accounts, asset) + if asset.Native? then ledger.feePool else 0
  }

  /** Units an operation creates (paid by the issuer) less those it destroys (paid to the issuer). */
  function Issued(tx: Transaction, asset: Asset): int {
    match tx.operation
    case Payment(destination, paid, amount) =>
      if paid != asset || asset.Native? then 0
      else (if asset.issuer == tx.source then amount else 0) - (if asset.issuer == destination then amount else 0)
    case _ => 0
  }

  lemma PutChangesSupply(ledger: Ledger, a: Account, asset: Asset)
    ensures Supply(Put(ledger, a), asset) == Supply(ledger, asset) + Held(a, asset)
      - if a.id in ledger.accounts then Held(ledger.accounts[a.id], asset) else 0
  {
    var accounts' := ledger.accounts[a.id := a];
    TotalHeldSplit(accounts', asset, a.id);
    if a.id in ledger.accounts {
      TotalHeldSplit(ledger.accounts, asset, a.id);
      assert accounts' - {a.id} == ledger.accounts - {a.id};
    } else {
      assert accounts' - {a.id} == ledger.accounts;
    }
  }

  /** What an accepted request takes out of the account that makes it, before any receipt. */
  function Spent(a: Account, operation: Operation, fee: nat, asset: Asset): int {
    (if asset.Native? then fee else 0)
    + match operation
      case Payment(_, paid, amount) => if paid == asset && !Issues(a, paid) then amount else 0
      case CreateAccount(_, starting) => if asset.Native? then starting else 0
      case _ => 0
  }

  lemma OffersHoldNothing(a: Account, id: nat, offer: Offer, asset: Asset)
    ensures Held(RestOffer(a, id, offer), asset) == Held(a, asset)
    ensures id in a.offers ==> Held(DropOffer(a, id), asset) == Held(a, asset)
  {
    hide OwedIn;
  }

  lemma OfferOperationsHoldNothing(a: Account, operation: Operation, next: nat, asset: Asset)
    requires operation.PlaceOffer? || operation.ReplaceOffer? || operation.RemoveOffer?
    ensures Held(ApplyToSource(a, operation, next), asset) == Held(a, asset)
  {
    hide DropOffer, RestOffer, RestingOffer;
    match operation
    case PlaceOffer(intent, trustline) =>
      var buying := BuyingAsset(intent);
      var holder := if trustline.Some? then SetTrustLine(a, buying, trustline.value, true) else a;
      OffersHoldNothing(holder, next, RestingOffer(intent), asset);
    case ReplaceOffer(id, intent) =>
      if id in a.offers {
        OffersHoldNothing(DropOffer(a, id), id, RestingOffer(intent), asset);
        OffersHoldNothing(a, id, RestingOffer(intent), asset);
      }
    case RemoveOffer(id) =>
      if id in a.offers { OffersHoldNothing(a, id, a.offers[id], asset); }
  }

  /** The request of `call` as `Prepare` answers it for one account. */
  ghost predicate Spends(ledger: Ledger, a: Account, call: Call, prepared: Result<Transaction>, asset: Asset) {
    prepared.Success? ==>
      && prepared.value.source == a.id
      && Held(ApplyToSource(PayFee(a, prepared.value.fee), prepared.value.operation, ledger.nextOffer), asset)
           == Held(a, asset) - Spent(a, prepared.value.operation, prepared.value.fee, asset)
  }

  lemma PaymentSpends(ledger: Ledger, a: Account, call: Call, prepared: Result<Transaction>, asset: Asset)
    requires Native in a.balances && forall x :: x in a.balances ==> !Issues(a, x)
    requires call.request.Pay? && var q := call.request;
      prepared == PreparePayment(call.canSign, ledger, a, q.destination, q.asset, q.amount, q.memo, call.fee)
    ensures Spends(ledger, a, call, prepared, asset)
  {
    hide MinimumBalance, ValidateReceive;
  }

  lemma OfferSpends(ledger: Ledger, a: Account, call: Call, prepared: Result<Transaction>, asset: Asset)
    requires Native in a.balances
    requires match call.request
      case CreateOffer(intent, allow) => prepared == PrepareCreate(call.canSign, ledger, a, intent, allow, call.fee)
      case UpdateOffer(id, intent) => prepared == PrepareUpdate(call.canSign, ledger, a, id, intent, call.fee)
      case CancelOffer(id, pair) => prepared == PrepareCancel(call.canSign, ledger, a, id, pair, call.fee)
      case _ => false
    ensures Spends(ledger, a, call, prepared, asset)
  {
    hide PreflightNewOffer, PreflightUpdateOffer, ViewSide, ValidatedIntent, EnsureFullOfferAuthorization, EnsureOfferFeeCapacity;
    hide ApplyToSource;
    if prepared.Success? {
      OfferOperationsHoldNothing(PayFee(a, prepared.value.fee), prepared.value.operation, ledger.nextOffer, asset);
    }
  }

  lemma TrustSpends(ledger: Ledger, a: Account, call: Call, prepared: Result<Transaction>, asset: Asset)
    requires Native in a.balances
    requires match call.request
      case AddTrust(line, limit) => prepared == PrepareAdd(call.canSign, ledger, a, line, limit, call.fee)
      case LimitTrust(line, limit) => prepared == PrepareLimit(call.canSign, ledger, a, line, limit, call.fee)
      case RemoveTrust(line) => prepared == PrepareRemove(call.canSign, ledger, a, line, call.fee)
      case _ => false
    ensures Spends(ledger, a, call, prepared, asset)
  {
    hide EnsureNativeCapacity;
  }

  lemma SourceSpends(ledger: Ledger, call: Call, asset: Asset)
    requires Solvent(ledger) && call.source in ledger.accounts
    ensures Spends(ledger, ledger.accounts[call.source], call, Prepare(ledger, call), asset)
  {
    hide PrepareAdd, PrepareLimit, PrepareRemove, PrepareCreate, PrepareUpdate, PrepareCancel, PreparePayment;
    hide Held, Spent, ApplyToSource;
    var a, prepared := ledger.accounts[call.source], Prepare(ledger, call);
    assert Native in a.balances && (forall x :: x in a.balances ==> !Issues(a, x)) by {
      hide OfferSound, Booked;
      assert AccountSolvent(a, ledger.baseReserve, ledger.nextOffer);
    }
    match call.request
    case Pay(_, _, _, _) => PaymentSpends(ledger, a, call, prepared, asset);
    case CreateOffer(_, _) => OfferSpends(ledger, a, call, prepared, asset);
    case UpdateOffer(_, _) => OfferSpends(ledger, a, call, prepared, asset);
    case CancelOffer(_, _) => OfferSpends(ledger, a, call, prepared, asset);
    case _ => TrustSpends(ledger, a, call, prepared, asset);
  }

  /** The destination of an accepted payment holds the asset or issues it. */
  lemma DestinationReceives(ledger: Ledger, call: Call)
    requires Solvent(ledger) && call.request.Pay? && Prepare(ledger, call).Success?
    requires call.request.destination in ledger.accounts
    ensures var d := ledger.accounts[call.request.destination];
      call.request.asset in d.balances <==> !Issues(d, call.request.asset)
    ensures Prepare(ledger, call).value.operation
      == Payment(call.request.destination, call.request.asset, call.request.amount)
  {
    hide MinimumBalance, OfferSound, Booked;
    var d := ledger.accounts[call.request.destination];
    assert AccountSolvent(d, ledger.baseReserve, ledger.nextOffer);
  }

  lemma KnownSource(ledger: Ledger, call: Call)
    ensures Prepare(ledger, call).Success? ==> call.source in ledger.accounts
  {
  }

  lemma ReceiptChangesSupply(l: Ledger, to: string, paid: Asset, amount: nat, asset: Asset)
    requires to in l.accounts && l.accounts[to].id == to
    ensures Supply(Credited(l, to, paid, amount), asset)
         == Supply(l, asset) + if paid == asset && paid in l.accounts[to].balances then amount else 0
  {
    hide TotalHeld;
    PutChangesSupply(l, AddToBalance(l.accounts[to], paid, amount), asset);
  }

  /** The ledger once the source has paid, before anyone receives. */
  function Debited(ledger: Ledger, tx: Transaction): Ledger
    requires tx.source in ledger.accounts
  {
    Put(ledger, ApplyToSource(PayFee(ledger.accounts[tx.source], tx.fee), tx.operation, ledger.nextOffer))
      .(feePool := ledger.feePool + tx.fee)
  }

  lemma DebitChangesSupply(ledger: Ledger, call: Call, asset: Asset)
    requires Solvent(ledger) && call.source in ledger.accounts && Prepare(ledger, call).Success?
    ensures var a, tx := ledger.accounts[call.source], Prepare(ledger, call).value;
      && tx.source == a.id == call.source
      && Supply(Debited(ledger, tx), asset)
           == Supply(ledger, asset) - Spent(a, tx.operation, tx.fee, asset) + (if asset.Native? then tx.fee else 0)
      && (forall id :: id in ledger.accounts ==> id in Debited(ledger, tx).accounts && Debited(ledger, tx).accounts[id].id == id)
      && (tx.operation.Payment? ==> forall id :: id in ledger.accounts ==>
            Debited(ledger, tx).accounts[id].balances.Keys == ledger.accounts[id].balances.Keys)
  {
    hide AccountSolvent, Prepare, ApplyToSource, TotalHeld, Spent, PayFee;
    SourceSpends(ledger, call, asset);
    var a, tx := ledger.accounts[call.source], Prepare(ledger, call).value;
    var source := ApplyToSource(PayFee(a, tx.fee), tx.operation, ledger.nextOffer);
    SourceKeepsIdentity(a, tx.fee, tx.operation, ledger.nextOffer);
    PutChangesSupply(ledger, source, asset);
  }

  /** An accepted request changes the supply by what its issuer creates or destroys, and nothing else. */
  lemma StepConserves(ledger: Ledger, call: Call, asset: Asset)
    requires Solvent(ledger) && Prepare(ledger, call).Success?
    ensures Supply(Apply(ledger, Prepare(ledger, call).value), asset)
         == Supply(ledger, asset) + Issued(Prepare(ledger, call).value, asset)
  {
    hide AccountSolvent, Prepare, ApplyToSource, TotalHeld, PayFee;
    KnownSource(ledger, call);
    DebitChangesSupply(ledger, call, asset);
    PaymentIsAPay(ledger, call);
    var tx := Prepare(ledger, call).value;
    var l := Debited(ledger, tx);
    match tx.operation
    case Payment(to, paid, amount) =>
      DestinationReceives(ledger, call);
      ReceiptChangesSupply(l, to, paid, amount, asset);
    case CreateAccount(to, starting) =>
      NoNewIdentity(ledger, tx);
      PutChangesSupply(l, NewAccount(to, starting), asset);
    case _ =>
  }

  lemma NoNewIdentity(ledger: Ledger, tx: Transaction)
    requires Solvent(ledger) && tx.source in ledger.accounts
    ensures Debited(ledger, tx).accounts.Keys == ledger.accounts.Keys
  {
    hide AccountSolvent, ApplyToSource, PayFee;
    SourceKeepsIdentity(ledger.accounts[tx.source], tx.fee, tx.operation, ledger.nextOffer);
  }

  lemma SourceKeepsIdentity(a: Account, fee: nat, operation: Operation, next: nat)
    ensures var a' := ApplyToSource(PayFee(a, fee), operation, next);
      a'.id == a.id && (operation.Payment? ==> a'.balances.Keys == a.balances.Keys)
  {
    hide OfferLiabilities, OwedIn, Book, RestingOffer;
    var paid := PayFee(a, fee);
    assert paid.id == a.id && paid.balances.Keys == a.balances.Keys;
    hide PayFee;
    match operation
    case Payment(_, _, _) =>
    case CreateAccount(_, _) =>
    case ChangeTrust(_, _, _) =>
    case PlaceOffer(_, _) =>
    case ReplaceOffer(_, _) =>
    case RemoveOffer(_) =>
  }

  lemma PaymentIsAPay(ledger: Ledger, call: Call)
    requires Prepare(ledger, call).Success?
    ensures var op := Prepare(ledger, call).value.operation;
      && (op.Payment? ==> (call.request.Pay? && call.request.destination in ledger.accounts
            && op.destination == call.request.destination && op.asset == call.request.asset))
      && (op.CreateAccount? ==> call.request.Pay? && op.destination !in ledger.accounts)
  {
    hide PreflightNewOffer, PreflightUpdateOffer, ViewSide, ValidatedIntent, EnsureFullOfferAuthorization, EnsureOfferFeeCapacity;
    hide EnsureNativeCapacity, ValidateTransfer, ValidateReceive, CheckedLimit;
  }

  /** Every transaction a run gets accepted, in order. */
  function Accepted(ledger: Ledger, calls: seq<Call>): seq<Transaction>
    decreases |calls|
  {
    if |calls| == 0 then
      []
    else
      hide Step, Prepare;
      (match Prepare(ledger, calls[0]) case Success(tx) => [tx] case Failure(_) => [])
        + Accepted(Step(ledger, calls[0]), calls[1..])
  }

  function NetIssued(txs: seq<Transaction>, asset: Asset): int {
    if |txs| == 0 then 0 else Issued(txs[0], asset) + NetIssued(txs[1..], asset)
  }

  /** Over any run the supply moves only by issuance. */
  lemma {:induction false} RunConserves(ledger: Ledger, calls: seq<Call>, asset: Asset)
    requires Solvent(ledger)
    ensures Supply(Run(ledger, calls), asset) == Supply(ledger, asset) + NetIssued(Accepted(ledger, calls), asset)
    decreases |calls|
  {
    hide Solvent, Prepare, Supply, Apply, Issued;
    if |calls| != 0 {
      StepKeepsSolvent(ledger, calls[0]);
      RunConserves(Step(ledger, calls[0]), calls[1..], asset);
      var rest := Accepted(Step(ledger, calls[0]), calls[1..]);
      if Prepare(ledger, calls[0]).Success? {
        StepConserves(ledger, calls[0], asset);
        var tx := Prepare(ledger, calls[0]).value;
        assert ([tx] + rest)[1..] == rest;
      } else {
        assert [] + rest == rest;
      }
    }
  }

  lemma {:induction false} NativeNeverIssued(txs: seq<Transaction>)
    ensures NetIssued(txs, Native) == 0
  {
    if |txs| != 0 { NativeNeverIssued(txs[1..]); }
  }

  /** No run creates or loses a stroop of the native asset: holdings and burnt fees stay constant. */
  lemma NativeConserved(ledger: Ledger, calls: seq<Call>)
    requires Solvent(ledger)
    ensures Supply(Run(ledger, calls), Native) == Supply(ledger, Native)
  {
    hide Solvent, Supply, Run, Accepted;
    RunConserves(ledger, calls, Native);
    NativeNeverIssued(Accepted(ledger, calls));
  }
}
