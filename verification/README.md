# Fresnica, verified model

A Dafny model of the reference implementation of Fresnica, a Stellar wallet: the arithmetic and
preflights behind its offers, payments and trustlines, the caches it keeps of an append-only remote
log, the aggregation of trades into fills, the review binding of Soroban transactions, and the
lifecycle of wallets under one application passcode. Amounts are integer stroops throughout.
`dafny verify dfyconfig.toml` checks the whole project.

## Structure

| files | what they hold |
|---|---|
| `Models`, `Arithmetic` | shared value types, outcomes, and the facts about division and gcd used everywhere |
| `PriceRatio`, `Liabilities` | the continued-fraction price loop and the exchange rounding of offers (CAP-0003, section "Specification") |
| `Accounts`, `Ledger`, `Availability`, `Transfers`, `Trustlines`, `Offers` | accounts, the four preflights as they are written, and the ledger effect of what they accept |
| `Solvency`, `Conservation`, `Exactness`, `OfferLaws` | what every run keeps, that nothing is created, that nothing acceptable is refused, and how the offer preflights relate |
| `RemoteLogs`, `Trimming`, `Horizon`, `DataStore`, `History`, `Dex` | the remote log and its pages, the in-memory cache, and the sync services as imperative classes over both |
| `SegmentKeys`, `TradeSegments` | compression of trades and market orientation |
| `Authorization`, `Soroban`, `Transactions` | authorization entries, review binding, signing and submission |
| `WalletStorage`, `Wallets` | sealed records, the record store and the wallet manager |

## How to read it

* A request is a step: the preflight decides on the ledger as it is, and what it accepts has the
  effect the Stellar ledger gives that operation when the offers it rests cross nothing.
  `Solvency.Run` is a sequence of such requests from any accounts.
* `HorizonServer.Horizon` serves pages of logs that only grow. While it is not `steady`, any call may
  fail and records may arrive before any call. It counts the records it serves and the calls that fail, and
  keeps every answer about offers, so that a method's outcome is stated on what it was answered. Sync
  methods carry ghost bounds that say which stretch of the log the cache is; `RemoteLogs.IsBlock` is that
  statement. In the same way the submit service and the signing desk keep what reached them.
* Envelope and entry texts are symbolic: the text of a content is the content, an entry has one
  canonical text and other spellings that decode to it. The hash of an envelope is an arbitrary function
  of its unsigned content; collision freedom is assumed only where a statement says so.
* A sealed secret opens under the one password it was sealed with.
* `Authorization.Meaning` is a transaction with every signature blanked out: what a user reviewed.

## Where the code promises less than one would expect

* The ceiling branch of the exchange rounding is idempotent only for some prices, and past int64 sells below
  a price of one are monotone in the amount only for the same prices (`SellFormIsFixedPoint`, `CeilingNotFixed`,
  `MonotoneExactly`, `NotMonotonePastInt64`). The code's intent validation has no upper bound; an amount past
  int64 is left for the transaction builder to refuse, which the model does in `Offers.ValidatedIntent`.
* For native proceeds the offer preflights count the room before the fee leaves. An offer the ledger
  could bear may be refused, and an update can be refused where cancelling and creating would pass
  (`CreateExact`, `UpdateExact`, `NativeProceedsRefused`, `UpdateDominatesCancelThenCreate`,
  `UpdateRefusedWhereCancelPasses`).
* In windowed mode a sync completes the cache only if the cache was empty or already reached back to the
  window; what an interrupted first load missed is not fetched later (`OneSync`, `InterruptedLoadStaysShort`).
* An accepted authorization answer need not carry a signature. The check compares texts and facts, and an
  answer that reads as the entry without its signature passes both: spelled differently when the entry came
  unsigned, in any spelling when it came signed, so that authorizing twice can take a signature off again
  (`AcceptedAnswerSigned`, `UnsignedAnswerAccepted`, `SignatureStripped`, `SignatureLostOnSecondCall`). For the
  same reason an authorization that fails after replacing an entry unbinds the envelope, and with that blocks
  every later signature, exactly when some entry before the failure really changed (`Authorize`,
  `FailedAuthorizationBlocksSigning`, `FailedCallStaysBound`).
* The first signing wallet restored from a backup is not opened, so a backup that names another signer
  than it holds leaves no passcode at all (`RestoreBackup`, `MismatchedBackupLeavesNoPasscode`).
* `reprotect_signer` rewrites one signer and ends the common passcode unless it is the only one or keeps
  its password (`ReprotectSigner`, `ReprotectionEndsPasscode`).

## Model
| member | source | states |
|---|---|---|
| PriceRatios.StellarPriceRatio | reference/python/fresnica/offer_service.py:412-449 | the loop terminates; it raises only for a negative price; a price beyond SCALE*INT32_MAX gives (INT32_MAX, 1); otherwise the fraction is coprime, inside the int32 box, leaves no larger a residual than every fraction with an int32 numerator or with no larger denominator, is exact exactly when the reduced price fits the box, and its residual times INT32_MAX stays below the price |
| PriceRatios.CloserThanAny | reference/python/fresnica/offer_service.py:419-433 | a convergent leaves no larger a residual than any fraction whose numerator or denominator is below that of the next convergent |
| PriceRatios.CombinationAtLeast | reference/python/fresnica/offer_service.py:419-433 | the lattice argument under it, for either coordinate: a combination of two consecutive convergents that stays below the larger one leaves at least the remainder of the smaller |
| PriceRatios.StoppedEarly | reference/python/fresnica/offer_service.py:420-426 | the loop ends with something left to expand only because the next numerator does not fit int32; the rest is then below price/INT32_MAX and the next convergent is larger in both parts |
| PriceRatios.StoppedConvergent | reference/python/fresnica/offer_service.py:420-426 | the convergent left by such a stop meets the whole promise |
| PriceRatios.StoppedExactly | reference/python/fresnica/offer_service.py:430-432 | leaving the loop on a zero remainder gives exactly the price in lowest terms |
| PriceRatios.NextRound | reference/python/fresnica/offer_service.py:422-433 | one round carries the expansion on from the next convergent, with cross difference plus or minus one, or ends on the price |
| PriceRatios.FinishedEarly | reference/python/fresnica/offer_service.py:420-426 | where the two guards stop, the current convergent is the last one that fits |
| Liabilities.Int64LimitsNeverStay | reference/python/fresnica/offer_service.py:361-363 | with both limits inside int64 the ceiling branch is never taken |
| Liabilities.ExchangeMeetsLimits | reference/python/fresnica/offer_service.py:372-378 | below the ceiling: both limits are respected, 0 <= W*n - S*d < min(n, d), and the side rounded first is the largest integer the limits allow |
| Liabilities.LimitsDetermineLiabilities | reference/python/fresnica/offer_service.py:372-378 | that specification is met by the computed pair and by no other |
| Liabilities.LiabilitiesFitInt64 | reference/python/fresnica/offer_service.py:355-378 | over all four branches and all natural limits both results fit int64 |
| Liabilities.OfferMeetsRequest | reference/python/fresnica/offer_service.py:341-352 | what an offer owes, from the amount asked for: the one pair that meets the rounding promise when a sell hands over at most the amount, or a buy takes in at most the amount; for every int64 amount, and past int64 at every price of one and above |
| Liabilities.CheckedExchange | reference/python/fresnica/offer_service.py:355-378 | refuses exactly non-positive prices and negative limits; what it returns fits int64 |
| Liabilities.BalancedPairRests | reference/python/fresnica/offer_service.py:355-378 | any pair that balances at the price is what the sell form computes from its own selling amount |
| Liabilities.SellFormIsFixedPoint | reference/python/fresnica/offer_service.py:355-378 | re-running the sell form on its own result changes nothing, if and only if the ceiling branch was not taken or the price alone leaves nothing to round in it |
| Liabilities.CeilingBalances | reference/python/fresnica/offer_service.py:365-371 | in the ceiling branch the pair balances at the price exactly when that branch is exact for the price |
| Liabilities.CeilingNotFixed | reference/python/fresnica/offer_service.py:365-371 | an input whose result is not its own sell form: price 3/5, one stroop past int64 |
| Liabilities.StoredOfferAgrees | reference/python/fresnica/offer_service.py:277-279 | an intent and the sell offer the ledger stores for it have the same liabilities, on both sides: what the update path computes as old liabilities is what create computed |
| Liabilities.LiabilitiesMonotone | reference/python/fresnica/offer_service.py:341-378 | for fixed side and price both liabilities are non-decreasing in the amount over all int64 amounts |
| Liabilities.MonotoneExactly | reference/python/fresnica/offer_service.py:341-378 | over all amounts: buys are monotone at every price, sells if and only if the price is at least one or the ceiling branch is exact for it |
| Liabilities.PastInt64 | reference/python/fresnica/offer_service.py:341-378 | every amount past int64, at a price below one, against INT64_MAX: a buy has one stroop more to receive and a sell owes one stroop less, each exactly where the ceiling rounds for the price, and nothing else changes |
| Liabilities.NotMonotonePastInt64 | reference/python/fresnica/offer_service.py:361-378 | the sell form at 3/5: one stroop more than INT64_MAX owes one stroop less, so the price is not monotone |
| Liabilities.NothingForNothing | reference/python/fresnica/offer_service.py:355-378 | nothing is sold if and only if nothing is bought, so an offer with a non-zero stored amount owes on both sides |
| Liabilities.CeilDivBounds | reference/python/fresnica/offer_service.py:381-384 | the ceiling division is the least multiple count that reaches the numerator |
| Solvency.TransferKeeps | reference/python/fresnica/transfer_service.py:50-71 | a payment or account creation accepted by `Transfers.PreparePayment` (with `Availability.ValidateTransfer` and `ValidateReceive`) leaves every account solvent |
| Solvency.PayerKeeps | reference/python/fresnica/availability.py:97-135 | the paying side of an accepted transfer keeps reserve, liabilities and fee covered |
| Solvency.ReceiverKeeps | reference/python/fresnica/availability.py:138-159 | the receiving side stays within its limit and its buying liabilities |
| Solvency.AddTrustKeeps | reference/python/fresnica/trustline_service.py:23-51 | an accepted new trustline keeps the reserve for one more entry |
| Solvency.LimitTrustKeeps | reference/python/fresnica/trustline_service.py:53-82 | an accepted limit still covers balance plus buying liabilities |
| Solvency.RemoveTrustKeeps | reference/python/fresnica/trustline_service.py:84-108 | an accepted removal takes away an entry no resting offer uses |
| Solvency.CreateOfferKeeps | reference/python/fresnica/offer_service.py:76-122 | an accepted new offer, with or without its new trustline, leaves every account solvent |
| Solvency.UpdateOfferKeeps | reference/python/fresnica/offer_service.py:124-156 | an accepted update, released and rested again, leaves every account solvent |
| Solvency.CancelOfferKeeps | reference/python/fresnica/offer_service.py:158-183 | an accepted cancellation leaves every account solvent |
| Solvency.NewOfferFacts | reference/python/fresnica/offer_service.py:197-261 | what an accepted new-offer preflight has left free, stated on the balances themselves |
| Solvency.RoomAfterRelease | reference/python/fresnica/offer_service.py:264-316 | an accepted update preflight leaves room for the new offer once the old one is released |
| Solvency.RestingOwes | reference/python/fresnica/offer_service.py:277-279 | the ledger books for the resting offer exactly what the preflight computed for the intent |
| Solvency.TotalOwedSplit | reference/python/fresnica/offer_service.py:341-352 | the liabilities of a set of resting offers do not depend on the order they are summed in |
| Solvency.StepKeepsSolvent | reference/python/fresnica/offer_service.py:197-338 | any request to any of the four services, accepted or refused, takes a solvent ledger to a solvent ledger |
| Solvency.RunKeepsSolvent | reference/python/fresnica/offer_service.py:197-338 | over every run: native balance less selling liabilities covers the reserve, every entry has balance >= selling and balance + buying <= limit, booked liabilities are the sums over the resting offers, entry counts match |
| Accounts.ReserveMeaning | reference/python/fresnica/availability.py:14-27 | the reserve a balance has to carry: two entries, those the account has or adds and those it sponsors, less the ones sponsored for it |
| Offers.ValidatedExactly | reference/python/fresnica/offer_service.py:530-545 | an intent passes if and only if its assets differ and its amount is positive and fits int64, whichever its side; it passes unchanged |
| Offers.ViewedExactly | reference/python/fresnica/offer_service.py:41-62 | a stored offer counts as being on one side of a market if and only if it sells and buys what an offer on that side does |
| Conservation.StepConserves | reference/python/fresnica/transfer_service.py:73-84 | an accepted request moves, but does not create, an asset: total holdings plus burnt fees change by what an issuer pays out or takes back |
| Conservation.RunConserves | reference/python/fresnica/transfer_service.py:73-84 | over every run the supply of an asset changes by the net issuance of the accepted transactions |
| Conservation.NativeConserved | reference/python/fresnica/transfer_service.py:73-84 | over every run native holdings plus burnt fees are constant |
| Exactness.PaymentExact | reference/python/fresnica/availability.py:97-159 | a payment between two accounts that may move the asset is accepted if and only if the resulting ledger is solvent, and builds exactly that payment |
| Exactness.AccountCreationExact | reference/python/fresnica/transfer_service.py:64-84 | a creating payment is accepted if and only if the resulting ledger, new account included, is solvent, and builds exactly that creation |
| Exactness.AddExact | reference/python/fresnica/trustline_service.py:23-51 | a first trustline is accepted if and only if the resulting ledger, which carries the extra entry and the fee, is solvent, and builds exactly that line |
| Exactness.LimitExact | reference/python/fresnica/trustline_service.py:53-82 | a new limit is accepted if and only if the resulting ledger is solvent, and builds exactly that limit |
| Exactness.RemoveExact | reference/python/fresnica/trustline_service.py:84-108 | a trustline is removed if and only if it is empty, the fee is free while it is still there, and the resulting ledger is solvent, that is, no resting offer uses it |
| Exactness.CreateExact | reference/python/fresnica/offer_service.py:76-122 | an offer that rests is accepted if and only if the resulting ledger is solvent and, for native proceeds, there is room before the fee leaves; the transaction built has the fee of its one or two operations |
| Exactness.UpdateExact | reference/python/fresnica/offer_service.py:124-156 | an update is accepted if and only if the fee is free before the release, the resulting ledger is solvent and, for native proceeds, there is room before the fee leaves; it builds exactly that update |
| Exactness.CancelExact | reference/python/fresnica/offer_service.py:158-183 | a cancellation is accepted if and only if its fee is free before the release; the resulting ledger is then solvent |
| Exactness.AccountOpened | reference/python/fresnica/transfer_service.py:64-84 | an account opened by a payment holds that payment and nothing else, and asks for neither memo nor authorization |
| Exactness.LineOpened | reference/python/fresnica/trustline_service.py:23-51 | the ledger then holds an empty line with the limit asked for, or the default limit, which can be used without the issuer if and only if the issuer does not require authorization |
| Exactness.LineChanged | reference/python/fresnica/trustline_service.py:53-108 | a changed limit leaves the rest of the line as it was; a removed line is gone and no other is |
| Exactness.OfferPlaced | reference/python/fresnica/offer_service.py:76-122 | afterwards the offer asked for rests under its new id, sells and buys what the intent does and owes what was checked; all other offers are as they were |
| Exactness.OfferReplaced | reference/python/fresnica/offer_service.py:124-156 | the same for an update, under the id of the offer it replaces |
| Exactness.OfferCancelled | reference/python/fresnica/offer_service.py:158-183 | a cancelled offer is gone and no other is |
| Exactness.CreateEmptyExact | reference/python/fresnica/offer_service.py:197-261 | an offer that rounds to nothing is accepted if and only if one more entry, or two with the trustline, could be carried |
| Exactness.UpdateEmptyExact | reference/python/fresnica/offer_service.py:264-316 | an update that rounds to nothing needs exactly its fee |
| Exactness.PaymentChecks | reference/python/fresnica/transfer_service.py:35-71 | no accepted payment lacks a signer, full authorization at either end, the memo the receiver insists on, or the minimum of a new account |
| Exactness.TrustlineChecks | reference/python/fresnica/trustline_service.py:23-108 | no accepted trustline request lacks a signer, is about the native or an own asset, repeats or misses a line, misses its issuer or is out of range |
| Exactness.OfferChecks | reference/python/fresnica/offer_service.py:83-183 | no accepted offer request lacks a signer, a valid intent, full authorization, or the pair and side of the stored offer |
| Exactness.PaymentRefusals | reference/python/fresnica/transfer_service.py:35-71 | what each refusal of a payment means: a missing signer and a missing memo exactly, a bad amount, an authorization or a balance that stands in the way |
| Exactness.AddRefusals | reference/python/fresnica/trustline_service.py:23-51 | which refusal a request for a new trustline gets |
| Exactness.LimitRefusals | reference/python/fresnica/trustline_service.py:53-82 | the same for a new limit |
| Exactness.RemoveRefusals | reference/python/fresnica/trustline_service.py:84-108 | the same for a removal |
| Exactness.CreateRefusals | reference/python/fresnica/offer_service.py:76-122 | which new offers are refused for a missing signer, for their amount, and for an asset, an authorization or an issuer that stands in the way, each exactly |
| Exactness.UpdateRefusals | reference/python/fresnica/offer_service.py:124-156 | the same for updates, each exactly |
| Exactness.CancelRefusals | reference/python/fresnica/offer_service.py:158-183 | which refusal a cancellation gets |
| Exactness.NothingWithoutNative | reference/python/fresnica/offer_service.py:197-338 | an account without a native entry gets no request accepted that costs a fee |
| Exactness.UnheldMovesNothing | reference/python/fresnica/availability.py:56-159 | an asset an account neither holds nor issues can be neither sent nor received by it |
| Exactness.NativeHasNoLimit | reference/python/fresnica/availability.py:138-159 | only the int64 range limits what an account can hold of the native asset |
| Exactness.ConfirmationAsked | reference/python/fresnica/offer_service.py:100-114 | without permission to open the trustline an offer asks for confirmation exactly when its money checks pass |
| Exactness.NativeProceedsRefused | reference/python/fresnica/offer_service.py:387-401 | the concrete account for which the native clause bites: the ledger could bear the offer, the preflight refuses it |
| Exactness.UpdateRefusedWhereCancelPasses | reference/python/fresnica/offer_service.py:304-316 | a concrete account whose update is refused while cancelling and then creating the same offer is accepted |
| OfferLaws.CreateDownwardClosed | reference/python/fresnica/offer_service.py:197-261 | acceptance of a new offer is downward closed in the amount |
| OfferLaws.UpdateDownwardClosed | reference/python/fresnica/offer_service.py:264-316 | acceptance of an update is downward closed in the amount |
| OfferLaws.UpdatePreflightMeaning | reference/python/fresnica/offer_service.py:264-338 | the update preflight of a solvent account passes if and only if fee, native reserve, selling balance and buying room fit net of the released offer |
| OfferLaws.UpdateDominatesCancelThenCreate | reference/python/fresnica/offer_service.py:124-183 | if cancelling and then creating would be accepted so is the direct update: always for an issued buying asset, and for the native asset exactly when the proceeds fit without the fee the cancellation burns |
| OfferLaws.UnchangedUpdateNeedsOnlyFee | reference/python/fresnica/offer_service.py:264-338 | an update that owes what the stored offer owes is accepted if and only if the fee is covered |
| OfferLaws.ResubmittedIntentOwesTheSame | reference/python/fresnica/offer_service.py:277-279 | the intent that rested an offer owes what that offer owes and has its side |
| RemoteLogs.SavedReplaces | reference/python/fresnica/datastore.py:91-96 | of the records of a page under one token the last is kept, whatever was cached before |
| RemoteLogs.SavedLeaves | reference/python/fresnica/datastore.py:91-96 | under a token no record of the page has nothing changes |
| RemoteLogs.SavedExtends | reference/python/fresnica/datastore.py:91-96 | saving a page that touches the cached stretch gives the longer stretch and leaves no gap |
| RemoteLogs.BlockListing | reference/python/fresnica/datastore.py:98-106 | listing a gap-free cache is its stretch of the log backwards, cut to the newest `limit`; the same for trades ordered by time |
| RemoteLogs.BlockNewestFirst | reference/python/fresnica/datastore.py:98-106 | the full listing of a gap-free cache is its stretch of the log backwards, whichever order is used |
| RemoteLogs.ListingIsNewest | reference/python/fresnica/datastore.py:98-106 | listing any bucket: as many records as asked for or held, all of them cached, in strictly decreasing order, and none left out is later than one listed |
| RemoteLogs.NewestFirstSorts | reference/python/fresnica/datastore.py:98-106 | the listing holds every cached record once, in decreasing order |
| RemoteLogs.TrimmedBlock | reference/python/fresnica/datastore.py:108-119 | trimming a gap-free cache leaves its newest part, again without a gap |
| RemoteLogs.ForwardPage | reference/python/fresnica/history_service.py:87-113 | a page asked for after the newest cached record continues the stretch exactly |
| RemoteLogs.BackwardPage | reference/python/fresnica/history_service.py:116-137 | a page asked for before the oldest cached record continues it downwards |
| RemoteLogs.FirstPage | reference/python/fresnica/history_service.py:62-72 | a page without a cursor is the newest end of the log |
| RemoteLogs.BlockUnique | reference/python/fresnica/datastore.py:91-119 | a cache is one stretch of a log in only one way |
| Trimming.KeptIffFewNewer | reference/python/fresnica/datastore.py:108-119 | a record survives a trim if and only if fewer than `limit` cached records are newer |
| Trimming.PerPageTrimHarmless | reference/python/fresnica/history_service.py:77-80 | top-L(top-L(A) + B) = top-L(A + B): trimming after every page instead of once changes nothing |
| DataStores.MemoryDataStore.SaveOperations | reference/python/fresnica/datastore.py:91-96 | stores each record under its token, in this account's bucket only |
| DataStores.MemoryDataStore.TrimOperations | reference/python/fresnica/datastore.py:108-119 | keeps exactly the newest `limit` records and reports how many went |
| DataStores.MemoryDataStore.GetOperations | reference/python/fresnica/datastore.py:98-106 | the newest records by token: the requested number or all there are, each as cached, strictly decreasing, none left out later than one returned |
| DataStores.MemoryDataStore.GetTrades | reference/python/fresnica/datastore.py:141-150 | the newest trades by time and token, with the same completeness and order |
| DataStores.SaveInto | reference/python/fresnica/datastore.py:91-96 | the shared save loop: later records replace earlier ones under the same token |
| History.HistoryService.BootstrapFromHead | reference/python/fresnica/history_service.py:62-85 | from an empty cache: gap-free after any failure; it succeeds exactly when no call failed, and then holds the head it started from back to the start of the log or a full window and counts every record served |
| History.HistoryService.SyncNewer | reference/python/fresnica/history_service.py:87-114 | pages forwards without a gap; it succeeds exactly when no call failed, is then at the head of the log as it then is, and counts the new records |
| History.HistoryService.BackfillOlder | reference/python/fresnica/history_service.py:116-138 | in full mode reaches the start of the log, keeps the new end, and counts the older records brought in; it succeeds exactly when no call failed |
| History.HistoryService.SyncRecent | reference/python/fresnica/history_service.py:45-60 | gap-free whatever fails; it succeeds exactly when no call failed, and then leaves the stretch its mode promises and returns the number of records served; the caches of other accounts are untouched |
| History.HistoryService.LoadOlder | reference/python/fresnica/history_service.py:140-158 | in full mode exactly one more page downwards, succeeding exactly when the call did and counting what it served; otherwise nothing at all |
| History.OneSync | reference/python/fresnica/history_service.py:45-60 | on a log that stands still during the call, a sync completes the cache if and only if it runs in full mode or the cache was empty or reached back to the window |
| History.InterruptedLoadStaysShort | reference/python/fresnica/history_service.py:87-114 | the state an interrupted first load leaves, and a sync of it that does not complete the window |
| History.SyncOutcome | reference/python/fresnica/history_service.py:45-60 | the stretch a sync leaves is the complete one exactly under that condition |
| History.RunHistory | reference/python/fresnica/history_service.py:42-158 | over every run of syncs, older loads, mode changes and arrivals with failures anywhere the cache is one contiguous block of the log; without failures every sync leaves it complete in its mode; the caches of other accounts are untouched |
| Dex.DexService.SyncAccountTradeIncrement | reference/python/fresnica/dex_service.py:136-160 | answers True only when every trade after the cursor is cached, False only after exactly five full pages, and leaves no gap |
| Dex.DexService.RefreshAccountTrades | reference/python/fresnica/dex_service.py:102-123 | a refresh keeps the trades gap-free and the caught-up flag truthful; True exactly when fewer than a thousand trades came in; an empty cache starts from the newest page |
| Dex.DexService.GetAccountTradeSegmentSnapshot | reference/python/fresnica/dex_service.py:92-134 | succeeds exactly when no call failed; the segments account for exactly the newest `limit` trades of a contiguous stretch of the log, newest first: their number, their raw texts in order, their amounts in sum, and cut as those trades compress; a refresh brings in what `RefreshAccountTrades` does, and the flag it returns and stores is True exactly under the same condition; without a refresh nothing is fetched, stored or flagged |
| Dex.CatchUp | reference/python/fresnica/dex_service.py:92-160 | on a standing log with k missing trades the returned flag becomes True after exactly floor(k/1000)+1 refreshing calls, and the last one accounts for exactly the newest trades of the log; no other account is touched |
| Dex.DexService.SyncOffersSnapshot | reference/python/fresnica/dex_service.py:47-66 | succeeds exactly when the calls were answered with full pages that each move on, closed by a short one, and then stores those pages end to end; a failed call or stalled cursor gives that error and leaves the stored snapshot as it was; a stored one has no duplicates and, of a list that stands still, is the whole list |
| Dex.OneMoreAnswer | reference/python/fresnica/dex_service.py:50-64 | one more answer keeps the pages full exactly if it is a full page that moves on, and adds its records at the end |
| Dex.PageContinues | reference/python/fresnica/dex_service.py:55-64 | a page asked for below a cursor continues the records above it, in order and without overlap |
| Dex.PageExtendsPrefix | reference/python/fresnica/dex_service.py:55-64 | appending a page to the part of a list above its cursor gives the part down to its last record, or the whole list if the page is short |
| TradeSegments.CompressAccountTrades | reference/python/fresnica/trade_segments.py:96-110 | the in-place loop computes `TradeSegments.Compress` |
| TradeSegments.OtherSideIgnored | reference/python/fresnica/trade_segments.py:167-172 | the order a fill is counted to is that of the account's own side; the offer on the other side never matters, and a stranger has none |
| TradeSegments.CompressionConserves | reference/python/fresnica/trade_segments.py:96-164 | base total, counter total, trade count and the exact order of raw trades are conserved |
| TradeSegments.RunsAreCanonical | reference/python/fresnica/trade_segments.py:132-143 | the trades split into maximal runs of one order |
| TradeSegments.RunShrinks | reference/python/fresnica/trade_segments.py:132-143 | taking the last trade off a canonical cut leaves a canonical cut |
| TradeSegments.CanonicalIsUnique | reference/python/fresnica/trade_segments.py:132-143 | there is only one such split |
| TradeSegments.CompressionIsCanonical | reference/python/fresnica/trade_segments.py:96-164 | compression is the summary of that unique split |
| TradeSegments.MergedExactly | reference/python/fresnica/trade_segments.py:132-143 | for well-formed assets two fills are merged if and only if the account has the same present order id in both and market, side and price agree |
| TradeSegments.CompressionByOrder | reference/python/fresnica/trade_segments.py:96-110 | in the fields of the trades: one segment for every run of consecutive fills of one order and a new one wherever order, market, side or price change |
| TradeSegments.NeighboursStayApart | reference/python/fresnica/trade_segments.py:103-110 | no two neighbours of a compressed list can merge |
| TradeSegments.NeighboursDiffer | reference/python/fresnica/trade_segments.py:96-110 | in the fields of the segments: no two neighbours share a present order, market, side and price |
| TradeSegments.RunIsOneOrder | reference/python/fresnica/trade_segments.py:132-143 | every multi-trade segment shares pair, side, price and a present offer id |
| TradeSegments.CompressInParts | reference/python/fresnica/trade_segments.py:96-164 | compress(xs + ys) is compress(xs) and compress(ys) with at most one merge at the boundary |
| TradeSegments.OrientationCommutes | reference/python/fresnica/trade_segments.py:48-93 | flipping each trade and compressing is compressing and flipping each segment |
| TradeSegments.FlippedMerge | reference/python/fresnica/trade_segments.py:73-93 | two segments merge in one orientation exactly when they do in the other, to the same flipped segment |
| TradeSegments.FlipTwice | reference/python/fresnica/trade_segments.py:73-93 | flipping a segment twice gives it back, key included |
| TradeSegments.SeenFromMarket | reference/python/fresnica/trade_segments.py:48-93 | records of the market are kept, trades with the side of the account; records of the reversed market are turned; all others are left out |
| TradeSegments.FillTurned | reference/python/fresnica/trade_segments.py:48-70 | a turned fill has amounts, accounts, offers and price exchanged and the other side, is counted to the same order, and turned again is itself |
| TradeSegments.HorizonSideIsCanonical | reference/python/fresnica/trade_segments.py:18-25 | a trade read from Horizon has the side the projections derive |
| SegmentKeys.KeyIdentifies | reference/python/fresnica/trade_segments.py:179-193 | the textual segment key is equal if and only if market, side, price and order are |
| SegmentKeys.SameMarketKey | reference/python/fresnica/trade_segments.py:179-193 | within one market this needs no assumption about asset names |
| SegmentKeys.KeyText | reference/python/fresnica/trade_segments.py:179-215 | the text of a key: both assets, side, price and order id with bars between them |
| Authorization.FactsFixMeaning | reference/python/fresnica/soroban_service.py:350-371 | the compared facts of two entries are equal if and only if the entries differ in their signature alone, delegates aside |
| Authorization.SignedMeansTheSame | reference/python/fresnica/soroban_service.py:206-241 | whatever a signer answers, an entry is only replaced by itself up to its signature, and stays as it was exactly when it needs none or comes back in another spelling |
| Authorization.AcceptedExactly | reference/python/fresnica/soroban_service.py:206-241 | an entry gets through exactly when it needs no signature, or is of a supported kind and a classic account whose capable signer answers with another readable text of an entry that means the same; that entry is what takes its place, and each refusal has its own error |
| Authorization.SameMeaning | reference/python/fresnica/soroban_service.py:86-110 | two contents mean the same if and only if they agree in everything but the signatures of the envelope and of its entries |
| Authorization.BlankTakesSignature | reference/python/fresnica/soroban_service.py:350-371 | blanking an entry takes off its signature and nothing else |
| Authorization.AcceptedAnswerSigned | reference/python/fresnica/soroban_service.py:224-234 | an accepted answer carries a signature if and only if it does not read as the bare entry; for an entry that came unsigned that is the same entry in another spelling, for one that came signed the canonical bare text as well |
| Authorization.UnsignedAnswerAccepted | reference/python/fresnica/soroban_service.py:225-227 | the unsigned-answer check compares texts: a concrete unsigned entry, spelled differently, passes it |
| Authorization.SignatureStripped | reference/python/fresnica/soroban_service.py:225-234 | a concrete signed entry answered with its bare canonical text is accepted and loses its signature |
| Authorization.AuthReplacedMeansTheSame | reference/python/fresnica/soroban_rpc_adapter.py:153-178 | replacing entries by ones with the same meaning keeps the meaning of the envelope |
| Soroban.SetAuthorizationExpirationLedger | reference/python/fresnica/soroban_rpc_adapter.py:115-135 | every entry that needs a signature expires at the ledger afterwards, nothing else of it or of the envelope changes, and a pre-signed entry is refused |
| Soroban.Prepare | reference/python/fresnica/soroban_service.py:123-189 | for any simulation and assembly: succeeds exactly under checks spelled out on the fields of the two envelopes, and then the bound envelope and its entries are unsigned, it has the candidate's payer, source and invocation, every detached entry carries the expiry the review shows, each entry is listed under its account and type, and every reviewed figure is the envelope's |
| Soroban.Prepared.BindAuthorizedEnvelope | reference/python/fresnica/soroban_service.py:101-104 | binds whatever the envelope holds; what is bound still means what was reviewed exactly when the envelope does |
| Soroban.Prepared.BoundMeansReviewed | reference/python/fresnica/soroban_service.py:86-99 | what is bound is unsigned and means what was reviewed; the review binding holds exactly when the envelope is the bound text |
| Soroban.ReplaceAuthorizationEntry | reference/python/fresnica/soroban_rpc_adapter.py:153-178 | replaces one entry, and only if it is still the expected one |
| Soroban.Authorize | reference/python/fresnica/soroban_service.py:198-242 | succeeds exactly when the envelope is bound, the entry count is as reviewed and every entry gets an acceptable answer; it is then rebound, and carries every signature it needs if and only if no answer was a bare entry, for a freshly prepared one if and only if no entry was left as it was; a failure before the first entry changes nothing; one at entry n leaves the entries before it replaced, everything else as it was and the bound text alone, and the envelope stays bound if and only if all n came back as they were |
| Soroban.AuthorizedEntriesSigned | reference/python/fresnica/soroban_service.py:206-241 | when an authorized list of entries is completely signed, as conditions on the answers |
| Soroban.SignatureLostOnSecondCall | reference/python/fresnica/soroban_service.py:198-242 | two successful calls that end bound to an unsigned entry |
| Soroban.PartialSigningShows | reference/python/fresnica/soroban_service.py:206-239 | the step under it: entries replaced up to n are the entries there were if and only if each of them was left as it was |
| Soroban.FailedCallStaysBound | reference/python/fresnica/soroban_service.py:206-239 | a concrete call that replaces an entry by itself respelled, fails at the next, and leaves the envelope bound |
| Soroban.SigningKeepsMeaning | reference/python/fresnica/soroban_service.py:206-241 | entries signed so far keep the meaning of the transaction |
| Transactions.SorobanSubmitService.Submit | reference/python/fresnica/soroban_service.py:256-292 | sends the envelope once; returns the first terminal status a poll finds within the attempts; every other accepted or lost submission is uncertain and carries its own hash; refusals are refusals |
| Transactions.TransactionService.Sign | reference/python/fresnica/transaction_service.py:16-22 | a wallet is handed the envelope exactly when it is bound to its review and the present is not past its time limit and the wallet can sign; the wallet then adds its one signature and nothing else |
| Transactions.TransactionService.Submit | reference/python/fresnica/transaction_service.py:24-49 | the envelope reaches the network exactly when its hash is the bound one; the outcome is the one the network settles; the bound hash is remembered for the fee payer exactly when that is uncertain, with its kind and time |
| Transactions.RememberedOnce | reference/python/fresnica/pending_transactions.py:46-57 | remembering a submission replaces what was stored for it, touches none of another network, account or hash, and doing it twice changes nothing |
| Transactions.BoundSubmission | reference/python/fresnica/soroban_service.py:106-111 | if hashes do not collide, what passes the submit binding means what was reviewed |
| Transactions.SignatureUnbindsReview | reference/python/fresnica/soroban_service.py:90-111 | a signature ends the review binding and keeps the submit binding |
| Transactions.RunSession | reference/python/fresnica/soroban_service.py:77-111 | over every session, with arbitrary signers, network answers and overwrites of the envelope: all a wallet is ever handed is unsigned and means what was reviewed, and all that reaches the network means it too; undisturbed, at most one signature is given and a lost binding is never signed again; every newly remembered hash was sent |
| Transactions.FailedAuthorizationBlocksSigning | reference/python/fresnica/soroban_service.py:198-242 | after an authorization that fails past a really replaced entry, no undisturbed session hands the envelope to a wallet |
| WalletStorage.OpensExactlyOnePassword | reference/python/fresnica/manager.py:558-581 | a stored signer opens under exactly one password, if its envelope is sound and holds the signer it names, and otherwise under none |
| WalletStorage.OpeningRefusals | reference/python/fresnica/manager.py:558-578 | which refusal an empty password, a broken envelope, a wrong password and a foreign signer get |
| WalletStorage.OldRecordsProtected | reference/python/fresnica/storage.py:29-38 | a record with a secret and no signer kind becomes one with a protected signer named by its account; every other record stays as it is |
| WalletStorage.UpToIsDictionary | reference/python/fresnica/storage.py:114-115 | the order of names is the dictionary order: the first difference decides |
| WalletStorage.MemoryWalletStorage.Save | reference/python/fresnica/storage.py:103-106 | refuses to replace a record unless asked to |
| WalletStorage.MemoryWalletStorage.List | reference/python/fresnica/storage.py:114-115 | every record exactly once, ordered by lower-case name |
| WalletStorage.LeastExists | reference/python/fresnica/storage.py:114-115 | names have a first one in that order, however they are lower-cased |
| WalletStorage.MemoryWalletStorage.Delete | reference/python/fresnica/storage.py:117-122 | removes the record and a default that named it |
| WalletStorage.MemoryWalletStorage.SetDefault | reference/python/fresnica/storage.py:127-129 | only an existing wallet becomes the default |
| Wallets.PasscodeIsUnique | reference/python/fresnica/manager.py:108-116 | while any signer is stored there is at most one application passcode |
| Wallets.AdditionUnderPasscode | reference/python/fresnica/manager.py:168-192 | a signer added under the passcode keeps it the passcode |
| Wallets.FirstSigner | reference/python/fresnica/manager.py:533-544 | a first signer leaves one passcode if and only if it can be opened at all |
| Wallets.MismatchedBackupLeavesNoPasscode | reference/python/fresnica/manager.py:533-544 | a concrete valid backup that, restored first, leaves no passcode |
| Wallets.UnopenableBlocksPasscode | reference/python/fresnica/manager.py:108-116 | while such a signer is stored every password is refused |
| Wallets.NetworksKnown | reference/python/fresnica/network.py:34-44 | mainnet and testnet are known, in any case, and nothing else is |
| Wallets.StrippedExactly | reference/python/fresnica/manager.py:525-528 | stripping takes the white space off both ends and nothing more |
| Wallets.ValidBackupExactly | reference/python/fresnica/wallet_backup.py:76-108 | a backup is valid if and only if it has a name and a known network and carries all of a protected signer or nothing of one |
| Wallets.WalletManager.GetRecord | reference/python/fresnica/manager.py:61-70 | the wallet named, else the default, else the only one; not found otherwise |
| Wallets.WalletManager.HasAppPasscode | reference/python/fresnica/manager.py:102-106 | true exactly when some signer is protected |
| Wallets.WalletManager.ValidateAppPasscode | reference/python/fresnica/manager.py:108-116 | passes if and only if the password opens every protected signer |
| Wallets.WalletManager.AddWatch | reference/python/fresnica/manager.py:118-140 | adds one watch-only record that could be backed up and restored, changes no passcode, and sets the default as asked |
| Wallets.WalletManager.Import | reference/python/fresnica/manager.py:158-192 | succeeds exactly for a known network, the passcode, readable material, a non-empty password and a free name; afterwards that password opens everything, the record seals exactly that material, could be restored from a backup, and the default is as asked |
| Wallets.WalletManager.UpgradeWatch | reference/python/fresnica/manager.py:279-312 | succeeds exactly for a watch-only classic wallet, the passcode and the secret of that very account; afterwards that password opens everything |
| Wallets.WalletManager.DowngradeToWatch | reference/python/fresnica/manager.py:374-391 | drops the signer and any session on it, keeps the account |
| Wallets.WalletManager.ReprotectSigner | reference/python/fresnica/manager.py:469-506 | of the named, default or only wallet: rewrites the one envelope and locks its session; one passcode survives if and only if the password is unchanged or no other signer is protected |
| Wallets.ReprotectionEndsPasscode | reference/python/fresnica/manager.py:469-506 | two wallets under one passcode, one of them reprotected: no passcode opens both |
| Wallets.WalletManager.RestoreBackup | reference/python/fresnica/manager.py:516-544 | succeeds exactly for a valid backup, a free name of more than white space and, once a signer is protected, a passcode that opens the stored signers and the restored one; one passcode survives if and only if the restored signer can be opened; the default is as asked |
| Wallets.WalletManager.Unlock | reference/python/fresnica/manager.py:583-585 | opens a session exactly when the named, default or only wallet is a protected classic one and the password opens it |
| Wallets.WalletManager.UnlockWithKey | reference/python/fresnica/manager.py:587-615 | the same for an unlock key; a failure leaves the session alone |
| Wallets.WalletManager.SetDefault | reference/python/fresnica/manager.py:72-75 | locks a session of any other wallet |
| Wallets.WalletManager.Delete | reference/python/fresnica/manager.py:685-693 | locks, removes, and moves a default to the first remaining wallet by lower-case name |
| Wallets.RunWallets | reference/python/fresnica/manager.py:72-693 | over every run of the lifecycle, reprotection included: the session is the stored protected record it was opened from and the default exists; without reprotection no two protected signers differ in password, and one passcode opens all if every restored signer can be opened |

## Left out
- Decimal and text parsing, Horizon JSON shape checks and message texts: the model starts from integers and records.
- Network, database, file and clock access: adapters are parameters or a page-serving log, the stores are the in-memory ones.
- Intent prices: an intent carries the ratio the price loop returned, and the offer laws hold for every positive ratio.
- Order matching: an accepted offer rests as it is; crossing and fills are the ledger's work.
- Pool shares: an account holds native and credit entries only, so the pool check of trustline removal is not modelled.
- Sponsorship changes: sponsoring counts stay constant, and `Exactness.AddExact` assumes an account is not sponsored for more entries than it has.
- Clawback and the authorization details of a built trustline: the summary fields of a review carry no check.
- The int64 range an XDR operation can carry is checked in `Offers.ValidatedIntent` and `Trustlines.CheckedLimit`; the code leaves it to the transaction builder.
- Offers passed to update and cancel are the account's own, looked up by id; a stale copy handed in by a caller is not modelled.
- Records without a usable paging token: every log record has a positive token, so the branches for an empty or missing cursor of operations and trades are not modelled.
- Dex.DexService.GetAccountTradeSegmentSnapshot: takes the conversion of a trade record as given and does not model the records it refuses.
- A log that grows for ever during one call: a Horizon object holds a finite archive that bounds its logs, which is what makes every forward loop end.
- Signers of authorization entries are functions of the entry; they are given its text only and cannot reach the envelope.
- The envelope of a prepared transaction is changed in place, never exchanged for another object; the code assigns it once.
- Soroban.Prepare: takes the simulation and the assembled envelope as given, so the RPC response parsing and the SDK assembly are not modelled.
- Resolving remembered submissions later is not modelled.
- Wallets.WalletManager.Delete: between names that differ only in case, leaves open which one becomes the default.
- WalletStorage.MemoryWalletStorage.List: leaves names that differ only in case in any order; the code keeps their insertion order.
- Ed25519, Argon2, AES-GCM, StrKey, BIP-39 and XDR: symbolic, as described above. Legacy envelopes, their migration and the alternative core client are not modelled.
- Bindings, terminal and text interfaces, contacts, settings, market discovery and anchors: they hold no state machine the properties above need.
