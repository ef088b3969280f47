/** The value types shared by the services (models.py) and the outcome of a checked operation. */
module Models {

  type pos = x: int | 1 <= x witness 1

  const STROOP_SCALE: pos := 10_000_000
  const INT32_MAX: pos := 0x7fff_ffff
  const INT64_MAX: pos := 0x7fff_ffff_ffff_ffff

  /** An asset as models.py identifies it; pool shares are not part of this model. */
  datatype Asset = Native | Credit(code: string, issuer: string)

  /** A market orientation: base / counter. */
  datatype MarketPair = MarketPair(base: Asset, counter: Asset)

  datatype Side = Buy | Sell

  datatype Option<+T> = None | Some(value: T)

  /** Every exception class the modelled services raise. */
  datatype Error =
    | InvalidAmount
    | InsufficientBalance
    | TransactionRefused
    | TrustlineConfirmationRequired
    | MemoRequired
    | WatchOnly
    | NetworkFailure
    | PaginationStalled
    | SignerFailure
    | SubmissionUncertain(hash: EnvelopeHash)
    | WalletExists
    | WalletNotFound
    | WalletLocked
    | WalletProblem
    | InvalidPassword

  /** A transaction hash; what it stands for is settled in module Soroban. */
  type EnvelopeHash = string

  datatype Result<+T> = Success(value: T) | Failure(error: Error) {
    predicate IsFailure() { Failure? }

    function PropagateFailure<U>(): Result<U>
      requires Failure?
    {
      Failure(error)
    }

    function Extract(): T
      requires Success?
    {
      value
    }
  }
}
