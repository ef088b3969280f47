/**
 * Signing and submitting prepared transactions (transaction_service.py, and the submit half
 * of soroban_service.py), and what a whole session keeps.
 */
module Transactions {
  import opened Models
  import opened Authorization
  import opened Soroban

  // ---------- submission ----------

  /** How `sendTransaction` ends: lost on the network, or answered. */
  datatype SendAnswer = SendLost | Sent(hash: EnvelopeHash, accepted: bool)

  /** A terminal status, successful or not. */
  datatype Terminal = Terminal(hash: EnvelopeHash, ledger: nat, successful: bool)

  datatype LookupAnswer = LookupLost | NotFound | Found(terminal: Terminal)

  /** Everything the network will say to one submission: the send, and each poll in turn. */
  datatype Rpc = Rpc(send: SendAnswer, lookup: nat -> LookupAnswer)

  /** Poll `k` is the first to be answered with anything but `NotFound`, and it finds the transaction. */
  predicate FoundFirst(rpc: Rpc, k: nat) {
    rpc.lookup(k).Found? && forall j: nat :: j < k ==> rpc.lookup(j).NotFound?
  }

  /** A submission that may have arrived is uncertain; one that was turned away is refused. */
  function Unsettled(hash: EnvelopeHash, send: SendAnswer): Error {
    if send.SendLost? || send == Sent(hash, true) then SubmissionUncertain(hash) else TransactionRefused
  }

  /** How a submission of a transaction with this hash ends, given what the network says. */
  ghost predicate Settles(r: Result<Terminal>, hash: EnvelopeHash, rpc: Rpc, attempts: nat) {
    && (r.Success? <==> rpc.send == Sent(hash, true) && exists k: nat :: k < attempts && FoundFirst(rpc, k))
    && (r.Success? ==> forall k: nat :: k < attempts && FoundFirst(rpc, k) ==> r.value == rpc.lookup(k).terminal)
    && (r.Failure? ==> r.error == Unsettled(hash, rpc.send))
  }

  class SorobanSubmitService {
    const maxAttempts: pos

    /** Everything that was handed to `sendTransaction`, whatever became of it. */
    var submitted: seq<Content>

    constructor (maxAttempts: pos)
      ensures this.maxAttempts == maxAttempts && submitted == []
    {
      this.maxAttempts, submitted := maxAttempts, [];
    }

    /** The adapter's `send_transaction`. */
    method SendTransaction(envelope: Envelope, rpc: Rpc) returns (answer: SendAnswer)
      modifies this`submitted
      ensures submitted == old(submitted) + [envelope.content] && answer == rpc.send
    {
      submitted := submitted + [envelope.content];
      answer := rpc.send;
    }

    /**
     * `SorobanSubmitService.submit`: sends once; a terminal status is the first one a poll
     * finds, and whenever the fate of the transaction is unknown the failure carries its hash.
     */
    method Submit(envelope: Envelope, rpc: Rpc) returns (r: Result<Terminal>)
      modifies this`submitted
      ensures submitted == old(submitted) + [envelope.content]
      ensures Settles(r, envelope.HashHex(), rpc, maxAttempts)
    {
      var hash := envelope.HashHex();
      var answer := SendTransaction(envelope, rpc);
      if answer.SendLost? {
        return Failure(SubmissionUncertain(hash));
      }
      if answer.hash != hash {
        return Failure(TransactionRefused);
      }
      if !answer.accepted {
        return Failure(TransactionRefused);
      }
      for attempt := 0 to maxAttempts
        invariant forall j: nat :: j < attempt ==> rpc.lookup(j).NotFound?
        invariant submitted == old(submitted) + [envelope.content]
      {
        match rpc.lookup(attempt)
        case LookupLost => return Failure(SubmissionUncertain(hash));
        case Found(terminal) =>
          assert FoundFirst(rpc, attempt);
          return Success(terminal);
        case NotFound =>
      }
      r := Failure(SubmissionUncertain(hash));
    }
  }

  // ---------- the generic service ----------

  /** A wallet either has no local signer or adds one signature over the content it is given. */
  datatype Wallet = WatchOnlyWallet | SigningWallet(signatureOver: Content -> string)

  /** A submission whose outcome is still to be looked up. */
  datatype Pending = Pending(network: string, account: string, hash: EnvelopeHash, kind: string, submittedAt: nat)

  predicate SameSubmission(a: Pending, b: Pending) {
    a.network == b.network && a.account == b.account && a.hash == b.hash
  }

  function Others(items: seq<Pending>, p: Pending): seq<Pending> {
    if items == [] then []
    else if SameSubmission(items[0], p) then Others(items[1..], p)
    else [items[0]] + Others(items[1..], p)
  }

  /** `put`: a submission is stored once, as the newest. */
  function Remembered(items: seq<Pending>, p: Pending): seq<Pending> {
    Others(items, p) + [p]
  }

  /** A submission remembered again replaces what was known of it and touches no other. */
  lemma RememberedOnce(items: seq<Pending>, p: Pending)
    ensures forall q :: q in Remembered(items, p) <==>
      q == p || (q in items && !((q.network, q.account, q.hash) == (p.network, p.account, p.hash)))
    ensures Remembered(items, p)[|Remembered(items, p)| - 1] == p
    ensures Remembered(Remembered(items, p), p) == Remembered(items, p)
  {
    OthersClean(items, p);
    OthersAppend(Others(items, p), [p], p);
  }

  lemma {:induction false} OthersClean(items: seq<Pending>, p: Pending)
    ensures Others(Others(items, p), p) == Others(items, p)
    ensures forall q :: q in Others(items, p) <==> q in items && !SameSubmission(q, p)
  {
    if items != [] { OthersClean(items[1..], p); }
  }

  lemma {:induction false} OthersAppend(a: seq<Pending>, b: seq<Pending>, p: Pending)
    ensures Others(a + b, p) == Others(a, p) + Others(b, p)
  {
    if a == [] {
      assert a + b == b;
    } else {
      assert (a + b)[1..] == a[1..] + b;
      OthersAppend(a[1..], b, p);
    }
  }

  function SignedBy(c: Content, wallet: Wallet): Content
    requires wallet.SigningWallet?
  {
    c.(signatures := c.signatures + [wallet.signatureOver(c)])
  }

  predicate Expired(c: Content, now: nat) {
    c.maxTime != 0 && c.maxTime < now
  }

  /** The wallets' side of signing. */
  class SigningDesk {
    /** Every content a wallet was asked to put its signature to, and did. */
    var handed: seq<Content>

    constructor ()
      ensures handed == []
    {
      handed := [];
    }

    /** `Wallet.sign`. */
    method Sign(envelope: Envelope, wallet: Wallet) returns (r: Result<()>)
      modifies this`handed, envelope`content
      ensures r == if wallet.SigningWallet? then Success(()) else Failure(WatchOnly)
      ensures r.Success? ==>
        handed == old(handed) + [old(envelope.content)] && envelope.content == SignedBy(old(envelope.content), wallet)
      ensures r.Failure? ==> handed == old(handed) && envelope.content == old(envelope.content)
    {
      if wallet.WatchOnlyWallet? {
        return Failure(WatchOnly);
      }
      handed := handed + [envelope.content];
      envelope.content := SignedBy(envelope.content, wallet);
      r := Success(());
    }
  }

  class TransactionService {
    const submitService: SorobanSubmitService
    const desk: SigningDesk
    const network: string
    var pending: seq<Pending>

    constructor (submitService: SorobanSubmitService, desk: SigningDesk, network: string)
      ensures this.submitService == submitService && this.desk == desk && this.network == network && pending == []
    {
      this.submitService, this.desk, this.network, pending := submitService, desk, network, [];
    }

    /** `sign`: the wallet only ever sees exactly what was reviewed or rebound. */
    method Sign(now: nat, wallet: Wallet, prepared: Prepared) returns (r: Result<()>)
      modifies desk`handed, prepared.envelope`content
      ensures r.Success? <==>
        && old(prepared.ReviewBound() && (prepared.envelope.content.maxTime == 0 || now <= prepared.envelope.content.maxTime))
        && wallet.SigningWallet?
      ensures r.Success? ==>
        && desk.handed == old(desk.handed) + [old(prepared.envelope.content)]
        && prepared.envelope.content == SignedBy(old(prepared.envelope.content), wallet)
        && Unsigned(prepared.envelope.content) == Unsigned(old(prepared.envelope.content))
        && prepared.envelope.content.signatures
             == old(prepared.envelope.content).signatures + [wallet.signatureOver(old(prepared.envelope.content))]
      ensures r.Failure? ==>
        && desk.handed == old(desk.handed) && prepared.envelope.content == old(prepared.envelope.content)
        && r.error == if prepared.ReviewBound() && (prepared.envelope.content.maxTime == 0 || now <= prepared.envelope.content.maxTime)
                      then WatchOnly else TransactionRefused
    {
      if Expired(prepared.envelope.content, now) {
        return Failure(TransactionRefused);
      }
      if !prepared.ReviewBound() {
        return Failure(TransactionRefused);
      }
      r := desk.Sign(prepared.envelope, wallet);
    }

    /**
     * `submit`: only a transaction with the bound hash reaches the network. The outcome is the
     * one the network settles, and that hash is remembered exactly when the outcome is uncertain.
     */
    method Submit(prepared: Prepared, rpc: Rpc, now: nat) returns (r: Result<Terminal>)
      modifies this`pending, submitService`submitted
      ensures submitService.submitted ==
        if prepared.SubmitBound() then old(submitService.submitted) + [prepared.envelope.content] else old(submitService.submitted)
      ensures prepared.SubmitBound() ==> Settles(r, prepared.SigningHash(), rpc, submitService.maxAttempts)
      ensures !prepared.SubmitBound() ==> r == Failure(TransactionRefused)
      ensures pending ==
        if r == Failure(SubmissionUncertain(prepared.SigningHash())) && prepared.review.feePayer != ""
        then Remembered(old(pending), Pending(network, prepared.review.feePayer, prepared.SigningHash(), "transaction", now))
        else old(pending)
    {
      if !prepared.SubmitBound() {
        return Failure(TransactionRefused);
      }
      r := submitService.Submit(prepared.envelope, rpc);
      if r.Failure? && r.error.SubmissionUncertain? {
        var account := prepared.review.feePayer;
        if account != "" {
          pending := Remembered(pending, Pending(network, account, r.error.hash, "transaction", now));
        }
      }
    }
  }

  // ---------- whole sessions ----------

  /** What can happen to a prepared transaction; other code may write the envelope at any time. */
  datatype Event =
    | AuthorizeIt(signers: map<string, Signer>)
    | SignIt(now: nat, wallet: Wallet)
    | SubmitIt(rpc: Rpc, at: nat)
    | Overwrite(content: Content)

  ghost predicate CollisionFree(hash: Content -> EnvelopeHash) {
    forall a, b :: hash(a) == hash(b) ==> a == b
  }

  predicate Undisturbed(events: seq<Event>) {
    forall i :: 0 <= i < |events| ==> !events[i].Overwrite?
  }

  /** If the hash never collides, what is submitted means what was reviewed. */
  lemma BoundSubmission(prepared: Prepared)
    requires prepared.Valid() && prepared.SubmitBound() && CollisionFree(prepared.envelope.hash)
    ensures Meaning(prepared.envelope.content) == Meaning(prepared.reviewedXdr)
  {
    var c := prepared.envelope.content;
    prepared.BoundMeansReviewed();
    assert Unsigned(c) == prepared.BoundXdr();
    assert Meaning(c) == Meaning(Unsigned(c));
  }

  /** A signature unbinds an envelope from review, and leaves it bound for submission. */
  lemma SignatureUnbindsReview(prepared: Prepared, before: Content, wallet: Wallet)
    requires prepared.Valid() && before == prepared.BoundXdr() && wallet.SigningWallet?
    requires prepared.envelope.content == SignedBy(before, wallet)
    ensures !prepared.ReviewBound() && prepared.SubmitBound()
  {
    prepared.BoundMeansReviewed();
    assert Unsigned(prepared.envelope.content) == before;
  }

  ghost predicate SentHash(p: Pending, prepared: Prepared, sent: seq<Content>) {
    exists i :: 0 <= i < |sent|
      && p.account == prepared.review.feePayer && p.hash == prepared.envelope.hash(Unsigned(sent[i]))
  }

  lemma SentGrows(prepared: Prepared, sent: seq<Content>, c: Content)
    ensures forall p :: SentHash(p, prepared, sent) ==> SentHash(p, prepared, sent + [c])
    ensures forall p: Pending :: p.account == prepared.review.feePayer && p.hash == prepared.envelope.hash(Unsigned(c)) ==>
      SentHash(p, prepared, sent + [c])
  {
    var more := sent + [c];
    forall p | SentHash(p, prepared, sent) ensures SentHash(p, prepared, more) {
      var i :| 0 <= i < |sent|
        && p.account == prepared.review.feePayer && p.hash == prepared.envelope.hash(Unsigned(sent[i]));
      assert more[i] == sent[i];
    }
    assert more[|sent|] == c;
  }

  /** What a session adds to a log. */
  function Since<T>(before: seq<T>, after: seq<T>): seq<T> {
    if |before| <= |after| then after[|before|..] else []
  }

  lemma SinceGrows<T>(start: seq<T>, before: seq<T>, x: T)
    requires start <= before
    ensures start <= before + [x] && Since(start, before + [x]) == Since(start, before) + [x]
  {
  }

  /**
   * Any sequence of authorizations, signatures and submissions, whatever the signers and the
   * network answer and whoever else writes the envelope: a wallet only ever signs an unsigned
   * transaction that means what was reviewed, and only such a transaction is submitted. While
   * nobody else writes the envelope, at most one signature is given, and once it is given the
   * transaction can be submitted; and an envelope that has lost its binding is never signed
   * again. Every submission that comes to be remembered was one of those sent.
   */
  method RunSession(network: string, service: TransactionService, prepared: Prepared, events: seq<Event>)
    requires prepared.Valid()
    modifies prepared`authorizedXdr, prepared`authorizedHash, prepared.envelope`content
    modifies service`pending, service.submitService`submitted, service.desk`handed
    ensures prepared.Valid()
    ensures old(service.desk.handed) <= service.desk.handed
    ensures old(service.submitService.submitted) <= service.submitService.submitted
    ensures forall c :: c in Since(old(service.desk.handed), service.desk.handed) ==>
      c.signatures == [] && Meaning(c) == Meaning(prepared.reviewedXdr)
    ensures CollisionFree(prepared.envelope.hash) ==>
      forall c :: c in Since(old(service.submitService.submitted), service.submitService.submitted) ==>
        Meaning(c) == Meaning(prepared.reviewedXdr)
    ensures Undisturbed(events) ==>
      |service.desk.handed| <= |old(service.desk.handed)| + 1
      && (service.desk.handed != old(service.desk.handed) ==> !prepared.ReviewBound() && prepared.SubmitBound())
    ensures Undisturbed(events) && !old(prepared.ReviewBound()) ==>
      service.desk.handed == old(service.desk.handed) && prepared.envelope.content == old(prepared.envelope.content)
    ensures forall p :: p in service.pending && p !in old(service.pending) ==>
      SentHash(p, prepared, Since(old(service.submitService.submitted), service.submitService.submitted))
  {
    hide Meaning, SignEntry, SignedUpTo, FailedAt, AllLeft, CollisionFree, SentHash, Settles, Since;
    hide AllSigned, AnswersSigned, NoneLeft, NonePresigned, Authorizable, Remembered, SameSubmission, Expired;
    hide Prepared.Valid, Prepared.ReviewBound, Prepared.SubmitBound;
    ghost var handed0, sent0 := service.desk.handed, service.submitService.submitted;
    NothingSince(handed0);
    NothingSince(sent0);
    for i := 0 to |events|
      invariant prepared.Valid()
      invariant handed0 <= service.desk.handed && sent0 <= service.submitService.submitted
      invariant forall c :: c in Since(handed0, service.desk.handed) ==>
        c.signatures == [] && Meaning(c) == Meaning(prepared.reviewedXdr)
      invariant CollisionFree(prepared.envelope.hash) ==>
        forall c :: c in Since(sent0, service.submitService.submitted) ==> Meaning(c) == Meaning(prepared.reviewedXdr)
      invariant Undisturbed(events) ==> |service.desk.handed| <= |handed0| + 1
      invariant Undisturbed(events) && service.desk.handed != handed0 ==> !prepared.ReviewBound() && prepared.SubmitBound()
      invariant Undisturbed(events) && !old(prepared.ReviewBound()) ==>
        service.desk.handed == handed0 && prepared.envelope.content == old(prepared.envelope.content) && !prepared.ReviewBound()
      invariant forall p :: p in service.pending && p !in old(service.pending) ==>
        SentHash(p, prepared, Since(sent0, service.submitService.submitted))
    {
      ghost var content, handed := prepared.envelope.content, service.desk.handed;
      prepared.BoundMeansReviewed();
      match events[i]
      case AuthorizeIt(signers) =>
        var r := Authorize(network, prepared, signers);
      case SignIt(now, wallet) =>
        var r := service.Sign(now, wallet, prepared);
        if r.Success? {
          SignatureUnbindsReview(prepared, content, wallet);
          SinceGrows(handed0, handed, content);
        }
      case SubmitIt(rpc, at) =>
        ghost var items, before := service.pending, service.submitService.submitted;
        var r := service.Submit(prepared, rpc, at);
        if prepared.SubmitBound() {
          assert CollisionFree(prepared.envelope.hash) ==> Meaning(content) == Meaning(prepared.reviewedXdr) by {
            if CollisionFree(prepared.envelope.hash) { BoundSubmission(prepared); }
          }
          SinceGrows(sent0, before, content);
          BoundHash(prepared);
          SentGrows(prepared, Since(sent0, before), content);
          RememberedOnce(items, Pending(service.network, prepared.review.feePayer, prepared.SigningHash(), "transaction", at));
        }
      case Overwrite(other) =>
        prepared.envelope.content := other;
    }
  }

  lemma NothingSince<T>(s: seq<T>)
    ensures Since(s, s) == []
  {
  }

  lemma BoundHash(prepared: Prepared)
    requires prepared.SubmitBound()
    ensures prepared.SigningHash() == prepared.envelope.hash(Unsigned(prepared.envelope.content))
  {
  }

  /**
   * An authorization that fails after an entry was really replaced makes every later signature
   * refused, as long as nobody else writes the envelope.
   */
  method FailedAuthorizationBlocksSigning(
    network: string, service: TransactionService, prepared: Prepared, signers: map<string, Signer>, events: seq<Event>)
    returns (r: Result<()>)
    requires prepared.Valid() && prepared.ReviewBound() && Authorizable(prepared.envelope.content, network, prepared.review)
    requires Undisturbed(events)
    modifies prepared`authorizedXdr, prepared`authorizedHash, prepared.envelope`content
    modifies service`pending, service.submitService`submitted, service.desk`handed
    ensures r.Failure? ==>
      var auth := old(prepared.envelope.content).operation.auth;
      exists n: nat ::
        && n < |auth| && SignEntry(auth[n], n, prepared.review.operationSource, signers) == Failure(r.error)
        && (!AllLeft(auth, n, signers) ==> service.desk.handed == old(service.desk.handed))
  {
    hide Meaning, SignEntry, SignedUpTo, AllLeft, AllSigned, AnswersSigned, NoneLeft, NonePresigned, CollisionFree, SentHash, Since;
    hide Prepared.Valid, Prepared.ReviewBound, Prepared.SubmitBound;
    ghost var c := prepared.envelope.content;
    r := Authorize(network, prepared, signers);
    if r.Failure? {
      ghost var n: nat :| FailedAt(c, prepared.envelope.content, n, r.error, prepared.review.operationSource, signers)
        && (prepared.ReviewBound() <==> AllLeft(c.operation.auth, n, signers));
      RunSession(network, service, prepared, events);
      assert n < |c.operation.auth|
        && SignEntry(c.operation.auth[n], n, prepared.review.operationSource, signers) == Failure(r.error);
    }
  }
}
