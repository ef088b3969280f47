/** Soroban simulation, review binding and authorization (soroban_service.py). */
module Soroban {
  import opened Models
  import opened Authorization

  const LAST_LEDGER: nat := 0xFFFF_FFFF

  /** An envelope object: its content changes in place. */
  class Envelope {
    /** The transaction hash; signatures are not part of what is hashed. */
    const hash: Content -> EnvelopeHash
    var content: Content

    constructor (content: Content, hash: Content -> EnvelopeHash)
      ensures this.content == content && this.hash == hash
    {
      this.content, this.hash := content, hash;
    }

    function HashHex(): EnvelopeHash
      reads this
    {
      hash(Unsigned(content))
    }
  }

  datatype Review = Review(
    walletName: string, feePayer: string, operationSource: string, invocation: Invocation,
    authorizers: seq<string>, credentialTypes: seq<CredentialType>, authEntryCount: nat,
    totalFee: nat, resourceFee: int, inclusionFee: int, minResourceFee: int,
    simulationLedger: nat, expirationLedger: Option<nat>, network: string, hash: EnvelopeHash)

  /** `PreparedSorobanTransaction`: an envelope bound to what was reviewed. */
  class Prepared {
    const envelope: Envelope
    const review: Review
    const reviewedXdr: Content
    const reviewedHash: EnvelopeHash
    var authorizedXdr: Option<Content>
    var authorizedHash: Option<EnvelopeHash>

    constructor (envelope: Envelope, review: Review)
      requires envelope.content.signatures == []
      ensures Valid() && ReviewBound() && authorizedXdr == None
      ensures this.envelope == envelope && this.review == review && reviewedXdr == envelope.content
    {
      this.envelope, this.review := envelope, review;
      reviewedXdr, reviewedHash := envelope.content, envelope.HashHex();
      authorizedXdr, authorizedHash := None, None;
    }

    /** What was reviewed is unsigned, and what was authorized since means the same. */
    ghost predicate Valid()
      reads this
    {
      && reviewedXdr.signatures == [] && reviewedHash == envelope.hash(reviewedXdr)
      && (match authorizedXdr
          case None => authorizedHash == None
          case Some(xdr) =>
            && authorizedHash == Some(envelope.hash(xdr))
            && xdr.signatures == [] && Meaning(xdr) == Meaning(reviewedXdr))
    }

    function BoundXdr(): Content
      reads this
    {
      if authorizedXdr.Some? then authorizedXdr.value else reviewedXdr
    }

    function SigningHash(): EnvelopeHash
      reads this
    {
      if authorizedHash.Some? then authorizedHash.value else reviewedHash
    }

    /** `assert_review_binding` passes. */
    predicate ReviewBound()
      reads this, envelope
    {
      envelope.content == BoundXdr() && envelope.HashHex() == SigningHash()
    }

    /** `assert_submit_binding` passes. */
    predicate SubmitBound()
      reads this, envelope
    {
      envelope.HashHex() == SigningHash()
    }

    lemma BoundMeansReviewed()
      requires Valid()
      ensures Meaning(BoundXdr()) == Meaning(reviewedXdr) && BoundXdr().signatures == []
      ensures SigningHash() == envelope.hash(BoundXdr())
      ensures ReviewBound() <==> envelope.content == BoundXdr()
    {
      assert Unsigned(BoundXdr()) == BoundXdr();
    }

    /** `_bind_authorized_envelope`: binds whatever the envelope holds by now. */
    method BindAuthorizedEnvelope()
      modifies this`authorizedXdr, this`authorizedHash
      ensures ReviewBound() && authorizedXdr == Some(envelope.content)
      ensures old(Valid()) && envelope.content.signatures == [] ==>
        (Valid() <==> Meaning(envelope.content) == Meaning(reviewedXdr))
    {
      authorizedXdr, authorizedHash := Some(envelope.content), Some(envelope.HashHex());
      assert envelope.content.signatures == [] ==> Unsigned(envelope.content) == envelope.content;
    }
  }

  // ---------- simulation ----------

  datatype Simulation = Simulation(failed: bool, restoreRequired: bool, minResourceFee: int, latestLedger: nat)

  predicate NonePresigned(auth: seq<AuthEntry>) {
    forall i :: 0 <= i < |auth| ==> !Presigned(auth[i])
  }

  /** Every entry that needs a signature has one. */
  predicate AllSigned(auth: seq<AuthEntry>) {
    forall i :: 0 <= i < |auth| && Detached(auth[i]) ==> Presigned(auth[i])
  }

  function ExpiringAt(entry: AuthEntry, ledger: nat): AuthEntry {
    if Detached(entry) then
      entry.(credentials := entry.credentials.(credential := entry.credentials.credential.(expiration := ledger)))
    else
      entry
  }

  function WithAuth(c: Content, auth: seq<AuthEntry>): Content
    requires c.operation.InvokeContract?
  {
    c.(operation := c.operation.(auth := auth))
  }

  /** The entry as it was before, but for one thing: one that needs a signature now expires at the ledger. */
  predicate NowExpires(after: AuthEntry, before: AuthEntry, ledger: nat) {
    if before.credentials.SourceAccount? then
      after == before
    else
      var c := after.credentials;
      && !c.SourceAccount? && c.credential.expiration == ledger
      && after.(credentials := c.(credential := c.credential.(expiration := before.credentials.credential.expiration))) == before
  }

  lemma ExpiryIsSet(entry: AuthEntry, ledger: nat)
    ensures NowExpires(ExpiringAt(entry, ledger), entry, ledger)
  {
  }

  /** How many entries need a signature. */
  function DetachedCount(auth: seq<AuthEntry>): nat {
    if auth == [] then 0
    else DetachedCount(auth[..|auth| - 1]) + if auth[|auth| - 1].credentials.SourceAccount? then 0 else 1
  }

  lemma {:induction false} NoneDetached(auth: seq<AuthEntry>)
    ensures DetachedCount(auth) == 0 <==> forall e :: e in auth ==> !Detached(e)
  {
    if auth != [] {
      var front, last := auth[..|auth| - 1], auth[|auth| - 1];
      NoneDetached(front);
      assert auth == front + [last];
      assert (forall e :: e in auth ==> !Detached(e)) <==> (forall e :: e in front ==> !Detached(e)) && !Detached(last);
    }
  }

  /** `set_authorization_expiration_ledger`: every detached entry expires at one ledger. */
  method SetAuthorizationExpirationLedger(envelope: Envelope, network: string, ledger: nat) returns (updated: Result<nat>)
    modifies envelope`content
    ensures updated.Success? <==> old(Invokes(envelope.content, network)
      && forall e :: e in envelope.content.operation.auth ==> !Presigned(e))
    ensures updated.Failure? ==> updated.error == TransactionRefused
    ensures updated.Success? ==>
      var before := old(envelope.content).operation.auth;
      && Invokes(envelope.content, network)
      && envelope.content == WithAuth(old(envelope.content), envelope.content.operation.auth)
      && |envelope.content.operation.auth| == |before|
      && (forall i :: 0 <= i < |before| ==> NowExpires(envelope.content.operation.auth[i], before[i], ledger))
      && updated.value == DetachedCount(before)
  {
    if !Invokes(envelope.content, network) {
      return Failure(TransactionRefused);
    }
    var before := envelope.content.operation.auth;
    var count := 0;
    for i := 0 to |before|
      invariant Invokes(envelope.content, network)
      invariant envelope.content == WithAuth(old(envelope.content), envelope.content.operation.auth)
      invariant |envelope.content.operation.auth| == |before|
      invariant forall j :: 0 <= j < i ==>
        NowExpires(envelope.content.operation.auth[j], before[j], ledger) && !Presigned(before[j])
      invariant forall j :: i <= j < |before| ==> envelope.content.operation.auth[j] == before[j]
      invariant count == DetachedCount(before[..i])
    {
      var auth := envelope.content.operation.auth;
      ExpiryIsSet(auth[i], ledger);
      assert before[..i + 1][..i] == before[..i];
      if Detached(auth[i]) {
        if Presigned(auth[i]) {
          return Failure(TransactionRefused);
        }
        envelope.content := WithAuth(envelope.content, auth[i := ExpiringAt(auth[i], ledger)]);
        count := count + 1;
      }
    }
    assert before[..|before|] == before;
    updated := Success(count);
  }

  /** `_validate_candidate`, on an envelope the adapter can inspect. */
  predicate CandidateOk(c: Content, network: string) {
    Invokes(c, network) && c.signatures == [] && c.operation.auth == [] && c.resourceFee.None?
  }

  /** The reviewed intent: who pays, who invokes, and what. */
  predicate SameIntent(candidate: Content, assembled: Content) {
    && candidate.source == assembled.source && OperationSource(candidate) == OperationSource(assembled)
    && candidate.operation.InvokeContract? && assembled.operation.InvokeContract?
    && candidate.operation.invocation == assembled.operation.invocation
  }

  /** `_validate_assembled`. */
  predicate AssembledOk(candidate: Content, assembled: Content) {
    && assembled.signatures == []
    && assembled.resourceFee.Some? && 0 <= assembled.resourceFee.value <= assembled.fee
    && SameIntent(candidate, assembled)
  }

  function Authorizers(auth: seq<AuthEntry>, source: string): seq<string> {
    seq(|auth|, i requires 0 <= i < |auth| => FactsOf(auth[i], source, i).authorizer)
  }

  function CredentialTypes(auth: seq<AuthEntry>): seq<CredentialType> {
    seq(|auth|, i requires 0 <= i < |auth| => TypeOf(auth[i].credentials))
  }

  // ---------- what may be prepared, in the fields of the envelopes ----------

  /** A bare, unsigned invocation on this network. */
  predicate Bare(c: Content, network: string) {
    && c.network == network && c.operation.InvokeContract? && c.operation.auth == []
    && c.signatures == [] && c.resourceFee == None
  }

  /** Who invokes: the source of the operation, or of the transaction where the operation names none. */
  predicate InvokedBy(c: Content, who: string) {
    c.operation.InvokeContract? && match c.operation.source case Some(s) => who == s case None => who == c.source
  }

  /** What assembly may make of a candidate: the same invocation with resources that its fee pays for, and nothing signed. */
  predicate Assembles(candidate: Content, assembled: Content, network: string)
    requires candidate.operation.InvokeContract?
  {
    && assembled.network == network && assembled.operation.InvokeContract? && assembled.signatures == []
    && assembled.resourceFee.Some? && 0 <= assembled.resourceFee.value <= assembled.fee
    && assembled.source == candidate.source && assembled.operation.invocation == candidate.operation.invocation
    && InvokedBy(assembled, OperationSource(candidate)) && InvokedBy(candidate, OperationSource(candidate))
    && forall e :: e in assembled.operation.auth && !e.credentials.SourceAccount? ==> e.credentials.credential.signature == None
  }

  /** The type a review gives the credentials of an entry. */
  predicate Typed(t: CredentialType, c: Credentials) {
    match c
    case SourceAccount => t == SourceAccountType
    case Address(_) => t == AddressType
    case AddressV2(_) => t == AddressV2Type
    case AddressWithDelegates(_, _) => t == AddressWithDelegatesType
  }

  /** The review lists an entry under its own account, or the invoking one, and with its type; a detached entry expires when it says. */
  predicate ListedAs(review: Review, i: nat, entry: AuthEntry)
    requires i < |review.authorizers| && i < |review.credentialTypes|
  {
    && Typed(review.credentialTypes[i], entry.credentials)
    && if entry.credentials.SourceAccount? then review.authorizers[i] == review.operationSource
       else review.authorizers[i] == entry.credentials.credential.address
            && review.expirationLedger == Some(entry.credentials.credential.expiration)
  }

  /** Whose error a refused preparation reports. */
  function PrepareError(candidate: Content, simulation: Result<Simulation>, assembled: Result<Content>, network: string): Error {
    if !Bare(candidate, network) then TransactionRefused
    else if simulation.Failure? then simulation.error
    else if !simulation.value.failed && !simulation.value.restoreRequired && assembled.Failure? then assembled.error
    else TransactionRefused
  }

  /**
   * `SorobanSimulationService.prepare`, for whatever the simulation says and whatever
   * envelope assembly returns.
   */
  method Prepare(
    walletName: string, candidate: Envelope, simulation: Result<Simulation>, assembled: Result<Content>,
    lifetime: pos, network: string) returns (r: Result<Prepared>)
    ensures candidate.content == old(candidate.content)
    ensures r.Success? <==>
      && Bare(candidate.content, network)
      && simulation.Success? && !simulation.value.failed && !simulation.value.restoreRequired
      && simulation.value.latestLedger + lifetime <= 4_294_967_295
      && assembled.Success? && Assembles(candidate.content, assembled.value, network)
    ensures r.Success? ==>
      var p := r.value;
      var c, review := p.envelope.content, p.review;
      var expiry := simulation.value.latestLedger + lifetime;
      && fresh(p) && fresh(p.envelope) && p.Valid() && p.ReviewBound() && p.authorizedXdr == None
      && SameIntent(candidate.content, c) && c.signatures == [] && NonePresigned(c.operation.auth)
      && c == WithAuth(assembled.value, c.operation.auth) && |c.operation.auth| == |assembled.value.operation.auth|
      && (forall i :: 0 <= i < |c.operation.auth| ==>
            NowExpires(c.operation.auth[i], assembled.value.operation.auth[i], expiry))
      && (review.expirationLedger.None? <==> forall e :: e in c.operation.auth ==> e.credentials.SourceAccount?)
      && review.feePayer == candidate.content.source && InvokedBy(candidate.content, review.operationSource)
      && review.invocation == candidate.content.operation.invocation
      && review.authEntryCount == |review.authorizers| == |review.credentialTypes| == |c.operation.auth|
      && (forall i :: 0 <= i < |c.operation.auth| ==> ListedAs(review, i, c.operation.auth[i]))
      && review.totalFee == c.fee && Some(review.resourceFee) == c.resourceFee
      && 0 <= review.resourceFee && 0 <= review.inclusionFee && review.resourceFee + review.inclusionFee == review.totalFee
      && review.minResourceFee == simulation.value.minResourceFee
      && review.simulationLedger == simulation.value.latestLedger
      && review.walletName == walletName && review.network == network
      && review.hash == p.SigningHash() && p.envelope.hash == candidate.hash
    ensures r.Failure? ==> r.error == PrepareError(candidate.content, simulation, assembled, network)
  {
    hide Meaning, Blank, ExpiringAt, NowExpires, Presigned, Detached, ListedAs, Assembles, Bare;
    BareChecked(candidate.content, network);
    if !CandidateOk(candidate.content, network) {
      return Failure(TransactionRefused);
    }
    if simulation.Failure? {
      return Failure(simulation.error);
    }
    if simulation.value.failed || simulation.value.restoreRequired {
      return Failure(TransactionRefused);
    }
    if assembled.Failure? {
      return Failure(assembled.error);
    }
    AssemblyChecked(candidate.content, assembled.value, network);
    var envelope := new Envelope(assembled.value, candidate.hash);
    var expiry := simulation.value.latestLedger + lifetime;
    if LAST_LEDGER < expiry {
      return Failure(TransactionRefused);
    }
    var detached := SetAuthorizationExpirationLedger(envelope, network, expiry);
    if detached.Failure? {
      return Failure(detached.error);
    }
    var c := envelope.content;
    EntriesIrrelevant(candidate.content, assembled.value, c.operation.auth);
    if !AssembledOk(candidate.content, c) {
      return Failure(TransactionRefused);
    }
    NoneDetached(assembled.value.operation.auth);
    ExpiryKeepsDetached(assembled.value.operation.auth, c.operation.auth, expiry);
    EntriesRead(c.operation.auth);
    ExpiryKeepsUnsigned(assembled.value.operation.auth, c.operation.auth, expiry);
    var source := OperationSource(c);
    var review := Review(
      walletName, c.source, source, c.operation.invocation,
      Authorizers(c.operation.auth, source), CredentialTypes(c.operation.auth), |c.operation.auth|,
      c.fee, c.resourceFee.value, c.fee - c.resourceFee.value, simulation.value.minResourceFee,
      simulation.value.latestLedger, if detached.value != 0 then Some(expiry) else None, network, envelope.HashHex());
    var prepared := new Prepared(envelope, review);
    forall i | 0 <= i < |c.operation.auth| ensures ListedAs(review, i, c.operation.auth[i]) {
      EntryListed(review, assembled.value.operation.auth, c.operation.auth, i, expiry);
    }
    r := Success(prepared);
  }

  /** What detached and presigned come to over all entries. */
  lemma EntriesRead(auth: seq<AuthEntry>)
    ensures (forall e :: e in auth ==> !Presigned(e))
       <==> forall e :: e in auth && !e.credentials.SourceAccount? ==> e.credentials.credential.signature == None
    ensures (exists e :: e in auth && Detached(e)) <==> !forall e :: e in auth ==> e.credentials.SourceAccount?
  {
  }

  /** The checks of the code, one after the other, are those of an assembly. */
  lemma AssemblyChecked(candidate: Content, assembled: Content, network: string)
    requires CandidateOk(candidate, network)
    ensures Assembles(candidate, assembled, network) <==>
      && Invokes(assembled, network) && AssembledOk(candidate, assembled)
      && forall e :: e in assembled.operation.auth ==> !Presigned(e)
  {
    if assembled.operation.InvokeContract? { EntriesRead(assembled.operation.auth); }
  }

  lemma BareChecked(candidate: Content, network: string)
    ensures CandidateOk(candidate, network) <==> Bare(candidate, network)
  {
  }

  /** Other entries change nothing of the intent or the fees. */
  lemma EntriesIrrelevant(candidate: Content, assembled: Content, auth: seq<AuthEntry>)
    requires assembled.operation.InvokeContract?
    ensures AssembledOk(candidate, WithAuth(assembled, auth)) <==> AssembledOk(candidate, assembled)
  {
  }

  lemma EntryListed(review: Review, before: seq<AuthEntry>, after: seq<AuthEntry>, i: nat, ledger: nat)
    requires i < |after| == |before| && NowExpires(after[i], before[i], ledger)
    requires review.authorizers == Authorizers(after, review.operationSource) && review.credentialTypes == CredentialTypes(after)
    requires review.expirationLedger == if exists e :: e in after && Detached(e) then Some(ledger) else None
    ensures ListedAs(review, i, after[i])
  {
    assert after[i] in after;
  }

  lemma ExpiryKeepsDetached(before: seq<AuthEntry>, after: seq<AuthEntry>, ledger: nat)
    requires |before| == |after| && forall i :: 0 <= i < |before| ==> NowExpires(after[i], before[i], ledger)
    ensures (exists e :: e in before && Detached(e)) <==> (exists e :: e in after && Detached(e))
  {
    if e :| e in before && Detached(e) {
      var i :| 0 <= i < |before| && before[i] == e;
      assert after[i] in after && Detached(after[i]);
    }
    if e :| e in after && Detached(e) {
      var i :| 0 <= i < |after| && after[i] == e;
      assert before[i] in before && Detached(before[i]);
    }
  }

  lemma ExpiryKeepsUnsigned(before: seq<AuthEntry>, after: seq<AuthEntry>, ledger: nat)
    requires |before| == |after| && forall i :: 0 <= i < |before| ==> NowExpires(after[i], before[i], ledger)
    requires forall e :: e in before ==> !Presigned(e)
    ensures NonePresigned(after)
  {
    forall i | 0 <= i < |after| ensures !Presigned(after[i]) {
      assert before[i] in before;
    }
  }

  // ---------- authorization ----------

  /** `replace_authorization_entry`: only if the entry is still the one that was reviewed. */
  method ReplaceAuthorizationEntry(envelope: Envelope, network: string, index: nat, expected: AuthEntry, signed: AuthEntry)
    returns (r: Result<()>)
    modifies envelope`content
    ensures r.Success? <==> old(Invokes(envelope.content, network)
      && index < |envelope.content.operation.auth| && envelope.content.operation.auth[index] == expected)
    ensures r.Success? ==>
      envelope.content == WithAuth(old(envelope.content), old(envelope.content).operation.auth[index := signed])
    ensures r.Failure? ==> r.error == TransactionRefused && envelope.content == old(envelope.content)
  {
    if !Invokes(envelope.content, network) {
      return Failure(TransactionRefused);
    }
    var auth := envelope.content.operation.auth;
    if |auth| <= index || auth[index] != expected {
      return Failure(TransactionRefused);
    }
    envelope.content := WithAuth(envelope.content, auth[index := signed]);
    r := Success(());
  }

  /** Entries of which the first `n` have been signed. */
  predicate SignedUpTo(before: seq<AuthEntry>, after: seq<AuthEntry>, n: nat, source: string, signers: map<string, Signer>) {
    && |after| == |before| && n <= |before|
    && (forall i :: 0 <= i < n ==> SignEntry(before[i], i, source, signers) == Success(after[i]))
    && (forall i :: n <= i < |before| ==> after[i] == before[i])
  }

  lemma SourceAccountSkipped(entry: AuthEntry, index: nat, source: string, signers: map<string, Signer>)
    ensures entry.credentials.SourceAccount? ==> SignEntry(entry, index, source, signers) == Success(entry)
  {
  }

  /** No signer answered with a bare entry. */
  predicate AnswersSigned(auth: seq<AuthEntry>, signers: map<string, Signer>) {
    forall i :: 0 <= i < |auth| && Detached(auth[i]) ==> !AnsweredUnsigned(auth[i], signers)
  }

  /** No entry that needs a signature came back as it was. */
  ghost predicate NoneLeft(auth: seq<AuthEntry>, signers: map<string, Signer>) {
    forall i :: 0 <= i < |auth| && Detached(auth[i]) ==> !LeftAsItWas(auth[i], signers)
  }

  /** When an authorized transaction carries every signature it needs. */
  lemma AuthorizedEntriesSigned(before: seq<AuthEntry>, after: seq<AuthEntry>, source: string, signers: map<string, Signer>)
    requires SignedUpTo(before, after, |before|, source, signers)
    ensures AllSigned(after) <==> AnswersSigned(before, signers)
    ensures NonePresigned(before) ==> (AnswersSigned(before, signers) <==> NoneLeft(before, signers))
  {
    hide SignEntry, LeftAsItWas, AnsweredUnsigned, Blank, Presigned, Detached;
    forall i | 0 <= i < |before|
      ensures Detached(after[i]) <==> Detached(before[i])
      ensures Detached(before[i]) ==> (Presigned(after[i]) <==> !AnsweredUnsigned(before[i], signers))
      ensures Detached(before[i]) && !Presigned(before[i]) ==>
        (AnsweredUnsigned(before[i], signers) <==> LeftAsItWas(before[i], signers))
    {
      SignedMeansTheSame(before[i], i, source, signers);
      SameDetachment(before[i], after[i]);
      if Detached(before[i]) { AcceptedAnswerSigned(before[i], i, source, signers); }
    }
  }

  lemma SameDetachment(a: AuthEntry, b: AuthEntry)
    requires Blank(a) == Blank(b)
    ensures Detached(a) <==> Detached(b)
  {
  }

  lemma SigningKeepsMeaning(c: Content, after: seq<AuthEntry>, n: nat, source: string, signers: map<string, Signer>)
    requires c.operation.InvokeContract? && SignedUpTo(c.operation.auth, after, n, source, signers)
    ensures Meaning(WithAuth(c, after)) == Meaning(c)
  {
    hide SignEntry, Blank, Meaning;
    var before := c.operation.auth;
    forall i | 0 <= i < |after| ensures Blank(after[i]) == Blank(before[i]) {
      if i < n { SignedMeansTheSame(before[i], i, source, signers); }
    }
    AuthReplacedMeansTheSame(c, after);
  }

  /**
   * After a call that failed at entry `n`, the envelope is the one it was called with exactly
   * when every entry before `n` was left as it was; otherwise it has changed, and with that
   * lost its binding.
   */
  lemma PartialSigningShows(before: seq<AuthEntry>, after: seq<AuthEntry>, n: nat, source: string, signers: map<string, Signer>)
    requires SignedUpTo(before, after, n, source, signers)
    ensures after == before <==> forall i :: 0 <= i < n ==> LeftAsItWas(before[i], signers)
  {
    hide SignEntry, LeftAsItWas, Blank;
    forall i | 0 <= i < n ensures after[i] == before[i] <==> LeftAsItWas(before[i], signers) {
      SignedMeansTheSame(before[i], i, source, signers);
    }
    if forall i :: 0 <= i < n ==> LeftAsItWas(before[i], signers) {
      assert forall i :: 0 <= i < |after| ==> after[i] == before[i];
    }
  }

  /** The envelope as a call leaves it that got as far as entry `n` and was refused there. */
  ghost predicate FailedAt(
    c: Content, after: Content, n: nat, error: Error, source: string, signers: map<string, Signer>)
  {
    && c.operation.InvokeContract? && after.operation.InvokeContract? && n < |c.operation.auth|
    && after == WithAuth(c, after.operation.auth)
    && SignedUpTo(c.operation.auth, after.operation.auth, n, source, signers)
    && SignEntry(c.operation.auth[n], n, source, signers) == Failure(error)
  }

  /** The first `n` entries came back as they were. */
  ghost predicate AllLeft(auth: seq<AuthEntry>, n: nat, signers: map<string, Signer>)
    requires n <= |auth|
  {
    forall i :: 0 <= i < n ==> LeftAsItWas(auth[i], signers)
  }

  /** What `authorize` checks before it asks any signer. */
  predicate Authorizable(c: Content, network: string, review: Review) {
    Invokes(c, network) && |c.operation.auth| == review.authEntryCount
  }

  /**
   * `SorobanAuthorizationService.authorize`: rebinds the envelope only when every entry was
   * signed and every entry still means what was reviewed. A call that fails at some entry
   * leaves the replaced entries before it in the envelope, and the envelope unbound unless
   * every one of them came back as it was.
   */
  method Authorize(network: string, prepared: Prepared, signers: map<string, Signer>) returns (r: Result<()>)
    requires prepared.Valid()
    modifies prepared`authorizedXdr, prepared`authorizedHash, prepared.envelope`content
    ensures prepared.Valid()
    ensures Meaning(prepared.BoundXdr()) == Meaning(old(prepared.BoundXdr()))
    ensures !old(prepared.ReviewBound()) ==>
      && r.Failure? && prepared.envelope.content == old(prepared.envelope.content)
      && prepared.SubmitBound() == old(prepared.SubmitBound())
    ensures r.Success? <==> old(prepared.ReviewBound() && Authorizable(prepared.envelope.content, network, prepared.review)
      && forall i :: 0 <= i < |prepared.envelope.content.operation.auth| ==>
           SignEntry(prepared.envelope.content.operation.auth[i], i, prepared.review.operationSource, signers).Success?)
    ensures r.Success? ==>
      var c := old(prepared.envelope.content);
      && prepared.ReviewBound() && prepared.authorizedXdr == Some(prepared.envelope.content)
      && prepared.envelope.content.operation.InvokeContract?
      && prepared.envelope.content == WithAuth(c, prepared.envelope.content.operation.auth)
      && SignedUpTo(c.operation.auth, prepared.envelope.content.operation.auth, |c.operation.auth|,
                    prepared.review.operationSource, signers)
      && (AllSigned(prepared.envelope.content.operation.auth) <==> AnswersSigned(c.operation.auth, signers))
      && (NonePresigned(c.operation.auth) ==> (AnswersSigned(c.operation.auth, signers) <==> NoneLeft(c.operation.auth, signers)))
    ensures r.Failure? ==>
      prepared.authorizedXdr == old(prepared.authorizedXdr) && prepared.authorizedHash == old(prepared.authorizedHash)
    ensures !old(prepared.ReviewBound() && Authorizable(prepared.envelope.content, network, prepared.review)) ==>
      && r == Failure(TransactionRefused) && prepared.envelope.content == old(prepared.envelope.content)
      && prepared.ReviewBound() == old(prepared.ReviewBound())
    ensures r.Failure? && old(prepared.ReviewBound() && Authorizable(prepared.envelope.content, network, prepared.review)) ==>
      var c := old(prepared.envelope.content);
      exists n: nat ::
        && FailedAt(c, prepared.envelope.content, n, r.error, prepared.review.operationSource, signers)
        && (prepared.ReviewBound() <==> AllLeft(c.operation.auth, n, signers))
  {
    hide SignEntry, Meaning, AllSigned, AnswersSigned, NoneLeft, NonePresigned, LeftAsItWas, Prepared.Valid, Prepared.ReviewBound;
    prepared.BoundMeansReviewed();
    ghost var before := prepared.envelope.content;
    if !prepared.ReviewBound() {
      return Failure(TransactionRefused);
    }
    if !Invokes(prepared.envelope.content, network) {
      return Failure(TransactionRefused);
    }
    var entries := prepared.envelope.content.operation.auth;
    if |entries| != prepared.review.authEntryCount {
      return Failure(TransactionRefused);
    }
    var source := prepared.review.operationSource;
    for index := 0 to |entries|
      invariant prepared.Valid() && prepared.authorizedXdr == old(prepared.authorizedXdr)
      invariant prepared.authorizedHash == old(prepared.authorizedHash)
      invariant Invokes(prepared.envelope.content, network)
      invariant prepared.envelope.content == WithAuth(before, prepared.envelope.content.operation.auth)
      invariant SignedUpTo(entries, prepared.envelope.content.operation.auth, index, source, signers)
    {
      var signed := SignEntry(entries[index], index, source, signers);
      if signed.Failure? {
        prepared.BoundMeansReviewed();
        PartialSigningShows(entries, prepared.envelope.content.operation.auth, index, source, signers);
        assert FailedAt(before, prepared.envelope.content, index, signed.error, source, signers);
        return Failure(signed.error);
      }
      SourceAccountSkipped(entries[index], index, source, signers);
      if entries[index].credentials != SourceAccount {
        var replaced := ReplaceAuthorizationEntry(prepared.envelope, network, index, entries[index], signed.value);
        assert replaced.Success?;
      }
    }
    SigningKeepsMeaning(before, prepared.envelope.content.operation.auth, |entries|, source, signers);
    AuthorizedEntriesSigned(entries, prepared.envelope.content.operation.auth, source, signers);
    prepared.BindAuthorizedEnvelope();
    r := Success(());
  }

  /**
   * Authorizing a second time can undo the first: two calls that both succeed end bound to a
   * transaction whose one entry has lost its signature.
   */
  method SignatureLostOnSecondCall(hash: Content -> EnvelopeHash) returns (prepared: Prepared, first: Result<()>, second: Result<()>)
    ensures first.Success? && second.Success?
    ensures prepared.Valid() && prepared.ReviewBound() && prepared.authorizedXdr.Some?
    ensures prepared.envelope.content.operation.InvokeContract?
    ensures prepared.envelope.content.operation.auth == [BARE_ENTRY] && !AllSigned([BARE_ENTRY])
  {
    hide SignEntry, Meaning, AnswersSigned, NoneLeft, NonePresigned, Prepared.Valid;
    var operation := InvokeContract(None, Invocation("C", "f", []), [BARE_ENTRY]);
    var envelope := new Envelope(Content("testnet", "G", 100, 0, Some(0), operation, []), hash);
    var review := Review("w", "G", "G", operation.invocation, ["G"], [AddressType], 1, 100, 0, 100, 0, 0, Some(1), "testnet", envelope.HashHex());
    prepared := new Prepared(envelope, review);
    SignatureStripped();
    first := Authorize("testnet", prepared, HONEST);
    assert prepared.envelope.content.operation.auth == [SignedWith(BARE_ENTRY, "s")];
    second := Authorize("testnet", prepared, STRIPPING);
    assert Detached(BARE_ENTRY) && !Presigned(BARE_ENTRY);
    assert ![BARE_ENTRY][0].credentials.SourceAccount?;
  }

  /** The signer of the first entry respells it; nobody signs for the second. */
  const RESPELLING: map<string, Signer> := map["G" := Capable((e: AuthEntry) => Text(Respelled(e, 1)))]
  const OTHER_ENTRY: AuthEntry := AuthEntry(Address(Credential("GB", 0, 0, None)), "root")

  lemma RespelledThenRefused()
    ensures SignEntry(BARE_ENTRY, 0, "G", RESPELLING) == Success(BARE_ENTRY)
    ensures SignEntry(OTHER_ENTRY, 1, "G", RESPELLING) == Failure(SignerFailure)
    ensures LeftAsItWas(BARE_ENTRY, RESPELLING)
  {
    assert IsClassic("G") && IsClassic("GB");
    assert RESPELLING["G"].sign(BARE_ENTRY) == Text(Respelled(BARE_ENTRY, 1));
    assert "GB" !in RESPELLING;
  }

  /** A call can replace an entry, fail at the next one, and leave the envelope bound as before. */
  method FailedCallStaysBound(hash: Content -> EnvelopeHash) returns (prepared: Prepared, r: Result<()>)
    ensures prepared.Valid() && r == Failure(SignerFailure) && prepared.ReviewBound()
    ensures prepared.envelope.content.operation.InvokeContract?
    ensures prepared.envelope.content.operation.auth == [BARE_ENTRY, OTHER_ENTRY]
  {
    hide SignEntry, Meaning, LeftAsItWas, AllSigned, AnswersSigned, NoneLeft, NonePresigned, Prepared.Valid;
    var operation := InvokeContract(None, Invocation("C", "f", []), [BARE_ENTRY, OTHER_ENTRY]);
    var envelope := new Envelope(Content("testnet", "G", 100, 0, Some(0), operation, []), hash);
    var review := Review("w", "G", "G", operation.invocation, ["G", "GB"], [AddressType, AddressType], 2,
                         100, 0, 100, 0, 0, Some(1), "testnet", envelope.HashHex());
    prepared := new Prepared(envelope, review);
    RespelledThenRefused();
    ghost var c := envelope.content;
    assert c.operation.auth[1] == OTHER_ENTRY;
    r := Authorize("testnet", prepared, RESPELLING);
    ghost var n: nat :| FailedAt(c, envelope.content, n, r.error, "G", RESPELLING)
      && (prepared.ReviewBound() <==> AllLeft(c.operation.auth, n, RESPELLING));
    assert n == 1;
    assert envelope.content.operation.auth[0] == BARE_ENTRY;
  }
}
