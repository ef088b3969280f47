/** Soroban authorization entries and the envelopes that carry them (soroban_rpc_adapter.py). */
module Authorization {
  import opened Models

  /** Address credentials; a void signature is no signature. */
  datatype Credential = Credential(address: string, nonce: int, expiration: nat, signature: Option<string>)

  datatype Credentials =
    | SourceAccount
    | Address(credential: Credential)
    | AddressV2(credential: Credential)
    | AddressWithDelegates(credential: Credential, delegates: seq<string>)

  datatype AuthEntry = AuthEntry(credentials: Credentials, root: string)

  /** The text of an entry: as the codec writes it, another spelling the codec also reads, or neither. */
  datatype EntryText = Canonical(entry: AuthEntry) | Respelled(entry: AuthEntry, spelling: nat) | Unreadable(text: string)

  function FromXdr(text: EntryText): Option<AuthEntry> {
    match text
    case Canonical(entry) => Some(entry)
    case Respelled(entry, _) => Some(entry)
    case Unreadable(_) => None
  }

  datatype CredentialType = SourceAccountType | AddressType | AddressV2Type | AddressWithDelegatesType

  /** `SorobanAuthorizationEntryFacts`, without the text of the entry. */
  datatype EntryFacts = EntryFacts(
    index: nat, authorizer: string, credentialType: CredentialType,
    nonce: Option<int>, expiration: Option<nat>, root: string)

  function TypeOf(credentials: Credentials): CredentialType {
    match credentials
    case SourceAccount => SourceAccountType
    case Address(_) => AddressType
    case AddressV2(_) => AddressV2Type
    case AddressWithDelegates(_, _) => AddressWithDelegatesType
  }

  function FactsOf(entry: AuthEntry, operationSource: string, index: nat): EntryFacts {
    var t := TypeOf(entry.credentials);
    if entry.credentials.SourceAccount? then
      EntryFacts(index, operationSource, t, None, None, entry.root)
    else
      var c := entry.credentials.credential;
      EntryFacts(index, c.address, t, Some(c.nonce), Some(c.expiration), entry.root)
  }

  /** An entry with its signature blanked out: what its signer is asked to agree to. */
  function Blank(entry: AuthEntry): AuthEntry {
    if entry.credentials.SourceAccount? then entry
    else entry.(credentials := entry.credentials.(credential := entry.credentials.credential.(signature := None)))
  }

  /**
   * The six compared facts fix everything but the signature of an entry, except that they
   * say nothing of delegates.
   */
  lemma FactsFixMeaning(a: AuthEntry, b: AuthEntry, operationSource: string, index: nat)
    ensures Blank(a) == Blank(b) <==>
      FactsOf(a, operationSource, index) == FactsOf(b, operationSource, index)
      && (a.credentials.AddressWithDelegates? && b.credentials.AddressWithDelegates? ==>
            a.credentials.delegates == b.credentials.delegates)
  {
    assert a.credentials.SourceAccount? ==> TypeOf(a.credentials) == SourceAccountType;
  }

  // ---------- signers ----------

  /** What a signer does when asked: raise, give something other than text, or give a text. */
  datatype Answer = Raised | NotText | Text(text: EntryText)

  /** Signers are given the text of an entry and nothing else. */
  datatype Signer = Incapable | Capable(sign: AuthEntry -> Answer)

  predicate IsClassic(address: string) {
    address != "" && address[0] == 'G'
  }

  /** One turn of the authorization loop: the entry that takes the reviewed one's place. */
  function SignEntry(entry: AuthEntry, index: nat, operationSource: string, signers: map<string, Signer>): Result<AuthEntry> {
    match entry.credentials
    case SourceAccount => Success(entry)
    case AddressWithDelegates(_, _) => Failure(TransactionRefused)
    case _ =>
      var authorizer := entry.credentials.credential.address;
      if !IsClassic(authorizer) then Failure(TransactionRefused)
      else if authorizer !in signers || signers[authorizer].Incapable? then Failure(SignerFailure)
      else
        match signers[authorizer].sign(entry)
        case Raised => Failure(SignerFailure)
        case NotText => Failure(SignerFailure)
        case Text(text) =>
          if text == Canonical(entry) then Failure(SignerFailure)
          else
            match FromXdr(text)
            case None => Failure(TransactionRefused)
            case Some(signed) =>
              if FactsOf(signed, operationSource, index) != FactsOf(entry, operationSource, index) then
                Failure(TransactionRefused)
              else
                Success(signed)
  }

  /** The entry needs no signature, or its signer gave back the very same entry spelled differently. */
  ghost predicate LeftAsItWas(entry: AuthEntry, signers: map<string, Signer>) {
    || entry.credentials.SourceAccount?
    || (var authorizer := entry.credentials.credential.address;
        authorizer in signers && signers[authorizer].Capable?
        && exists n :: signers[authorizer].sign(entry) == Text(Respelled(entry, n)))
  }

  /**
   * Whatever the signers answer, an entry is only ever replaced by itself with another
   * signature; and it stays as it was only when it needs no signature, or when its signer
   * gave back the very same entry in another spelling.
   */
  lemma SignedMeansTheSame(entry: AuthEntry, index: nat, operationSource: string, signers: map<string, Signer>)
    requires SignEntry(entry, index, operationSource, signers).Success?
    ensures Blank(SignEntry(entry, index, operationSource, signers).value) == Blank(entry)
    ensures SignEntry(entry, index, operationSource, signers).value == entry <==> LeftAsItWas(entry, signers)
  {
    var signed := SignEntry(entry, index, operationSource, signers).value;
    FactsFixMeaning(signed, entry, operationSource, index);
    if !entry.credentials.SourceAccount? {
      var answer := signers[entry.credentials.credential.address].sign(entry);
      if signed == entry { assert answer == Text(Respelled(entry, answer.text.spelling)); }
    }
  }

  /** A signer that can be asked for this entry: capable, of a classic account, for credentials that are supported. */
  predicate CanBeSigned(entry: AuthEntry, signers: map<string, Signer>) {
    && (entry.credentials.Address? || entry.credentials.AddressV2?)
    && var authorizer := entry.credentials.credential.address;
       authorizer != "" && authorizer[0] == 'G' && authorizer in signers && signers[authorizer].Capable?
  }

  /** The text the signer of an entry answers with, if it answers with one. */
  function AnswerText(entry: AuthEntry, signers: map<string, Signer>): Option<EntryText>
    requires CanBeSigned(entry, signers)
  {
    match signers[entry.credentials.credential.address].sign(entry)
    case Text(text) => Some(text)
    case _ => None
  }

  /**
   * Exactly which entries get through: those that need no signature, and those whose signer
   * answers with a readable text, other than the one it was given, of an entry that means the
   * same. It is the entry read from that text that takes the place of the one asked about.
   */
  lemma AcceptedExactly(entry: AuthEntry, index: nat, operationSource: string, signers: map<string, Signer>)
    ensures SignEntry(entry, index, operationSource, signers).Success? <==>
      || entry.credentials.SourceAccount?
      || (CanBeSigned(entry, signers)
          && match signers[entry.credentials.credential.address].sign(entry)
             case Text(text) =>
               text != Canonical(entry) && FromXdr(text).Some? && Blank(FromXdr(text).value) == Blank(entry)
             case _ => false)
    ensures SignEntry(entry, index, operationSource, signers).Success? ==>
      var signed := SignEntry(entry, index, operationSource, signers).value;
      if entry.credentials.SourceAccount? then signed == entry
      else CanBeSigned(entry, signers) && AnswerText(entry, signers).Some? && FromXdr(AnswerText(entry, signers).value) == Some(signed)
    ensures SignEntry(entry, index, operationSource, signers).Failure? ==>
      SignEntry(entry, index, operationSource, signers).error ==
        if !entry.credentials.Address? && !entry.credentials.AddressV2? then TransactionRefused
        else if !(entry.credentials.credential.address != "" && entry.credentials.credential.address[0] == 'G') then TransactionRefused
        else if CanBeSigned(entry, signers) && AnswerText(entry, signers).Some?
                && AnswerText(entry, signers) != Some(Canonical(entry)) then TransactionRefused
        else SignerFailure
  {
    if CanBeSigned(entry, signers) {
      match signers[entry.credentials.credential.address].sign(entry)
      case Text(text) =>
        if FromXdr(text).Some? { FactsFixMeaning(FromXdr(text).value, entry, operationSource, index); }
      case _ =>
    }
  }

  /** The answer reads as the entry without any signature. */
  predicate AnsweredUnsigned(entry: AuthEntry, signers: map<string, Signer>) {
    && !entry.credentials.SourceAccount?
    && var authorizer := entry.credentials.credential.address;
       authorizer in signers && signers[authorizer].Capable?
       && match signers[authorizer].sign(entry)
          case Text(text) => FromXdr(text) == Some(Blank(entry))
          case _ => false
  }

  predicate Detached(entry: AuthEntry) {
    !entry.credentials.SourceAccount?
  }

  /** A detached entry that carries a signature. */
  predicate Presigned(entry: AuthEntry) {
    Detached(entry) && entry.credentials.credential.signature.Some?
  }

  /**
   * An accepted answer carries a signature unless it reads as the bare entry. For an entry
   * that came unsigned that takes another spelling of it; for one that came signed the
   * canonical text of the bare entry will do.
   */
  lemma AcceptedAnswerSigned(entry: AuthEntry, index: nat, operationSource: string, signers: map<string, Signer>)
    requires Detached(entry) && SignEntry(entry, index, operationSource, signers).Success?
    ensures Presigned(SignEntry(entry, index, operationSource, signers).value) <==> !AnsweredUnsigned(entry, signers)
    ensures !Presigned(entry) ==> (AnsweredUnsigned(entry, signers) <==> LeftAsItWas(entry, signers))
    ensures var answer, bare := signers[entry.credentials.credential.address].sign(entry), Blank(entry);
      AnsweredUnsigned(entry, signers) <==>
        (Presigned(entry) && answer == Text(Canonical(bare))) || exists n :: answer == Text(Respelled(bare, n))
  {
    SignedMeansTheSame(entry, index, operationSource, signers);
    var answer := signers[entry.credentials.credential.address].sign(entry);
    if AnsweredUnsigned(entry, signers) && answer.text.Respelled? {
      assert answer == Text(Respelled(Blank(entry), answer.text.spelling));
    }
  }

  /** The check for an unsigned answer compares texts, so an unsigned entry can pass it. */
  lemma UnsignedAnswerAccepted()
    ensures exists entry: AuthEntry, signers: map<string, Signer> ::
      Detached(entry) && !Presigned(entry) && SignEntry(entry, 0, "G", signers) == Success(entry)
  {
    var entry := BARE_ENTRY;
    var signers := map["G" := Capable((e: AuthEntry) => Text(Respelled(e, 1)))];
    assert IsClassic("G") && signers["G"].sign(entry) == Text(Respelled(entry, 1));
    assert SignEntry(entry, 0, "G", signers) == Success(entry);
  }

  const BARE_ENTRY: AuthEntry := AuthEntry(Address(Credential("G", 0, 0, None)), "root")

  /** A signer that signs whatever it is given, and one that takes every signature off again. */
  const HONEST: map<string, Signer> := map["G" := Capable((e: AuthEntry) => Text(Canonical(SignedWith(e, "s"))))]
  const STRIPPING: map<string, Signer> := map["G" := Capable((e: AuthEntry) => Text(Canonical(Blank(e))))]

  function SignedWith(entry: AuthEntry, signature: string): AuthEntry {
    if entry.credentials.SourceAccount? then entry
    else entry.(credentials := entry.credentials.(credential := entry.credentials.credential.(signature := Some(signature))))
  }

  /** A signed entry answered with its bare self in the canonical spelling loses its signature. */
  lemma SignatureStripped()
    ensures SignEntry(BARE_ENTRY, 0, "G", HONEST) == Success(SignedWith(BARE_ENTRY, "s"))
    ensures var signed := SignedWith(BARE_ENTRY, "s");
      SignEntry(signed, 0, "G", STRIPPING) == Success(BARE_ENTRY) && !LeftAsItWas(signed, STRIPPING)
  {
    var signed := SignedWith(BARE_ENTRY, "s");
    assert IsClassic("G");
    assert HONEST["G"].sign(BARE_ENTRY) == Text(Canonical(signed));
    assert STRIPPING["G"].sign(signed) == Text(Canonical(BARE_ENTRY));
  }

  // ---------- envelopes ----------

  datatype Invocation = Invocation(contract: string, name: string, arguments: seq<string>)

  /** Everything but a single contract invocation is unsupported, whatever it is. */
  datatype Operation =
    | InvokeContract(source: Option<string>, invocation: Invocation, auth: seq<AuthEntry>)
    | Unsupported(description: string)

  /** An envelope's content; its text is the content itself. */
  datatype Content = Content(
    network: string, source: string, fee: nat, maxTime: nat,
    resourceFee: Option<int>, operation: Operation, signatures: seq<string>)

  function Unsigned(c: Content): Content {
    c.(signatures := [])
  }

  function BlankAll(auth: seq<AuthEntry>): seq<AuthEntry> {
    seq(|auth|, i requires 0 <= i < |auth| => Blank(auth[i]))
  }

  /** What a transaction does and whom it asks: the content without any signature. */
  function Meaning(c: Content): Content {
    if c.operation.InvokeContract? then
      Unsigned(c).(operation := c.operation.(auth := BlankAll(c.operation.auth)))
    else
      Unsigned(c)
  }

  /** `_invoke_operation`: what every adapter call first asks of an envelope. */
  predicate Invokes(c: Content, network: string) {
    c.network == network && c.operation.InvokeContract?
  }

  function OperationSource(c: Content): string {
    if c.operation.InvokeContract? && c.operation.source.Some? then c.operation.source.value else c.source
  }

  /** What two contents that mean the same have in common: everything but the signatures, in the envelope and in its entries. */
  lemma SameMeaning(a: Content, b: Content)
    ensures Meaning(a) == Meaning(b) <==>
      && (a.network, a.source, a.fee, a.maxTime, a.resourceFee) == (b.network, b.source, b.fee, b.maxTime, b.resourceFee)
      && match (a.operation, b.operation)
         case (InvokeContract(source, invocation, auth), InvokeContract(source', invocation', auth')) =>
           && source == source' && invocation == invocation' && |auth| == |auth'|
           && forall i :: 0 <= i < |auth| ==> Blank(auth[i]) == Blank(auth'[i])
         case (Unsupported(description), Unsupported(description')) => description == description'
         case _ => false
  {
    if a.operation.InvokeContract? && b.operation.InvokeContract? {
      var x, y := a.operation.auth, b.operation.auth;
      if Meaning(a) == Meaning(b) {
        assert BlankAll(x) == BlankAll(y);
        forall i | 0 <= i < |x| ensures Blank(x[i]) == Blank(y[i]) {
          assert BlankAll(x)[i] == BlankAll(y)[i];
        }
      } else if |x| == |y| && forall i :: 0 <= i < |x| ==> Blank(x[i]) == Blank(y[i]) {
        assert BlankAll(x) == BlankAll(y);
      }
    }
  }

  /** Blanking takes off the signature and nothing else. */
  lemma BlankTakesSignature(entry: AuthEntry)
    ensures entry.credentials.SourceAccount? ==> Blank(entry) == entry
    ensures !entry.credentials.SourceAccount? ==>
      var c := Blank(entry).credentials;
      !c.SourceAccount? && c.credential.signature == None
      && Blank(entry).(credentials := c.(credential := c.credential.(signature := entry.credentials.credential.signature))) == entry
  {
  }

  lemma AuthReplacedMeansTheSame(c: Content, auth: seq<AuthEntry>)
    requires c.operation.InvokeContract? && |auth| == |c.operation.auth|
    requires forall i :: 0 <= i < |auth| ==> Blank(auth[i]) == Blank(c.operation.auth[i])
    ensures Meaning(c.(operation := c.operation.(auth := auth))) == Meaning(c)
  {
    assert BlankAll(auth) == BlankAll(c.operation.auth);
  }
}
