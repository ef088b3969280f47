/** Wallet records, sealed signing material and the in-memory record store (storage.py, protection.py). */
module WalletStorage {
  import opened Models

  datatype Address = ClassicAccount(key: string) | ContractAccount(id: string)

  /** Signing material: all that matters here is the key it signs with. */
  datatype Material = Material(publicKey: string)

  /** An encrypted envelope as the cipher sees it: one password opens it, and no other. */
  datatype SecretEnvelope = Sealed(salt: nat, password: string, material: Material) | Corrupted

  /** The key a password and a salt derive. */
  datatype UnlockKey = UnlockKey(salt: nat, password: string)

  /** `encrypt_secret`: a wallet password cannot be empty. */
  function Protect(material: Material, password: string, salt: nat): Result<SecretEnvelope> {
    if password == "" then Failure(WalletProblem) else Success(Sealed(salt, password, material))
  }

  function DeriveUnlockKey(envelope: SecretEnvelope, password: string): Result<UnlockKey> {
    if password == "" || envelope.Corrupted? then Failure(WalletProblem) else Success(UnlockKey(envelope.salt, password))
  }

  function UnprotectWithUnlockKey(envelope: SecretEnvelope, key: UnlockKey): Result<Material> {
    if envelope.Corrupted? then Failure(WalletProblem)
    else if key != UnlockKey(envelope.salt, envelope.password) then Failure(InvalidPassword)
    else Success(envelope.material)
  }

  datatype WalletType = WatchOnlyType | SecretType | MnemonicType

  datatype SignerKind = ProtectedSoftware | OtherSigner

  datatype WalletRecord = WalletRecord(
    name: string, address: Address, walletType: WalletType, network: string,
    secret: Option<SecretEnvelope>, signerKind: Option<SignerKind>, signerPublicKey: Option<string>)
  {
    predicate WatchOnly() {
      signerKind.None?
    }

    /** A local signer the application passcode has to open. */
    predicate Protected() {
      signerKind == Some(ProtectedSoftware) && secret.Some?
    }

    /** Compatibility with records from before the signer had an identity of its own. */
    function Normalised(): WalletRecord {
      if signerKind.None? && !walletType.WatchOnlyType? && secret.Some? then
        this.(signerKind := Some(ProtectedSoftware),
              signerPublicKey := if signerPublicKey.Some? then signerPublicKey
                                 else Some(if address.ClassicAccount? then address.key else address.id))
      else
        this
    }
  }

  /** A record from before signers had an identity of its own is one with a protected signer; all others stay as they are. */
  lemma OldRecordsProtected(record: WalletRecord)
    ensures var now := record.Normalised();
      if record.signerKind == None && record.walletType != WatchOnlyType && record.secret.Some? then
        && now.signerKind == Some(ProtectedSoftware)
        && now.(signerKind := None, signerPublicKey := record.signerPublicKey) == record
        && now.signerPublicKey == (if record.signerPublicKey.Some? then record.signerPublicKey
                                   else Some(match record.address case ClassicAccount(key) => key case ContractAccount(id) => id))
      else now == record
  {
  }

  /** `_derive_record_unlock_key` without the core client: the key, once it has been seen to open the record. */
  function DeriveRecordUnlockKey(record: WalletRecord, password: string): Result<UnlockKey>
    requires record.secret.Some?
  {
    var key :- DeriveUnlockKey(record.secret.value, password);
    var material :- UnprotectWithUnlockKey(record.secret.value, key);
    if Some(material.publicKey) != record.signerPublicKey then Failure(WalletLocked) else Success(key)
  }

  /** A password reveals a record's signer. */
  predicate Opens(record: WalletRecord, password: string) {
    record.secret.Some? && DeriveRecordUnlockKey(record, password).Success?
  }

  /** Some password reveals it: the envelope is sound and holds the signer the record names. */
  predicate Openable(record: WalletRecord) {
    record.secret.Some? && record.secret.value.Sealed? && record.secret.value.password != ""
    && Some(record.secret.value.material.publicKey) == record.signerPublicKey
  }

  lemma OpensExactlyOnePassword(record: WalletRecord)
    ensures Openable(record) ==> Opens(record, record.secret.value.password)
    ensures forall p :: Opens(record, p) ==> Openable(record) && p == record.secret.value.password
  {
  }

  /** What a refusal to open says: nothing to do with an empty password or a broken envelope, a wrong password, or another signer. */
  lemma OpeningRefusals(record: WalletRecord, password: string, key: UnlockKey)
    requires record.secret.Some?
    ensures UnprotectWithUnlockKey(record.secret.value, key).Failure? ==>
      UnprotectWithUnlockKey(record.secret.value, key).error ==
        if record.secret.value == Corrupted then WalletProblem else InvalidPassword
    ensures DeriveRecordUnlockKey(record, password).Failure? ==>
      DeriveRecordUnlockKey(record, password).error ==
        if password == "" || record.secret.value == Corrupted then WalletProblem
        else if password != record.secret.value.password then InvalidPassword
        else WalletLocked
  {
  }

  predicate ProtectedAt(wallets: map<string, WalletRecord>, name: string) {
    name in wallets && wallets[name].signerKind == Some(ProtectedSoftware) && wallets[name].secret.Some?
  }

  /** One password opens every stored protected signer. */
  ghost predicate OpensAll(wallets: map<string, WalletRecord>, password: string) {
    forall n :: ProtectedAt(wallets, n) ==> Opens(wallets[n], password)
  }

  ghost predicate OnePasscode(wallets: map<string, WalletRecord>) {
    exists p :: OpensAll(wallets, p)
  }

  /** No two protected signers disagree, although a lone one may be beyond opening. */
  ghost predicate NoTwoPasscodes(wallets: map<string, WalletRecord>) {
    OnePasscode(wallets) || forall m, n :: ProtectedAt(wallets, m) && ProtectedAt(wallets, n) ==> m == n
  }

  // ---------- the order of names ----------

  /** Strings in dictionary order. */
  predicate UpTo(a: string, b: string) {
    a == [] || (b != [] && (a[0] < b[0] || (a[0] == b[0] && UpTo(a[1..], b[1..]))))
  }

  lemma {:induction false} UpToTotal(a: string, b: string)
    ensures UpTo(a, b) || UpTo(b, a)
  {
    if a != [] && b != [] { UpToTotal(a[1..], b[1..]); }
  }

  lemma {:induction false} UpToTransitive(a: string, b: string, c: string)
    requires UpTo(a, b) && UpTo(b, c)
    ensures UpTo(a, c)
  {
    if a != [] && a[0] == b[0] == c[0] { UpToTransitive(a[1..], b[1..], c[1..]); }
  }

  /** It is the dictionary order: the first difference decides, and a beginning comes first. */
  lemma {:induction false} UpToIsDictionary(start: string, a: string, b: string)
    ensures UpTo(start, start + a)
    ensures a != [] && b != [] && a[0] < b[0] ==> UpTo(start + a, start + b) && !UpTo(start + b, start + a)
    ensures a != [] ==> !UpTo(start + a, start)
  {
    if start == [] {
      assert start + a == a && start + b == b;
    } else {
      assert (start + a)[1..] == start[1..] + a && (start + b)[1..] == start[1..] + b;
      UpToIsDictionary(start[1..], a, b);
    }
  }

  lemma {:induction false} LeastExists(names: set<string>, key: string -> string)
    requires names != {}
    ensures exists n :: n in names && forall m :: m in names ==> UpTo(key(n), key(m))
    decreases |names|
  {
    var n :| n in names;
    var rest := names - {n};
    UpToTotal(key(n), key(n));
    if rest == {} {
      assert names == rest + {n};
    } else {
      LeastExists(rest, key);
      var least :| least in rest && forall m :: m in rest ==> UpTo(key(least), key(m));
      UpToTotal(key(n), key(least));
      var best := if UpTo(key(n), key(least)) then n else least;
      forall m | m in names ensures UpTo(key(best), key(m)) {
        if m != n && best == n { UpToTransitive(key(n), key(least), key(m)); }
      }
    }
  }

  method Least(names: set<string>, key: string -> string) returns (n: string)
    requires names != {}
    ensures n in names && forall m :: m in names ==> UpTo(key(n), key(m))
  {
    LeastExists(names, key);
    n :| n in names && forall m :: m in names ==> UpTo(key(n), key(m));
  }

  predicate InOrder(records: seq<WalletRecord>, key: string -> string) {
    forall i, j :: 0 <= i < j < |records| ==> UpTo(key(records[i].name), key(records[j].name))
  }

  predicate AllUpTo(records: seq<WalletRecord>, name: string, key: string -> string) {
    forall i :: 0 <= i < |records| ==> UpTo(key(records[i].name), key(name))
  }

  lemma AppendedInOrder(records: seq<WalletRecord>, w: WalletRecord, key: string -> string)
    requires InOrder(records, key) && AllUpTo(records, w.name, key)
    ensures InOrder(records + [w], key)
    ensures forall n :: AllUpTo(records, n, key) && UpTo(key(w.name), key(n)) ==> AllUpTo(records + [w], n, key)
  {
    hide UpTo;
  }

  lemma NothingInOrder(key: string -> string)
    ensures InOrder([], key) && forall n :: AllUpTo([], n, key)
  {
  }

  class MemoryWalletStorage {
    /** How names are lower-cased. */
    const lower: string -> string
    var wallets: map<string, WalletRecord>
    var selected: Option<string>

    constructor (lower: string -> string)
      ensures Valid() && wallets == map[] && selected == None && this.lower == lower
    {
      this.lower, wallets, selected := lower, map[], None;
    }

    /** Records are stored under their own names, and a default names a stored wallet. */
    predicate Valid()
      reads this
    {
      && (forall n :: n in wallets ==> wallets[n].name == n)
      && (selected.Some? ==> selected.value in wallets)
    }

    method Save(record: WalletRecord, overwrite: bool) returns (r: Result<()>)
      requires Valid()
      modifies this`wallets
      ensures Valid()
      ensures r.Success? <==> record.name !in old(wallets) || overwrite
      ensures wallets == if r.Success? then old(wallets)[record.name := record] else old(wallets)
      ensures r.Failure? ==> r.error == WalletExists
    {
      if record.name in wallets && !overwrite {
        return Failure(WalletExists);
      }
      wallets := wallets[record.name := record];
      r := Success(());
    }

    method Load(name: string) returns (r: Result<WalletRecord>)
      ensures r == if name in wallets then Success(wallets[name]) else Failure(WalletNotFound)
    {
      if name in wallets { return Success(wallets[name]); }
      r := Failure(WalletNotFound);
    }

    /** Every record once, by lower-case name; names that differ in case only come in any order. */
    method List() returns (records: seq<WalletRecord>)
      requires Valid()
      ensures |records| == |wallets|
      ensures forall w :: w in records <==> w.name in wallets && wallets[w.name] == w
      ensures InOrder(records, lower)
    {
      hide InOrder, AllUpTo, UpTo;
      records := [];
      NothingInOrder(lower);
      var left := wallets.Keys;
      while left != {}
        invariant left <= wallets.Keys && |records| == |wallets| - |left|
        invariant forall w :: w in records <==> w.name in wallets && w.name !in left && wallets[w.name] == w
        invariant InOrder(records, lower) && forall n :: n in left ==> AllUpTo(records, n, lower)
      {
        var n := Least(left, lower);
        AppendedInOrder(records, wallets[n], lower);
        records := records + [wallets[n]];
        left := left - {n};
      }
    }

    method Delete(name: string) returns (r: Result<()>)
      requires Valid()
      modifies this`wallets, this`selected
      ensures Valid()
      ensures r == if name in old(wallets) then Success(()) else Failure(WalletNotFound)
      ensures wallets == old(wallets) - {name}
      ensures selected == if old(selected) == Some(name) then None else old(selected)
    {
      if name !in wallets {
        assert wallets - {name} == wallets;
        return Failure(WalletNotFound);
      }
      wallets := wallets - {name};
      if selected == Some(name) {
        selected := None;
      }
      r := Success(());
    }

    method SetDefault(name: string) returns (r: Result<()>)
      requires Valid()
      modifies this`selected
      ensures Valid()
      ensures r == if name in wallets then Success(()) else Failure(WalletNotFound)
      ensures selected == if name in wallets then Some(name) else old(selected)
    {
      var record := Load(name);
      if record.Failure? {
        return Failure(record.error);
      }
      selected := Some(name);
      r := Success(());
    }
  }
}
