/** Wallet lifecycle under one application passcode, with at most one live session (manager.py). */
module Wallets {
  import opened Models
  import opened WalletStorage

  /** An unlocked wallet: the record it was opened from and the signer that came out. */
  datatype Session = Session(record: WalletRecord, signer: Material)

  // ---------- names of networks and wallets ----------

  const NETWORKS: set<string> := {"mainnet", "testnet"}

  function Lowered(s: string): string {
    seq(|s|, i requires 0 <= i < |s| => if 'A' <= s[i] <= 'Z' then s[i] + 32 as char else s[i])
  }

  /** `get_network` knows the name. */
  predicate KnownNetwork(network: string) {
    Lowered(network) in NETWORKS
  }

  /** The same letters, in whatever case. */
  predicate Spells(s: string, word: string) {
    |s| == |word| && forall i :: 0 <= i < |s| ==> s[i] == word[i] || ('A' <= s[i] <= 'Z' && s[i] as int + 32 == word[i] as int)
  }

  predicate MainnetOrTestnet(network: string) {
    Spells(network, "mainnet") || Spells(network, "testnet")
  }

  lemma LoweredSpells(s: string, word: string)
    requires forall i :: 0 <= i < |word| ==> 'a' <= word[i] <= 'z'
    ensures Lowered(s) == word <==> Spells(s, word)
  {
    if Spells(s, word) {
      assert forall i :: 0 <= i < |s| ==> Lowered(s)[i] == word[i];
    } else if |s| == |word| {
      var i :| 0 <= i < |s| && !(s[i] == word[i] || ('A' <= s[i] <= 'Z' && s[i] as int + 32 == word[i] as int));
      assert Lowered(s)[i] != word[i];
    }
  }

  /** The two networks are known in any case, and no other is. */
  lemma NetworksKnown(network: string)
    ensures KnownNetwork(network) <==> MainnetOrTestnet(network)
  {
    hide Lowered, Spells;
    LoweredSpells(network, "mainnet");
    LoweredSpells(network, "testnet");
  }

  /** White space, as names are stripped of it. */
  predicate Space(c: char) {
    var k := c as int;
    || 0x9 <= k <= 0xd || 0x1c <= k <= 0x20 || k == 0x85 || k == 0xa0 || k == 0x1680 || 0x2000 <= k <= 0x200a
    || k == 0x2028 || k == 0x2029 || k == 0x202f || k == 0x205f || k == 0x3000
  }

  lemma SpacesListed(c: char)
    ensures Space(c) <==> c as int in {
      9, 10, 11, 12, 13, 28, 29, 30, 31, 32, 133, 160, 5760, 8192, 8193, 8194, 8195, 8196, 8197, 8198, 8199, 8200, 8201, 8202,
      8232, 8233, 8239, 8287, 12288}
  {
  }

  function Stripped(s: string): string {
    if s == [] then []
    else if Space(s[0]) then Stripped(s[1..])
    else if Space(s[|s| - 1]) then Stripped(s[..|s| - 1])
    else s
  }

  predicate AllSpace(s: string) {
    forall k :: 0 <= k < |s| ==> Space(s[k])
  }

  /** The part of a text between i and j is all of it but the white space at both ends. */
  predicate Trims(s: string, i: nat, j: nat)
    requires i <= j <= |s|
  {
    && AllSpace(s[..i]) && AllSpace(s[j..])
    && (i < j ==> !Space(s[i]) && !Space(s[j - 1]))
  }

  lemma {:induction false} StrippedExactly(s: string)
    ensures exists i: nat, j: nat :: i <= j <= |s| && Trims(s, i, j) && Stripped(s) == s[i..j]
    ensures Stripped(s) == "" <==> AllSpace(s)
  {
    hide Space, Trims;
    if s == [] {
      Trimmed(s, 0, 0);
    } else if Space(s[0]) {
      StrippedExactly(s[1..]);
      var i: nat, j: nat :| i <= j <= |s| - 1 && Trims(s[1..], i, j) && Stripped(s[1..]) == s[1..][i..j];
      TrimmedFront(s, i, j);
    } else if Space(s[|s| - 1]) {
      var n := |s| - 1;
      StrippedExactly(s[..n]);
      var i: nat, j: nat :| i <= j <= n && Trims(s[..n], i, j) && Stripped(s[..n]) == s[..n][i..j];
      TrimmedBack(s, i, j);
    } else {
      Trimmed(s, 0, |s|);
    }
  }

  lemma Trimmed(s: string, i: nat, j: nat)
    requires i == 0 && j == |s| && (s == [] || (!Space(s[0]) && !Space(s[|s| - 1])))
    ensures Trims(s, i, j) && s[i..j] == s
    ensures AllSpace(s) <==> s == []
  {
    hide Space;
  }

  lemma TrimmedFront(s: string, i: nat, j: nat)
    requires s != [] && Space(s[0]) && i <= j <= |s| - 1 && Trims(s[1..], i, j)
    ensures Trims(s, i + 1, j + 1) && s[i + 1..j + 1] == s[1..][i..j]
    ensures AllSpace(s) <==> AllSpace(s[1..])
  {
    hide Space;
    var rest := s[1..];
    assert s == [s[0]] + rest;
    assert s[j + 1..] == rest[j..];
    assert s[..i + 1] == [s[0]] + rest[..i];
  }

  lemma TrimmedBack(s: string, i: nat, j: nat)
    requires s != [] && Space(s[|s| - 1]) && i <= j <= |s| - 1 && Trims(s[..|s| - 1], i, j)
    ensures Trims(s, i, j) && s[i..j] == s[..|s| - 1][i..j]
    ensures AllSpace(s) <==> AllSpace(s[..|s| - 1])
  {
    hide Space;
    var rest := s[..|s| - 1];
    assert forall k :: 0 <= k < |rest| ==> s[k] == rest[k];
    assert s[..i] == rest[..i];
    assert forall k :: 0 <= k < |rest| - j ==> s[j..][k] == rest[j..][k];
  }

  /** `_validate_record` of wallet_backup.py, on a record with typed fields. */
  predicate ValidBackup(record: WalletRecord) {
    && Stripped(record.name) != "" && KnownNetwork(record.network)
    && if record.WatchOnly() then record.secret.None? && record.signerPublicKey.None?
       else record.signerKind == Some(ProtectedSoftware) && record.secret.Some? && record.signerPublicKey.Some?
  }

  /** A named record of a known network that carries all of a protected signer, or nothing of one. */
  predicate Restorable(record: WalletRecord) {
    && !AllSpace(record.name) && MainnetOrTestnet(record.network)
    && (|| (record.signerKind == None && record.secret == None && record.signerPublicKey == None)
        || (record.signerKind == Some(ProtectedSoftware) && record.secret.Some? && record.signerPublicKey.Some?))
  }

  lemma ValidBackupExactly(record: WalletRecord)
    ensures ValidBackup(record) <==> Restorable(record)
  {
    hide KnownNetwork, MainnetOrTestnet, Space;
    StrippedExactly(record.name);
    NetworksKnown(record.network);
  }

  /** Restored under a name of its own, or under another, less the white space around it. */
  function Renamed(record: WalletRecord, name: Option<string>): WalletRecord {
    if name.Some? then record.(name := Stripped(name.value)) else record
  }

  // ---------- what each change does to the passcode ----------

  lemma RemovalKeepsPasscode(before: map<string, WalletRecord>, after: map<string, WalletRecord>)
    requires forall n :: ProtectedAt(after, n) ==> n in before && after[n] == before[n]
    ensures forall p :: OpensAll(before, p) ==> OpensAll(after, p)
    ensures NoTwoPasscodes(before) ==> NoTwoPasscodes(after)
  {
    forall p | OpensAll(before, p) ensures OpensAll(after, p) {
      forall n | ProtectedAt(after, n) ensures Opens(after[n], p) { assert ProtectedAt(before, n); }
    }
    assert forall n :: ProtectedAt(after, n) ==> ProtectedAt(before, n);
  }

  lemma AdditionUnderPasscode(before: map<string, WalletRecord>, record: WalletRecord, password: string)
    requires OpensAll(before, password) && Opens(record, password) && !ProtectedAt(before, record.name)
    ensures OpensAll(before[record.name := record], password)
  {
    var after := before[record.name := record];
    forall n | ProtectedAt(after, n) ensures Opens(after[n], password) {
      if n != record.name { assert ProtectedAt(before, n); }
    }
  }

  /** The first protected signer sets the passcode, if it has one. */
  lemma FirstSigner(before: map<string, WalletRecord>, record: WalletRecord)
    requires forall n :: !ProtectedAt(before, n)
    requires record.Protected()
    ensures OnePasscode(before) && NoTwoPasscodes(before[record.name := record])
    ensures OnePasscode(before[record.name := record]) <==> Openable(record)
  {
    var after := before[record.name := record];
    OpensExactlyOnePassword(record);
    assert OpensAll(before, "");
    assert forall n :: ProtectedAt(after, n) ==> n == record.name;
    assert ProtectedAt(after, record.name);
    if Openable(record) {
      assert OpensAll(after, record.secret.value.password);
    }
  }

  /** While any signer is protected, at most one password is the application passcode. */
  lemma PasscodeIsUnique(wallets: map<string, WalletRecord>, name: string, p: string, q: string)
    requires ProtectedAt(wallets, name) && OpensAll(wallets, p) && OpensAll(wallets, q)
    ensures p == q
  {
    OpensExactlyOnePassword(wallets[name]);
  }

  /** While a stored signer is beyond opening, every password is refused, so no signer can be added. */
  lemma UnopenableBlocksPasscode(wallets: map<string, WalletRecord>, name: string)
    requires ProtectedAt(wallets, name) && !Openable(wallets[name])
    ensures forall p :: !OpensAll(wallets, p)
  {
    OpensExactlyOnePassword(wallets[name]);
  }

  /** A valid backup that names another signer than it holds; restored first, it leaves no passcode. */
  lemma MismatchedBackupLeavesNoPasscode()
    ensures exists record: WalletRecord ::
      ValidBackup(record) && OnePasscode(map[]) && !OnePasscode(map[][record.name := record])
  {
    hide Stripped, Lowered;
    var record := WalletRecord("w", ClassicAccount("G1"), SecretType, "mainnet",
                               Some(Sealed(0, "p", Material("G2"))), Some(ProtectedSoftware), Some("G1"));
    assert !Space(record.name[0]);
    ValidBackupExactly(record);
    FirstSigner(map[], record);
  }

  // ---------- the wallet a call is about ----------

  /** The name given, or else the default, or else the only wallet there is. */
  ghost function ChosenName(wallets: map<string, WalletRecord>, selected: Option<string>, name: Option<string>): Option<string> {
    if name.Some? then name
    else if selected.Some? then selected
    else if |wallets| == 1 then
      SomeWallet(wallets);
      var n :| n in wallets;
      Some(n)
    else None
  }

  lemma SomeWallet(wallets: map<string, WalletRecord>)
    requires |wallets| == 1
    ensures exists n :: n in wallets
  {
    assert wallets.Keys != {};
  }

  lemma OnlyWallet(wallets: map<string, WalletRecord>, m: string, n: string)
    requires |wallets| == 1 && m in wallets && n in wallets
    ensures m == n
  {
    assert |wallets.Keys - {m}| == 0;
    assert n !in wallets.Keys - {m};
  }

  /** The stored protected signer of the wallet a call is about. */
  ghost predicate ChoosesProtected(wallets: map<string, WalletRecord>, chosen: Option<string>) {
    chosen.Some? && ProtectedAt(wallets, chosen.value)
  }

  /** Why a wallet has no protected signer to offer. */
  ghost function SignerMissing(wallets: map<string, WalletRecord>, chosen: Option<string>): Error {
    if chosen.None? || chosen.value !in wallets then WalletNotFound
    else if wallets[chosen.value].signerKind == None then WatchOnly
    else WalletLocked
  }

  /** The key opens the stored envelope to the very signer the record names, of a classic account. */
  ghost predicate KeyFits(record: WalletRecord, key: UnlockKey)
    requires record.secret.Some?
  {
    && record.address.ClassicAccount? && record.secret.value.Sealed?
    && key == UnlockKey(record.secret.value.salt, record.secret.value.password)
    && Some(record.secret.value.material.publicKey) == record.signerPublicKey
  }

  /** What `_maybe_default` makes of the default when a wallet is added. */
  function DefaultAfter(selected: Option<string>, name: string, makeDefault: Option<bool>): Option<string> {
    if makeDefault == Some(true) || (makeDefault.None? && selected.None?) then Some(name) else selected
  }

  class WalletManager {
    const storage: MemoryWalletStorage
    var session: Option<Session>

    constructor (storage: MemoryWalletStorage)
      requires storage.Valid()
      ensures Valid() && this.storage == storage && session == None
    {
      this.storage, session := storage, None;
    }

    /** An open session's record is the stored protected record of its name, and its signer is that record's. */
    predicate Valid()
      reads this, storage
    {
      && storage.Valid()
      && (session.Some? ==>
            var s := session.value;
            && ProtectedAt(storage.wallets, s.record.name) && storage.wallets[s.record.name] == s.record
            && s.record.signerPublicKey == Some(s.signer.publicKey)
            && s.record.secret.value.Sealed? && s.record.secret.value.material == s.signer)
    }

    ghost function Chosen(name: Option<string>): Option<string>
      reads this, storage
    {
      ChosenName(storage.wallets, storage.selected, name)
    }

    method GetRecord(name: Option<string>) returns (r: Result<WalletRecord>)
      requires Valid()
      ensures r.Success? <==> Chosen(name).Some? && Chosen(name).value in storage.wallets
      ensures r.Success? ==> r.value == storage.wallets[Chosen(name).value] && r.value.name == Chosen(name).value
      ensures r.Failure? ==> r.error == WalletNotFound
    {
      var chosen := name;
      if chosen.None? {
        chosen := storage.selected;
        if chosen.None? {
          var records := storage.List();
          if |records| != 1 {
            return Failure(WalletNotFound);
          }
          assert records[0] in records;
          chosen := Some(records[0].name);
          OnlyWallet(storage.wallets, records[0].name, Chosen(name).value);
        }
      }
      r := storage.Load(chosen.value);
    }

    method HasAppPasscode() returns (any: bool)
      requires Valid()
      ensures any <==> exists n :: ProtectedAt(storage.wallets, n)
    {
      any := false;
      var records := storage.List();
      for i := 0 to |records|
        invariant !any ==> forall j :: 0 <= j < i ==> !records[j].Protected()
        invariant any ==> exists n :: ProtectedAt(storage.wallets, n)
      {
        assert records[i] in records;
        if records[i].Protected() {
          assert ProtectedAt(storage.wallets, records[i].name);
          any := true;
        }
      }
      forall n | ProtectedAt(storage.wallets, n) ensures any {
        assert storage.wallets[n] in records;
      }
    }

    /** Passes exactly when the password opens every stored protected signer. */
    method ValidateAppPasscode(password: string) returns (r: Result<()>)
      requires Valid()
      ensures r.Success? <==> OpensAll(storage.wallets, password)
      ensures r.Failure? && password != "" && (forall n :: ProtectedAt(storage.wallets, n) ==> Openable(storage.wallets[n])) ==>
        r.error == InvalidPassword
      ensures r.Failure? ==> r.error == InvalidPassword || r.error == WalletProblem || r.error == WalletLocked
    {
      var records := storage.List();
      for i := 0 to |records|
        invariant forall j :: 0 <= j < i && records[j].Protected() ==> Opens(records[j], password)
      {
        assert records[i] in records;
        if records[i].Protected() {
          var key := DeriveRecordUnlockKey(records[i], password);
          if key.Failure? {
            assert ProtectedAt(storage.wallets, records[i].name) && !Opens(records[i], password);
            OpensExactlyOnePassword(records[i]);
            return Failure(key.error);
          }
        }
      }
      forall n | ProtectedAt(storage.wallets, n) ensures Opens(storage.wallets[n], password) {
        assert storage.wallets[n] in records;
      }
      r := Success(());
    }

    method MaybeDefault(name: string, makeDefault: Option<bool>)
      requires Valid() && name in storage.wallets
      modifies storage`selected
      ensures Valid()
      ensures storage.selected == DefaultAfter(old(storage.selected), name, makeDefault)
    {
      if makeDefault == Some(true) || (makeDefault.None? && storage.selected.None?) {
        var _ := storage.SetDefault(name);
      }
    }

    method AddWatch(name: string, address: Address, network: string, makeDefault: Option<bool>) returns (r: Result<WalletRecord>)
      requires Valid()
      modifies storage`wallets, storage`selected
      ensures Valid()
      ensures r.Success? <==> MainnetOrTestnet(network) && name !in old(storage.wallets)
      ensures r.Failure? ==> r.error == if !MainnetOrTestnet(network) then NetworkFailure else WalletExists
      ensures r.Success? ==>
        && r.value.name == name && r.value.address == address && r.value.network == network
        && r.value.signerKind == None && r.value.secret == None && r.value.signerPublicKey == None
        && r.value.walletType == WatchOnlyType && (!AllSpace(name) ==> Restorable(r.value))
      ensures storage.selected == if r.Success? then DefaultAfter(old(storage.selected), name, makeDefault) else old(storage.selected)
      ensures storage.wallets == if r.Success? then old(storage.wallets)[name := r.value] else old(storage.wallets)
      ensures forall p :: OpensAll(storage.wallets, p) <==> OpensAll(old(storage.wallets), p)
      ensures NoTwoPasscodes(storage.wallets) <==> NoTwoPasscodes(old(storage.wallets))
    {
      NetworksKnown(network);
      if !KnownNetwork(network) {
        return Failure(NetworkFailure);
      }
      var record := WalletRecord(name, address, WatchOnlyType, network, None, None, None).Normalised();
      var saved := storage.Save(record, false);
      if saved.Failure? {
        return Failure(saved.error);
      }
      MaybeDefault(name, makeDefault);
      WatchOnlyChangesNothing(old(storage.wallets), record);
      r := Success(record);
    }

    /** `import_secret`, `import_mnemonic` and `create_mnemonic`: material that could not be read is `None`. */
    method Import(
      name: string, material: Option<Material>, walletType: WalletType, password: string, salt: nat,
      network: string, makeDefault: Option<bool>) returns (r: Result<WalletRecord>)
      requires Valid() && !walletType.WatchOnlyType?
      modifies storage`wallets, storage`selected
      ensures Valid()
      ensures r.Success? <==>
        && MainnetOrTestnet(network) && OpensAll(old(storage.wallets), password) && material.Some? && password != ""
        && name !in old(storage.wallets)
      ensures !MainnetOrTestnet(network) ==> r == Failure(NetworkFailure)
      ensures MainnetOrTestnet(network) && OpensAll(old(storage.wallets), password) && (material.None? || password == "") ==>
        r == Failure(WalletProblem)
      ensures r == Failure(WalletExists) <==>
        && MainnetOrTestnet(network) && OpensAll(old(storage.wallets), password) && material.Some? && password != ""
        && name in old(storage.wallets)
      ensures r.Success? ==>
        && r.value.name == name && r.value.Protected() && Opens(r.value, password)
        && r.value.address == ClassicAccount(material.value.publicKey) && r.value.network == network
        && r.value.walletType == walletType && r.value.secret == Some(Sealed(salt, password, material.value))
        && OpensAll(storage.wallets, password) && (!AllSpace(name) ==> Restorable(r.value))
      ensures storage.selected == if r.Success? then DefaultAfter(old(storage.selected), name, makeDefault) else old(storage.selected)
      ensures storage.wallets == if r.Success? then old(storage.wallets)[name := r.value] else old(storage.wallets)
    {
      NetworksKnown(network);
      if !KnownNetwork(network) {
        return Failure(NetworkFailure);
      }
      var validated := ValidateAppPasscode(password);
      if validated.Failure? {
        return Failure(validated.error);
      }
      if material.None? {
        return Failure(WalletProblem);
      }
      var key := material.value.publicKey;
      var envelope := Protect(material.value, password, salt);
      if envelope.Failure? {
        return Failure(envelope.error);
      }
      var record := WalletRecord(name, ClassicAccount(key), walletType, network,
                                 Some(envelope.value), Some(ProtectedSoftware), Some(key)).Normalised();
      var saved := storage.Save(record, false);
      if saved.Failure? {
        return Failure(saved.error);
      }
      MaybeDefault(name, makeDefault);
      AdditionUnderPasscode(old(storage.wallets), record, password);
      r := Success(record);
    }

    /** `upgrade_watch_with_secret` and `upgrade_watch_with_mnemonic`. */
    method UpgradeWatch(
      name: string, material: Option<Material>, walletType: WalletType, password: string, salt: nat)
      returns (r: Result<WalletRecord>)
      requires Valid() && !walletType.WatchOnlyType?
      modifies storage`wallets
      ensures Valid()
      ensures r.Success? <==>
        && name in old(storage.wallets) && old(storage.wallets)[name].signerKind == None
        && OpensAll(old(storage.wallets), password) && material.Some? && password != ""
        && old(storage.wallets)[name].address == ClassicAccount(material.value.publicKey)
      ensures r.Success? ==>
        && r.value.name == name && r.value.Protected() && Opens(r.value, password)
        && r.value.address == old(storage.wallets)[name].address && r.value.network == old(storage.wallets)[name].network
        && r.value.walletType == walletType && r.value.secret == Some(Sealed(salt, password, material.value))
        && OpensAll(storage.wallets, password) && (Restorable(old(storage.wallets)[name]) ==> Restorable(r.value))
      ensures name !in old(storage.wallets) ==> r == Failure(WalletNotFound)
      ensures name in old(storage.wallets) ==>
        var record := old(storage.wallets)[name];
        && (record.signerKind != None || record.address.ContractAccount? ==> r == Failure(WalletProblem))
        && (record.signerKind == None && record.address.ClassicAccount? && OpensAll(old(storage.wallets), password) ==>
              && (material.None? ==> r == Failure(WalletProblem))
              && (material.Some? && material.value.publicKey != record.address.key ==> r == Failure(WalletLocked))
              && (material.Some? && material.value.publicKey == record.address.key && password == "" ==> r == Failure(WalletProblem)))
      ensures storage.wallets == if r.Success? then old(storage.wallets)[name := r.value] else old(storage.wallets)
    {
      var found := GetRecord(Some(name));
      if found.Failure? {
        return Failure(found.error);
      }
      var record := found.value;
      if !record.WatchOnly() || !record.address.ClassicAccount? {
        return Failure(WalletProblem);
      }
      var validated := ValidateAppPasscode(password);
      if validated.Failure? {
        return Failure(validated.error);
      }
      if material.None? {
        return Failure(WalletProblem);
      }
      var key := material.value.publicKey;
      if key != record.address.key {
        return Failure(WalletLocked);
      }
      var envelope := Protect(material.value, password, salt);
      if envelope.Failure? {
        return Failure(envelope.error);
      }
      var upgraded := record.(walletType := walletType, signerKind := Some(ProtectedSoftware),
                              signerPublicKey := Some(key), secret := Some(envelope.value)).Normalised();
      var saved := storage.Save(upgraded, true);
      AdditionUnderPasscode(old(storage.wallets), upgraded, password);
      r := Success(upgraded);
    }

    method DowngradeToWatch(name: string) returns (r: Result<WalletRecord>)
      requires Valid()
      modifies this`session, storage`wallets
      ensures Valid()
      ensures r.Success? <==> name in old(storage.wallets)
      ensures r.Success? ==>
        && storage.wallets == old(storage.wallets)[name := r.value] && !ProtectedAt(storage.wallets, name)
        && r.value == old(storage.wallets)[name].(
             walletType := WatchOnlyType, signerKind := None, signerPublicKey := None, secret := None)
      ensures r.Failure? ==> storage.wallets == old(storage.wallets) && r.error == WalletNotFound
      ensures session == if old(session).Some? && old(session).value.record.name == name then None else old(session)
      ensures forall p :: OpensAll(old(storage.wallets), p) ==> OpensAll(storage.wallets, p)
      ensures NoTwoPasscodes(old(storage.wallets)) ==> NoTwoPasscodes(storage.wallets)
    {
      var found := GetRecord(Some(name));
      if found.Failure? {
        return Failure(found.error);
      }
      var downgraded := found.value.(walletType := WatchOnlyType, signerKind := None,
                                     signerPublicKey := None, secret := None).Normalised();
      if session.Some? && session.value.record.name == name {
        Lock();
      }
      var saved := storage.Save(downgraded, true);
      RemovalKeepsPasscode(old(storage.wallets), storage.wallets);
      r := Success(downgraded);
    }

    method SigningRecord(name: Option<string>) returns (r: Result<WalletRecord>)
      requires Valid()
      ensures r.Success? <==>
        ChoosesProtected(storage.wallets, Chosen(name)) && storage.wallets[Chosen(name).value].signerPublicKey.Some?
      ensures r.Success? ==> r.value == storage.wallets[Chosen(name).value] && r.value.name == Chosen(name).value
      ensures r.Failure? ==> r.error == SignerMissing(storage.wallets, Chosen(name))
    {
      r := GetRecord(name);
      if r.Failure? {
        return;
      }
      var record := r.value;
      if record.WatchOnly() {
        return Failure(WatchOnly);
      }
      if record.signerKind != Some(ProtectedSoftware) {
        return Failure(WalletLocked);
      }
      if record.secret.None? || record.signerPublicKey.None? {
        return Failure(WalletLocked);
      }
    }

    /**
     * `reprotect_signer` rewrites one envelope. The wallets still share one passcode after it
     * exactly when the password did not change or no other signer is protected.
     */
    method ReprotectSigner(name: Option<string>, current: string, chosen: string, salt: nat) returns (r: Result<WalletRecord>)
      requires Valid()
      modifies this`session, storage`wallets
      ensures Valid()
      ensures r.Success? <==> old(ChoosesProtected(storage.wallets, Chosen(name))
        && Opens(storage.wallets[Chosen(name).value], current)) && chosen != ""
      ensures r.Success? ==>
        var n, was := old(Chosen(name)).value, old(storage.wallets);
        && storage.wallets == was[n := r.value] && Opens(r.value, chosen)
        && was[n].secret.value.Sealed?
        && r.value == was[n].(secret := Some(Sealed(salt, chosen, was[n].secret.value.material)))
        && session == (if old(session).Some? && old(session).value.record.name == n then None else old(session))
      ensures r.Failure? ==> storage.wallets == old(storage.wallets) && session == old(session)
      ensures r.Success? && OnePasscode(old(storage.wallets)) ==>
        (OnePasscode(storage.wallets) <==>
          chosen == current || forall n :: ProtectedAt(old(storage.wallets), n) ==> Some(n) == old(Chosen(name)))
    {
      var found := SigningRecord(name);
      if found.Failure? {
        if ChoosesProtected(storage.wallets, Chosen(name)) { OpensExactlyOnePassword(storage.wallets[Chosen(name).value]); }
        return Failure(found.error);
      }
      var record := found.value;
      var derived := DeriveRecordUnlockKey(record, current);
      if derived.Failure? {
        return Failure(derived.error);
      }
      var material := record.secret.value.material;
      var envelope := Protect(material, chosen, salt);
      if envelope.Failure? {
        return Failure(envelope.error);
      }
      var updated := record.(signerPublicKey := Some(material.publicKey), secret := Some(envelope.value)).Normalised();
      var saved := storage.Save(updated, true);
      if session.Some? && session.value.record.name == updated.name {
        Lock();
      }
      if OnePasscode(old(storage.wallets)) {
        ReprotectedPasscode(old(storage.wallets), record, updated, current, chosen);
      }
      r := Success(updated);
    }

    /**
     * `restore_backup`. With a protected signer already stored, the backup has to open with
     * the passcode; without one it is taken as it is, so one passcode survives exactly when
     * the restored signer can be opened at all.
     */
    method RestoreBackup(backup: Option<WalletRecord>, name: Option<string>, makeDefault: Option<bool>, password: Option<string>)
      returns (r: Result<WalletRecord>)
      requires Valid()
      modifies storage`wallets, storage`selected
      ensures Valid()
      ensures r.Success? <==>
        && backup.Some? && Restorable(backup.value.Normalised()) && (name.Some? ==> !AllSpace(name.value))
        && var record := Renamed(backup.value.Normalised(), name);
           && record.name !in old(storage.wallets)
           && (record.Protected() && (exists n :: ProtectedAt(old(storage.wallets), n)) ==>
                 password.Some? && OpensAll(old(storage.wallets), password.value) && Opens(record, password.value))
      ensures r.Success? ==>
        && backup.Some? && Restorable(backup.value.Normalised())
        && r.value == Renamed(backup.value.Normalised(), name)
        && r.value.name !in old(storage.wallets) && storage.wallets == old(storage.wallets)[r.value.name := r.value]
      ensures storage.selected == if r.Success? then DefaultAfter(old(storage.selected), r.value.name, makeDefault) else old(storage.selected)
      ensures r.Failure? ==> storage.wallets == old(storage.wallets)
      ensures r == Failure(WalletExists) <==>
        && backup.Some? && Restorable(backup.value.Normalised()) && (name.Some? ==> !AllSpace(name.value))
        && var record := Renamed(backup.value.Normalised(), name);
           && record.name in old(storage.wallets)
           && (record.Protected() && (exists n :: ProtectedAt(old(storage.wallets), n)) ==>
                 password.Some? && OpensAll(old(storage.wallets), password.value) && Opens(record, password.value))
      ensures backup.None? || !Restorable(backup.value.Normalised()) || (name.Some? && AllSpace(name.value)) ==> r == Failure(WalletProblem)
      ensures backup.Some? && Restorable(backup.value.Normalised()) && (name.Some? ==> !AllSpace(name.value)) ==>
        backup.value.Normalised().Protected() && (exists n :: ProtectedAt(old(storage.wallets), n)) ==>
          (password.None? || password.value == "" ==> r == Failure(InvalidPassword))
      ensures r.Success? && r.value.Protected() && (exists n :: ProtectedAt(old(storage.wallets), n)) ==>
        password.Some? && OpensAll(old(storage.wallets), password.value) && OpensAll(storage.wallets, password.value)
      ensures r.Success? ==>
        (OnePasscode(storage.wallets) <==> OnePasscode(old(storage.wallets)) && (r.value.Protected() ==> Openable(r.value)))
      ensures NoTwoPasscodes(old(storage.wallets)) ==> NoTwoPasscodes(storage.wallets)
    {
      hide OpensAll, Openable, OnePasscode, NoTwoPasscodes, DeriveRecordUnlockKey, Stripped, AllSpace, MainnetOrTestnet, KnownNetwork;
      if backup.Some? { ValidBackupExactly(backup.value.Normalised()); }
      if backup.None? || !ValidBackup(backup.value.Normalised()) {
        return Failure(WalletProblem);
      }
      var record := backup.value.Normalised();
      if name.Some? {
        var stripped := Stripped(name.value);
        StrippedExactly(name.value);
        if stripped == "" {
          return Failure(WalletProblem);
        }
        record := record.(name := stripped).Normalised();
      }
      var any := HasAppPasscode();
      if !record.WatchOnly() && any {
        if password.None? || password.value == "" {
          EmptyOpensNothing(record);
          return Failure(InvalidPassword);
        }
        var validated := ValidateAppPasscode(password.value);
        if validated.Failure? {
          return Failure(validated.error);
        }
        var derived := DeriveRecordUnlockKey(record, password.value);
        if derived.Failure? {
          OpeningRefusals(record, password.value, UnlockKey(0, ""));
          return Failure(derived.error);
        }
      }
      var saved := storage.Save(record, false);
      if saved.Failure? {
        return Failure(saved.error);
      }
      MaybeDefault(record.name, makeDefault);
      RestoredPasscode(old(storage.wallets), record, any, if password.Some? then password.value else "");
      r := Success(record);
    }

    /** Opens a session exactly for a protected classic wallet whose envelope the key opens to the signer it names. */
    method UnlockWithKey(name: Option<string>, key: UnlockKey) returns (r: Result<Session>)
      requires Valid()
      modifies this`session
      ensures Valid()
      ensures r.Success? <==>
        ChoosesProtected(storage.wallets, Chosen(name)) && KeyFits(storage.wallets[Chosen(name).value], key)
      ensures r.Success? ==> session == Some(r.value) && r.value.record == storage.wallets[Chosen(name).value]
      ensures ChoosesProtected(storage.wallets, Chosen(name)) && r.Failure? ==>
        var record := storage.wallets[Chosen(name).value];
        r.error ==
          if record.signerPublicKey.None? then WalletLocked
          else if record.secret.value == Corrupted then WalletProblem
          else if key != UnlockKey(record.secret.value.salt, record.secret.value.password) then InvalidPassword
          else if Some(record.secret.value.material.publicKey) != record.signerPublicKey then WalletLocked
          else WalletProblem
      ensures r.Failure? ==> session == old(session)
    {
      var found := SigningRecord(name);
      if found.Failure? {
        return Failure(found.error);
      }
      var record := found.value;
      var material := UnprotectWithUnlockKey(record.secret.value, key);
      if material.Failure? {
        return Failure(material.error);
      }
      if Some(material.value.publicKey) != record.signerPublicKey {
        return Failure(WalletLocked);
      }
      if record.address.ContractAccount? {
        return Failure(WalletProblem);
      }
      session := Some(Session(record, material.value));
      r := Success(session.value);
    }

    /** Opens a session exactly for a protected classic wallet and the password that opens it. */
    method Unlock(name: Option<string>, password: string) returns (r: Result<Session>)
      requires Valid()
      modifies this`session
      ensures Valid()
      ensures r.Success? <==>
        && ChoosesProtected(storage.wallets, Chosen(name)) && Opens(storage.wallets[Chosen(name).value], password)
        && storage.wallets[Chosen(name).value].address.ClassicAccount?
      ensures r.Success? ==> session == Some(r.value) && r.value.record == storage.wallets[Chosen(name).value]
      ensures Chosen(name).None? || Chosen(name).value !in storage.wallets ==> r == Failure(WalletNotFound)
      ensures Chosen(name).Some? && Chosen(name).value in storage.wallets && storage.wallets[Chosen(name).value].signerKind == None ==>
        r == Failure(WatchOnly)
      ensures ChoosesProtected(storage.wallets, Chosen(name)) && Openable(storage.wallets[Chosen(name).value]) ==>
        (r == Failure(InvalidPassword) <==> password != "" && !Opens(storage.wallets[Chosen(name).value], password))
      ensures r.Failure? ==> session == old(session)
    {
      var found := SigningRecord(name);
      if found.Failure? {
        return Failure(found.error);
      }
      var key := DeriveRecordUnlockKey(found.value, password);
      if key.Failure? {
        return Failure(key.error);
      }
      r := UnlockWithKey(name, key.value);
    }

    method Lock()
      requires storage.Valid()
      modifies this`session
      ensures Valid() && session == None
    {
      session := None;
    }

    method SetDefault(name: string) returns (r: Result<()>)
      requires Valid()
      modifies this`session, storage`selected
      ensures Valid()
      ensures r.Success? <==> name in storage.wallets
      ensures r.Success? ==>
        && storage.selected == Some(name)
        && session == (if old(session).Some? && old(session).value.record.name != name then None else old(session))
      ensures r.Failure? ==> r.error == WalletNotFound && storage.selected == old(storage.selected) && session == old(session)
    {
      r := storage.SetDefault(name);
      if r.Failure? {
        return;
      }
      if session.Some? && session.value.record.name != name {
        Lock();
      }
    }

    /** After a delete the default is kept, or, if it was the deleted wallet, moves to the first by name that remains. */
    method Delete(name: string) returns (r: Result<()>)
      requires Valid()
      modifies this`session, storage`wallets, storage`selected
      ensures Valid()
      ensures r == if name in old(storage.wallets) then Success(()) else Failure(WalletNotFound)
      ensures storage.wallets == old(storage.wallets) - {name}
      ensures session == if old(session).Some? && old(session).value.record.name == name then None else old(session)
      ensures old(storage.selected) != Some(name) ==> storage.selected == old(storage.selected)
      ensures old(storage.selected) == Some(name) ==> (storage.selected.None? <==> storage.wallets == map[])
      ensures old(storage.selected) == Some(name) && storage.selected.Some? ==>
        forall n :: n in storage.wallets ==> UpTo(storage.lower(storage.selected.value), storage.lower(n))
      ensures forall p :: OpensAll(old(storage.wallets), p) ==> OpensAll(storage.wallets, p)
      ensures NoTwoPasscodes(old(storage.wallets)) ==> NoTwoPasscodes(storage.wallets)
    {
      hide UpTo, InOrder, OpensAll, NoTwoPasscodes;
      var wasDefault := storage.selected == Some(name);
      if session.Some? && session.value.record.name == name {
        Lock();
      }
      r := storage.Delete(name);
      RemovalKeepsPasscode(old(storage.wallets), storage.wallets);
      if r.Failure? {
        return;
      }
      if wasDefault {
        var records := storage.List();
        if records != [] {
          assert records[0] in records;
          FirstIsLeast(records, storage.lower);
          assert forall n :: n in storage.wallets ==> storage.wallets[n] in records;
          var _ := storage.SetDefault(records[0].name);
        }
      }
    }
  }

  lemma WatchOnlyChangesNothing(before: map<string, WalletRecord>, record: WalletRecord)
    requires !record.Protected() && record.name !in before
    ensures var after := before[record.name := record];
      && (forall p :: OpensAll(after, p) <==> OpensAll(before, p))
      && (NoTwoPasscodes(before) <==> NoTwoPasscodes(after))
  {
    var after := before[record.name := record];
    assert forall n :: ProtectedAt(after, n) <==> ProtectedAt(before, n);
    assert forall n :: ProtectedAt(after, n) ==> after[n] == before[n];
  }

  lemma FirstIsLeast(records: seq<WalletRecord>, lower: string -> string)
    requires records != []
    requires InOrder(records, lower)
    ensures forall w :: w in records ==> UpTo(lower(records[0].name), lower(w.name))
  {
    UpToTotal(lower(records[0].name), lower(records[0].name));
  }

  lemma EmptyOpensNothing(record: WalletRecord)
    ensures !Opens(record, "")
  {
  }

  /** What a restored record does to the passcode, in the three cases of the restore. */
  lemma RestoredPasscode(before: map<string, WalletRecord>, record: WalletRecord, any: bool, password: string)
    requires any <==> exists n :: ProtectedAt(before, n)
    requires record.name !in before && (record.Protected() <==> !record.WatchOnly())
    requires record.Protected() && any ==> OpensAll(before, password) && Opens(record, password)
    ensures var after := before[record.name := record];
      && (record.Protected() && any ==> OpensAll(after, password))
      && (OnePasscode(after) <==> OnePasscode(before) && (record.Protected() ==> Openable(record)))
      && (NoTwoPasscodes(before) ==> NoTwoPasscodes(after))
  {
    if record.WatchOnly() {
      WatchOnlyChangesNothing(before, record);
    } else if any {
      AdditionUnderPasscode(before, record, password);
      OpensExactlyOnePassword(record);
    } else {
      FirstSigner(before, record);
    }
  }

  lemma ReprotectedPasscode(
    before: map<string, WalletRecord>, record: WalletRecord, updated: WalletRecord, current: string, chosen: string)
    requires ProtectedAt(before, record.name) && before[record.name] == record && updated.name == record.name
    requires Opens(record, current) && updated.Protected() && Opens(updated, chosen) && OnePasscode(before)
    ensures OnePasscode(before[record.name := updated]) <==>
      chosen == current || forall n :: ProtectedAt(before, n) ==> n == record.name
  {
    var after := before[record.name := updated];
    var p :| OpensAll(before, p);
    OpensExactlyOnePassword(record);
    OpensExactlyOnePassword(updated);
    assert p == current;
    assert ProtectedAt(after, record.name);
    if chosen == current || forall n :: ProtectedAt(before, n) ==> n == record.name {
      forall n | ProtectedAt(after, n) ensures Opens(after[n], chosen) {
        assert ProtectedAt(before, n);
      }
      assert OpensAll(after, chosen);
    } else {
      var other :| ProtectedAt(before, other) && other != record.name;
      OpensExactlyOnePassword(before[other]);
      assert ProtectedAt(after, other) && after[other] == before[other];
    }
  }

  // ---------- whole runs ----------

  datatype Event =
    | WatchAdded(name: string, address: Address, network: string, makeDefault: Option<bool>)
    | Imported(name: string, material: Option<Material>, mnemonic: bool, password: string, salt: nat,
               network: string, makeDefault: Option<bool>)
    | Upgraded(name: string, material: Option<Material>, mnemonic: bool, password: string, salt: nat)
    | Downgraded(name: string)
    | Restored(backup: Option<WalletRecord>, newName: Option<string>, makeDefault: Option<bool>, given: Option<string>)
    | Unlocked(chosen: Option<string>, password: string)
    | UnlockedWithKey(chosen: Option<string>, key: UnlockKey)
    | Locked
    | DefaultSet(name: string)
    | Deleted(name: string)
    | Reprotected(chosen: Option<string>, current: string, password: string, salt: nat)

  /** A backup whose signer, if it has one, can be opened with some password. */
  predicate SoundBackup(backup: Option<WalletRecord>) {
    backup.Some? && backup.value.Normalised().Protected() ==> Openable(backup.value.Normalised())
  }

  predicate OnlySoundBackups(events: seq<Event>) {
    forall i :: 0 <= i < |events| && events[i].Restored? ==> SoundBackup(events[i].backup)
  }

  function TypeFor(mnemonic: bool): WalletType {
    if mnemonic then MnemonicType else SecretType
  }

  predicate NoneReprotected(events: seq<Event>) {
    forall i :: 0 <= i < |events| ==> !events[i].Reprotected?
  }

  /**
   * Any sequence of lifecycle calls, each of which may be refused: the session and the
   * default stay what they should be. Unless a single signer is reprotected on the way no two
   * protected signers ever differ in password, and if every restored backup can be opened,
   * one passcode opens everything throughout.
   */
  method RunWallets(manager: WalletManager, events: seq<Event>)
    requires manager.Valid()
    modifies manager`session, manager.storage`wallets, manager.storage`selected
    ensures manager.Valid()
    ensures NoneReprotected(events) && NoTwoPasscodes(old(manager.storage.wallets)) ==> NoTwoPasscodes(manager.storage.wallets)
    ensures NoneReprotected(events) && OnlySoundBackups(events) && OnePasscode(old(manager.storage.wallets)) ==>
      OnePasscode(manager.storage.wallets)
  {
    hide OpensAll;
    ghost var untouched := NoneReprotected(events) && NoTwoPasscodes(manager.storage.wallets);
    ghost var sound := NoneReprotected(events) && OnlySoundBackups(events) && OnePasscode(manager.storage.wallets);
    for i := 0 to |events|
      invariant manager.Valid()
      invariant untouched ==> NoTwoPasscodes(manager.storage.wallets)
      invariant sound ==> OnePasscode(manager.storage.wallets)
    {
      match events[i]
      case WatchAdded(name, address, network, makeDefault) =>
        var r := manager.AddWatch(name, address, network, makeDefault);
      case Imported(name, material, mnemonic, password, salt, network, makeDefault) =>
        var r := manager.Import(name, material, TypeFor(mnemonic), password, salt, network, makeDefault);
      case Upgraded(name, material, mnemonic, password, salt) =>
        var r := manager.UpgradeWatch(name, material, TypeFor(mnemonic), password, salt);
      case Downgraded(name) =>
        var r := manager.DowngradeToWatch(name);
      case Restored(backup, newName, makeDefault, given) =>
        var r := manager.RestoreBackup(backup, newName, makeDefault, given);
      case Unlocked(chosen, password) =>
        var r := manager.Unlock(chosen, password);
      case UnlockedWithKey(chosen, key) =>
        var r := manager.UnlockWithKey(chosen, key);
      case Locked =>
        manager.Lock();
      case DefaultSet(name) =>
        var r := manager.SetDefault(name);
      case Deleted(name) =>
        var r := manager.Delete(name);
      case Reprotected(chosen, current, password, salt) =>
        var r := manager.ReprotectSigner(chosen, current, password, salt);
    }
  }

  /** Two signers under one passcode, one of them given a new password: no passcode opens both. */
  method ReprotectionEndsPasscode(lower: string -> string) returns (manager: WalletManager, r: Result<WalletRecord>)
    ensures manager.Valid() && r.Success? && !OnePasscode(manager.storage.wallets)
  {
    var storage := new MemoryWalletStorage(lower);
    manager := new WalletManager(storage);
    assert OpensAll(storage.wallets, "old");
    var first := manager.Import("a", Some(Material("GA")), SecretType, "old", 0, "mainnet", None);
    var second := manager.Import("b", Some(Material("GB")), SecretType, "old", 1, "mainnet", None);
    assert ProtectedAt(storage.wallets, "a") && ProtectedAt(storage.wallets, "b");
    assert OnePasscode(storage.wallets);
    r := manager.ReprotectSigner(Some("a"), "old", "new", 2);
  }
}
