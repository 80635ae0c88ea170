/**
 * The vault listing of `FileLibrary.tsx`: `fetchFiles` reads the connected owner's records
 * into entries numbered `0..count-1`, and `decryptFile` asks the confidential-computation
 * layer for one record's key address and decrypts the record's hash with it.
 *
 * The outcomes of the wallet and the confidential-computation layer are supplied in a
 * `RevealAttempt`; the chain is read as one snapshot of the vault.
 */
module FileLibrary {
  import opened Wrappers
  import Vault
  import AddressCipher
  import Config
  import Text

  /** One listed record, with the reveal's results once it has run. */
  datatype VaultFile = VaultFile(
    index: nat,
    fileName: string,
    encryptedIpfsHash: string,
    encryptedKeyAddress: Vault.Handle,
    createdAt: Vault.Timestamp,
    decryptedHash: Option<string>,
    decryptedKey: Option<string>)

  /** The component's state hooks. */
  datatype Library = Library(
    files: seq<VaultFile>,
    isLoading: bool,
    errorMessage: string,
    activeDecrypt: Option<nat>)

  const Initial: Library := Library([], false, "", None)

  /** What the listing reads from its props and hooks. */
  datatype Session = Session(
    address: Option<Vault.Address>,
    hasPublicClient: bool,
    hasInstance: bool,
    hasSignerPromise: bool,
    contractAddress: string)

  const LoadFailed: string := "Unable to load on-chain records."
  const ConnectForDecrypt: string := "Connect your wallet and wait for the encryption service."
  const DecryptFailed: string := "Failed to decrypt the selected file record."
  /** The reveal authorisation's lifetime, in days. */
  const DurationDays: nat := 10

  /** The entry built from the record read at `index`; nothing is revealed yet. */
  function EntryOf(index: nat, record: Vault.FileRecord): VaultFile {
    VaultFile(index, record.fileName, record.encryptedIpfsHash, record.encryptedKeyAddress, record.createdAt, None, None)
  }

  /** The fields an entry carries from the chain, as a record. */
  function RecordOf(file: VaultFile): Vault.FileRecord {
    Vault.FileRecord(file.fileName, file.encryptedIpfsHash, file.encryptedKeyAddress, file.createdAt)
  }

  /** The entries built from all of `owner`'s records: entry `i` has index `i` and holds
      `getFile(owner, i)`. */
  function Entries(ledger: Vault.Ledger, owner: Vault.Address): (entries: seq<VaultFile>)
    ensures |entries| == Vault.GetFileCount(ledger, owner)
    ensures forall i :: 0 <= i < |entries| ==>
      && entries[i].index == i
      && Vault.GetFile(ledger, owner, i) == Success(RecordOf(entries[i]))
      && entries[i].decryptedHash.None? && entries[i].decryptedKey.None?
  {
    var records := Vault.Records(ledger, owner);
    seq(|records|, i requires 0 <= i < |records| => EntryOf(i, records[i]))
  }

  /** `fetchFiles`, reading `chain` (`None` when a read throws). */
  function FetchFiles(lib: Library, session: Session, chain: Option<Vault.Ledger>): (r: Library)
    ensures !r.isLoading
    ensures r.activeDecrypt == lib.activeDecrypt
    ensures (session.address.None? || !session.hasPublicClient || !Config.IsContractReady(session.contractAddress)) ==>
      r == lib.(files := [], isLoading := false)
    ensures (session.address.Some? && session.hasPublicClient && Config.IsContractReady(session.contractAddress)
             && chain.None?) ==>
      r == lib.(isLoading := false, errorMessage := LoadFailed)
    ensures (session.address.Some? && session.hasPublicClient && Config.IsContractReady(session.contractAddress)
             && chain.Some?) ==>
      && r.errorMessage == ""
      && |r.files| == Vault.GetFileCount(chain.value, session.address.value)
      && forall i :: 0 <= i < |r.files| ==>
           && r.files[i].index == i
           && Vault.GetFile(chain.value, session.address.value, i) == Success(RecordOf(r.files[i]))
           && r.files[i].decryptedHash.None? && r.files[i].decryptedKey.None?
  {
    if session.address.None? || !session.hasPublicClient || !Config.IsContractReady(session.contractAddress) then
      lib.(files := [], isLoading := false)
    else if chain.None? then
      lib.(isLoading := false, errorMessage := LoadFailed)
    else if Vault.GetFileCount(chain.value, session.address.value) == 0 then
      lib.(files := [], isLoading := false, errorMessage := "")
    else
      lib.(files := Entries(chain.value, session.address.value), isLoading := false, errorMessage := "")
  }

  /** The key pair `generateKeypair` returns. */
  datatype Keypair = Keypair(publicKey: string, privateKey: string)

  /** The typed-data authorisation the user signs: the public key, the contracts it covers,
      its start in seconds and its lifetime in days. */
  datatype Authorization = Authorization(publicKey: string, contracts: seq<string>, startTimestamp: nat, durationDays: nat)

  /** The external calls `decryptFile` makes. */
  datatype Call =
    | SignTypedData(auth: Authorization)
    | UserDecrypt(handle: Vault.Handle, contractAddress: string, keypair: Keypair, signature: string,
                  auth: Authorization, user: Vault.Address)

  /** The outcomes of one reveal's asynchronous steps: the clock in milliseconds, the key pair,
      whether the signer promise yields a signer, the signature (`None` when the wallet
      refuses) and the handle-to-plaintext map of the decryption (`None` when it throws). */
  datatype RevealAttempt = RevealAttempt(
    cs: AddressCipher.CipherSuite,
    nowMillis: nat,
    keypair: Keypair,
    signerAvailable: bool,
    signature: Option<string>,
    decrypted: Option<map<Vault.Handle, string>>)

  datatype RevealOutcome = RevealOutcome(library: Library, calls: seq<Call>)

  /** The authorisation of a reveal: only the vault contract, from the current whole second,
      for ten days. */
  function Authorize(session: Session, attempt: RevealAttempt): (auth: Authorization)
    ensures auth.contracts == [session.contractAddress]
    ensures auth.startTimestamp * 1000 <= attempt.nowMillis < (auth.startTimestamp + 1) * 1000
    ensures auth.durationDays == DurationDays
    ensures auth.publicKey == attempt.keypair.publicKey
  {
    Authorization(attempt.keypair.publicKey, [session.contractAddress], attempt.nowMillis / 1000, DurationDays)
  }

  /** The key address the decryption returned for `handle`, when it is truthy. */
  function KeyFor(decrypted: map<Vault.Handle, string>, handle: Vault.Handle): (key: Option<string>)
    ensures key.Some? <==> handle in decrypted && decrypted[handle] != ""
    ensures key.Some? ==> key.value == decrypted[handle]
  {
    if handle in decrypted && decrypted[handle] != "" then Some(decrypted[handle]) else None
  }

  /** Records the revealed hash and key address on every entry whose index matches. */
  function MarkDecrypted(files: seq<VaultFile>, index: nat, hash: string, key: string): (out: seq<VaultFile>)
    ensures |out| == |files|
    ensures forall i :: 0 <= i < |files| ==>
      && RecordOf(out[i]) == RecordOf(files[i]) && out[i].index == files[i].index
      && (files[i].index == index ==> out[i].decryptedHash == Some(hash) && out[i].decryptedKey == Some(key))
      && (files[i].index != index ==> out[i] == files[i])
  {
    seq(|files|, i requires 0 <= i < |files| =>
      if files[i].index == index then files[i].(decryptedHash := Some(hash), decryptedKey := Some(key)) else files[i])
  }

  /** A failed reveal after the checks: the list is untouched and the failure message shows. */
  function RevealFailed(lib: Library, calls: seq<Call>): RevealOutcome {
    RevealOutcome(lib.(errorMessage := DecryptFailed, activeDecrypt := None), calls)
  }

  /** The reveal gets past its check. */
  predicate RevealStarts(session: Session) {
    session.hasInstance && session.address.Some? && session.hasSignerPromise
  }

  /** `decryptFile(file)`. */
  function DecryptFile(lib: Library, session: Session, file: VaultFile, attempt: RevealAttempt): (r: RevealOutcome)
    ensures !RevealStarts(session) ==>
      r == RevealOutcome(lib.(errorMessage := ConnectForDecrypt), [])
    // Whatever happens once started: no reveal stays active, the loading flag is untouched and
    // every entry keeps what was read from the chain.
    ensures RevealStarts(session) ==>
      && r.library.activeDecrypt.None?
      && r.library.isLoading == lib.isLoading
      && |r.library.files| == |lib.files|
      && forall i :: 0 <= i < |lib.files| ==>
           RecordOf(r.library.files[i]) == RecordOf(lib.files[i]) && r.library.files[i].index == lib.files[i].index
    // The decryption request: the record's handle, the generated key pair whose public key
    // was signed, for exactly the vault contract from the current second for ten days, with
    // the signature's `0x` removed.
    ensures forall c :: c in r.calls && c.UserDecrypt? ==>
      && RevealStarts(session)
      && attempt.signature.Some?
      && c.handle == file.encryptedKeyAddress
      && c.contractAddress == session.contractAddress
      && c.user == session.address.value
      && c.keypair == attempt.keypair
      && c.signature == Text.RemoveFirst(attempt.signature.value, "0x")
      && c.auth == Authorize(session, attempt)
      && SignTypedData(c.auth) in r.calls
    // A reveal succeeds only once a signer is available, the wallet has signed the
    // authorisation and the decryption request has been sent, a non-empty key address has
    // come back for the handle and the record's hash decrypts under it; then only the
    // matching entries change. `RevealSucceeds` is the converse.
    ensures RevealStarts(session) && r.library.errorMessage == "" ==>
      && attempt.signerAvailable && attempt.signature.Some?
      && |r.calls| == 2 && r.calls[0].SignTypedData? && r.calls[1].UserDecrypt?
      && attempt.decrypted.Some?
      && KeyFor(attempt.decrypted.value, file.encryptedKeyAddress).Some?
      && var key := KeyFor(attempt.decrypted.value, file.encryptedKeyAddress).value;
         && AddressCipher.DecryptWithAddress(attempt.cs, key, file.encryptedIpfsHash).Success?
         && r.library.files == MarkDecrypted(lib.files, file.index,
              AddressCipher.DecryptWithAddress(attempt.cs, key, file.encryptedIpfsHash).value, key)
    ensures RevealStarts(session) && r.library.errorMessage != "" ==>
      r.library.errorMessage == DecryptFailed && r.library.files == lib.files
  {
    if !RevealStarts(session) then
      RevealOutcome(lib.(errorMessage := ConnectForDecrypt), [])
    else
      var started := lib.(activeDecrypt := Some(file.index), errorMessage := "");
      var auth := Authorize(session, attempt);
      if !attempt.signerAvailable then RevealFailed(started, [])
      else if attempt.signature.None? then RevealFailed(started, [SignTypedData(auth)])
      else
        var request := UserDecrypt(file.encryptedKeyAddress, session.contractAddress, attempt.keypair,
                                   Text.RemoveFirst(attempt.signature.value, "0x"), auth, session.address.value);
        var calls := [SignTypedData(auth), request];
        if attempt.decrypted.None? then RevealFailed(started, calls)
        else
          match KeyFor(attempt.decrypted.value, file.encryptedKeyAddress)
          case None => RevealFailed(started, calls)
          case Some(key) =>
            match AddressCipher.DecryptWithAddress(attempt.cs, key, file.encryptedIpfsHash)
            case Failure(_) => RevealFailed(started, calls)
            case Success(hash) =>
              RevealOutcome(started.(files := MarkDecrypted(lib.files, file.index, hash, key), activeDecrypt := None), calls)
  }

  /** The converse of the success case: once the checks pass, the wallet signs, and the
      confidential-computation layer returns a non-empty key address under which the record's
      hash decrypts, the reveal succeeds and marks exactly the matching entries. */
  lemma RevealSucceeds(lib: Library, session: Session, file: VaultFile, attempt: RevealAttempt,
                       key: string, hash: string)
    requires RevealStarts(session) && attempt.signerAvailable && attempt.signature.Some?
    requires attempt.decrypted.Some? && KeyFor(attempt.decrypted.value, file.encryptedKeyAddress) == Some(key)
    requires AddressCipher.DecryptWithAddress(attempt.cs, key, file.encryptedIpfsHash) == Success(hash)
    ensures var r := DecryptFile(lib, session, file, attempt).library;
      r.errorMessage == "" && r.files == MarkDecrypted(lib.files, file.index, hash, key)
  {
  }

  /** A wallet signature `0x…` reaches the decryption without its prefix. */
  lemma SignatureStripped(hex: string)
    ensures Text.RemoveFirst("0x" + hex, "0x") == hex
  {
    assert Text.OccursAt("0x" + hex, "0x", 0);
    Text.RemoveFirstOccurrence("0x" + hex, "0x", 0);
  }

  /** Revealing twice with the same outcome is the same as revealing once. */
  lemma MarkDecryptedIdempotent(files: seq<VaultFile>, index: nat, hash: string, key: string)
    ensures MarkDecrypted(MarkDecrypted(files, index, hash, key), index, hash, key) == MarkDecrypted(files, index, hash, key)
  {
  }

  /** Entries with distinct indices are revealed independently: the order of two reveals does
      not matter. */
  lemma MarkDecryptedCommutes(files: seq<VaultFile>, i1: nat, h1: string, k1: string, i2: nat, h2: string, k2: string)
    requires i1 != i2
    ensures MarkDecrypted(MarkDecrypted(files, i1, h1, k1), i2, h2, k2)
         == MarkDecrypted(MarkDecrypted(files, i2, h2, k2), i1, h1, k1)
  {
  }

  /** The first listing, from the library as first rendered and in a ready session, holds
      exactly the owner's records, with nothing loading, revealing or failed. */
  lemma FirstListing(session: Session, ledger: Vault.Ledger)
    requires session.address.Some? && session.hasPublicClient && Config.IsContractReady(session.contractAddress)
    ensures FetchFiles(Initial, session, Some(ledger)) == Initial.(files := Entries(ledger, session.address.value))
  {
  }
}
