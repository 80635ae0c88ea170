/**
 * The upload panel of `UploadPanel.tsx`: choose a file, derive a mock content hash for it,
 * then encrypt the hash under a fresh random key address, encrypt that key address for the
 * confidential-computation layer, and store both in the vault.
 *
 * Every asynchronous step the panel awaits is an outcome supplied in a `StoreAttempt`; each
 * handler returns the panel's next state, the vault's next state and the external calls it
 * made, in order.
 */
module UploadPanel {
  import opened Wrappers
  import Vault
  import AddressCipher
  import Ipfs
  import Config

  /** The selected `File`; only its name reaches the vault. */
  datatype FileInfo = FileInfo(name: string)

  /** The component's state hooks. */
  datatype Panel = Panel(
    file: Option<FileInfo>,
    ipfsHash: string,
    uploadMessage: string,
    isUploading: bool,
    isStoring: bool,
    txHash: string,
    errorMessage: string)

  const Initial: Panel := Panel(None, "", "", false, false, "", "")

  /** What the panel reads from its props and hooks: the connected account, whether the
      encryption instance and the signer promise are present, and the configured vault. */
  datatype Session = Session(
    address: Option<Vault.Address>,
    hasInstance: bool,
    hasSignerPromise: bool,
    zamaLoading: bool,
    contractAddress: string)

  const SelectFileFirst: string := "Select a file before generating an IPFS hash."
  const UploadComplete: string := "Upload complete."
  const GenerateHashFirst: string := "Generate an IPFS hash first."
  const ConnectWallet: string := "Connect your wallet and wait for encryption service."
  const ContractNotSet: string := "Contract address is not set yet."
  const TransactionFailed: string := "Transaction failed. Check wallet and try again."

  /** `handleFileChange`: a new selection (or none) clears the hash, the messages and the
      transaction hash; the busy flags are left alone. */
  function HandleFileChange(panel: Panel, next: Option<FileInfo>): (r: Panel)
    ensures r.file == next
    ensures r.ipfsHash == "" && r.uploadMessage == "" && r.errorMessage == "" && r.txHash == ""
    ensures r.isUploading == panel.isUploading && r.isStoring == panel.isStoring
  {
    panel.(file := next, ipfsHash := "", uploadMessage := "", errorMessage := "", txHash := "")
  }

  /** `handleUpload`, with the 44 random bytes of the mock upload as a parameter. Without a
      file it only reports the error; otherwise the hash is the mock upload's and the last
      progress message is the completion message. */
  function HandleUpload(panel: Panel, random: seq<byte>): (r: Panel)
    requires |random| == Ipfs.RandomLength
    ensures panel.file.None? ==> r == panel.(errorMessage := SelectFileFirst)
    ensures panel.file.Some? ==>
      && r.ipfsHash == Ipfs.MockIpfsHash(random)
      && r.uploadMessage == UploadComplete
      && r.errorMessage == ""
      && !r.isUploading
      && r.file == panel.file && r.txHash == panel.txHash && r.isStoring == panel.isStoring
  {
    if panel.file.None? then panel.(errorMessage := SelectFileFirst)
    else panel.(ipfsHash := Ipfs.MockIpfsHash(random), uploadMessage := UploadComplete,
                errorMessage := "", isUploading := false)
  }

  /** The result of the confidential-computation layer's input encryption. */
  datatype EncryptedInput = EncryptedInput(handles: seq<Vault.Handle>, inputProof: seq<byte>)

  /** The outcomes of one store attempt's asynchronous steps: the random key address and IV,
      the input encryption (`None` when it throws), whether the signer promise yields a
      signer, the submitted transaction's hash (`None` when sending throws) and the block
      time of its confirmation (`None` when waiting throws, e.g. on a revert). */
  datatype StoreAttempt = StoreAttempt(
    cs: AddressCipher.CipherSuite,
    keyAddress: string,
    iv: seq<byte>,
    encryptedInput: Option<EncryptedInput>,
    signerAvailable: bool,
    sent: Option<string>,
    confirmed: Option<Vault.Timestamp>)

  /** The external calls `handleStore` makes. */
  datatype Call =
    | EncryptHash(keyAddress: string, plaintext: string)
    | EncryptInput(contractAddress: string, user: Vault.Address, value: string)
    | SendStoreFile(fileName: string, encryptedIpfsHash: string, handle: Vault.Handle)
    | WaitForReceipt
    | Refresh

  datatype StoreOutcome = StoreOutcome(panel: Panel, ledger: Vault.Ledger, calls: seq<Call>)

  /** The three checks `handleStore` makes before it starts. */
  predicate StoreStarts(panel: Panel, session: Session) {
    && panel.file.Some? && panel.ipfsHash != ""
    && session.address.Some? && session.hasInstance && session.hasSignerPromise
    && Config.IsContractReady(session.contractAddress)
  }

  /** The store attempt reached `onStored`: its last call is the refresh. */
  predicate Refreshed(calls: seq<Call>) {
    |calls| > 0 && calls[|calls| - 1] == Refresh
  }

  /** A failed attempt after the checks: the flag drops and the failure message shows. */
  function Failed(panel: Panel, calls: seq<Call>, ledger: Vault.Ledger): StoreOutcome {
    StoreOutcome(panel.(isStoring := false, errorMessage := TransactionFailed), ledger, calls)
  }

  /** The key address is used consistently: the hash is encrypted under the very key address
      that is encrypted for the vault. */
  predicate OneKeyAddress(calls: seq<Call>) {
    forall i, j :: 0 <= i < |calls| && 0 <= j < |calls| && calls[i].EncryptHash? && calls[j].EncryptInput? ==>
      calls[i].keyAddress == calls[j].value
  }

  /** The transaction can be sent: the input encryption produced a first handle and the signer
      promise yielded a signer. A missing first handle makes the call's argument encoding
      throw before anything is sent. */
  predicate CanSend(attempt: StoreAttempt) {
    attempt.encryptedInput.Some? && attempt.signerAvailable && |attempt.encryptedInput.value.handles| > 0
  }

  /** The calls of an attempt past the checks, position by position: the hash encryption, the
      key address's input encryption, then the send when it can be made, the wait when the
      wallet returned a transaction, and the refresh when it was confirmed. */
  function Trace(panel: Panel, session: Session, attempt: StoreAttempt): (calls: seq<Call>)
    requires StoreStarts(panel, session)
    requires |attempt.iv| == AddressCipher.IvLength
    ensures 2 <= |calls| <= 5
    ensures calls[0] == EncryptHash(attempt.keyAddress, panel.ipfsHash)
    ensures calls[1] == EncryptInput(session.contractAddress, session.address.value, attempt.keyAddress)
    ensures |calls| > 2 <==> CanSend(attempt)
    ensures |calls| > 2 ==> calls[2] == SendStoreFile(panel.file.value.name,
      AddressCipher.EncryptWithAddress(attempt.cs, attempt.keyAddress, panel.ipfsHash, attempt.iv),
      attempt.encryptedInput.value.handles[0])
    ensures |calls| > 3 <==> CanSend(attempt) && attempt.sent.Some?
    ensures |calls| > 3 ==> calls[3] == WaitForReceipt
    ensures |calls| > 4 <==> CanSend(attempt) && attempt.sent.Some? && attempt.confirmed.Some?
    ensures |calls| > 4 ==> calls[4] == Refresh
    ensures forall k :: 2 <= k < |calls| ==> calls[k].SendStoreFile? || calls[k] == WaitForReceipt || calls[k] == Refresh
  {
    var prepared := [EncryptHash(attempt.keyAddress, panel.ipfsHash),
                     EncryptInput(session.contractAddress, session.address.value, attempt.keyAddress)];
    if !CanSend(attempt) then prepared
    else
      var send := SendStoreFile(panel.file.value.name,
        AddressCipher.EncryptWithAddress(attempt.cs, attempt.keyAddress, panel.ipfsHash, attempt.iv),
        attempt.encryptedInput.value.handles[0]);
      if attempt.sent.None? then prepared + [send]
      else if attempt.confirmed.None? then prepared + [send, WaitForReceipt]
      else prepared + [send, WaitForReceipt, Refresh]
  }

  /** `handleStore` past its checks. */
  function Attempt(panel: Panel, session: Session, attempt: StoreAttempt, ledger: Vault.Ledger): (r: StoreOutcome)
    requires StoreStarts(panel, session)
    requires |attempt.iv| == AddressCipher.IvLength
    ensures r.calls == Trace(panel, session, attempt)
    ensures !r.panel.isStoring
    ensures r.panel.file == panel.file && r.panel.ipfsHash == panel.ipfsHash
    ensures r.panel.uploadMessage == panel.uploadMessage && r.panel.isUploading == panel.isUploading
    ensures |r.calls| > 3 ==> r.panel.txHash == attempt.sent.value
    ensures |r.calls| <= 3 ==> r.panel.txHash == panel.txHash
    ensures |r.calls| == 5 <==> r.ledger != ledger
    ensures |r.calls| == 5 ==>
      && r.panel.errorMessage == ""
      && r.ledger == Vault.StoreFile(ledger, session.address.value, panel.file.value.name,
           AddressCipher.EncryptWithAddress(attempt.cs, attempt.keyAddress, panel.ipfsHash, attempt.iv),
           attempt.encryptedInput.value.handles[0], attempt.confirmed.value)
    ensures |r.calls| < 5 ==> r.panel.errorMessage == TransactionFailed && r.ledger == ledger
  {
    var started := panel.(isStoring := true, errorMessage := "");
    var calls := Trace(panel, session, attempt);
    if !CanSend(attempt) || attempt.sent.None? then
      Failed(started, calls, ledger)
    else
      var submitted := started.(txHash := attempt.sent.value);
      if attempt.confirmed.None? then
        Failed(submitted, calls, ledger)
      else
        var owner := session.address.value;
        var after := Vault.StoreFile(ledger, owner, panel.file.value.name,
          AddressCipher.EncryptWithAddress(attempt.cs, attempt.keyAddress, panel.ipfsHash, attempt.iv),
          attempt.encryptedInput.value.handles[0], attempt.confirmed.value);
        assert Vault.GetFileCount(after, owner) != Vault.GetFileCount(ledger, owner);
        StoreOutcome(submitted.(isStoring := false), after, calls)
  }

  /** `handleStore`. */
  function HandleStore(panel: Panel, session: Session, attempt: StoreAttempt, ledger: Vault.Ledger): (r: StoreOutcome)
    requires |attempt.iv| == AddressCipher.IvLength
    // The checks, in order, each reporting its own message and changing nothing else.
    ensures (panel.file.None? || panel.ipfsHash == "") ==>
      r == StoreOutcome(panel.(errorMessage := GenerateHashFirst), ledger, [])
    ensures (panel.file.Some? && panel.ipfsHash != ""
             && (session.address.None? || !session.hasInstance || !session.hasSignerPromise)) ==>
      r == StoreOutcome(panel.(errorMessage := ConnectWallet), ledger, [])
    ensures (panel.file.Some? && panel.ipfsHash != ""
             && session.address.Some? && session.hasInstance && session.hasSignerPromise
             && !Config.IsContractReady(session.contractAddress)) ==>
      r == StoreOutcome(panel.(errorMessage := ContractNotSet), ledger, [])
    // Once started, the busy flag is always cleared and the selection is kept.
    ensures StoreStarts(panel, session) ==>
      && !r.panel.isStoring
      && r.panel.file == panel.file && r.panel.ipfsHash == panel.ipfsHash
      && |r.calls| >= 2
  {
    if panel.file.None? || panel.ipfsHash == "" then
      StoreOutcome(panel.(errorMessage := GenerateHashFirst), ledger, [])
    else if session.address.None? || !session.hasInstance || !session.hasSignerPromise then
      StoreOutcome(panel.(errorMessage := ConnectWallet), ledger, [])
    else if !Config.IsContractReady(session.contractAddress) then
      StoreOutcome(panel.(errorMessage := ContractNotSet), ledger, [])
    else
      Attempt(panel, session, attempt, ledger)
  }

  /** The transaction hash shows as soon as the wallet returns it, even when waiting fails. */
  lemma StoreShowsTxHash(panel: Panel, session: Session, attempt: StoreAttempt, ledger: Vault.Ledger)
    requires |attempt.iv| == AddressCipher.IvLength
    ensures var r := HandleStore(panel, session, attempt, ledger);
      && (WaitForReceipt in r.calls ==> attempt.sent.Some? && r.panel.txHash == attempt.sent.value)
      && (WaitForReceipt !in r.calls ==> r.panel.txHash == panel.txHash)
  {
  }

  /** The vault changes exactly when the panel refreshes, by the one appended record; any
      other outcome past the checks shows the failure message and leaves the vault alone. */
  lemma StoreCommits(panel: Panel, session: Session, attempt: StoreAttempt, ledger: Vault.Ledger)
    requires |attempt.iv| == AddressCipher.IvLength
    ensures var r := HandleStore(panel, session, attempt, ledger);
      && (Refreshed(r.calls) <==> r.ledger != ledger)
      && (Refreshed(r.calls) ==>
           && StoreStarts(panel, session)
           && r.panel.errorMessage == ""
           && attempt.encryptedInput.Some? && |attempt.encryptedInput.value.handles| > 0
           && attempt.confirmed.Some?
           && r.ledger == Vault.StoreFile(ledger, session.address.value, panel.file.value.name,
                AddressCipher.EncryptWithAddress(attempt.cs, attempt.keyAddress, panel.ipfsHash, attempt.iv),
                attempt.encryptedInput.value.handles[0], attempt.confirmed.value))
      && ((StoreStarts(panel, session) && !Refreshed(r.calls)) ==>
           r.panel.errorMessage == TransactionFailed && r.ledger == ledger)
  {
  }

  /** A call list whose only encryptions are a hash encryption and an input encryption at the
      front, under the same key address, uses one key address. */
  lemma OneKeyAddressAtFront(calls: seq<Call>)
    requires |calls| >= 2 && calls[0].EncryptHash? && calls[1].EncryptInput?
    requires calls[0].keyAddress == calls[1].value
    requires forall k :: 2 <= k < |calls| ==> calls[k].SendStoreFile? || calls[k] == WaitForReceipt || calls[k] == Refresh
    ensures OneKeyAddress(calls)
  {
    forall i, j | 0 <= i < |calls| && 0 <= j < |calls| && calls[i].EncryptHash? && calls[j].EncryptInput?
      ensures calls[i].keyAddress == calls[j].value
    {
      assert i < 2 && j < 2;
    }
  }

  /** The calls of an attempt use one key address. */
  lemma TraceOneKeyAddress(panel: Panel, session: Session, attempt: StoreAttempt)
    requires StoreStarts(panel, session)
    requires |attempt.iv| == AddressCipher.IvLength
    ensures OneKeyAddress(Trace(panel, session, attempt))
  {
    OneKeyAddressAtFront(Trace(panel, session, attempt));
  }

  /** In a call list of the attempt's shape, the only send is the third call. */
  lemma SendIsThird(calls: seq<Call>)
    requires 2 < |calls| <= 5 && !calls[0].SendStoreFile? && !calls[1].SendStoreFile?
    requires |calls| > 3 ==> calls[3] == WaitForReceipt
    requires |calls| > 4 ==> calls[4] == Refresh
    ensures forall i :: 0 <= i < |calls| && calls[i].SendStoreFile? ==> i == 2
  {
  }

  /** The send of an attempt carries the hash encrypted under the attempt's key address and
      comes after the key address's input encryption. */
  lemma TraceSend(panel: Panel, session: Session, attempt: StoreAttempt)
    requires StoreStarts(panel, session)
    requires |attempt.iv| == AddressCipher.IvLength
    ensures var calls := Trace(panel, session, attempt);
      forall i :: 0 <= i < |calls| && calls[i].SendStoreFile? ==>
        && calls[i].fileName == panel.file.value.name
        && calls[i].encryptedIpfsHash
             == AddressCipher.EncryptWithAddress(attempt.cs, attempt.keyAddress, panel.ipfsHash, attempt.iv)
        && 1 < i && calls[1] == EncryptInput(session.contractAddress, session.address.value, attempt.keyAddress)
  {
    var calls := Trace(panel, session, attempt);
    if CanSend(attempt) {
      SendIsThird(calls);
    }
  }

  /** Across every outcome of `handleStore`: the hash is encrypted under the very key address
      that is encrypted for the vault, and the stored ciphertext is that encryption of the
      hash, sent only after the key address's input encryption. */
  lemma StoreCalls(panel: Panel, session: Session, attempt: StoreAttempt, ledger: Vault.Ledger)
    requires |attempt.iv| == AddressCipher.IvLength
    ensures var calls := HandleStore(panel, session, attempt, ledger).calls;
      && OneKeyAddress(calls)
      && forall i :: 0 <= i < |calls| && calls[i].SendStoreFile? ==>
           && StoreStarts(panel, session)
           && calls[i].fileName == panel.file.value.name
           && calls[i].encryptedIpfsHash
                == AddressCipher.EncryptWithAddress(attempt.cs, attempt.keyAddress, panel.ipfsHash, attempt.iv)
           && 1 < i && calls[1] == EncryptInput(session.contractAddress, session.address.value, attempt.keyAddress)
  {
    if StoreStarts(panel, session) {
      TraceOneKeyAddress(panel, session, attempt);
      TraceSend(panel, session, attempt);
    }
  }

  /** The store button's `disabled` condition, negated. */
  predicate StoreEnabled(panel: Panel, session: Session) {
    && panel.file.Some? && panel.ipfsHash != "" && !panel.isStoring && !session.zamaLoading
    && session.address.Some? && session.hasInstance && Config.IsContractReady(session.contractAddress)
  }

  /** The button does not look at the signer promise: an enabled button gets past the checks
      exactly when the signer promise is present. */
  lemma EnabledStoreStarts(panel: Panel, session: Session)
    requires StoreEnabled(panel, session)
    ensures StoreStarts(panel, session) <==> session.hasSignerPromise
  {
  }

  /** A new file selection discards the hash, so a store right after it stops at the first
      check without touching the vault. */
  lemma StoreAfterFileChange(panel: Panel, next: Option<FileInfo>, session: Session, attempt: StoreAttempt, ledger: Vault.Ledger)
    requires |attempt.iv| == AddressCipher.IvLength
    ensures var r := HandleStore(HandleFileChange(panel, next), session, attempt, ledger);
      r.ledger == ledger && r.calls == [] && r.panel.errorMessage == GenerateHashFirst
  {
  }

  /** After an upload of a selected file, the first check passes: the mock hash is never
      empty and starts with `Qm`. */
  lemma UploadEnablesStore(panel: Panel, random: seq<byte>)
    requires |random| == Ipfs.RandomLength
    requires panel.file.Some?
    ensures var r := HandleUpload(panel, random);
      r.file.Some? && r.ipfsHash != "" && r.ipfsHash[..2] == "Qm"
  {
  }

  /** The panel as first rendered holds no file and no hash: an upload only reports the
      missing file, and a store stops at its first check with no call and no vault change. */
  lemma InitialPanelIsIdle(session: Session, attempt: StoreAttempt, ledger: Vault.Ledger, random: seq<byte>)
    requires |attempt.iv| == AddressCipher.IvLength
    requires |random| == Ipfs.RandomLength
    ensures HandleUpload(Initial, random) == Initial.(errorMessage := SelectFileFirst)
    ensures var r := HandleStore(Initial, session, attempt, ledger);
      r.ledger == ledger && r.calls == [] && r.panel == Initial.(errorMessage := GenerateHashFirst)
  {
  }
}
