/**
 * The two panels together: what the upload panel stores, the library lists at the end of the
 * owner's records, and revealing that entry gives back the content hash (less a leading
 * U+FEFF, which the default text decoder drops).
 */
module Protocol {
  import opened Wrappers
  import Vault
  import AddressCipher
  import Ipfs
  import Text
  import Utf8
  import UploadPanel
  import FileLibrary

  /** After a confirmed store, the library's listing of the new vault ends with the stored
      record: at the owner's previous count, with the file's name, the encrypted hash and the
      first input handle. */
  lemma StoredRecordIsListed(panel: UploadPanel.Panel, session: UploadPanel.Session,
                             attempt: UploadPanel.StoreAttempt, ledger: Vault.Ledger,
                             lib: FileLibrary.Library, libSession: FileLibrary.Session)
    requires |attempt.iv| == AddressCipher.IvLength
    requires UploadPanel.Refreshed(UploadPanel.HandleStore(panel, session, attempt, ledger).calls)
    requires libSession.address == session.address && libSession.hasPublicClient
    requires libSession.contractAddress == session.contractAddress
    ensures var after := UploadPanel.HandleStore(panel, session, attempt, ledger).ledger;
      var owner := session.address.value;
      var n := Vault.GetFileCount(ledger, owner);
      var listed := FileLibrary.FetchFiles(lib, libSession, Some(after)).files;
      && |listed| == n + 1
      && listed[n].index == n
      && listed[n].fileName == panel.file.value.name
      && listed[n].encryptedIpfsHash
           == AddressCipher.EncryptWithAddress(attempt.cs, attempt.keyAddress, panel.ipfsHash, attempt.iv)
      && listed[n].encryptedKeyAddress == attempt.encryptedInput.value.handles[0]
      && listed[n].createdAt == attempt.confirmed.value
  {
    var after := UploadPanel.HandleStore(panel, session, attempt, ledger).ledger;
    var owner := session.address.value;
    var n := Vault.GetFileCount(ledger, owner);
    var listed := FileLibrary.FetchFiles(lib, libSession, Some(after)).files;
    UploadPanel.StoreCommits(panel, session, attempt, ledger);
    assert Vault.GetFile(after, owner, n) == Success(FileLibrary.RecordOf(listed[n]));
  }

  /** The whole protocol: a confirmed store, a fresh listing, and a reveal of the new entry in
      which the confidential-computation layer returns the stored key address (in any letter
      case) give back the content hash on that entry and on no other. The reveal decrypts with
      the default decoder, so a hash that starts with U+FEFF comes back without it; a mock hash
      never does (`MockHashSurvivesAsWritten`). */
  lemma StoreListReveal(panel: UploadPanel.Panel, session: UploadPanel.Session,
                        attempt: UploadPanel.StoreAttempt, ledger: Vault.Ledger,
                        lib: FileLibrary.Library, libSession: FileLibrary.Session,
                        opening: FileLibrary.RevealAttempt)
    requires AddressCipher.AeadCorrect(attempt.cs)
    requires |attempt.iv| == AddressCipher.IvLength
    requires attempt.keyAddress != ""
    requires UploadPanel.Refreshed(UploadPanel.HandleStore(panel, session, attempt, ledger).calls)
    requires libSession.address == session.address && libSession.hasPublicClient
    requires libSession.contractAddress == session.contractAddress
    requires libSession.hasInstance && libSession.hasSignerPromise
    requires opening.cs == attempt.cs && opening.signerAvailable && opening.signature.Some?
    requires opening.decrypted.Some?
    requires attempt.encryptedInput.Some? && |attempt.encryptedInput.value.handles| > 0
    requires attempt.encryptedInput.value.handles[0] in opening.decrypted.value
    requires Text.SameIgnoringCase(attempt.keyAddress, opening.decrypted.value[attempt.encryptedInput.value.handles[0]])
    ensures var after := UploadPanel.HandleStore(panel, session, attempt, ledger).ledger;
      var n := Vault.GetFileCount(ledger, session.address.value);
      var listed := FileLibrary.FetchFiles(lib, libSession, Some(after));
      var revealed := FileLibrary.DecryptFile(listed, libSession, listed.files[n], opening).library;
      && revealed.errorMessage == ""
      && (!Utf8.StartsWithBom(panel.ipfsHash) ==> revealed.files[n].decryptedHash == Some(panel.ipfsHash))
      && (Utf8.StartsWithBom(panel.ipfsHash) ==> revealed.files[n].decryptedHash == Some(panel.ipfsHash[1..]))
      && (forall i :: 0 <= i < |revealed.files| && i != n ==> revealed.files[i] == listed.files[i])
  {
    var after := UploadPanel.HandleStore(panel, session, attempt, ledger).ledger;
    var n := Vault.GetFileCount(ledger, session.address.value);
    StoredRecordIsListed(panel, session, attempt, ledger, lib, libSession);
    var listed := FileLibrary.FetchFiles(lib, libSession, Some(after));
    var entry := listed.files[n];
    var handle := attempt.encryptedInput.value.handles[0];
    var key := opening.decrypted.value[handle];
    assert key != "";
    assert FileLibrary.KeyFor(opening.decrypted.value, entry.encryptedKeyAddress) == Some(key);
    var hash := if Utf8.StartsWithBom(panel.ipfsHash) then panel.ipfsHash[1..] else panel.ipfsHash;
    AddressCipher.RoundTripAsWritten(attempt.cs, attempt.keyAddress, key, panel.ipfsHash, attempt.iv);
    assert AddressCipher.DecryptWithAddress(attempt.cs, key, entry.encryptedIpfsHash) == Success(hash);
    FileLibrary.RevealSucceeds(listed, libSession, entry, opening, key, hash);
  }

  /** The lost leading byte order mark does not touch the panels' own traffic: a mock content
      hash starts with `Q`, so even the source's decryption gives it back unchanged. */
  lemma MockHashSurvivesAsWritten(cs: AddressCipher.CipherSuite, a: string, b: string,
                                  random: seq<byte>, iv: seq<byte>)
    requires AddressCipher.AeadCorrect(cs)
    requires |iv| == AddressCipher.IvLength
    requires |random| == Ipfs.RandomLength
    requires Text.SameIgnoringCase(a, b)
    ensures var hash := Ipfs.MockIpfsHash(random);
      AddressCipher.DecryptWithAddress(cs, b, AddressCipher.EncryptWithAddress(cs, a, hash, iv)) == Success(hash)
  {
    var hash := Ipfs.MockIpfsHash(random);
    assert hash[0] == hash[..2][0] == 'Q';
    AddressCipher.RoundTripAsWritten(cs, a, b, hash, iv);
  }
}
