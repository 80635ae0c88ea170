# veilfhe: encrypted file-record vault, modelled in Dafny

veilfhe stores file records on chain. The browser first derives a mock IPFS content hash for a
local file. It then encrypts that hash with AES-GCM under a key derived from a freshly generated
random "key address". The key address itself is encrypted for a confidential-computation layer
(an FHE coprocessor). The vault contract appends the record `(file name, encrypted hash, key
handle, block time)` to the sender's list. Later the library panel lists the owner's records. To
reveal one, it asks the confidential-computation layer to decrypt the key address, then decrypts
the hash with it.

The model covers:

- `Base64`: `btoa` (standard base64 with padding, section 4 of RFC 4648) and `atob` (the
  WHATWG forgiving-base64 decode), with the proof that decoding inverts encoding.
- `Utf8`: `TextEncoder.encode` and the WHATWG UTF-8 decoder behind `TextDecoder.decode`,
  including its dropping of a leading U+FEFF, with the proof that decoding inverts encoding.
- `Text`: the JavaScript string operations used (`split`, ASCII `toLowerCase`, `replace` of the
  first occurrence).
- `AddressCipher`: `toBase64`, `fromBase64`, `deriveKey`, `encryptWithAddress` and
  `decryptWithAddress`, with SHA-256 and AES-GCM as uninterpreted fields of a `CipherSuite`. The
  predicate `AeadCorrect` states the one property the round trip needs of them: AES-GCM
  decryption under the same key and iv returns the plaintext, and the ciphertext is the
  plaintext plus a 16-byte tag.
- `Ipfs`: the base58 alphabet, `base58Random` with its random bytes as a parameter, and the
  `Qm…` mock hash.
- `Vault`: the vault contract as a map from owner to an append-only list of records. The
  contract's own code is not part of this model. Its tests fix the count and the record read back
  after a store; the rest of its behaviour (reverting reads, untouched earlier records and other
  owners, the block time as `createdAt`) is assumed and listed under Left out.
- `Config`: the `isContractReady` check against the zero address.
- `UploadPanel` and `FileLibrary`: the React handlers as pure functions. Each takes the current
  state and the outcomes of every awaited step (wallet, confidential-computation layer, chain).
  It returns the next state, the next vault and the external calls made, in order.
- `Protocol`: the two panels composed. A confirmed store is listed at the end of the owner's
  records, and revealing it gives back the content hash, less a leading U+FEFF.

Among strings of Unicode scalar values, the round trip that encryption and decryption are meant
to form fails for exactly one class of plaintexts. The default `TextDecoder` drops a leading
U+FEFF, so a plaintext that starts with it loses that character (see Findings). The library panel
is modelled as written, with the default decoder; the corrected decryption, with `ignoreBOM`, is
proved to round-trip every such plaintext. JavaScript strings with an unpaired surrogate are
outside the model (see Left out).

## Model

| member | source | states |
|---|---|---|
| Base64.Encode | home/src/utils/crypto.ts:9 | `btoa` output has `4·⌈n/3⌉` characters, all base64 alphabet or `=` padding |
| Base64.DecodeEncode | home/src/utils/crypto.ts:9-13 | forgiving-base64 decoding of a standard encoding gives back exactly the bytes encoded |
| Base64.Btoa | home/src/utils/crypto.ts:9 | `btoa` succeeds exactly when every code unit of its input fits in a byte |
| Base64.Atob | home/src/utils/crypto.ts:13 | `atob` succeeds exactly when forgiving decode does, and its result's code units are all below 256 |
| Utf8.DecodeEncode | home/src/utils/crypto.ts:30-45 | the UTF-8 decoder inverts the UTF-8 encoder on every string of Unicode scalar values |
| Utf8.TextRoundTrip | home/src/utils/crypto.ts:1-2 | for a string of Unicode scalar values: with `ignoreBOM` the text comes back unchanged; with the default decoder it comes back unchanged exactly when it does not start with U+FEFF, and otherwise without its first character |
| Text.JoinSplit | home/src/utils/crypto.ts:36 | joining the pieces of `split(':')` with `':'` gives back the string |
| Text.SplitThree | home/src/utils/crypto.ts:31-36 | three separator-free pieces joined by the separator split back into exactly those three pieces |
| Text.ToLowerIdentifiesCase | home/src/utils/crypto.ts:22 | two strings have the same lowercase form exactly when they differ only in ASCII letter case |
| Text.RemoveFirstOccurrence | home/src/components/FileLibrary.tsx:141 | `replace(p, '')` removes exactly the leftmost occurrence of `p` and keeps everything around it |
| Text.RemoveFirstAbsent | home/src/components/FileLibrary.tsx:141 | without an occurrence, `replace(p, '')` leaves the string unchanged |
| AddressCipher.BinaryOf | home/src/utils/crypto.ts:5-8 | the `fromCharCode` loop yields one character per byte, whose code is that byte |
| AddressCipher.BytesOf | home/src/utils/crypto.ts:14-17 | the `charCodeAt` loop yields one byte per character, the code modulo 256 (the `Uint8Array` store) |
| AddressCipher.ToBase64 | home/src/utils/crypto.ts:4-10 | `btoa` of the binary string never throws, and the result contains no `':'` |
| AddressCipher.FromBase64 | home/src/utils/crypto.ts:12-19 | fails, with the base64 error, exactly when forgiving decode rejects the input |
| AddressCipher.Base64RoundTrip | home/src/utils/crypto.ts:4-19 | `fromBase64(toBase64(b)) == b` for every byte sequence |
| AddressCipher.DeriveKeyIgnoresCase | home/src/utils/crypto.ts:21-25 | addresses that differ only in letter case derive the same key |
| AddressCipher.EncryptWithAddress | home/src/utils/crypto.ts:27-33 | the payload starts with `v1:` |
| AddressCipher.EncryptedPayloadShape | home/src/utils/crypto.ts:29-31 | an encrypted payload splits into exactly three segments: `v1`, the base64 of the iv (16 characters for 12 bytes), and the base64 of the ciphertext |
| AddressCipher.ParsePayload | home/src/utils/crypto.ts:36-39 | a failure is the format error; accepted fields are non-empty and contain no `':'` |
| AddressCipher.ParsePayloadAccepts | home/src/utils/crypto.ts:36-39 | the format check returns fields `(a, b)` exactly when `a` and `b` are non-empty, contain no `':'`, and the payload is `v1:a:b`, optionally followed by `':'` and more |
| AddressCipher.ExtraSegmentsIgnored | home/src/utils/crypto.ts:36 | `v1:a:b:` followed by anything passes with fields `a` and `b` |
| AddressCipher.MalformedExamples | home/src/utils/crypto.ts:37-39 | a wrong version, an empty iv field, an empty data field and a missing field are each a format error |
| AddressCipher.Decrypt | home/src/utils/crypto.ts:35-46 | the first failing stage names the error: the format error exactly when the format check fails; the base64 error exactly when it passes and `atob` rejects a field; the cipher error exactly when both fields decode and AES-GCM rejects the data under the derived key; success exactly when AES-GCM accepts it |
| AddressCipher.MalformedNeverReachesCipher | home/src/utils/crypto.ts:37-41 | a payload that fails the format check gives the same format error whatever the cipher suite and the address |
| AddressCipher.ParseEncrypted | home/src/utils/crypto.ts:31-37 | parsing an encrypted payload recovers exactly the base64 of the iv and of the ciphertext |
| AddressCipher.DecryptOfEncrypt | home/src/utils/crypto.ts:27-46 | decrypting an encrypted payload, under any spelling of the address, hands the text decoder exactly the UTF-8 bytes of the plaintext |
| AddressCipher.DecryptWithAddress | home/src/utils/crypto.ts:35-46 | `decryptWithAddress` as written; it fails with the format error exactly when the format check fails |
| AddressCipher.DecryptWithAddressIgnoreBom | home/src/utils/crypto.ts:35-46 | the same with a decoder that keeps a leading U+FEFF; it fails with the format error exactly when the format check fails |
| AddressCipher.RoundTrip | home/src/utils/crypto.ts:27-46 | the corrected decryption returns every plaintext of Unicode scalar values, the empty one included, also for a differently cased address |
| AddressCipher.RoundTripAsWritten | home/src/utils/crypto.ts:27-46 | for a plaintext of Unicode scalar values, decryption as written returns it exactly when it does not start with U+FEFF, and otherwise drops that character |
| AddressCipher.ByteOrderMarkIsLost | home/src/utils/crypto.ts:45 | the one-character text U+FEFF decrypts, as written, to the empty string |
| Ipfs.AlphabetCodes | home/src/utils/ipfs.ts:1 | the alphabet has 58 characters, character `i` having the code of base58 digit `i` |
| Ipfs.AlphabetDistinct | home/src/utils/ipfs.ts:1 | the alphabet's 58 characters are strictly increasing, hence distinct |
| Ipfs.AlphabetMembers | home/src/utils/ipfs.ts:1 | a character is in the alphabet exactly when it is a base58 character; `0`, `O`, `I` and `l` are not |
| Ipfs.Base58Random | home/src/utils/ipfs.ts:3-10 | one output character per byte, character `i` being the alphabet entry at `bytes[i] % 58` |
| Ipfs.Base58RandomInAlphabet | home/src/utils/ipfs.ts:7 | every generated character is a base58 character |
| Ipfs.MockIpfsHash | home/src/utils/ipfs.ts:23 | the hash has 46 characters: `Qm`, then 44 base58 characters |
| Vault.GetFile | test/VeilFileVaultSepolia.ts:71 | `getFile` succeeds exactly for an index below the owner's count |
| Vault.StoreFile | test/VeilFileVault.ts:50-62 | a store raises the owner's count by one, puts the new record at the old count, and leaves earlier records and other owners unchanged |
| Vault.ApplyAllAppends | test/VeilFileVaultSepolia.ts:61-73 | after any sequence of stores, an owner's list is the old list followed by exactly that owner's new records, in order |
| Vault.SequentialStores | test/VeilFileVault.ts:50-60 | after `n` stores by one owner into a fresh vault, the count is `n` and index `i` holds the `i`-th record |
| Vault.FreshVaultIsEmpty | test/VeilFileVault.ts:12-18 | a fresh deployment holds no record: count 0, and every `getFile` reverts |
| Vault.StoreIntoFreshVault | test/VeilFileVault.ts:50-62 | after one store into a fresh vault: count 1; record 0 has the name and hash verbatim, a non-zero handle and a non-zero time |
| Vault.StoreIntoExistingVault | test/VeilFileVaultSepolia.ts:61-73 | after a store into any vault the count is positive, and the record at `count - 1` is the one just stored |
| Config.ContractReadyExactly | home/src/components/UploadPanel.tsx:31 | the contract counts as not ready for exactly the two spellings `0x000…0` and `0X000…0` |
| UploadPanel.HandleFileChange | home/src/components/UploadPanel.tsx:33-40 | a new selection clears the hash, upload message, error and transaction hash, and leaves the busy flags alone |
| UploadPanel.HandleUpload | home/src/components/UploadPanel.tsx:42-61 | without a file only the error is set; otherwise the hash is the mock upload's, the error is cleared and uploading ends |
| UploadPanel.Trace | home/src/components/UploadPanel.tsx:82-105 | the calls in order: hash encryption, key-address input encryption, then the send exactly when the input has a handle and there is a signer, the wait exactly when a transaction came back, and the refresh exactly when it was confirmed |
| UploadPanel.Attempt | home/src/components/UploadPanel.tsx:79-111 | past the checks: `isStoring` ends false; the vault changes exactly when all five calls happen, by appending the stored record; otherwise the failure message shows and the vault is unchanged |
| UploadPanel.HandleStore | home/src/components/UploadPanel.tsx:63-112 | each failed check sets its own message and changes nothing else, with no call made; once started, `isStoring` ends false and the selection is kept |
| UploadPanel.StoreShowsTxHash | home/src/components/UploadPanel.tsx:96-103 | the transaction hash is set exactly when a transaction comes back, even if waiting for it fails, and is otherwise left unchanged |
| UploadPanel.StoreCommits | home/src/components/UploadPanel.tsx:95-108 | the panel refreshes exactly when the vault changed, by the record `(name, encrypted hash, handles[0], block time)`; any other started outcome shows the failure message and leaves the vault alone |
| UploadPanel.TraceOneKeyAddress | home/src/components/UploadPanel.tsx:83-88 | the hash is encrypted under the same key address that is encrypted for the vault |
| UploadPanel.StoreCalls | home/src/components/UploadPanel.tsx:83-101 | in every outcome: one key address throughout, and a send carries the file name and the hash encrypted under that key, after the input encryption |
| UploadPanel.EnabledStoreStarts | home/src/components/UploadPanel.tsx:145-156 | when the store button is enabled, the store passes its checks exactly when the signer promise is present |
| UploadPanel.StoreAfterFileChange | home/src/components/UploadPanel.tsx:33-67 | right after a new selection, a store stops at the first check, with no call and no vault change |
| UploadPanel.InitialPanelIsIdle | home/src/components/UploadPanel.tsx:23-66 | the panel as first rendered: an upload only sets the missing-file error, and a store only sets the missing-hash error, with no call and no vault change |
| UploadPanel.UploadEnablesStore | home/src/components/UploadPanel.tsx:42-64 | after an upload of a selected file, the first store check passes: the hash is non-empty and starts with `Qm` |
| FileLibrary.Entries | home/src/components/FileLibrary.tsx:63-80 | for count `n` there are `n` entries; entry `i` has index `i`, holds `getFile(owner, i)`, and has nothing revealed |
| FileLibrary.FetchFiles | home/src/components/FileLibrary.tsx:39-89 | without address, client or a ready contract the list is emptied; a failed read keeps the list and sets the load error; otherwise the list is exactly the owner's records (empty for count 0); loading always ends |
| FileLibrary.Authorize | home/src/components/FileLibrary.tsx:113-122 | the authorisation covers exactly the vault contract, starts at the current whole second, and lasts 10 days |
| FileLibrary.KeyFor | home/src/components/FileLibrary.tsx:148-151 | a key address is found exactly when the decryption map has a non-empty value for the handle |
| FileLibrary.MarkDecrypted | home/src/components/FileLibrary.tsx:154-160 | entries with the matching index get the hash and key address; every other entry is unchanged; chain fields are kept |
| FileLibrary.DecryptFile | home/src/components/FileLibrary.tsx:95-167 | not started: the connect message, no call. Started: `activeDecrypt` ends cleared and the chain fields are kept; the decryption request has the record's handle, the generated key pair (whose public key the signed authorisation names), the signature without `0x` and the authorisation; success means a signer was available, the wallet signed the authorisation, exactly the signing and the decryption request were made, a key address was found, the hash decrypted under it with the default decoder, and only matching entries were marked; any failure sets the decrypt error and keeps the list |
| FileLibrary.RevealSucceeds | home/src/components/FileLibrary.tsx:124-160 | conversely, with a signer available and the authorisation signed, a request whose decryption yields a key address under which the hash decrypts, with the default decoder, ends in success, with the matching entries marked by that decryption |
| FileLibrary.FirstListing | home/src/components/FileLibrary.tsx:31-89 | the first listing in a ready session holds exactly the owner's records, with no error, nothing loading and no reveal active |
| FileLibrary.SignatureStripped | home/src/components/FileLibrary.tsx:141 | a wallet signature `0x…` reaches the decryption without its prefix |
| FileLibrary.MarkDecryptedIdempotent | home/src/components/FileLibrary.tsx:154-160 | revealing the same entry twice with the same result is the same as revealing it once |
| FileLibrary.MarkDecryptedCommutes | home/src/components/FileLibrary.tsx:154-160 | reveals of entries with different indices can happen in either order |
| Protocol.StoredRecordIsListed | home/src/components/UploadPanel.tsx:95-105 | after a confirmed store, the next listing has one more entry, and the last entry holds the name, the encrypted hash, the first input handle and the confirmation time |
| Protocol.StoreListReveal | home/src/components/FileLibrary.tsx:148-160 | storing, listing and revealing the new entry, with the key address coming back in any letter case, yields on that entry the original content hash, less a leading U+FEFF, and changes no other entry |
| Protocol.MockHashSurvivesAsWritten | home/src/utils/ipfs.ts:23 | a mock hash starts with `Q`, so even decryption as written returns it unchanged |

## Left out

- SHA-256 and AES-GCM are not computed. They are fields of `CipherSuite`, and `AeadCorrect` is the one property assumed of them, as a precondition of the round-trip lemmas. Because of this, the promise that a payload encrypted under a different address fails to decrypt is not stated: it is a property of AES-GCM authentication.
- `crypto.subtle.importKey` is left out: the digest is taken as the key as is.
- `crypto.getRandomValues`, `Wallet.createRandom` and `Date.now()` are parameters: the iv bytes, the base58 bytes, the key address and the clock in milliseconds.
- The confidential-computation layer (`createEncryptedInput`, `generateKeypair`, `createEIP712`, `userDecrypt`) and the wallet are oracles: each awaited step's outcome is supplied, `None` standing for a throw. The EIP-712 message is reduced to the fields the panels set.
- The vault contract's implementation is not part of this model. Its tests fix the record count and the record read back after a store; the rest is assumed (the `Vault.` lines below). The record stored is `handles[0]` of the input encryption, and a transaction whose receipt is confirmed is assumed to have appended exactly that record.
- `Promise.all`: the `getFile` reads run concurrently in the source. Here they all read one snapshot of the vault.
- `Number(count)` is exact here. A count above 2^53 would lose precision in the source.
- `startTimeStamp` and `durationDays` are passed as decimal strings in the source. Here they are numbers.
- `toLowerCase` is modelled on ASCII letters only. Addresses are hexadecimal.
- Text.ToLowerIdentifiesCase: "same lowercase form exactly when the strings differ only in letter case" is proved for ASCII lowercasing only; under JavaScript's full `toLowerCase` it fails for non-ASCII letters (`"É"` and `"é"` lowercase alike without differing only in ASCII case). The core lowercases only hexadecimal addresses, where the two agree.
- `mockIpfsUpload`'s timers and progress messages are left out; only the last message, `Upload complete.`, is kept. Its failure branch (`Failed to generate IPFS hash.`) cannot occur, because the mock never throws.
- `zamaError`, the rendering, date and size formatting, `useEffect`'s refresh on `refreshToken`, `tasks/VeilFileVault.ts`, `VaultApp.tsx` and `Header.tsx` are presentation or deployment glue.
- Utf8.DecodeEncode: holds for strings of Unicode scalar values only. A Dafny `char` is a scalar value, while a JavaScript string may hold an unpaired surrogate, which `TextEncoder` replaces by U+FFFD, so such a string does not come back.
- Utf8.TextRoundTrip: the same restriction to strings of Unicode scalar values; a string with an unpaired surrogate comes back with U+FFFD in its place, whatever `ignoreBOM` is.
- AddressCipher.RoundTrip: the same restriction; a plaintext such as `"a\uD800"` decrypts to `"a\uFFFD"` even with `ignoreBOM`.
- AddressCipher.RoundTripAsWritten: the same restriction; "exactly when it does not start with U+FEFF" is stated among strings of Unicode scalar values only.
- UploadPanel.Attempt: a send or a wait that throws is taken to mean that nothing was mined. On chain, a transaction can be mined while the client's `tx.wait()` fails (an RPC error); the record is then appended, yet the panel shows the failure message and does not refresh.
- UploadPanel.StoreCommits: "the vault changed exactly when the panel refreshes" rests on the same assumption; without it only "refreshes implies the record was appended" holds.
- Vault.GetFile: the revert for an index at or past the owner's count is assumed; no test reads out of range.
- Vault.StoreFile: that earlier records and other owners' lists are untouched, and that `createdAt` is the confirming block's time, are assumed; the tests read back only the newest record and check only that its time is non-zero.
- Vault.StoreIntoFreshVault: the non-zero handle and time follow from the `Handle` and `Timestamp` types, which assume that the confidential-computation layer never returns the zero handle and that block times are positive.
- UploadPanel.HandleStore: the transaction-hash and vault-change facts are stated as the lemmas `UploadPanel.StoreShowsTxHash` and `UploadPanel.StoreCommits` rather than as its own postconditions.

## Findings

| source | as written | input that shows it | evidently intended | confidence | as-written member | corrected member |
|---|---|---|---|---|---|---|
| home/src/utils/crypto.ts:2 | `new TextDecoder()` has `ignoreBOM` false, so `decryptWithAddress` drops a leading U+FEFF from the decrypted text | the one-character plaintext U+FEFF encrypts and then decrypts to `""` | `decryptWithAddress(a, encryptWithAddress(a, p)) == p` for every `p` | high, not executed | AddressCipher.ByteOrderMarkIsLost | AddressCipher.RoundTrip |
