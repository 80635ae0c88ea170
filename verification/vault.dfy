/**
 * The on-chain vault: for each owner an append-only list of file records, with `storeFile`
 * (append), `getFileCount` and `getFile`. The contract's code is not part of this model. Its
 * tests fix the record count and the record read back after a store; the out-of-range revert,
 * the untouched earlier records and other owners, and `createdAt` as the block time are
 * assumed.
 */
module Vault {
  import opened Wrappers

  /** An account address (160 bits). */
  type Address = a: nat | a < 0x1_0000_0000_0000_0000_0000_0000_0000_0000_0000_0000

  /** A confidential handle (a `bytes32` word) issued by the confidential-computation layer;
      a valid handle is never the zero word. */
  type Handle = h: nat | 0 < h < 0x1_0000_0000_0000_0000_0000_0000_0000_0000_0000_0000_0000_0000_0000_0000 witness 1

  /** A block timestamp in seconds; block timestamps are positive. */
  type Timestamp = t: nat | t > 0 witness 1

  datatype FileRecord = FileRecord(
    fileName: string,
    encryptedIpfsHash: string,
    encryptedKeyAddress: Handle,
    createdAt: Timestamp)

  /** Every owner's records in append order. */
  type Ledger = map<Address, seq<FileRecord>>

  datatype VaultError = IndexOutOfRange

  /** A freshly deployed vault. */
  const Fresh: Ledger := map[]

  function Records(ledger: Ledger, owner: Address): seq<FileRecord> {
    if owner in ledger then ledger[owner] else []
  }

  /** `getFileCount(owner)`. */
  function GetFileCount(ledger: Ledger, owner: Address): nat {
    |Records(ledger, owner)|
  }

  /** `getFile(owner, index)`: reverts when `index` is not below the owner's count. */
  function GetFile(ledger: Ledger, owner: Address, index: nat): (r: Result<FileRecord, VaultError>)
    ensures r.Success? <==> index < GetFileCount(ledger, owner)
  {
    if index < |Records(ledger, owner)| then Success(Records(ledger, owner)[index])
    else Failure(IndexOutOfRange)
  }

  /** `storeFile` sent by `owner` in a block with timestamp `now`: the record is appended
      at index `getFileCount(owner)`; earlier records and other owners are untouched. */
  function StoreFile(ledger: Ledger, owner: Address, fileName: string, encryptedIpfsHash: string,
                     handle: Handle, now: Timestamp): (after: Ledger)
    ensures GetFileCount(after, owner) == GetFileCount(ledger, owner) + 1
    ensures GetFile(after, owner, GetFileCount(ledger, owner))
              == Success(FileRecord(fileName, encryptedIpfsHash, handle, now))
    ensures forall i: nat :: i < GetFileCount(ledger, owner) ==> GetFile(after, owner, i) == GetFile(ledger, owner, i)
    ensures forall other: Address :: other != owner ==> Records(after, other) == Records(ledger, other)
  {
    ledger[owner := Records(ledger, owner) + [FileRecord(fileName, encryptedIpfsHash, handle, now)]]
  }

  /** One confirmed `storeFile` transaction. */
  datatype StoreTx = StoreTx(owner: Address, fileName: string, encryptedIpfsHash: string, handle: Handle, time: Timestamp)

  function RecordOf(tx: StoreTx): FileRecord {
    FileRecord(tx.fileName, tx.encryptedIpfsHash, tx.handle, tx.time)
  }

  /** The ledger after a sequence of transactions, in order. */
  function ApplyAll(ledger: Ledger, txs: seq<StoreTx>): Ledger {
    if |txs| == 0 then ledger
    else
      var last := txs[|txs| - 1];
      StoreFile(ApplyAll(ledger, txs[..|txs| - 1]), last.owner, last.fileName, last.encryptedIpfsHash, last.handle, last.time)
  }

  /** The records `owner`'s transactions create, in transaction order. */
  function OwnRecords(txs: seq<StoreTx>, owner: Address): seq<FileRecord> {
    if |txs| == 0 then []
    else
      var last := txs[|txs| - 1];
      OwnRecords(txs[..|txs| - 1], owner) + (if last.owner == owner then [RecordOf(last)] else [])
  }

  /** Per-owner ordering, even when owners' transactions interleave: an owner's list is the old
      list followed by exactly that owner's new records in the order they were sent. */
  lemma {:induction false} ApplyAllAppends(ledger: Ledger, txs: seq<StoreTx>, owner: Address)
    ensures Records(ApplyAll(ledger, txs), owner) == Records(ledger, owner) + OwnRecords(txs, owner)
  {
    if |txs| > 0 {
      ApplyAllAppends(ledger, txs[..|txs| - 1], owner);
    }
  }

  /** After `n` stores by one owner into a fresh vault, the count is `n` and index `i` holds
      the record of the `i`-th call. */
  lemma SequentialStores(txs: seq<StoreTx>, owner: Address)
    requires forall k :: 0 <= k < |txs| ==> txs[k].owner == owner
    ensures GetFileCount(ApplyAll(Fresh, txs), owner) == |txs|
    ensures forall i: nat :: i < |txs| ==> GetFile(ApplyAll(Fresh, txs), owner, i) == Success(RecordOf(txs[i]))
  {
    ApplyAllAppends(Fresh, txs, owner);
    OwnRecordsAll(txs, owner);
  }

  lemma {:induction false} OwnRecordsAll(txs: seq<StoreTx>, owner: Address)
    requires forall k :: 0 <= k < |txs| ==> txs[k].owner == owner
    ensures |OwnRecords(txs, owner)| == |txs|
    ensures forall i :: 0 <= i < |txs| ==> OwnRecords(txs, owner)[i] == RecordOf(txs[i])
  {
    if |txs| > 0 {
      OwnRecordsAll(txs[..|txs| - 1], owner);
    }
  }

  /** A fresh deployment holds no record for anyone. */
  lemma FreshVaultIsEmpty(owner: Address, index: nat)
    ensures GetFileCount(Fresh, owner) == 0
    ensures GetFile(Fresh, owner, index) == Failure(IndexOutOfRange)
  {
  }

  /** The local test: after alice's one store into a fresh vault her count is 1 and record 0
      carries the name and encrypted hash unchanged, a non-zero handle and a non-zero time. */
  lemma StoreIntoFreshVault(alice: Address, fileName: string, encryptedIpfsHash: string, handle: Handle, now: Timestamp)
    ensures var after := StoreFile(Fresh, alice, fileName, encryptedIpfsHash, handle, now);
      && GetFileCount(after, alice) == 1
      && GetFile(after, alice, 0).Success?
      && GetFile(after, alice, 0).value.fileName == fileName
      && GetFile(after, alice, 0).value.encryptedIpfsHash == encryptedIpfsHash
      && GetFile(after, alice, 0).value.encryptedKeyAddress != 0
      && GetFile(after, alice, 0).value.createdAt != 0
  {
  }

  /** The testnet test, against whatever the vault already holds: after a store the count is
      positive and the record at `count - 1` is the one just stored. */
  lemma StoreIntoExistingVault(ledger: Ledger, alice: Address, fileName: string, encryptedIpfsHash: string, handle: Handle, now: Timestamp)
    ensures var after := StoreFile(ledger, alice, fileName, encryptedIpfsHash, handle, now);
      && GetFileCount(after, alice) > 0
      && GetFile(after, alice, GetFileCount(after, alice) - 1) == Success(FileRecord(fileName, encryptedIpfsHash, handle, now))
  {
  }
}
