/**
 * The identities table as a value: a finite map from address to row (the
 * `address` column is UNIQUE and writes replace the row for the address),
 * together with the ordered log of the side effects the table fires.
 * Every operation of the table is a function from the old table to the new.
 *
 * Identity keys are opaque byte strings. The table matches keys by comparing
 * their Base64 text; the encoding is injective, so that comparison is byte
 * equality here, and a stored key text is empty exactly when the key is.
 */
module IdentityStore {
  import opened Verification

  datatype Option<+T> = None | Some(value: T)

  newtype byte = x: int | 0 <= x < 0x100
  type Bytes = seq<byte>

  /** A Kotlin `Long`: timestamps and recipient ids. */
  newtype int64 = x: int | -0x8000_0000_0000_0000 <= x < 0x8000_0000_0000_0000

  datatype RecipientId = RecipientId(id: int64)

  /** One row of the table, column by column; the address is its map key. */
  datatype Row = Row(
    identityKey: Bytes,
    firstUse: bool,
    timestamp: int64,
    verified: int,
    nonblockingApproval: bool,
    peerExtraPublicKey: Option<Bytes>)

  /** What a lookup by address returns. */
  datatype IdentityStoreRecord = IdentityStoreRecord(
    addressName: string,
    identityKey: Bytes,
    verifiedStatus: VerifiedStatus,
    firstUse: bool,
    timestamp: int64,
    nonblockingApproval: bool,
    peerExtraPublicKey: Option<Bytes>)

  /**
   * The recipient an event names: the caller's recipient id, or the one the
   * recipient table derives from a stored address when a row is re-read.
   */
  datatype Subject = Caller(id: RecipientId) | OwnerOf(address: string)

  /** The record posted on the event bus. */
  datatype IdentityRecord = IdentityRecord(
    recipient: Subject,
    identityKey: Bytes,
    verifiedStatus: VerifiedStatus,
    firstUse: bool,
    timestamp: int64,
    nonblockingApproval: bool,
    peerExtraPublicKey: Option<Bytes>)

  /** The side effects the table fires, in the order it fires them. */
  datatype Effect =
    | Posted(record: IdentityRecord)            // event bus post
    | NeedsSync(recipient: RecipientId)         // recipient marked as needing a storage-sync push
    | SyncScheduled                             // storage sync scheduled for a data change
    | SessionInvalidated(address: string)       // cached protocol-store identity invalidated
    | IdentityUpdateMarked(recipient: RecipientId)  // user-visible "safety number changed"

  datatype Table = Table(rows: map<string, Row>, effects: seq<Effect>)

  /**
   * The recipient directory the table consults: the recipient owning a
   * service id, each recipient's service id and phone number (E164), and
   * the test for a UUID-shaped string.
   */
  datatype Directory = Directory(
    isUuid: string -> bool,
    recipientByServiceId: map<string, RecipientId>,
    serviceIdOf: map<RecipientId, string>,
    e164Of: map<RecipientId, string>)

  /** Every stored status code decodes; every write keeps this so. */
  predicate WellFormed(rows: map<string, Row>)
  {
    forall a | a in rows :: 0 <= rows[a].verified <= 2
  }

  function StatusOf(row: Row): VerifiedStatus
    requires 0 <= row.verified <= 2
  {
    ForState(row.verified).status
  }

  function StoreRecordOf(address: string, row: Row): IdentityStoreRecord
    requires 0 <= row.verified <= 2
  {
    IdentityStoreRecord(address, row.identityKey, StatusOf(row), row.firstUse,
                        row.timestamp, row.nonblockingApproval, row.peerExtraPublicKey)
  }

  /** The record a re-read of a stored row yields; its status is the one the stored code encodes. */
  function IdentityRecordOf(who: Subject, row: Row): (r: IdentityRecord)
    requires 0 <= row.verified <= 2
    ensures ToInt(r.verifiedStatus) == row.verified
    ensures r == IdentityRecord(who, row.identityKey, r.verifiedStatus, row.firstUse,
                                row.timestamp, row.nonblockingApproval, row.peerExtraPublicKey)
  {
    IdentityRecord(who, row.identityKey, StatusOf(row), row.firstUse,
                   row.timestamp, row.nonblockingApproval, row.peerExtraPublicKey)
  }

  /** The row stored under exactly this address, decoded. */
  function Stored(rows: map<string, Row>, address: string): Option<IdentityStoreRecord>
    requires WellFormed(rows)
  {
    if address in rows then Some(StoreRecordOf(address, rows[address])) else None
  }

  /** A row exists for the address and holds this key. */
  predicate HasMatchingKey(rows: map<string, Row>, address: string, key: Bytes)
  {
    address in rows && rows[address].identityKey == key
  }

  /** A row exists for the address, holds this key and this status. */
  predicate HasMatchingStatus(rows: map<string, Row>, address: string, key: Bytes, status: VerifiedStatus)
  {
    HasMatchingKey(rows, address, key) && rows[address].verified == ToInt(status)
  }

  /**
   * The key-existence query reads the stored key: it holds exactly when the
   * address has a row whose key is byte-equal to the given one.
   */
  lemma MatchingKeyReadsStoredKey(rows: map<string, Row>, address: string, key: Bytes)
    requires WellFormed(rows)
    ensures HasMatchingKey(rows, address, key) <==>
              Stored(rows, address).Some? && Stored(rows, address).value.identityKey == key
  {
  }

  /**
   * The status-existence query compares stored codes, yet agrees with the
   * decoded status: it holds exactly when the address's row holds this key
   * and decodes to this status.
   */
  lemma MatchingStatusReadsStoredStatus(rows: map<string, Row>, address: string, key: Bytes,
                                        status: VerifiedStatus)
    requires WellFormed(rows)
    ensures HasMatchingStatus(rows, address, key, status) <==>
              && Stored(rows, address).Some?
              && Stored(rows, address).value.identityKey == key
              && Stored(rows, address).value.verifiedStatus == status
  {
    if address in rows && rows[address].identityKey == key {
      StatusCodecRoundTrip(status, StatusOf(rows[address]));
    }
  }

  /**
   * The phone-number address a lookup by a UUID-shaped address retries with:
   * that of the recipient owning the service id, unless it is UUID-shaped too.
   */
  function LegacyFallback(dir: Directory, address: string): (e164: Option<string>)
    ensures e164.Some? ==> dir.isUuid(address) && !dir.isUuid(e164.value)
  {
    if dir.isUuid(address) && address in dir.recipientByServiceId then
      var recipient := dir.recipientByServiceId[address];
      if recipient in dir.e164Of && !dir.isUuid(dir.e164Of[recipient]) then Some(dir.e164Of[recipient])
      else None
    else None
  }

  /**
   * Looks an address up; a UUID-shaped address without a row falls back to its
   * recipient's phone number, once: that number is not UUID-shaped, so the
   * retry cannot fall back again.
   */
  function Lookup(rows: map<string, Row>, dir: Directory, address: string): (r: Option<IdentityStoreRecord>)
    requires WellFormed(rows)
    ensures address in rows ==> r == Stored(rows, address)
    ensures address !in rows ==>
              r == (match LegacyFallback(dir, address)
                    case Some(e164) => Stored(rows, e164)
                    case None => None)
    ensures r.Some? ==> r.value.addressName in rows
    decreases if dir.isUuid(address) then 1 else 0
  {
    if address in rows then
      Some(StoreRecordOf(address, rows[address]))
    else if dir.isUuid(address) then
      if address in dir.recipientByServiceId then
        var recipient := dir.recipientByServiceId[address];
        if recipient in dir.e164Of && !dir.isUuid(dir.e164Of[recipient]) then
          Lookup(rows, dir, dir.e164Of[recipient])
        else
          None
      else
        None
    else
      None
  }

  /**
   * Replaces the address's row with one holding exactly the given values and
   * posts the saved record.
   */
  function SaveIdentityInternal(t: Table, address: string, recipient: RecipientId, key: Bytes,
                                status: VerifiedStatus, firstUse: bool, timestamp: int64,
                                approval: bool, extraKey: Option<Bytes>): (r: Table)
    requires WellFormed(t.rows)
    ensures WellFormed(r.rows)
    ensures Stored(r.rows, address) ==
              Some(IdentityStoreRecord(address, key, status, firstUse, timestamp, approval, extraKey))
    ensures r.rows - {address} == t.rows - {address}
    ensures r.effects ==
              t.effects + [Posted(IdentityRecord(Caller(recipient), key, status, firstUse, timestamp, approval, extraKey))]
  {
    Table(t.rows[address := Row(key, firstUse, timestamp, ToInt(status), approval, extraKey)],
          t.effects + [Posted(IdentityRecord(Caller(recipient), key, status, firstUse, timestamp, approval, extraKey))])
  }

  /** Unconditional upsert, then the recipient is marked for sync and a sync is scheduled. */
  function SaveIdentity(t: Table, address: string, recipient: RecipientId, key: Bytes,
                        status: VerifiedStatus, firstUse: bool, timestamp: int64,
                        approval: bool, extraKey: Option<Bytes>): (r: Table)
    requires WellFormed(t.rows)
    ensures WellFormed(r.rows)
    ensures Stored(r.rows, address) ==
              Some(IdentityStoreRecord(address, key, status, firstUse, timestamp, approval, extraKey))
    ensures r.rows - {address} == t.rows - {address}
    ensures r.effects ==
              t.effects + [Posted(IdentityRecord(Caller(recipient), key, status, firstUse, timestamp, approval, extraKey)),
                           NeedsSync(recipient), SyncScheduled]
  {
    var saved := SaveIdentityInternal(t, address, recipient, key, status, firstUse, timestamp, approval, extraKey);
    Table(saved.rows, saved.effects + [NeedsSync(recipient), SyncScheduled])
  }

  /**
   * Sets the approval flag of an existing row; with no row nothing changes and
   * no sync effect fires.
   */
  function SetApproval(t: Table, address: string, recipient: RecipientId, approval: bool): (r: Table)
    requires WellFormed(t.rows)
    ensures WellFormed(r.rows)
    ensures address !in t.rows ==> r == t
    ensures address in t.rows ==>
              && Stored(r.rows, address) == Some(Stored(t.rows, address).value.(nonblockingApproval := approval))
              && r.effects == t.effects + [NeedsSync(recipient), SyncScheduled]
    ensures r.rows - {address} == t.rows - {address}
  {
    if address in t.rows then
      Table(t.rows[address := t.rows[address].(nonblockingApproval := approval)],
            t.effects + [NeedsSync(recipient), SyncScheduled])
    else
      t
  }

  /**
   * Compare-and-set of the status: only a row holding exactly the given key is
   * updated; on a missing row or a stale key nothing changes and nothing fires.
   */
  function SetVerified(t: Table, address: string, recipient: RecipientId, key: Bytes,
                       status: VerifiedStatus): (r: Table)
    requires WellFormed(t.rows)
    ensures WellFormed(r.rows)
    ensures !HasMatchingKey(t.rows, address, key) ==> r == t
    ensures HasMatchingKey(t.rows, address, key) ==>
              && Stored(r.rows, address) == Some(Stored(t.rows, address).value.(verifiedStatus := status))
              && r.effects == t.effects + [Posted(IdentityRecordOf(OwnerOf(address), r.rows[address])),
                                           NeedsSync(recipient), SyncScheduled]
    ensures r.rows - {address} == t.rows - {address}
  {
    if HasMatchingKey(t.rows, address, key) then
      var rows := t.rows[address := t.rows[address].(verified := ToInt(status))];
      Table(rows, t.effects + [Posted(IdentityRecordOf(OwnerOf(address), rows[address])),
                               NeedsSync(recipient), SyncScheduled])
    else
      t
  }

  /** The stored row already agrees with a sync report: same key, same status, no extra key. */
  predicate InSync(rows: map<string, Row>, address: string, key: Bytes, status: VerifiedStatus)
  {
    HasMatchingStatus(rows, address, key, status) && rows[address].peerExtraPublicKey.None?
  }

  /** A row existed for the address and held a different key. */
  predicate KeyChanged(rows: map<string, Row>, address: string, key: Bytes)
  {
    address in rows && rows[address].identityKey != key
  }

  /**
   * Reconciles the row with a report from storage sync. Unless the row is
   * already in sync, it is rewritten (first use iff there was no row, stamped
   * now, approved, extra key cleared), the new record is posted and the
   * session is invalidated; the identity-changed notification fires when a
   * prior row held a different key.
   */
  function UpdateIdentityAfterSync(t: Table, address: string, recipient: RecipientId, key: Bytes,
                                   status: VerifiedStatus, now: int64): (r: Table)
    requires WellFormed(t.rows)
    ensures WellFormed(r.rows)
    ensures r == t <==> InSync(t.rows, address, key, status)
    ensures !InSync(t.rows, address, key, status) ==>
              && Stored(r.rows, address) ==
                   Some(IdentityStoreRecord(address, key, status, address !in t.rows, now, true, None))
              && r.rows - {address} == t.rows - {address}
              && r.effects ==
                   t.effects
                   + [Posted(IdentityRecord(Caller(recipient), key, status, address !in t.rows, now, true, None)),
                      Posted(IdentityRecord(OwnerOf(address), key, status, address !in t.rows, now, true, None)),
                      SessionInvalidated(address)]
                   + (if KeyChanged(t.rows, address, key) then [IdentityUpdateMarked(recipient)] else [])
  {
    var hadEntry := address in t.rows;
    var keyMatches := HasMatchingKey(t.rows, address, key);
    var statusMatches := keyMatches && HasMatchingStatus(t.rows, address, key, status);
    var extraKeyMatches := hadEntry && t.rows[address].peerExtraPublicKey.None?;
    var written :=
      if !keyMatches || !statusMatches || !extraKeyMatches then
        var saved := SaveIdentityInternal(t, address, recipient, key, status, !hadEntry, now, true, None);
        Table(saved.rows, saved.effects + [Posted(IdentityRecordOf(OwnerOf(address), saved.rows[address])),
                                           SessionInvalidated(address)])
      else
        t;
    if hadEntry && !keyMatches then
      Table(written.rows, written.effects + [IdentityUpdateMarked(recipient)])
    else
      written
  }

  /** Removes the address's row; nothing else changes and nothing fires. */
  function Delete(t: Table, address: string): (r: Table)
    requires WellFormed(t.rows)
    ensures WellFormed(r.rows)
    ensures Stored(r.rows, address) == None
    ensures r.rows - {address} == t.rows - {address}
    ensures r.effects == t.effects
  {
    Table(t.rows - {address}, t.effects)
  }

  /**
   * Attaches an extra public key to an existing row with a non-empty key,
   * keeping key, status, first use and approval and stamping it now. Never
   * creates a row.
   */
  function SaveExtraLockKey(t: Table, recipient: RecipientId, address: string, extraKey: Bytes,
                            now: int64): (r: Table)
    requires WellFormed(t.rows)
    ensures WellFormed(r.rows)
    ensures r.rows.Keys == t.rows.Keys
    ensures address !in t.rows || t.rows[address].identityKey == [] ==> r == t
    ensures address in t.rows && t.rows[address].identityKey != [] ==>
              var prior := Stored(t.rows, address).value;
              && Stored(r.rows, address) == Some(prior.(timestamp := now, peerExtraPublicKey := Some(extraKey)))
              && r.rows - {address} == t.rows - {address}
              && r.effects ==
                   t.effects + [Posted(IdentityRecord(Caller(recipient), prior.identityKey, prior.verifiedStatus,
                                                      prior.firstUse, now, prior.nonblockingApproval, Some(extraKey)))]
  {
    if address in t.rows then
      var row := t.rows[address];
      if row.identityKey == [] then
        t
      else
        SaveIdentityInternal(t, address, recipient, row.identityKey, StatusOf(row), row.firstUse,
                             now, row.nonblockingApproval, Some(extraKey))
    else
      t
  }

  /** The address of a recipient: its service id, else its phone number. */
  function AddressFor(dir: Directory, recipient: RecipientId): (address: Option<string>)
    ensures address.Some? <==> recipient in dir.serviceIdOf || recipient in dir.e164Of
    ensures recipient in dir.serviceIdOf ==> address == Some(dir.serviceIdOf[recipient])
    ensures recipient !in dir.serviceIdOf && recipient in dir.e164Of ==> address == Some(dir.e164Of[recipient])
  {
    if recipient in dir.serviceIdOf then Some(dir.serviceIdOf[recipient])
    else if recipient in dir.e164Of then Some(dir.e164Of[recipient])
    else None
  }

  /**
   * The extra public key stored for a recipient: none when the recipient has
   * no address, its address has no row, or the row holds no extra key.
   */
  function ExtraPublicKey(rows: map<string, Row>, dir: Directory, recipient: RecipientId): (r: Option<Bytes>)
    ensures r.Some? ==>
              && AddressFor(dir, recipient).Some?
              && AddressFor(dir, recipient).value in rows
              && rows[AddressFor(dir, recipient).value].peerExtraPublicKey == r
    ensures AddressFor(dir, recipient).Some? && AddressFor(dir, recipient).value in rows ==>
              r == rows[AddressFor(dir, recipient).value].peerExtraPublicKey
  {
    match AddressFor(dir, recipient)
    case None => None
    case Some(address) => if address in rows then rows[address].peerExtraPublicKey else None
  }
}
