/**
 * The identities table as the application holds it: one object whose `rows`
 * map its methods update in place, with the side effects they fire recorded
 * in order in a ghost log. Each method is proved to leave exactly the table
 * that the matching function of IdentityStore describes.
 */
module Database {
  import opened Verification
  import opened IdentityStore

  class IdentityTable {
    var rows: map<string, Row>
    ghost var effects: seq<Effect>

    ghost predicate Valid()
      reads this
    {
      WellFormed(rows)
    }

    ghost function State(): Table
      reads this
    {
      Table(rows, effects)
    }

    constructor ()
      ensures Valid() && rows == map[] && effects == []
    {
      rows := map[];
      effects := [];
    }

    /** Lookup by service id; no service id finds nothing. */
    method GetIdentityStoreRecordByServiceId(serviceId: Option<string>, dir: Directory)
      returns (r: Option<IdentityStoreRecord>)
      requires Valid()
      ensures serviceId.None? ==> r == None
      ensures serviceId.Some? ==> r == Lookup(rows, dir, serviceId.value)
    {
      if serviceId.Some? {
        r := GetIdentityStoreRecord(serviceId.value, dir);
      } else {
        r := None;
      }
    }

    /** Lookup by address, retrying a UUID-shaped address once under its recipient's phone number. */
    method GetIdentityStoreRecord(address: string, dir: Directory) returns (r: Option<IdentityStoreRecord>)
      requires Valid()
      ensures r == Lookup(rows, dir, address)
      decreases if dir.isUuid(address) then 1 else 0
    {
      if address in rows {
        r := Some(StoreRecordOf(address, rows[address]));
      } else if dir.isUuid(address) {
        if address in dir.recipientByServiceId {
          var recipient := dir.recipientByServiceId[address];
          if recipient in dir.e164Of && !dir.isUuid(dir.e164Of[recipient]) {
            r := GetIdentityStoreRecord(dir.e164Of[recipient], dir);
          } else {
            r := None;
          }
        } else {
          r := None;
        }
      } else {
        r := None;
      }
    }

    method SaveIdentity(address: string, recipient: RecipientId, key: Bytes, status: VerifiedStatus,
                        firstUse: bool, timestamp: int64, approval: bool, extraKey: Option<Bytes>)
      requires Valid()
      modifies this
      ensures Valid()
      ensures State() == IdentityStore.SaveIdentity(old(State()), address, recipient, key, status,
                                                    firstUse, timestamp, approval, extraKey)
    {
      SaveIdentityInternal(address, recipient, key, status, firstUse, timestamp, approval, extraKey);
      effects := effects + [NeedsSync(recipient)];
      effects := effects + [SyncScheduled];
    }

    method SetApproval(address: string, recipient: RecipientId, approval: bool)
      requires Valid()
      modifies this
      ensures Valid()
      ensures State() == IdentityStore.SetApproval(old(State()), address, recipient, approval)
    {
      var updated := 0;
      if address in rows {
        rows := rows[address := rows[address].(nonblockingApproval := approval)];
        updated := 1;
      }
      if updated > 0 {
        effects := effects + [NeedsSync(recipient)];
        effects := effects + [SyncScheduled];
      }
    }

    method SetVerified(address: string, recipient: RecipientId, key: Bytes, status: VerifiedStatus)
      requires Valid()
      modifies this
      ensures Valid()
      ensures State() == IdentityStore.SetVerified(old(State()), address, recipient, key, status)
    {
      var updated := 0;
      if HasMatchingKey(rows, address, key) {
        rows := rows[address := rows[address].(verified := ToInt(status))];
        updated := 1;
      }
      if updated > 0 {
        var record := IdentityRecordOf(OwnerOf(address), rows[address]);
        effects := effects + [Posted(record)];
        effects := effects + [NeedsSync(recipient)];
        effects := effects + [SyncScheduled];
      }
    }

    method UpdateIdentityAfterSync(address: string, recipient: RecipientId, key: Bytes,
                                   status: VerifiedStatus, now: int64)
      requires Valid()
      modifies this
      ensures Valid()
      ensures State() == IdentityStore.UpdateIdentityAfterSync(old(State()), address, recipient, key, status, now)
    {
      var existing := if address in rows then Some(rows[address]) else None;
      var hadEntry := existing.Some?;
      var keyMatches := HasMatchingKey(rows, address, key);
      var statusMatches := keyMatches && HasMatchingStatus(rows, address, key, status);
      var extraKeyMatches := existing.Some? && existing.value.peerExtraPublicKey.None?;

      if !keyMatches || !statusMatches || !extraKeyMatches {
        SaveIdentityInternal(address, recipient, key, status, !hadEntry, now, true, None);
        var record := IdentityRecordOf(OwnerOf(address), rows[address]);
        effects := effects + [Posted(record)];
        effects := effects + [SessionInvalidated(address)];
      }

      if hadEntry && !keyMatches {
        effects := effects + [IdentityUpdateMarked(recipient)];
      }
    }

    method Delete(address: string)
      requires Valid()
      modifies this
      ensures Valid()
      ensures State() == IdentityStore.Delete(old(State()), address)
    {
      rows := rows - {address};
    }

    method SaveIdentityInternal(address: string, recipient: RecipientId, key: Bytes, status: VerifiedStatus,
                                firstUse: bool, timestamp: int64, approval: bool, extraKey: Option<Bytes>)
      requires Valid()
      modifies this
      ensures Valid()
      ensures State() == IdentityStore.SaveIdentityInternal(old(State()), address, recipient, key, status,
                                                            firstUse, timestamp, approval, extraKey)
    {
      rows := rows[address := Row(key, firstUse, timestamp, ToInt(status), approval, extraKey)];
      effects := effects + [Posted(IdentityRecord(Caller(recipient), key, status, firstUse, timestamp, approval, extraKey))];
    }

    method SaveExtraLockKey(recipient: RecipientId, address: string, extraKey: Bytes, now: int64)
      requires Valid()
      modifies this
      ensures Valid()
      ensures State() == IdentityStore.SaveExtraLockKey(old(State()), recipient, address, extraKey, now)
    {
      if address in rows {
        var row := rows[address];
        if row.identityKey != [] {
          SaveIdentityInternal(address, recipient, row.identityKey, StatusOf(row), row.firstUse,
                               now, row.nonblockingApproval, Some(extraKey));
        }
      }
    }

    /** The extra public key stored under the recipient's service id, else its phone number. */
    method GetExtraPublicKey(recipient: RecipientId, dir: Directory) returns (r: Option<Bytes>)
      ensures r == ExtraPublicKey(rows, dir, recipient)
    {
      match AddressFor(dir, recipient)
      case None =>
        return None;
      case Some(address) =>
        r := if address in rows then rows[address].peerExtraPublicKey else None;
    }
  }
}
