/**
 * Properties that relate several calls on the identities table: reading back
 * what was written, repeating a sync report, attaching and reading the extra
 * key, and the worked example of the trust life cycle.
 */
module IdentityProperties {
  import opened Verification
  import opened IdentityStore

  /** A saved identity is read back field for field, whatever the directory says. */
  lemma SaveThenLookup(t: Table, dir: Directory, address: string, recipient: RecipientId, key: Bytes,
                       status: VerifiedStatus, firstUse: bool, timestamp: int64, approval: bool,
                       extraKey: Option<Bytes>)
    requires WellFormed(t.rows)
    ensures var r := SaveIdentity(t, address, recipient, key, status, firstUse, timestamp, approval, extraKey);
            Lookup(r.rows, dir, address) ==
              Some(IdentityStoreRecord(address, key, status, firstUse, timestamp, approval, extraKey))
  {
  }

  /** A sync report repeated right after any sync call (at any later time) changes nothing and fires nothing. */
  lemma SyncTwiceIsNoOp(t: Table, address: string, recipient: RecipientId, key: Bytes,
                        status: VerifiedStatus, now: int64, later: int64)
    requires WellFormed(t.rows)
    ensures var once := UpdateIdentityAfterSync(t, address, recipient, key, status, now);
            UpdateIdentityAfterSync(once, address, recipient, key, status, later) == once
  {
    var once := UpdateIdentityAfterSync(t, address, recipient, key, status, now);
    if !InSync(t.rows, address, key, status) {
      assert once.rows[address] == Row(key, address !in t.rows, now, ToInt(status), true, None);
    }
    assert InSync(once.rows, address, key, status);
  }

  /** The new effects of a sync call, counted: one invalidation per write, one notification per key change. */
  lemma SyncEffectCounts(t: Table, address: string, recipient: RecipientId, key: Bytes,
                         status: VerifiedStatus, now: int64)
    requires WellFormed(t.rows)
    ensures var r := UpdateIdentityAfterSync(t, address, recipient, key, status, now);
            && |t.effects| <= |r.effects|
            && multiset(r.effects[|t.effects|..])[IdentityUpdateMarked(recipient)] ==
                 (if KeyChanged(t.rows, address, key) then 1 else 0)
            && multiset(r.effects[|t.effects|..])[SessionInvalidated(address)] ==
                 (if InSync(t.rows, address, key, status) then 0 else 1)
  {
    var r := UpdateIdentityAfterSync(t, address, recipient, key, status, now);
    if !InSync(t.rows, address, key, status) {
      var posted := [Posted(IdentityRecord(Caller(recipient), key, status, address !in t.rows, now, true, None)),
                     Posted(IdentityRecord(OwnerOf(address), key, status, address !in t.rows, now, true, None)),
                     SessionInvalidated(address)];
      var marked := if KeyChanged(t.rows, address, key) then [IdentityUpdateMarked(recipient)] else [];
      assert r.effects[|t.effects|..] == posted + marked;
      assert multiset(posted + marked) == multiset(posted) + multiset(marked);
    }
  }

  /** A key attached to a recipient's row is what a later read of the recipient's extra key returns. */
  lemma AttachThenReadExtraKey(t: Table, dir: Directory, recipient: RecipientId, address: string,
                               extraKey: Bytes, now: int64)
    requires WellFormed(t.rows)
    requires AddressFor(dir, recipient) == Some(address)
    requires address in t.rows && t.rows[address].identityKey != []
    ensures var r := SaveExtraLockKey(t, recipient, address, extraKey, now);
            ExtraPublicKey(r.rows, dir, recipient) == Some(extraKey)
  {
    var r := SaveExtraLockKey(t, recipient, address, extraKey, now);
    assert Stored(r.rows, address).value.peerExtraPublicKey == Some(extraKey);
  }

  /**
   * A row carrying an extra key is always rewritten by a sync report, even one
   * agreeing on key and status, and the extra key is then gone.
   */
  lemma SyncDropsExtraKey(t: Table, dir: Directory, recipient: RecipientId, address: string, key: Bytes,
                          status: VerifiedStatus, now: int64)
    requires WellFormed(t.rows)
    requires AddressFor(dir, recipient) == Some(address)
    requires address in t.rows && t.rows[address].peerExtraPublicKey.Some?
    ensures var r := UpdateIdentityAfterSync(t, address, recipient, key, status, now);
            r != t && ExtraPublicKey(r.rows, dir, recipient) == None
  {
    var r := UpdateIdentityAfterSync(t, address, recipient, key, status, now);
    assert Stored(r.rows, address).value.peerExtraPublicKey == None;
  }

  /**
   * The life cycle of one peer: saved on first use, verified with the key on
   * file, then a sync report with another key. The last step keeps the sync's
   * status, is no first use, and raises the identity-changed notification, for the first time, once.
   */
  lemma TrustLifeCycle(k1: Bytes, k2: Bytes, recipient: RecipientId, t0: int64, t1: int64)
    requires k1 != k2
    ensures var a := SaveIdentity(Table(map[], []), "user-A", recipient, k1, Default, true, t0, false, None);
            var b := SetVerified(a, "user-A", recipient, k1, Verified);
            var c := UpdateIdentityAfterSync(b, "user-A", recipient, k2, Default, t1);
            && Stored(a.rows, "user-A") == Some(IdentityStoreRecord("user-A", k1, Default, true, t0, false, None))
            && Stored(b.rows, "user-A").value.verifiedStatus == Verified
            && Stored(c.rows, "user-A") == Some(IdentityStoreRecord("user-A", k2, Default, false, t1, true, None))
            && IdentityUpdateMarked(recipient) !in b.effects
            && multiset(c.effects[|b.effects|..])[IdentityUpdateMarked(recipient)] == 1
  {
    var a := SaveIdentity(Table(map[], []), "user-A", recipient, k1, Default, true, t0, false, None);
    var b := SetVerified(a, "user-A", recipient, k1, Verified);
    assert HasMatchingKey(a.rows, "user-A", k1);
    assert KeyChanged(b.rows, "user-A", k2);
    SyncEffectCounts(b, "user-A", recipient, k2, Default, t1);
  }
}
