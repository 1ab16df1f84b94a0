/**
 * Sequences of table operations. Replaying any sequence keeps every stored
 * status decodable; without saves a row only appears through sync; and a key
 * replaced under an existing row by anything but an explicit save or delete
 * is always reported to the user.
 */
module IdentityTraces {
  import opened Verification
  import opened IdentityStore

  /** One mutating call on the table, with its arguments. */
  datatype Op =
    | Save(address: string, recipient: RecipientId, key: Bytes, status: VerifiedStatus,
           firstUse: bool, timestamp: int64, approval: bool, extraKey: Option<Bytes>)
    | Approve(address: string, recipient: RecipientId, approval: bool)
    | Verify(address: string, recipient: RecipientId, key: Bytes, status: VerifiedStatus)
    | Sync(address: string, recipient: RecipientId, key: Bytes, status: VerifiedStatus, now: int64)
    | Remove(address: string)
    | AttachExtraKey(recipient: RecipientId, address: string, lockKey: Bytes, now: int64)

  function Apply(t: Table, op: Op): (r: Table)
    requires WellFormed(t.rows)
    ensures WellFormed(r.rows)
    ensures t.effects <= r.effects
    ensures !op.Remove? ==> t.rows.Keys <= r.rows.Keys
    ensures !op.Save? && !op.Sync? ==> r.rows.Keys <= t.rows.Keys
  {
    match op
    case Save(a, who, k, s, f, ts, ap, x) => SaveIdentity(t, a, who, k, s, f, ts, ap, x)
    case Approve(a, who, ap) => SetApproval(t, a, who, ap)
    case Verify(a, who, k, s) => SetVerified(t, a, who, k, s)
    case Sync(a, who, k, s, now) => UpdateIdentityAfterSync(t, a, who, k, s, now)
    case Remove(a) => Delete(t, a)
    case AttachExtraKey(who, a, x, now) => SaveExtraLockKey(t, who, a, x, now)
  }

  /**
   * The table after the operations, in order. Every intermediate table is
   * well formed, so no read ever meets an undecodable status code.
   */
  function Replay(t: Table, ops: seq<Op>): (r: Table)
    requires WellFormed(t.rows)
    ensures WellFormed(r.rows)
    ensures t.effects <= r.effects
    decreases |ops|
  {
    if ops == [] then t else Replay(Apply(t, ops[0]), ops[1..])
  }

  /** The session for the address was invalidated and the identity change reported right after. */
  ghost predicate KeyChangeReported(effects: seq<Effect>, from: nat, address: string)
  {
    exists i | from <= i && i + 1 < |effects| ::
      effects[i] == SessionInvalidated(address) && effects[i + 1].IdentityUpdateMarked?
  }

  /**
   * A single sync that replaces an existing row's key ends its effects by
   * invalidating the address's session and then notifying the caller's recipient.
   */
  lemma SyncReportsKeyChange(t: Table, address: string, recipient: RecipientId, key: Bytes,
                             status: VerifiedStatus, now: int64)
    requires WellFormed(t.rows)
    requires KeyChanged(t.rows, address, key)
    ensures var r := UpdateIdentityAfterSync(t, address, recipient, key, status, now);
            && |r.effects| == |t.effects| + 4
            && r.effects[|t.effects| + 2..] == [SessionInvalidated(address), IdentityUpdateMarked(recipient)]
            && KeyChangeReported(r.effects, |t.effects|, address)
  {
    var r := UpdateIdentityAfterSync(t, address, recipient, key, status, now);
    var i := |t.effects| + 2;
    assert r.effects[i] == SessionInvalidated(address);
    assert r.effects[i + 1] == IdentityUpdateMarked(recipient);
  }

  /**
   * Setting approval, setting the status, attaching an extra key or a sync for
   * another address keeps a row and its key.
   */
  lemma KeyKeptByOtherUpdates(t: Table, op: Op, address: string)
    requires WellFormed(t.rows)
    requires !op.Save? && !op.Remove? && (op.Sync? ==> op.address != address)
    requires address in t.rows
    ensures address in Apply(t, op).rows
    ensures Apply(t, op).rows[address].identityKey == t.rows[address].identityKey
  {
    var r := Apply(t, op);
    if op.address != address {
      assert r.rows[address] == (r.rows - {op.address})[address];
    } else {
      assert Stored(r.rows, address).value.identityKey == Stored(t.rows, address).value.identityKey;
    }
  }

  /** One operation other than a save or a delete keeps the row, and reports any change of its key. */
  lemma StepKeepsRowOrReports(t: Table, op: Op, address: string)
    requires WellFormed(t.rows)
    requires !op.Save? && !op.Remove?
    requires address in t.rows
    ensures address in Apply(t, op).rows
    ensures Apply(t, op).rows[address].identityKey != t.rows[address].identityKey ==>
              KeyChangeReported(Apply(t, op).effects, |t.effects|, address)
  {
    if op.Sync? && op.address == address {
      if KeyChanged(t.rows, address, op.key) {
        SyncReportsKeyChange(t, address, op.recipient, op.key, op.status, op.now);
      }
    } else {
      KeyKeptByOtherUpdates(t, op, address);
    }
  }

  /** A report among the effects from some point on stays there as more effects are appended. */
  lemma ReportSurvives(effects: seq<Effect>, more: seq<Effect>, from: nat, later: nat, address: string)
    requires effects <= more && from <= later
    requires KeyChangeReported(effects, later, address)
    ensures KeyChangeReported(more, from, address)
  {
    var i :| later <= i && i + 1 < |effects| &&
             effects[i] == SessionInvalidated(address) && effects[i + 1].IdentityUpdateMarked?;
    assert more[i] == effects[i] && more[i + 1] == effects[i + 1];
  }

  /**
   * Over any operations other than explicit saves and deletes, a row is never
   * lost, and if its key ends up different the change was reported.
   */
  lemma {:induction false} KeyChangeNeverSilent(t: Table, ops: seq<Op>, address: string)
    requires WellFormed(t.rows)
    requires forall i | 0 <= i < |ops| :: !ops[i].Save? && !ops[i].Remove?
    requires address in t.rows
    ensures address in Replay(t, ops).rows
    ensures Replay(t, ops).rows[address].identityKey != t.rows[address].identityKey ==>
              KeyChangeReported(Replay(t, ops).effects, |t.effects|, address)
    decreases |ops|
  {
    if ops != [] {
      var next := Apply(t, ops[0]);
      StepKeepsRowOrReports(t, ops[0], address);
      KeyChangeNeverSilent(next, ops[1..], address);
      var r := Replay(next, ops[1..]);
      assert r == Replay(t, ops);
      if r.rows[address].identityKey != t.rows[address].identityKey {
        if next.rows[address].identityKey == t.rows[address].identityKey {
          ReportSurvives(r.effects, r.effects, |t.effects|, |next.effects|, address);
        } else {
          ReportSurvives(next.effects, r.effects, |t.effects|, |t.effects|, address);
        }
      }
    }
  }

  /** Without saves, rows only ever appear through sync: attaching an extra key never creates one. */
  lemma {:induction false} OnlySyncCreatesRows(t: Table, ops: seq<Op>)
    requires WellFormed(t.rows)
    requires forall i | 0 <= i < |ops| :: !ops[i].Save?
    ensures Replay(t, ops).rows.Keys <= t.rows.Keys + (set i | 0 <= i < |ops| && ops[i].Sync? :: ops[i].address)
    decreases |ops|
  {
    if ops != [] {
      var next := Apply(t, ops[0]);
      OnlySyncCreatesRows(next, ops[1..]);
      var synced := set i | 0 <= i < |ops| && ops[i].Sync? :: ops[i].address;
      var syncedLater := set i | 0 <= i < |ops[1..]| && ops[1..][i].Sync? :: ops[1..][i].address;
      assert syncedLater <= synced by {
        forall a | a in syncedLater ensures a in synced {
          var i :| 0 <= i < |ops[1..]| && ops[1..][i].Sync? && ops[1..][i].address == a;
          assert ops[i + 1] == ops[1..][i];
        }
      }
      if ops[0].Sync? {
        assert ops[0].address in synced;
        assert next.rows.Keys <= t.rows.Keys + {ops[0].address};
      }
    }
  }
}
