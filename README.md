# Identity trust store

A Dafny model of the messaging client's identities table (`IdentityTable.kt`).
The table stores, for each peer address, the peer's long-term identity key and
the trust decisions made about it:

- the verification status (`DEFAULT`, `VERIFIED`, `UNVERIFIED`, stored as 0, 1, 2);
- whether the row was written on first use;
- a timestamp;
- the non-blocking approval flag;
- an optional "extra lock" public key.

The `address` column is unique and writes replace the row, so the table is a
finite map from address to row with upsert semantics. The mutating operations
other than delete fire some of these side effects, always in this relative
order: event-bus posts, a "needs sync" mark on the recipient, a storage-sync
schedule, a session invalidation, and the user-visible "identity changed"
notification. Delete and the two reads fire nothing, and setting the approval
flag posts no event. The model records the effects in an ordered log, so
contracts can say exactly which effects each call fires.

Files:

- `verification.dfy` (module `Verification`): the status enum and its integer codec.
- `identity_store.dfy` (module `IdentityStore`): the table as a value (`Table` = rows map + effect log). It has one function per table operation and the lookup with its phone-number fallback.
- `identity_properties.dfy` (module `IdentityProperties`): properties relating several calls. These are read-back after save, sync idempotence, effect counts, the extra-key round trip and a worked life cycle.
- `identity_traces.dfy` (module `IdentityTraces`): arbitrary sequences of operations. It proves that stored status codes always decode, that sync key changes are never silent, and that only sync creates rows when there are no saves.
- `database.dfy` (module `Database`): class `IdentityTable`, with a `rows` map its methods update in place and a ghost `effects` log. Each method is proved to produce exactly the table described by the matching `IdentityStore` function.

Assumptions:

- Identity keys are opaque byte strings. The source matches keys with SQL text equality on their padded Base64 encoding. That encoding is injective, so the model compares bytes. A stored key text is empty exactly when the key bytes are empty.
- "Now" (`System.currentTimeMillis()`) is a parameter.
- Helpers without a row of their own: `StatusOf`, `StoreRecordOf` and `Stored` decode a row as the select at `IdentityTable.kt:90-99` does; `InSync` and `KeyChanged` name the two conditions of the sync.
- The recipient directory is a `Directory` value. It holds the UUID test and the maps behind `getByServiceId`, the recipient's E164, and `getServiceId`/`getE164`.

Behaviour of the code that is easy to miss:

- A sync that rewrites a row posts two events: `saveIdentityInternal` posts the saved record, then `updateIdentityAfterSync` posts the re-read row. Repeating the same sync right away still adds nothing (`SyncTwiceIsNoOp`).
- `setVerified` fires its event and sync effects whenever a row with the given key exists, even if the status is unchanged. This is because the SQL update counts matched rows.
- `saveExtraLockKey` posts an event but does not mark the recipient for sync or schedule a sync.

## Model

| member | source | states |
|---|---|---|
| `Verification.ToInt` | app/src/main/java/org/thoughtcrime/securesms/database/IdentityTable.kt:318-324 | every status is stored as a code in 0..2 |
| `Verification.ForState` | app/src/main/java/org/thoughtcrime/securesms/database/IdentityTable.kt:328-335 | decoding succeeds exactly on 0, 1, 2 and then inverts `ToInt`; any other code gives the "No such state" failure carrying that code |
| `Verification.StatusCodecRoundTrip` | app/src/main/java/org/thoughtcrime/securesms/database/IdentityTable.kt:313-336 | `forState(toInt(s)) == s` for each status, and `toInt` is injective |
| `IdentityStore.IdentityRecordOf` | app/src/main/java/org/thoughtcrime/securesms/database/IdentityTable.kt:197-215 | a re-read row yields a record with the stored key, first use, timestamp, approval and extra key, and the status whose code is the stored one |
| `IdentityStore.MatchingKeyReadsStoredKey` | app/src/main/java/org/thoughtcrime/securesms/database/IdentityTable.kt:217-222 | the key-existence query (`HasMatchingKey`) holds exactly when the address has a row whose key is byte-equal to the given one; byte equality stands for the SQL match on Base64 text, an injective encoding |
| `IdentityStore.MatchingStatusReadsStoredStatus` | app/src/main/java/org/thoughtcrime/securesms/database/IdentityTable.kt:224-229 | the status-existence query (`HasMatchingStatus`) compares the stored code with `ToInt(status)`, and holds exactly when the address's row holds the byte-equal key (Base64 text match, an injective encoding) and decodes to that status |
| `IdentityStore.LegacyFallback` | app/src/main/java/org/thoughtcrime/securesms/database/IdentityTable.kt:100-104 | a retry address exists only for a UUID-shaped address, and is never UUID-shaped itself, so the lookup cannot fall back twice |
| `IdentityStore.AddressFor` | app/src/main/java/org/thoughtcrime/securesms/database/IdentityTable.kt:296-301 | a recipient resolves to its service id when it has one, else to its E164, else to nothing |
| `IdentityStore.Lookup` | app/src/main/java/org/thoughtcrime/securesms/database/IdentityTable.kt:83-119 | returns the address's own row if there is one. Otherwise it retries once, only for a UUID-shaped address whose recipient has a non-UUID E164, and returns that number's row or nothing. Anything found is a stored row |
| `IdentityStore.SaveIdentityInternal` | app/src/main/java/org/thoughtcrime/securesms/database/IdentityTable.kt:231-252 | afterwards the address's row reads back as exactly the given key, status, first use, timestamp, approval and extra key. Other rows are unchanged, and one event carrying the caller's recipient and those values is posted |
| `IdentityStore.SaveIdentity` | app/src/main/java/org/thoughtcrime/securesms/database/IdentityTable.kt:121-134 | same row outcome as the internal save, with other rows unchanged. The effects are the event, then needs-sync for the recipient, then one sync schedule |
| `IdentityStore.SetApproval` | app/src/main/java/org/thoughtcrime/securesms/database/IdentityTable.kt:136-147 | with a row, only its approval flag changes, and needs-sync plus a sync schedule fire. Without a row, the table and the effects are unchanged |
| `IdentityStore.SetVerified` | app/src/main/java/org/thoughtcrime/securesms/database/IdentityTable.kt:149-164 | only a row holding exactly the given key gets the new status, and nothing else in it changes. It then fires the re-read event, needs-sync and a sync schedule. On a missing row or a stale key, nothing changes and nothing fires |
| `IdentityStore.UpdateIdentityAfterSync` | app/src/main/java/org/thoughtcrime/securesms/database/IdentityTable.kt:166-188 | the call is a no-op exactly when the row has the same key, the same status and no extra key. Otherwise it writes the row with first use = no prior row, timestamp = now, approved, and no extra key. Other rows are unchanged. The effects are the two posts, one session invalidation, and the identity-changed notification exactly when a prior row held a different key |
| `IdentityStore.Delete` | app/src/main/java/org/thoughtcrime/securesms/database/IdentityTable.kt:190-195 | the address has no row afterwards, other rows are unchanged, and no effect fires |
| `IdentityStore.SaveExtraLockKey` | app/src/main/java/org/thoughtcrime/securesms/database/IdentityTable.kt:254-293 | never adds or removes a row. With no row, or an empty stored key, nothing changes. Otherwise only the extra key (set to the argument) and the timestamp (set to now) change, and one event is posted |
| `IdentityStore.ExtraPublicKey` | app/src/main/java/org/thoughtcrime/securesms/database/IdentityTable.kt:295-311 | the result is present only when the recipient resolves to an address (service id first, else E164) that has a row holding an extra key, and it is then that key |
| `IdentityProperties.SaveThenLookup` | app/src/main/java/org/thoughtcrime/securesms/database/IdentityTable.kt:121-134 | a lookup right after a save returns the saved record field for field |
| `IdentityProperties.SyncTwiceIsNoOp` | app/src/main/java/org/thoughtcrime/securesms/database/IdentityTable.kt:166-188 | repeating a sync report right after any sync call, at any time, changes nothing and fires nothing |
| `IdentityProperties.SyncEffectCounts` | app/src/main/java/org/thoughtcrime/securesms/database/IdentityTable.kt:173-187 | a sync call adds exactly one identity-changed notification if a prior row held a different key, and none otherwise. It adds exactly one session invalidation if it writes, and none otherwise |
| `IdentityProperties.AttachThenReadExtraKey` | app/src/main/java/org/thoughtcrime/securesms/database/IdentityTable.kt:254-311 | after an extra key is attached to the row at the recipient's address, reading the recipient's extra key returns it |
| `IdentityProperties.SyncDropsExtraKey` | app/src/main/java/org/thoughtcrime/securesms/database/IdentityTable.kt:171-174 | a row holding an extra key is always rewritten by a sync, even one that agrees on key and status, and the extra key is then gone |
| `IdentityProperties.TrustLifeCycle` | app/src/main/java/org/thoughtcrime/securesms/database/IdentityTable.kt:121-188 | covers first-use save, verification with the key on file, and a sync with another key. The result keeps the sync's status, is no longer first use, and raises the identity-changed notification once, for the first time |
| `IdentityTraces.Apply` | app/src/main/java/org/thoughtcrime/securesms/database/IdentityTable.kt:121-293 | every mutating operation keeps stored codes decodable and only appends effects. Only delete removes rows, and only save and sync add them |
| `IdentityTraces.Replay` | app/src/main/java/org/thoughtcrime/securesms/database/IdentityTable.kt:241-250 | after any sequence of operations, every stored status code decodes, so the `forState` assertion error cannot be reached through this table's writes |
| `IdentityTraces.SyncReportsKeyChange` | app/src/main/java/org/thoughtcrime/securesms/database/IdentityTable.kt:181-187 | a sync that replaces an existing row's key ends its four new effects by invalidating the address's session and then notifying the caller's recipient |
| `IdentityTraces.KeyKeptByOtherUpdates` | app/src/main/java/org/thoughtcrime/securesms/database/IdentityTable.kt:136-164 | setting approval or status, attaching an extra key, or a sync for another address keeps a row and its key |
| `IdentityTraces.StepKeepsRowOrReports` | app/src/main/java/org/thoughtcrime/securesms/database/IdentityTable.kt:166-188 | one operation other than save or delete keeps the row and reports any change of its key |
| `IdentityTraces.KeyChangeNeverSilent` | app/src/main/java/org/thoughtcrime/securesms/database/IdentityTable.kt:184-187 | over any operations other than explicit saves and deletes, a row is never lost. If its key ends up different, an invalidation of its session followed by an identity-changed notification was recorded |
| `IdentityTraces.OnlySyncCreatesRows` | app/src/main/java/org/thoughtcrime/securesms/database/IdentityTable.kt:254-293 | without saves, every row at the end either existed at the start or was the target of a sync. Attaching an extra key never creates one |
| `Database.IdentityTable.GetIdentityStoreRecordByServiceId` | app/src/main/java/org/thoughtcrime/securesms/database/IdentityTable.kt:75-81 | no service id finds nothing; otherwise the result is the lookup of its string |
| `Database.IdentityTable.GetIdentityStoreRecord` | app/src/main/java/org/thoughtcrime/securesms/database/IdentityTable.kt:83-119 | the recursive read returns exactly what `IdentityStore.Lookup` specifies |
| `Database.IdentityTable.SaveIdentity` | app/src/main/java/org/thoughtcrime/securesms/database/IdentityTable.kt:121-134 | the new rows and effect log are those of `IdentityStore.SaveIdentity` on the old ones |
| `Database.IdentityTable.SetApproval` | app/src/main/java/org/thoughtcrime/securesms/database/IdentityTable.kt:136-147 | the new rows and effect log are those of `IdentityStore.SetApproval` on the old ones |
| `Database.IdentityTable.SetVerified` | app/src/main/java/org/thoughtcrime/securesms/database/IdentityTable.kt:149-164 | the new rows and effect log are those of `IdentityStore.SetVerified` on the old ones |
| `Database.IdentityTable.UpdateIdentityAfterSync` | app/src/main/java/org/thoughtcrime/securesms/database/IdentityTable.kt:166-188 | the new rows and effect log are those of `IdentityStore.UpdateIdentityAfterSync` on the old ones |
| `Database.IdentityTable.Delete` | app/src/main/java/org/thoughtcrime/securesms/database/IdentityTable.kt:190-195 | the new rows and effect log are those of `IdentityStore.Delete` on the old ones |
| `Database.IdentityTable.SaveIdentityInternal` | app/src/main/java/org/thoughtcrime/securesms/database/IdentityTable.kt:231-252 | the new rows and effect log are those of `IdentityStore.SaveIdentityInternal` on the old ones |
| `Database.IdentityTable.SaveExtraLockKey` | app/src/main/java/org/thoughtcrime/securesms/database/IdentityTable.kt:254-293 | the new rows and effect log are those of `IdentityStore.SaveExtraLockKey` on the old ones |
| `Database.IdentityTable.GetExtraPublicKey` | app/src/main/java/org/thoughtcrime/securesms/database/IdentityTable.kt:295-311 | returns exactly what `IdentityStore.ExtraPublicKey` specifies |

## Left out

- SQL builders, cursors and logging are not modelled. Event-bus delivery, `StorageSyncHelper`, the protocol store's `invalidate` and `IdentityUtil.markIdentityUpdate` appear only as entries in the effect log.
- Base64 and `IdentityKey` serialisation are library code and not modelled. Keys are opaque bytes and the stored encoding is assumed injective. Decoding corrupted stored key text, which throws in the source, is not modelled.
- The `forState` assertion error on an out-of-range stored status is reachable only through rows written by other code. Every write here stores `toInt(status)`, and `WellFormed` (proved preserved by `Replay`) keeps all codes in 0..2. The model's reads therefore require that invariant instead of modelling the crash.
- The `address` column is declared `INTEGER UNIQUE`. SQLite's numeric conversion of integer-looking text under that affinity is not modelled, so addresses compare as exact strings.
- The `_id` autoincrement column, and the fact that `replace` deletes and re-inserts the row, are not modelled. No operation here reads `_id`.
- The `record.isPresent` checks before posting a re-read row are not modelled as branches. A row is always present right after the replace or matching update in a sequential model, so the post is unconditional.
- Concurrency is not modelled. This includes the read-then-write window in `updateIdentityAfterSync` and concurrent `setVerified` calls. The model is sequential.
- `UuidUtil.isUuid`, `ServiceId.parseOrThrow`, `Recipient.resolved` and the recipient table are not part of this model. They are represented by the `Directory` parameter. `RecipientId.fromSidOrE164` on a re-read row is represented by the event subject `OwnerOf(address)`.
- Timestamps and recipient ids are 64-bit values (`int64`). No arithmetic is done on them.
