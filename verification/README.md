# Verification of the sync core

A Dafny model of the server that lets offline clients exchange field mutations, and proofs of
what the design relies on. One module per file:

| file | part of the system |
|---|---|
| `Hlc.dfy`, `ClockRuns.dfy` | hybrid logical clock stamps, their order, the two cursor predicates, the clock; runs of one clock and of a network of clocks |
| `Lww.dfy`, `Flatten.dfy` | last-write-wins merging and the flat snapshot |
| `OpLog.dfy` | the op-log table of one dataset, each SQL statement as a step, and the backend methods |
| `LogTheory.dfy`, `Snapshots.dfy`, `Convergence.dfy` | compaction seen by readers, snapshot rows and statement boundaries, eventual consistency |
| `Engine.dfy`, `SyncTheory.dfy`, `Protocol.dfy` | one sync request; what its answer gives a client; whole runs of a server and any number of clients |
| `Broadcast.dfy` | wake-up channels, and their calls interleaved |
| `Limiter.dfy`, `Devices.dfy` | the admin attempt limiter and the device-key life cycle |
| `Options.dfy` | a value that may be missing |

Code that updates state in place is a class with methods proved against a function or relation on
values; the theorems are about those. The calls the code makes to the outside are parameters:
physical time, random ids and secrets, and which database call fails (`Fault`, `Env`). int64 wrap of
the wall time is modelled.

What the theorems assume, and where it comes from:

- Ops of one cell do not tie (`TieFree`); delivery order needs distinct stamps overall. Clocks with
  distinct device ids supply both: `Protocol.ClockedIsRun` derives them, for every state of a run, from
  the pushed ops carrying stamps of a run of clocks. What ties do is stated exactly by
  `Lww.OrderIndependentIff`.
- An op id stands for one op, where a history is compared with the set of ops pushed.
- The physical clock is positive and clocks stay below the int64 limit, in the protocol runs. At the
  limit the clock wraps; `Hlc.TickAdvancesIff`, `Hlc.ReceiveAdvancesIff` and
  `ClockRuns.NoOverflowIff` say exactly when.
- Store methods are serialised. A compaction in a protocol run either completes or fails without
  stopping between archiving and the commit of the reactivation; every other stop is covered
  (`Protocol.SyncIsStepIff` says exactly which requests are steps of a run). Such a stop does lose the
  visible state, for good: `Snapshots.CompactBoundaries`, `Convergence.StrandedForever`.
- The flat snapshot keeps every cell when no doc id continues another one past a dot, and only then:
  `Flatten.LosslessIff`.
- Ops need not be well-stamped: an op at or below zero is invisible to a zero cursor, and the
  protocol counts it as late.

Where comments in the code say more than the code does, the model follows the code: `Tick` is not
strictly increasing at the limit; an op is commutative only without ties; `GetDelta` returns active
ops, not all ops; `Compact` flips rows back to active rather than inserting fresh ones; a client
behind the schema receives a snapshot and the incremental ops, not the snapshot alone; a replica
need not equal the server's state, because an op that enters the log at or below a cursor already
handed out is never sent to that client (`Protocol.ReplicaEqualsServerIff` is the exact condition);
the flat snapshot is not a lossless view of arbitrary doc ids.

`Channel.announced` is a proof-only field: the op ids in the log at the channel's last offer, so that the
contract of `Sync` fixes the order of commit and wake-up.

`crdt.Merge` and the private copy of it in the storage package are one method here, `Lww.Merge`,
and `Before` and `beforeHLC` are one predicate.

## Model

| member | source | states |
|---|---|---|
| Hlc.BeforeStrictTotalOrder | core/crdt/hlc.go:77-85 | `Before` is a strict total order on stamps, device id last |
| Hlc.BeforeIff | core/crdt/hlc.go:77-85 | `Before` compares wall time, then the counter, then device ids at their first difference |
| Hlc.CursorMeaning | storage/crsqlite/data.go:139-165 | a full cursor selects exactly the stamps after it, a partial one those with greater (wall, logical) |
| Hlc.CursorAdvance | storage/crsqlite/data.go:139-165 | moving a cursor to a stamp it selected never selects anything new, also when switching between the two predicates |
| Hlc.FromZeroIff | storage/crsqlite/data.go:153-164 | exactly which cursors never select an op a fresh client cannot see |
| Hlc.AdvanceLogicalWall | core/crdt/hlc.go:21-31 | the carry is adding one to wall·2^32+logical, wrapping only past the limit |
| Hlc.Clock.Tick | core/crdt/hlc.go:34-51 | on every branch the stamp is max(last+1, now·2^32) as one integer, wrapping at the limit |
| Hlc.Clock.Receive | core/crdt/hlc.go:54-74 | on all four branches and carries the stamp is max(last+1, remote+1, now·2^32) |
| Hlc.TickAdvancesIff | core/crdt/hlc.go:33-51 | a tick is after the previous stamp if and only if that stamp is not the int64/uint32 limit |
| Hlc.ReceiveAdvancesIff | core/crdt/hlc.go:53-74 | a receive is after both inputs if and only if neither is the limit |
| ClockRuns.ClosedForm | core/crdt/hlc.go:34-74 | after any sequence of calls the clock is the maximum of start+k and of each input plus the calls since, plus one for remote inputs |
| ClockRuns.NoOverflowIff | core/crdt/hlc.go:24-31 | the machine clock follows the unbounded formula through a run if and only if the final value fits |
| ClockRuns.DriftBound | core/crdt/hlc.go:34-74 | after k calls on inputs bounded by B the clock is between start+k and max(start, B)+k |
| ClockRuns.RunExtendsIff | core/crdt/hlc.go:34-74 | a run of a network of clocks goes on exactly by what Tick or Receive of the calling clock returns, short of the limit, and only that clock's held stamp changes |
| ClockRuns.HappenedBeforeImpliesBefore | core/crdt/hlc.go:34-85 | clock condition: in any run of clocks exchanging stamps, happened-before implies `Before` |
| ClockRuns.StampsDistinct | core/crdt/hlc.go:34-74 | no stamp is issued twice anywhere in a run, and every stamp is above zero |
| Lww.Merge | core/crdt/merge.go:7-29 | the nested-map loop returns exactly the cells and values of the last-write-wins fold, with no empty doc |
| Lww.MergedIsWinnerMap | core/crdt/merge.go:11-19 | the fold holds, for every cell that occurs, an op of that cell that no op of the cell is after |
| Lww.FirstLatestWins | core/crdt/merge.go:16 | of the ops of a cell with the latest stamp merging keeps the first |
| Lww.OrderIndependentIff | core/crdt/merge.go:5-29 | merging a set of ops is independent of order and duplicates if and only if no cell's top stamp is tied |
| Lww.MergedIsWinners | core/crdt/merge.go:5-19 | tie-free ops in any order, with repeats, merge to the state of their set |
| Lww.FoldAppend | core/crdt/merge.go:11-19 | merge(A++B) = join(merge A, merge B), ties included; merging may be resumed |
| Lww.JoinWinners | core/crdt/merge.go:5-19 | joining states is taking the union of the ops behind them |
| Flatten.SplitInvertsIff | storage/crsqlite/backend.go:96-102 | splitting a flat key at its first dot gives back doc and field if and only if the doc id has no dot |
| Flatten.SharedKeyIff | storage/crsqlite/backend.go:99 | cells of two docs can share a key if and only if one doc id followed by a dot is a prefix of the other |
| Flatten.AloneIff | storage/crsqlite/backend.go:99 | a cell shares its key with no other cell at all if and only if neither its doc id nor its field path has a dot |
| Flatten.LosslessIff | storage/crsqlite/backend.go:96-103 | the flat snapshot keeps every cell of every state over a set of doc ids if and only if none of them followed by a dot is a prefix of another; then a key has one possible doc id |
| Flatten.FirstDotRecovers | storage/crsqlite/backend.go:96-103 | with dot-free doc ids splitting every key at its first dot gives back the nested view, nothing lost or added |
| Flatten.FlattenDocs | storage/crsqlite/backend.go:96-103 | whatever order maps are ranged over, every cell has its key and every key the value of a cell |
| OpLog.Backend.InsertOps | storage/crsqlite/data.go:94-128 | one transaction: on success the first op of every new id is an active row and the other active rows are those of before, on any failure nothing changed |
| OpLog.PushIsVisible | storage/crsqlite/data.go:97-128 | a push adds to the active ops, and to all ops, exactly the first op of every id that was new, with its own content and its device id in the stamp |
| OpLog.PushIsAnswered | storage/crsqlite/data.go:134-191 | so the answer at any cursor gains exactly the new ops after that cursor |
| OpLog.Backend.QueryOps | storage/crsqlite/data.go:134-191 | exactly the active rows after the cursor, each once, in stamp order, stamps rebuilt from the row's device id |
| OpLog.Backend.ReactivateOps | storage/crsqlite/data.go:226-263 | one transaction: on success the named rows are active again with their content and unknown ids are inserted, on any failure nothing changed |
| OpLog.ReactivatedAt | storage/crsqlite/data.go:226-263 | a known row is active with its content if it is named, and untouched if not |
| OpLog.ReactivatedAdds | storage/crsqlite/data.go:226-263 | reactivating adds to the ops of the table exactly the first op of every unknown id |
| OpLog.ReactivatedIsActive | storage/crsqlite/data.go:226-263 | every op named is active afterwards, known or not |
| OpLog.ReactivateArchived | storage/crsqlite/data.go:215-263 | archiving all and reactivating some ops of the table leaves exactly those active and every row's content as it was |
| OpLog.Backend.GetDelta | storage/crsqlite/backend.go:56-73 | the query answer and the maximum of its stamps |
| OpLog.Backend.GetSnapshot | storage/crsqlite/backend.go:77-104 | the flat last-write-wins state of the visible ops and their maximum stamp |
| OpLog.Backend.WinMap | storage/crsqlite/backend.go:136-149 | the flat-key winner map equals the nested merge |
| OpLog.Backend.Compact | storage/crsqlite/backend.go:126-211 | for each statement that can fail: which rows and snapshot rows were written, and on success that the active rows are one latest op per cell |
| LogTheory.MaxStampMeaning | storage/crsqlite/backend.go:65-72 | the running maximum bounds all stamps and is one of them, or zero |
| LogTheory.CompactionInvisibleIff | storage/crsqlite/backend.go:126-211 | compaction leaves the merged delta at a cursor unchanged if and only if no winner of that delta is stamped at or below zero |
| LogTheory.CompactionInvisible | storage/crsqlite/backend.go:56-73 | for every cursor a client can hold, the merged delta and the maximum stamp returned are the same before and after Compact |
| LogTheory.CompactPostcondition | storage/crsqlite/backend.go:121-125 | after Compact the active rows are exactly one latest op per visible cell and no op entered or left the table |
| Snapshots.SnapshotsWritten | storage/crsqlite/backend.go:164-197 | however far Compact gets, one snapshot row is written per write that went through, each holding all the doc's cells with their winning values and the maximum stamp of all its visible ops; other rows are untouched |
| Snapshots.CompactSucceedsIff | storage/crsqlite/backend.go:126-211 | Compact succeeds, and then compacts, if and only if the failing call is none of those it makes, counted from the visible docs and cells |
| Snapshots.CompactBoundaries | storage/crsqlite/backend.go:184-209 | wherever Compact stops no op is lost or altered, and readers see the old state if and only if the failing call is not one of the reactivating transaction of a non-empty log, by its number |
| Snapshots.CompactDeterministic | storage/crsqlite/backend.go:136-197 | on a tie-free log op rows and snapshot rows after Compact do not depend on row or map order |
| Snapshots.CompactIdempotent | storage/crsqlite/backend.go:126-211 | a second Compact changes neither an op row nor a snapshot row |
| Convergence.MergeKeepsLatestActive | storage/crsqlite/backend.go:47-52 | merging any batch keeps every cell's latest op active, over active and archived rows |
| Convergence.CompactKeepsLatestActive | storage/crsqlite/backend.go:126-211 | so does Compact |
| Convergence.DeltaIsWindow | storage/crsqlite/backend.go:56-73 | the merged delta is the state of every op ever inserted, cut down to cells whose winner is after the cursor |
| Convergence.StrongEventualConsistency | storage/crsqlite/backend.go:45-104 | two logs that received the same set of ops, in any order, batching, duplication and with any compactions, answer every delta with the same state and maximum stamp |
| Convergence.SnapshotIsEverythingIff | storage/crsqlite/backend.go:75-104 | a snapshot is the state of all ops ever pushed if and only if no cell's latest op is stamped at or below zero |
| Convergence.DeadForever | storage/crsqlite/backend.go:126-211 | an archived row is never touched by later pushes and compactions, and the log evolves as one without that row that ignores ops with its id |
| Convergence.StrandedForever | storage/crsqlite/backend.go:199-209 | after a stop between archive and reactivate, whatever is pushed and compacted later, no row of the time comes back: readers see a log that started empty and ignores those op ids |
| Engine.NeedsSnapshot | core/crdt/schema.go:11-17 | true exactly when the server's schema version is ahead |
| Engine.MaybeCompact | core/crdt/compaction.go:11-20 | compacts exactly when the active count exceeds the threshold and the count could be read |
| Engine.Engine.Sync | core/sync/engine.go:25-66 | the clock, table, snapshot rows, channels and answer after a request, for every combination of failing calls: snapshot of the state before the push, delta of the state after it, wake-ups only after the pushed ops are in the table |
| SyncTheory.BoundedLog | core/crdt/compaction.go:9-20 | MaybeCompact succeeds if and only if none of the calls it makes fails; then the active count is at most max(threshold, cells); a log at or below the threshold is left alone and none is ever grown |
| SyncTheory.SyncAnswersIff | core/sync/engine.go:25-66 | a request is answered if and only if no call it depends on fails; the snapshot comes exactly when the client is behind and shows the log before the push, the ops are the delta of the log after it, and the new cursor is the last returned stamp if its wall time is positive and the clock received in every other case |
| SyncTheory.SyncStores | core/sync/engine.go:38-48 | the table gains exactly the new ops of a committed push, all active unless the log outgrew the threshold, and ends within its bound when no count or compaction call fails; without ops or after a failed read or insert nothing changes |
| SyncTheory.CursorProgressIff | core/sync/engine.go:26-56 | for every cursor, the new one is after it if and only if the request does not fall back on a clock at its limit (or the cursor is at the value a clock wraps to, with a smaller device id) |
| SyncTheory.AnswerBelowCursor | core/sync/engine.go:50-56 | no returned op is after the new cursor, in the maximum and in the fallback case |
| SyncTheory.NothingAfterNewCursor | core/sync/engine.go:50-56 | quiescence: asking again from the new cursor on an unchanged log returns nothing, for both cursor predicates |
| SyncTheory.SnapshotPlusDeltaIff | core/sync/engine.go:33-53 | snapshot overlaid with delta is the server's state if and only if no op the push added at or below the cursor became the latest of its cell |
| SyncTheory.SchemaMismatchComplete | core/sync/engine.go:28-65 | if every pushed op is after the cursor sent and no doc id of the old state continues another past a dot, the returned ops, and for all other cells the flat snapshot, hold every cell of the server's state with its value and no other cell |
| SyncTheory.SyncCompletesClient | core/sync/engine.go:25-66 | the same for every answered request of a client behind the schema that did not strand the log |
| Protocol.SyncIsStepIff | core/sync/engine.go:25-66 | a request with a positive clock reading, answered or failed, is a step of the protocol runs if and only if it did not start a compaction that stopped between archive and reactivation |
| Protocol.ReplicaInvariant | core/sync/engine.go:25-66 | in any run of syncs, failures, pushes and compactions, a client's replica right after an answer joined with its late ops is the state of every op ever inserted |
| Protocol.LateNeverDelivered | storage/crsqlite/backend.go:54-73 | in any run an op that entered the log at or below a client's cursor is never sent to that client |
| Protocol.ReplicaEqualsServerIff | storage/crsqlite/backend.go:54-73 | right after an answer, in any run, the replica is the state the server shows a fresh reader if and only if no well-stamped late op is its cell's latest, and the state of all ops ever inserted if and only if no late op is |
| Protocol.NextAnswer | core/sync/engine.go:50-56 | in any run, of the ops entering the log between two answers to a client the second answer has exactly the active ones after the last stamp of the first (or after the received clock if that has no positive wall time), and exactly those not after it are late |
| Protocol.NewerOpIsAnswered | storage/crsqlite/backend.go:54-73 | an op stamped after everything in an answer and entering later is never late, and is in the next answer if still active, when the last op of the answer has a positive wall time and a device id |
| Protocol.SnapshotCompletes | core/sync/engine.go:28-65 | in any run, a client behind the schema whose pushed ops are after its cursor holds with snapshot and ops the server's state |
| Protocol.DeliveryInOrder | core/sync/engine.go:50-56 | over any run the answers to one client laid end to end are strictly increasing in stamp, so no op is delivered twice |
| Protocol.ClocksSupplyStamps | core/crdt/hlc.go:34-74 | ops stamped by clocks with distinct device ids are tie-free, well-stamped and stored unchanged |
| Protocol.RowsWerePushed | storage/crsqlite/backend.go:47-52 | the log never holds an op that no earlier request of the run pushed |
| Protocol.ClockedIsRun | core/crdt/hlc.go:34-74 | when pushed ops carry clock stamps and the server clock stays below its limit, every state of the run is tie-free, with distinct, well-stamped stamps: the assumptions of the run theorems |
| Protocol.ClockedDelivery | core/sync/engine.go:25-66 | hence, with no assumption on stamps, a replica after an answer is the server's state if and only if no late op won its cell, and deliveries never repeat |
| Broadcast.Broadcaster.Subscribe | transport/http2/sse.go:21-28 | a fresh empty channel is appended to the key's list, other keys untouched |
| Broadcast.Broadcaster.Unsubscribe | transport/http2/sse.go:30-41 | the first occurrence of the channel leaves the list, order kept; an unknown channel changes nothing |
| Broadcast.Broadcaster.Notify | transport/http2/sse.go:43-54 | every listed channel is offered one message, no other changes, and the call terminates whatever the buffers hold |
| Broadcast.SharesKeyIff | transport/http2/sse.go:19 | which app and user pairs share a wake-up list: equal ones, and those that differ only in which slash separates them |
| Broadcast.NotifyNeverBlocks | transport/http2/sse.go:43-54 | in every reachable interleaving a call in flight can run to its end by its own sends alone, though nobody receives, and has then offered every channel left a message; no buffer exceeds one |
| Broadcast.NotifyIsRun | transport/http2/sse.go:43-54 | an undisturbed Notify is a start, one send per listed channel and a finish of the interleaved machine, and offers each listed channel one message and changes nothing else |
| Broadcast.NoLostWakeup | transport/http2/sse.go:21-54 | a subscriber listed when a push commits and not gone when Notify copies the list has, from Notify's end on, a message waiting or received one after the commit |
| Limiter.AdminAuth.RequireAdminAuth | server/middleware/admin.go:30-89 | which status each request gets, by allow list with entries trimmed, count and reset time of the address's bucket, and password; and exactly what each status does to the buckets |
| Limiter.TrimMeaning | server/middleware/admin.go:57-64 | an allow-list entry counts without the white space around it, and only that |
| Limiter.BucketNeverPastMax | server/middleware/admin.go:66-89 | in any run of serialised requests no bucket counts past five |
| Limiter.AtMostNine | server/middleware/admin.go:23-26 | any closed 15-minute window holds at most nine recorded failures of one address |
| Limiter.NineIsReached | server/middleware/admin.go:80-88 | nine is reached, so the bound is tight |
| Devices.TableTellsHistory | storage/crsqlite/authstore.go:16-49 | after any run the table has a row for exactly the registered devices, every column as the successful calls say: app, device and time of registration, status, latest secret, time last written |
| Devices.RegisterIff | server/auth/device.go:29-50 | a registration succeeds if and only if hashing and the store work and the key id is new |
| Devices.VerifyIff | server/auth/device.go:52-64 | verification succeeds if and only if the device was registered, never revoked, and the secret is that of its registration or latest successful rotation; each refusal names its cause |
| Devices.RotateIff | server/auth/device.go:66-83 | exactly when a rotation succeeds, and which refusal every other gets |
| Devices.RevokeIff | server/auth/device.go:85-92 | a revocation succeeds if and only if the device was registered and the store works; after it no later calls make any secret verify or rotate |
| Devices.RevokedForever | server/auth/device.go:85-92 | revocation is terminal under every later sequence of calls |

## Left out

- SQLite, cr-sqlite, table creation and tenant separation by table name: one dataset's table and snapshot rows are in-memory maps.
- JSON, CBOR and zstd: values are opaque text, messages are records; a value that fails to encode is a failed call.
- Protocol.SyncIsStepIff: a request whose compaction stops between archive and reactivation is shown not to be a step, and runs do not go on past one; Convergence.StrandedForever says what the log is then.
- Setting a schema version: it is a field of the store that requests only read.
- The snapshot stamp over all winners that Compact computes and never uses (storage/crsqlite/backend.go:156-162).
- Interleaving of other requests between the statements of Compact: methods are serialised; only stopping part-way is modelled.
- Races between the read and the write of a key rotation or revocation: calls are serialised.
- DeleteOps, the admin pages, metrics, logging, backup, token validation and the HTTP layer: they add no invariant.
- Devices.VerifyIff: hashing is an exact relation between a hash and one secret; bcrypt's limits on secret length are not modelled.
- Broadcast.NoLostWakeup: the interleaving is of whole lock sections and single channel sends; channels are numbered values there rather than objects.
- OpLog.Backend.ArchiveOps: its table update is one expression, since the database does the loop.
