/** One sync request on the server: merge what the client pushed, wake the other
    clients, maybe compact, and answer with what the client has not seen. */
module Engine {
  import opened Options
  import opened Hlc
  import opened Lww
  import opened Flatten
  import opened OpLog
  import opened LogTheory
  import opened Broadcast

  /** clock is the last cursor the server gave this client. */
  datatype Message = Message(app: string, user: string, clock: HLC, ops: seq<Op>, schemaVersion: int)

  datatype Response = Response(newClock: HLC, ops: seq<Op>, snapshot: Option<map<string, Value>>, schemaVersion: int)

  /** The physical time of the request, and which of its store calls fail. */
  datatype Env = Env(now: Int64, schemaOk: bool, snapshot: Fault, merge: Fault, count: Fault, compact: Fault,
                     delta: Fault, schemaAgainOk: bool)

  function NewCursor(ops: seq<Op>, serverClock: HLC): HLC
  {
    if MaxStamp(ops).wall == 0 then serverClock else MaxStamp(ops)
  }

  /** That is the last stamp of the answer when its wall time is positive, and the server's clock otherwise. */
  lemma NewCursorIsLast(rows: Rows, since: HLC, ops: seq<Op>, serverClock: HLC)
    requires IsQuery(rows, since, ops)
    ensures NewCursor(ops, serverClock)
            == if ops != [] && ops[|ops| - 1].ts.wall > 0 then ops[|ops| - 1].ts else serverClock
  {
    MaxStampMeaning(ops);
    if ops != [] {
      var m, last := MaxStamp(ops), ops[|ops| - 1];
      BeforeTotal(m, last.ts);
      BeforeIrreflexive(last.ts);
      assert last in ops;
      assert m == ZERO || m == last.ts;
    }
  }

  /** What calling MaybeCompact does to the table. */
  ghost predicate MaybeCompacted(rows: Rows, snaps: map<string, Snap>, threshold: int, env: Env,
                                 rows': Rows, snaps': map<string, Snap>, r: Result<()>)
  {
    if env.count.FailAt? then r == Err(QueryFailed) && rows' == rows && snaps' == snaps
    else if |ActiveOps(rows)| > threshold then CompactDone(rows, snaps, env.compact, rows', snaps', r)
    else r == Ok(()) && rows' == rows && snaps' == snaps
  }

  /** The request got as far as committing the pushed ops. */
  predicate Commits(msg: Message, schema: int, env: Env)
  {
    && env.schemaOk
    && (schema > msg.schemaVersion ==> !env.snapshot.FailAt?)
    && !(msg.ops != [] && FailsWithin(env.merge, 0, |msg.ops|))
  }

  /** The table after the merge half of a request; compaction is the outcome of its ignored MaybeCompact. */
  ghost predicate MergePhase(rows: Rows, snaps: map<string, Snap>, threshold: int, msg: Message, env: Env,
                             rows': Rows, snaps': map<string, Snap>, compaction: Result<()>)
  {
    if msg.ops == [] then rows' == rows && snaps' == snaps && compaction == Ok(())
    else MaybeCompacted(Inserted(rows, msg.ops), snaps, threshold, env, rows', snaps', compaction)
  }

  ghost predicate SnapshotAnswer(rows: Rows, needed: bool, snapshot: Option<map<string, Value>>)
  {
    && (snapshot.Some? <==> needed)
    && (snapshot.Some? ==> exists ops :: IsQuery(rows, ZERO, ops) && IsFlat(snapshot.value, Merged(ops)))
  }

  ghost predicate Answered(rows: Rows, rows': Rows, schema: int, serverClock: HLC, msg: Message, resp: Response)
  {
    && IsQuery(rows', msg.clock, resp.ops)
    && resp.newClock == NewCursor(resp.ops, serverClock)
    && SnapshotAnswer(rows, schema > msg.schemaVersion, resp.snapshot)
  }

  /** The engine's whole effect on the table, and its answer. */
  ghost predicate SyncDone(rows: Rows, snaps: map<string, Snap>, threshold: int, schema: int, serverClock: HLC,
                           msg: Message, env: Env, rows': Rows, snaps': map<string, Snap>, compaction: Result<()>,
                           r: Result<Response>)
  {
    if !Commits(msg, schema, env) then r.Err? && rows' == rows && snaps' == snaps && compaction == Ok(())
    else
      && MergePhase(rows, snaps, threshold, msg, env, rows', snaps', compaction)
      && (r.Err? <==> env.delta.FailAt?)
      && (r.Ok? ==> Answered(rows, rows', schema, serverClock, msg, r.value))
      && (r.Ok? ==> r.value.schemaVersion == if env.schemaAgainOk then schema else 0)
  }

  method NeedsSnapshot(store: Backend, clientVersion: int, ok: bool) returns (r: Result<bool>)
    ensures r == if ok then Ok(store.schema > clientVersion) else Err(SchemaFailed)
  {
    var v := store.SchemaVersion(ok);
    if v.Err? {
      return Err(v.error);
    }
    return Ok(v.value > clientVersion);
  }

  method MaybeCompact(store: Backend, threshold: int, env: Env) returns (r: Result<()>)
    modifies store`rows, store`snapshots
    ensures MaybeCompacted(old(store.rows), old(store.snapshots), threshold, env, store.rows, store.snapshots, r)
  {
    var count := store.OpCount(env.count);
    if count.Err? {
      return Err(count.error);
    }
    if count.value > threshold {
      r := store.Compact(env.compact);
    } else {
      r := Ok(());
    }
  }

  class Engine {
    const store: Backend
    const notifier: Broadcaster
    const clock: Clock
    const threshold: int

    constructor (store: Backend, notifier: Broadcaster, clock: Clock, threshold: int)
      ensures this.store == store && this.notifier == notifier && this.clock == clock && this.threshold == threshold
    {
      this.store := store;
      this.notifier := notifier;
      this.clock := clock;
      this.threshold := threshold;
    }

    method Sync(msg: Message, env: Env) returns (r: Result<Response>, ghost compaction: Result<()>)
      modifies clock, store`rows, store`snapshots
      modifies set ch | ch in Listed(notifier.subs, SubKey(msg.app, msg.user))
      ensures clock.last == Received(old(clock.last), clock.deviceID, msg.clock, env.now)
      ensures SyncDone(old(store.rows), old(store.snapshots), threshold, store.schema, clock.last, msg, env,
                       store.rows, store.snapshots, compaction, r)
      ensures r.Ok? ==>
                var ops := r.value.ops;
                r.value.newClock == if ops != [] && ops[|ops| - 1].ts.wall > 0 then ops[|ops| - 1].ts else clock.last
      ensures forall ch :: ch in Listed(notifier.subs, SubKey(msg.app, msg.user)) ==>
                ch.buf == if msg.ops != [] && Commits(msg, store.schema, env) then Offer(old(ch.buf)) else old(ch.buf)
      ensures msg.ops != [] && Commits(msg, store.schema, env) ==>
                forall ch :: ch in Listed(notifier.subs, SubKey(msg.app, msg.user)) ==>
                  ch.announced == Inserted(old(store.rows), msg.ops).Keys
    {
      compaction := Ok(());
      var serverClock := clock.Receive(msg.clock, env.now);
      var snapshot := ReadSnapshot(msg, env);
      if snapshot.Err? {
        return Err(snapshot.error), compaction;
      }
      var pushed;
      pushed, compaction := Push(msg, env);
      if pushed.Err? {
        return Err(pushed.error), compaction;
      }
      r := Answer(msg, env, serverClock, snapshot.value);
    }

    /** A client behind the server's schema gets the state as it was before its own push. */
    method ReadSnapshot(msg: Message, env: Env) returns (r: Result<Option<map<string, Value>>>)
      ensures r.Ok? <==> env.schemaOk && (store.schema > msg.schemaVersion ==> !env.snapshot.FailAt?)
      ensures r.Ok? ==> SnapshotAnswer(store.rows, store.schema > msg.schemaVersion, r.value)
    {
      var needs := NeedsSnapshot(store, msg.schemaVersion, env.schemaOk);
      if needs.Err? {
        return Err(needs.error);
      }
      if !needs.value {
        return Ok(None);
      }
      var snap := store.GetSnapshot(env.snapshot);
      if snap.Err? {
        return Err(snap.error);
      }
      return Ok(Some(snap.value.0));
    }

    /** Merge, wake the others, maybe compact; only a failed merge is an error. */
    method Push(msg: Message, env: Env) returns (r: Result<()>, ghost compaction: Result<()>)
      modifies store`rows, store`snapshots
      modifies set ch | ch in Listed(notifier.subs, SubKey(msg.app, msg.user))
      ensures r.Ok? <==> !(msg.ops != [] && FailsWithin(env.merge, 0, |msg.ops|))
      ensures r.Err? ==> store.rows == old(store.rows) && store.snapshots == old(store.snapshots)
                         && compaction == Ok(())
      ensures r.Ok? ==> MergePhase(old(store.rows), old(store.snapshots), threshold, msg, env,
                                   store.rows, store.snapshots, compaction)
      ensures forall ch :: ch in Listed(notifier.subs, SubKey(msg.app, msg.user)) ==>
                ch.buf == if msg.ops != [] && r.Ok? then Offer(old(ch.buf)) else old(ch.buf)
      ensures msg.ops != [] && r.Ok? ==> forall ch :: ch in Listed(notifier.subs, SubKey(msg.app, msg.user)) ==>
                ch.announced == Inserted(old(store.rows), msg.ops).Keys
    {
      r, compaction := Ok(()), Ok(());
      if |msg.ops| > 0 {
        r := store.MergeOps(msg.ops, env.merge);
        if r.Ok? {
          notifier.Notify(msg.app, msg.user, store.rows.Keys);
          var ignored := MaybeCompact(store, threshold, env);
          compaction := ignored;
        }
      }
    }

    method Answer(msg: Message, env: Env, serverClock: HLC, snapshot: Option<map<string, Value>>)
      returns (r: Result<Response>)
      ensures r.Err? <==> env.delta.FailAt?
      ensures r.Ok? ==>
                var ops := r.value.ops;
                r.value.newClock == if ops != [] && ops[|ops| - 1].ts.wall > 0 then ops[|ops| - 1].ts else serverClock
      ensures r.Ok? ==> IsQuery(store.rows, msg.clock, r.value.ops) && r.value.snapshot == snapshot
                        && r.value.newClock == NewCursor(r.value.ops, serverClock)
                        && r.value.schemaVersion == if env.schemaAgainOk then store.schema else 0
    {
      var delta := store.GetDelta(msg.clock, env.delta);
      if delta.Err? {
        return Err(delta.error);
      }
      var newClock := delta.value.1;
      if newClock.wall == 0 {
        newClock := serverClock;
      }
      var schema := store.SchemaVersion(env.schemaAgainOk);
      NewCursorIsLast(store.rows, msg.clock, delta.value.0, serverClock);
      var schemaVer := if schema.Ok? then schema.value else 0;
      return Ok(Response(newClock, delta.value.0, snapshot, schemaVer));
    }
  }
}
