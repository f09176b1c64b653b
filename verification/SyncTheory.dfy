/** What one answered request gives its client. */
module SyncTheory {
  import opened Options
  import opened Hlc
  import opened Lww
  import opened Flatten
  import opened OpLog
  import opened LogTheory
  import opened Snapshots
  import opened Convergence
  import opened Engine

  /** The request's compaction, if it ran, did not stop between archiving and reactivating. */
  predicate Intact(compaction: Result<()>)
  {
    compaction != Err(ReactivateFailed)
  }

  lemma MaybeCompactedCases(rows: Rows, snaps: map<string, Snap>, threshold: int, env: Env,
                            rows': Rows, snaps': map<string, Snap>, r: Result<()>)
    requires MaybeCompacted(rows, snaps, threshold, env, rows', snaps', r)
    ensures Intact(r) ==> rows' == rows || IsCompacted(rows, rows')
    ensures !Intact(r) ==> rows' == Archived(rows) && Visible(rows) != {}
    ensures r.Ok? && |ActiveOps(rows)| > threshold ==> IsCompacted(rows, rows')
    ensures r.Ok? && |ActiveOps(rows)| <= threshold ==> rows' == rows
  {
    if !env.count.FailAt? && |ActiveOps(rows)| > threshold {
      DoneIsCompacted(rows, snaps, env.compact, rows', snaps', r);
    }
  }

  lemma IntactIff(rows: Rows, snaps: map<string, Snap>, threshold: int, env: Env,
                  rows': Rows, snaps': map<string, Snap>, r: Result<()>)
    requires MaybeCompacted(rows, snaps, threshold, env, rows', snaps', r)
    ensures Intact(r) <==> env.count.FailAt? || |ActiveOps(rows)| <= threshold || !StopsArchived(rows, env.compact)
  {
    if !env.count.FailAt? && |ActiveOps(rows)| > threshold {
      StopsArchivedIff(rows, snaps, env.compact, rows', snaps', r);
    }
  }

  /** The request pushes ops and starts a compaction that stops between archiving and reactivating. */
  predicate StrandsLog(rows: Rows, threshold: int, schema: int, msg: Message, env: Env)
  {
    var merged := Inserted(rows, msg.ops);
    && Commits(msg, schema, env) && msg.ops != []
    && !env.count.FailAt? && |ActiveOps(merged)| > threshold && StopsArchived(merged, env.compact)
  }

  /** MaybeCompact succeeds exactly when none of the calls it makes fails; then the log is no larger than the threshold
      or the number of cells it has ever held. It leaves a log at or below the threshold alone and never grows one. */
  lemma BoundedLog(rows: Rows, snaps: map<string, Snap>, threshold: int, env: Env,
                   rows': Rows, snaps': map<string, Snap>, r: Result<()>)
    requires MaybeCompacted(rows, snaps, threshold, env, rows', snaps', r)
    ensures r.Ok? <==> env.count == NoFault && (|ActiveOps(rows)| > threshold ==> AllCallsWork(rows, env.compact))
    ensures r.Ok? ==> |ActiveOps(rows')| <= Max(threshold, |CellsOf(AllOps(rows'))|)
    ensures r.Ok? && |ActiveOps(rows)| > threshold ==> IsCompacted(rows, rows')
    ensures |ActiveOps(rows)| <= threshold ==> rows' == rows && snaps' == snaps
    ensures |ActiveOps(rows')| <= |ActiveOps(rows)|
  {
    if env.count == NoFault && |ActiveOps(rows)| > threshold {
      CompactSucceedsIff(rows, snaps, env.compact, rows', snaps', r);
      DoneIsCompacted(rows, snaps, env.compact, rows', snaps', r);
      if r.Ok? {
        CompactPostcondition(rows, rows');
        ActiveSizeAfterCompact(rows, rows');
      } else if rows' != rows {
        assert ActiveOps(rows') == {};
      }
    }
  }

  // ----- Requests -----

  /** A request is answered exactly when none of the calls it depends on fails: reading the schema version, the
      snapshot if the client is behind, one insert per pushed op and their commit, and the delta. A snapshot comes
      along exactly when the client is behind; the new cursor is the last returned stamp if its wall time is
      positive, and what the clock received in every other case. The snapshot shows the log before the push, the
      answer the log after it. */
  lemma SyncAnswersIff(rows: Rows, snaps: map<string, Snap>, threshold: int, schema: int, serverClock: HLC,
                       msg: Message, env: Env, rows': Rows, snaps': map<string, Snap>, compaction: Result<()>,
                       r: Result<Response>)
    requires SyncDone(rows, snaps, threshold, schema, serverClock, msg, env, rows', snaps', compaction, r)
    ensures r.Ok? <==> && env.schemaOk
                       && (schema > msg.schemaVersion ==> env.snapshot == NoFault)
                       && (msg.ops != [] ==> env.merge == NoFault || env.merge.call > |msg.ops|)
                       && env.delta == NoFault
    ensures r.Ok? ==> (r.value.snapshot.Some? <==> schema > msg.schemaVersion)
    ensures r.Ok? && r.value.snapshot.Some? ==>
              exists ops :: IsQuery(rows, ZERO, ops) && IsFlat(r.value.snapshot.value, Merged(ops))
    ensures r.Ok? ==> r.value.schemaVersion == if env.schemaAgainOk then schema else 0
    ensures r.Ok? ==> var ops := r.value.ops;
                      && IsQuery(rows', msg.clock, ops)
                      && r.value.newClock == if ops != [] && ops[|ops| - 1].ts.wall > 0 then ops[|ops| - 1].ts
                                             else serverClock
  {
    if r.Ok? {
      NewCursorIsLast(rows', msg.clock, r.value.ops, serverClock);
    }
  }

  /** What a request leaves in the table. Nothing changes without ops or when reading or inserting fails. Otherwise
      the table gains exactly the new ops; they are all active unless the log has outgrown the threshold, and
      if it has and no call fails, the log is back within its bound. */
  lemma SyncStores(rows: Rows, snaps: map<string, Snap>, threshold: int, schema: int, serverClock: HLC,
                   msg: Message, env: Env, rows': Rows, snaps': map<string, Snap>, compaction: Result<()>,
                   r: Result<Response>)
    requires SyncDone(rows, snaps, threshold, schema, serverClock, msg, env, rows', snaps', compaction, r)
    ensures var active := ActiveOps(rows) + NewOps(rows, msg.ops);
            if msg.ops == [] || !env.schemaOk || (schema > msg.schemaVersion && env.snapshot != NoFault)
               || (env.merge.FailAt? && env.merge.call <= |msg.ops|)
            then rows' == rows && snaps' == snaps
            else
              && AllOps(rows') == AllOps(rows) + NewOps(rows, msg.ops)
              && (env.count != NoFault || |active| <= threshold ==> ActiveOps(rows') == active && snaps' == snaps)
              && (env.count == NoFault && AllCallsWork(Inserted(rows, msg.ops), env.compact) ==>
                    |ActiveOps(rows')| <= Max(threshold, |CellsOf(AllOps(rows'))|))
  {
    if Commits(msg, schema, env) && msg.ops != [] {
      var merged := Inserted(rows, msg.ops);
      PushIsVisible(rows, msg.ops);
      BoundedLog(merged, snaps, threshold, env, rows', snaps', compaction);
      MaybeCompactedOps(merged, snaps, threshold, env, rows', snaps', compaction);
    }
  }

  lemma MaybeCompactedOps(rows: Rows, snaps: map<string, Snap>, threshold: int, env: Env,
                          rows': Rows, snaps': map<string, Snap>, r: Result<()>)
    requires MaybeCompacted(rows, snaps, threshold, env, rows', snaps', r)
    ensures AllOps(rows') == AllOps(rows)
    ensures env.count != NoFault ==> rows' == rows && snaps' == snaps
  {
    MaybeCompactedCases(rows, snaps, threshold, env, rows', snaps', r);
    if rows' == Archived(rows) {
      ArchivedShows(rows, ZERO);
    } else if rows' != rows {
      CompactPostcondition(rows, rows');
    }
  }

  // ----- Cursors -----

  lemma QueryAfter(rows: Rows, since: HLC, ops: seq<Op>, o: Op)
    requires IsQuery(rows, since, ops) && o in ops
    ensures AfterCursor(o.ts, since) && Before(since, o.ts)
  {
    assert o in SetOf(ops);
    CursorMeaning(o.ts, since);
  }

  /** The new cursor is the last returned stamp, unless that is at wall time zero or there is none. */
  lemma NewCursorCases(rows: Rows, since: HLC, ops: seq<Op>, serverClock: HLC)
    returns (top: Op)
    requires IsQuery(rows, since, ops) && NewCursor(ops, serverClock) != serverClock
    ensures top in ops && top.ts == NewCursor(ops, serverClock) && AfterCursor(top.ts, since)
  {
    MaxStampMeaning(ops);
    top :| top in ops && top.ts == MaxStamp(ops);
    QueryAfter(rows, since, ops, top);
  }

  /** No returned op is at wall time zero or above: then the server clock becomes the cursor. */
  predicate FallsBack(ops: seq<Op>)
  {
    MaxStamp(ops).wall == 0
  }

  /** An answered request moves its cursor forward exactly when it does not fall back on a server clock that has
      run into the int64 limit - or when the cursor sent is at the very value a clock wraps to, with a smaller
      device id. */
  lemma CursorProgressIff(rows: Rows, msg: Message, ops: seq<Op>, last: HLC, dev: string, now: Int64)
    requires IsQuery(rows, msg.clock, ops)
    ensures Before(msg.clock, NewCursor(ops, Received(last, dev, msg.clock, now)))
            <==> !(FallsBack(ops) && (AtLimit(last) || AtLimit(msg.clock)))
                 || (Code(msg.clock) == BOTTOM && Less(msg.clock.dev, dev))
  {
    var server := Received(last, dev, msg.clock, now);
    ReceiveAdvancesIff(last, dev, msg.clock, now);
    CodeBounds(msg.clock);
    CodeBounds(last);
    CodeOrder(msg.clock, server);
    if !FallsBack(ops) {
      MaxStampMeaning(ops);
      var top :| top in ops && top.ts == MaxStamp(ops);
      QueryAfter(rows, msg.clock, ops, top);
    }
  }

  /** The new cursor is one the old cursor would have selected. */
  lemma NewCursorSelected(rows: Rows, since: HLC, ops: seq<Op>, last: HLC, dev: string, now: Int64)
    requires IsQuery(rows, since, ops) && !AtLimit(last) && !AtLimit(since)
    ensures AfterCursor(NewCursor(ops, Received(last, dev, since, now)), since)
    ensures FromZero(since) ==> FromZero(NewCursor(ops, Received(last, dev, since, now)))
  {
    var server := Received(last, dev, since, now);
    var next := NewCursor(ops, server);
    if next == server {
      ReceiveAdvancesIff(last, dev, since, now);
      CursorMeaning(server, since);
    } else {
      var top := NewCursorCases(rows, since, ops, server);
    }
    if FromZero(since) {
      FromZeroIff(since);
      CursorMeaning(next, ZERO);
    }
  }

  /** No returned op is after the new cursor. */
  lemma AnswerBelowCursor(rows: Rows, since: HLC, ops: seq<Op>, last: HLC, dev: string, now: Int64, o: Op)
    requires IsQuery(rows, since, ops) && !AtLimit(last) && !AtLimit(since) && now > 0
    requires o in ops
    ensures !Before(NewCursor(ops, Received(last, dev, since, now)), o.ts)
  {
    ReceiveAdvancesIff(last, dev, since, now);
    MaxStampMeaning(ops);
  }

  /** Quiescence: nothing in the log that answered is after the new cursor, so asking again
      from it, with no push in between, returns nothing - for full and for partial cursors. */
  lemma NothingAfterNewCursor(rows: Rows, since: HLC, ops: seq<Op>, last: HLC, dev: string, now: Int64)
    requires IsQuery(rows, since, ops) && !AtLimit(last) && !AtLimit(since) && now > 0
    ensures Selected(rows, NewCursor(ops, Received(last, dev, since, now))) == {}
    ensures forall again :: IsQuery(rows, NewCursor(ops, Received(last, dev, since, now)), again) ==> again == []
  {
    var next := NewCursor(ops, Received(last, dev, since, now));
    NewCursorSelected(rows, since, ops, last, dev, now);
    forall o | o in Selected(rows, next) ensures false {
      CursorAdvance(o.ts, since, next);
      assert o in SetOf(ops);
      AnswerBelowCursor(rows, since, ops, last, dev, now, o);
      CursorMeaning(o.ts, next);
    }
  }

  /** Nor is anything that was ever inserted, archived rows included. */
  lemma NothingEverAfterNewCursor(rows: Rows, since: HLC, ops: seq<Op>, last: HLC, dev: string, now: Int64, o: Op)
    requires IsQuery(rows, since, ops) && !AtLimit(last) && !AtLimit(since) && now > 0 && FromZero(since)
    requires LatestActive(rows) && o in AllOps(rows)
    ensures !AfterCursor(o.ts, NewCursor(ops, Received(last, dev, since, now)))
  {
    var next := NewCursor(ops, Received(last, dev, since, now));
    NewCursorSelected(rows, since, ops, last, dev, now);
    NothingAfterNewCursor(rows, since, ops, last, dev, now);
    FromZeroIff(next);
    var w := Winners(AllOps(rows))[o.Key()];
    assert Wins(AllOps(rows), w) && w.Key() == o.Key();
    assert w !in Selected(rows, next);
    if AfterCursor(o.ts, next) {
      AfterCursorUpward(o.ts, w.ts, next);
    }
  }

  // ----- Snapshot plus delta -----

  /** The ops this request really added. */
  function Fresh(rows: Rows, ops: seq<Op>): set<Op>
  {
    AllOps(Inserted(rows, ops)) - AllOps(rows)
  }

  lemma {:induction false} InsertedKeeps(rows: Rows, ops: seq<Op>)
    ensures AllOps(rows) <= AllOps(Inserted(rows, ops)) && Fresh(rows, ops) <= StoredSet(ops)
  {
    if ops != [] {
      var pre, last := ops[..|ops| - 1], ops[|ops| - 1];
      StoredLast(ops);
      InsertedKeeps(rows, pre);
      InsertOneOps(Inserted(rows, pre), last);
      assert AllOps(Inserted(rows, ops)) <= AllOps(Inserted(rows, pre)) + {Stored(last)};
    }
  }

  lemma AfterIntact(rows: Rows, rows': Rows)
    requires (rows' == rows || IsCompacted(rows, rows')) && LatestActive(rows) && TieFree(AllOps(rows))
    ensures AllOps(rows') == AllOps(rows) && LatestActive(rows')
  {
    if rows' != rows {
      CompactPostcondition(rows, rows');
      CompactKeepsLatestActive(rows, rows');
    }
  }

  /** The snapshot is read before the push and the delta after it and after any compaction. Overlaying
      one with the other gives the server's state exactly when no op the push added at or below the
      client's cursor became the latest of its cell. */
  lemma SnapshotPlusDeltaIff(rows: Rows, ops: seq<Op>, rows': Rows, since: HLC)
    requires LatestActive(rows) && TieFree(AllOps(Inserted(rows, ops))) && FromZero(since)
    requires rows' == Inserted(rows, ops) || IsCompacted(Inserted(rows, ops), rows')
    ensures Winners(Visible(rows)) + Winners(Selected(rows', since)) == Winners(Visible(rows'))
            <==> forall o :: o in Fresh(rows, ops) && Wins(AllOps(rows'), o) && WellStamped(o.ts)
                             ==> AfterCursor(o.ts, since)
  {
    var all, all' := AllOps(rows), AllOps(rows');
    InsertedKeeps(rows, ops);
    MergeKeepsLatestActive(rows, ops);
    AfterIntact(Inserted(rows, ops), rows');
    DeltaIsWindow(rows, ZERO);
    DeltaIsWindow(rows', ZERO);
    DeltaIsWindow(rows', since);
    var w, w' := Winners(all), Winners(all');
    OverlayIff(all, all', w, w', since);
  }

  lemma OverlayIff(all: set<Op>, all': set<Op>, w: CellMap, w': CellMap, since: HLC)
    requires all <= all' && TieFree(all') && IsWinnerMap(all, w) && IsWinnerMap(all', w') && FromZero(since)
    ensures AboveCursor(w, ZERO) + AboveCursor(w', since) == AboveCursor(w', ZERO)
            <==> forall o :: o in all' - all && Wins(all', o) && WellStamped(o.ts) ==> AfterCursor(o.ts, since)
  {
    if forall o :: o in all' - all && Wins(all', o) && WellStamped(o.ts) ==> AfterCursor(o.ts, since) {
      OverlayHits(all, all', w, w', since);
    } else {
      var o :| o in all' - all && Wins(all', o) && WellStamped(o.ts) && !AfterCursor(o.ts, since);
      OverlayMisses(all, all', w, w', since, o);
    }
  }

  lemma OverlayHits(all: set<Op>, all': set<Op>, w: CellMap, w': CellMap, since: HLC)
    requires all <= all' && TieFree(all') && IsWinnerMap(all, w) && IsWinnerMap(all', w') && FromZero(since)
    requires forall o :: o in all' - all && Wins(all', o) && WellStamped(o.ts) ==> AfterCursor(o.ts, since)
    ensures AboveCursor(w, ZERO) + AboveCursor(w', since) == AboveCursor(w', ZERO)
  {
    var overlay := AboveCursor(w, ZERO) + AboveCursor(w', since);
    var state := AboveCursor(w', ZERO);
    forall c ensures SameAt(overlay, state, c) {
      OverlayCell(all, all', w, w', since, c);
    }
    SameEverywhere(overlay, state);
  }

  predicate SameAt(a: CellMap, b: CellMap, c: Cell)
  {
    (c in a <==> c in b) && (c in b ==> a[c] == b[c])
  }

  lemma SameEverywhere(a: CellMap, b: CellMap)
    requires forall c :: SameAt(a, b, c)
    ensures a == b
  {
    forall c ensures c in a <==> c in b { assert SameAt(a, b, c); }
    forall c | c in b ensures a[c] == b[c] { assert SameAt(a, b, c); }
  }

  lemma OverlayMisses(all: set<Op>, all': set<Op>, w: CellMap, w': CellMap, since: HLC, o: Op)
    requires all <= all' && TieFree(all') && IsWinnerMap(all, w) && IsWinnerMap(all', w')
    requires o in all' - all && Wins(all', o) && WellStamped(o.ts) && !AfterCursor(o.ts, since)
    ensures AboveCursor(w, ZERO) + AboveCursor(w', since) != AboveCursor(w', ZERO)
  {
    var c := o.Key();
    assert c in CellsOf(all');
    TieFreeTop(all');
    assert Wins(all', w'[c]) && w'[c] == o;
    assert c in w ==> Wins(all, w[c]);
    assert c in AboveCursor(w', ZERO) && AboveCursor(w', ZERO)[c] == o;
    assert c !in AboveCursor(w', since);
  }

  lemma OverlayCell(all: set<Op>, all': set<Op>, w: CellMap, w': CellMap, since: HLC, c: Cell)
    requires all <= all' && TieFree(all') && IsWinnerMap(all, w) && IsWinnerMap(all', w') && FromZero(since)
    requires forall o :: o in all' - all && Wins(all', o) && WellStamped(o.ts) ==> AfterCursor(o.ts, since)
    ensures SameAt(AboveCursor(w, ZERO) + AboveCursor(w', since), AboveCursor(w', ZERO), c)
  {
    FromZeroIff(since);
    if c in w {
      assert Wins(all, w[c]) && w[c].Key() == c;
      assert c in CellsOf(all');
      assert Wins(all', w'[c]) && w'[c].Key() == c;
      if WellStamped(w[c].ts) {
        AfterCursorUpward(w[c].ts, w'[c].ts, ZERO);
      }
      if w'[c] in all {
        BeforeTotal(w[c].ts, w'[c].ts);
      }
    } else if c in w' {
      assert Wins(all', w'[c]) && w'[c].Key() == c;
      assert w'[c].Key() !in CellsOf(all);
    }
  }

  /** Enough for a caller: every pushed op is after the cursor sent along. */
  lemma SnapshotPlusDelta(rows: Rows, ops: seq<Op>, rows': Rows, since: HLC)
    requires LatestActive(rows) && TieFree(AllOps(Inserted(rows, ops))) && FromZero(since)
    requires rows' == Inserted(rows, ops) || IsCompacted(Inserted(rows, ops), rows')
    requires forall o :: o in ops ==> AfterCursor(Stored(o).ts, since)
    ensures Winners(Visible(rows')) == Winners(Visible(rows)) + Winners(Selected(rows', since))
    ensures TieFree(ActiveOps(rows)) && TieFree(ActiveOps(rows'))
  {
    InsertedKeeps(rows, ops);
    MergeKeepsLatestActive(rows, ops);
    AfterIntact(Inserted(rows, ops), rows');
    forall o | o in Fresh(rows, ops) ensures AfterCursor(o.ts, since) {
      assert o in StoredSet(ops);
    }
    SnapshotPlusDeltaIff(rows, ops, rows', since);
    assert ActiveOps(rows') <= AllOps(rows') && ActiveOps(rows) <= AllOps(rows);
  }

  /** Every field of the answered request's flat snapshot and of its ops is a cell of the server's state, and
      every cell of that state is read back: from the ops if they have it, else from the snapshot. */
  ghost predicate OverlayReads(flat: map<string, Value>, ops: seq<Op>, state: CellMap)
  {
    && (forall c :: c in state ==>
          if c in Merged(ops) then Merged(ops)[c] == state[c]
          else FlatKey(c) in flat && flat[FlatKey(c)] == state[c].value)
    && (forall c :: c in Merged(ops) ==> c in state)
    && (forall k :: k in flat ==> exists c :: c in state && FlatKey(c) == k)
  }

  /** If every pushed op is after the cursor sent along, and no doc id of the old state continues another past
      a dot, snapshot and returned ops together are the server's state. */
  lemma SchemaMismatchComplete(rows: Rows, ops: seq<Op>, rows': Rows, since: HLC, flat: map<string, Value>,
                               answer: seq<Op>)
    requires LatestActive(rows) && TieFree(AllOps(Inserted(rows, ops))) && FromZero(since)
    requires rows' == Inserted(rows, ops) || IsCompacted(Inserted(rows, ops), rows')
    requires SnapshotAnswer(rows, true, Some(flat)) && IsQuery(rows', since, answer)
    requires forall o :: o in ops ==> AfterCursor(Stored(o).ts, since)
    requires KeysApart(DocsOf(Winners(Visible(rows))))
    ensures OverlayReads(flat, answer, Winners(Visible(rows')))
  {
    SnapshotPlusDelta(rows, ops, rows', since);
    DeltaMerges(rows', since, answer);
    FlatSnapshot(rows, flat);
    OverlayIsState(flat, answer, Winners(Visible(rows)), Winners(Visible(rows')));
  }

  /** So it is for every request that is answered and did not strand the log. */
  lemma SyncCompletesClient(rows: Rows, snaps: map<string, Snap>, threshold: int, schema: int, serverClock: HLC,
                            msg: Message, env: Env, rows': Rows, snaps': map<string, Snap>, compaction: Result<()>,
                            resp: Response)
    requires SyncDone(rows, snaps, threshold, schema, serverClock, msg, env, rows', snaps', compaction, Ok(resp))
    requires schema > msg.schemaVersion && !StrandsLog(rows, threshold, schema, msg, env)
    requires LatestActive(rows) && TieFree(AllOps(Inserted(rows, msg.ops))) && FromZero(msg.clock)
    requires forall o :: o in msg.ops ==> AfterCursor(Stored(o).ts, msg.clock)
    requires KeysApart(DocsOf(Winners(Visible(rows))))
    ensures resp.snapshot.Some? && OverlayReads(resp.snapshot.value, resp.ops, Winners(Visible(rows')))
  {
    if msg.ops != [] {
      MaybeCompactedCases(Inserted(rows, msg.ops), snaps, threshold, env, rows', snaps', compaction);
      IntactIff(Inserted(rows, msg.ops), snaps, threshold, env, rows', snaps', compaction);
    }
    SchemaMismatchComplete(rows, msg.ops, rows', msg.clock, resp.snapshot.value, resp.ops);
  }

  lemma OverlayIsState(flat: map<string, Value>, ops: seq<Op>, before: CellMap, state: CellMap)
    requires IsFlat(flat, before) && Lossless(flat, before) && state == before + Merged(ops)
    ensures OverlayReads(flat, ops, state)
  {
    forall k | k in flat ensures exists c :: c in state && FlatKey(c) == k {
      var c :| c in before && FlatKey(c) == k;
      assert c in state;
    }
  }

  lemma FlatSnapshot(rows: Rows, flat: map<string, Value>)
    requires SnapshotAnswer(rows, true, Some(flat)) && TieFree(ActiveOps(rows))
    ensures IsFlat(flat, Winners(Visible(rows)))
    ensures KeysApart(DocsOf(Winners(Visible(rows)))) ==> Lossless(flat, Winners(Visible(rows)))
  {
    var ops :| IsQuery(rows, ZERO, ops) && IsFlat(flat, Merged(ops));
    DeltaMerges(rows, ZERO, ops);
    if KeysApart(DocsOf(Winners(Visible(rows)))) {
      FlatRoundTrip(flat, Winners(Visible(rows)));
    }
  }
}
