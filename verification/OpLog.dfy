/** The op-log table of one dataset and the snapshot rows beside it: every SQL
    statement as a step on the table, and the backend methods built from them. */
module OpLog {
  import opened Hlc
  import opened Lww
  import opened Flatten

  /** A row keeps one device id; reading it back rebuilds the stamp from it. */
  datatype Row = Row(doc: string, field: string, value: Value, wall: Int64, logical: Uint32, dev: string, active: bool)

  /** op_id -> row. */
  type Rows = map<string, Row>

  datatype Snap = Snap(fields: map<string, Value>, hlc: HLC)

  datatype Error = SchemaFailed | InsertFailed | QueryFailed | SnapshotFailed | ArchiveFailed | ReactivateFailed

  datatype Result<+T> = Ok(value: T) | Err(error: Error)

  /** Which database call of a method fails, if any, counted from zero. */
  datatype Fault = NoFault | FailAt(call: nat)

  predicate FailsWithin(fault: Fault, first: nat, last: nat)
  {
    fault.FailAt? && first <= fault.call <= last
  }

  /** The fault as seen by a method whose first call is call number n. */
  function FaultFrom(fault: Fault, n: nat): Fault
  {
    if fault.FailAt? && fault.call >= n then FailAt(fault.call - n) else NoFault
  }

  function RowOf(op: Op): Row
  {
    Row(op.doc, op.field, op.value, op.ts.wall, op.ts.logical, op.dev, true)
  }

  function OpOf(id: string, row: Row): Op
  {
    Op(id, row.doc, row.field, row.value, HLC(row.wall, row.logical, row.dev), row.dev)
  }

  /** The op as the log gives it back. */
  function Stored(op: Op): Op
  {
    OpOf(op.id, RowOf(op))
  }

  /** Every op ever inserted. */
  function AllOps(rows: Rows): set<Op>
  {
    set id | id in rows :: OpOf(id, rows[id])
  }

  function ActiveOps(rows: Rows): set<Op>
  {
    set id | id in rows && rows[id].active :: OpOf(id, rows[id])
  }

  /** What the delta query returns, as a set. */
  function Selected(rows: Rows, since: HLC): set<Op>
  {
    set id | id in rows && rows[id].active && AfterCursor(OpOf(id, rows[id]).ts, since) :: OpOf(id, rows[id])
  }

  function Visible(rows: Rows): set<Op>
  {
    Selected(rows, ZERO)
  }

  lemma RowsToOps(rows: Rows, o: Op)
    ensures o in AllOps(rows) <==> o.id in rows && o == OpOf(o.id, rows[o.id])
    ensures o in ActiveOps(rows) <==> o in AllOps(rows) && rows[o.id].active
  {
  }

  // ----- The statements -----

  /** INSERT .. ON CONFLICT DO NOTHING. */
  function InsertOne(rows: Rows, op: Op): Rows
  {
    if op.id in rows then rows else rows[op.id := RowOf(op)]
  }

  function Inserted(rows: Rows, ops: seq<Op>): Rows
  {
    if ops == [] then rows else InsertOne(Inserted(rows, ops[..|ops| - 1]), ops[|ops| - 1])
  }

  /** UPDATE .. SET status = 'archived' WHERE status = 'active'. */
  function Archived(rows: Rows): Rows
  {
    map id | id in rows :: rows[id].(active := false)
  }

  /** INSERT .. ON CONFLICT DO UPDATE SET status = 'active'. */
  function ReactivateOne(rows: Rows, op: Op): Rows
  {
    if op.id in rows then rows[op.id := rows[op.id].(active := true)] else rows[op.id := RowOf(op)]
  }

  function Reactivated(rows: Rows, ops: seq<Op>): Rows
  {
    if ops == [] then rows else ReactivateOne(Reactivated(rows, ops[..|ops| - 1]), ops[|ops| - 1])
  }

  /** The table whose active rows are exactly those holding an op of kept. */
  function KeepOnly(rows: Rows, kept: set<Op>): Rows
  {
    map id | id in rows :: rows[id].(active := OpOf(id, rows[id]) in kept)
  }

  lemma {:induction false} ReactivateArchived(rows: Rows, ops: seq<Op>)
    requires SetOf(ops) <= AllOps(rows)
    ensures Reactivated(Archived(rows), ops) == KeepOnly(rows, SetOf(ops))
  {
    if ops != [] {
      var pre, op := ops[..|ops| - 1], ops[|ops| - 1];
      assert ops == pre + [op];
      assert SetOf(ops) == SetOf(pre) + {op};
      assert op in AllOps(rows);
      ReactivateArchived(rows, pre);
    }
  }

  // ----- What a push adds -----

  /** Entry i of a batch is the first to bring an id the table does not know. */
  predicate IsNew(rows: Rows, ops: seq<Op>, i: nat)
    requires i < |ops|
  {
    ops[i].id !in rows && forall j :: 0 <= j < i ==> ops[j].id != ops[i].id
  }

  /** An op as the log holds it: its own content, and the stamp with the op's own device id. */
  function AsHeld(op: Op): Op
  {
    Op(op.id, op.doc, op.field, op.value, HLC(op.ts.wall, op.ts.logical, op.dev), op.dev)
  }

  /** The ops a batch adds. */
  function NewOps(rows: Rows, ops: seq<Op>): set<Op>
  {
    set i | 0 <= i < |ops| && IsNew(rows, ops, i) :: AsHeld(ops[i])
  }

  lemma IsNewPrefix(rows: Rows, pre: seq<Op>, op: Op, i: nat)
    requires i < |pre|
    ensures IsNew(rows, pre + [op], i) <==> IsNew(rows, pre, i)
  {
    var ops := pre + [op];
    assert forall j :: 0 <= j <= i ==> ops[j] == pre[j];
  }

  lemma NewOpsGrow(rows: Rows, pre: seq<Op>, op: Op)
    ensures NewOps(rows, pre + [op])
            == NewOps(rows, pre) + if op.id !in Inserted(rows, pre) then {AsHeld(op)} else {}
  {
    var ops := pre + [op];
    forall i: nat | i < |pre| ensures IsNew(rows, ops, i) == IsNew(rows, pre, i) && ops[i] == pre[i] {
      IsNewPrefix(rows, pre, op, i);
    }
    InsertedIds(rows, pre);
    assert IsNew(rows, ops, |pre|) <==> op.id !in Inserted(rows, pre);
    forall o | o in NewOps(rows, ops)
      ensures o in NewOps(rows, pre) || (op.id !in Inserted(rows, pre) && o == AsHeld(op))
    {
      var i :| 0 <= i < |ops| && IsNew(rows, ops, i) && o == AsHeld(ops[i]);
    }
    forall o | o in NewOps(rows, pre) ensures o in NewOps(rows, ops) {
      var i :| 0 <= i < |pre| && IsNew(rows, pre, i) && o == AsHeld(pre[i]);
      assert IsNew(rows, ops, i) && ops[i] == pre[i];
    }
    if op.id !in Inserted(rows, pre) {
      assert ops[|pre|] == op;
    }
  }

  lemma {:induction false} InsertedIds(rows: Rows, ops: seq<Op>)
    ensures forall id :: id in Inserted(rows, ops) <==> id in rows || exists i :: 0 <= i < |ops| && ops[i].id == id
    ensures forall id :: id in rows ==> Inserted(rows, ops)[id] == rows[id]
  {
    if ops != [] {
      var pre := ops[..|ops| - 1];
      InsertedIds(rows, pre);
      forall id | id in Inserted(rows, ops) && id !in rows ensures exists i :: 0 <= i < |ops| && ops[i].id == id {
        if id in Inserted(rows, pre) {
          var i :| 0 <= i < |pre| && pre[i].id == id;
          assert ops[i].id == id;
        } else {
          assert ops[|ops| - 1].id == id;
        }
      }
      forall i | 0 <= i < |ops| ensures ops[i].id in Inserted(rows, ops) {
        if i < |pre| {
          assert pre[i].id == ops[i].id;
        }
      }
    }
  }

  lemma InsertOneActive(rows: Rows, op: Op)
    ensures var added := if op.id in rows then {} else {AsHeld(op)};
            && ActiveOps(InsertOne(rows, op)) == ActiveOps(rows) + added
            && AllOps(InsertOne(rows, op)) == AllOps(rows) + added
  {
    var rows' := InsertOne(rows, op);
    forall o ensures o in AllOps(rows') <==> o in AllOps(rows) || (op.id !in rows && o == AsHeld(op)) {
      RowsToOps(rows, o);
      RowsToOps(rows', o);
    }
    forall o ensures o in ActiveOps(rows') <==> o in ActiveOps(rows) || (op.id !in rows && o == AsHeld(op)) {
      RowsToOps(rows, o);
      RowsToOps(rows', o);
    }
  }

  /** A committed push makes the first op of every id that was new active, with the content it came with,
      whatever else the log holds; it changes nothing else. */
  lemma {:induction false} PushIsVisible(rows: Rows, ops: seq<Op>)
    ensures ActiveOps(Inserted(rows, ops)) == ActiveOps(rows) + NewOps(rows, ops)
    ensures AllOps(Inserted(rows, ops)) == AllOps(rows) + NewOps(rows, ops)
  {
    if ops != [] {
      var pre, last := ops[..|ops| - 1], ops[|ops| - 1];
      PushIsVisible(rows, pre);
      assert ops == pre + [last];
      NewOpsGrow(rows, pre, last);
      InsertOneActive(Inserted(rows, pre), last);
    }
  }

  /** And so the answer at any cursor grows by exactly the new ops after that cursor. */
  lemma PushIsAnswered(rows: Rows, ops: seq<Op>, since: HLC, answer: seq<Op>)
    requires IsQuery(Inserted(rows, ops), since, answer)
    ensures forall o :: o in answer
                        <==> o in Selected(rows, since) || (o in NewOps(rows, ops) && AfterCursor(o.ts, since))
  {
    PushIsVisible(rows, ops);
    forall o ensures o in answer <==> o in SetOf(answer) {}
    forall o ensures o in Selected(rows, since) <==> o in ActiveOps(rows) && AfterCursor(o.ts, since) {}
    var rows' := Inserted(rows, ops);
    forall o ensures o in Selected(rows', since) <==> o in ActiveOps(rows') && AfterCursor(o.ts, since) {}
  }

  predicate Names(ops: seq<Op>, id: string)
  {
    exists i :: 0 <= i < |ops| && ops[i].id == id
  }

  /** Reactivating: a row named is active with the content it had, any other is as it was. */
  lemma {:induction false} ReactivatedAt(rows: Rows, ops: seq<Op>, id: string)
    requires id in rows
    ensures id in Reactivated(rows, ops)
    ensures Reactivated(rows, ops)[id] == if Names(ops, id) then rows[id].(active := true) else rows[id]
  {
    if ops != [] {
      var pre, last := ops[..|ops| - 1], ops[|ops| - 1];
      ReactivatedAt(rows, pre, id);
      if last.id == id {
        assert Names(ops, id);
      } else if Names(ops, id) {
        var i :| 0 <= i < |ops| && ops[i].id == id;
        assert pre[i].id == id;
      }
    }
  }

  lemma {:induction false} ReactivatedIds(rows: Rows, ops: seq<Op>)
    ensures Reactivated(rows, ops).Keys == Inserted(rows, ops).Keys
    ensures forall id :: id in Inserted(rows, ops) <==> id in rows || exists i :: 0 <= i < |ops| && ops[i].id == id
  {
    InsertedIds(rows, ops);
    if ops != [] {
      ReactivatedIds(rows, ops[..|ops| - 1]);
    }
  }

  lemma {:induction false} ReactivatedAdds(rows: Rows, ops: seq<Op>)
    ensures AllOps(Reactivated(rows, ops)) == AllOps(rows) + NewOps(rows, ops)
  {
    if ops != [] {
      var pre, last := ops[..|ops| - 1], ops[|ops| - 1];
      assert ops == pre + [last];
      ReactivatedAdds(rows, pre);
      NewOpsGrow(rows, pre, last);
      ReactivatedIds(rows, pre);
      ReactivateOneOps(Reactivated(rows, pre), last);
    }
  }

  lemma {:induction false} ReactivatedIsActive(rows: Rows, ops: seq<Op>)
    ensures forall o :: o in ops ==> o.id in Reactivated(rows, ops) && Reactivated(rows, ops)[o.id].active
  {
    if ops != [] {
      ReactivatedIsActive(rows, ops[..|ops| - 1]);
      assert ops == ops[..|ops| - 1] + [ops[|ops| - 1]];
    }
  }

  lemma ReactivateOneOps(rows: Rows, op: Op)
    ensures AllOps(ReactivateOne(rows, op)) == AllOps(rows) + if op.id in rows then {} else {AsHeld(op)}
  {
    var rows' := ReactivateOne(rows, op);
    forall o ensures o in AllOps(rows') <==> o in AllOps(rows) || (op.id !in rows && o == AsHeld(op)) {
      RowsToOps(rows, o);
      RowsToOps(rows', o);
    }
  }

  /** Same ops in the same rows, whatever their status. */
  predicate SameButStatus(a: Rows, b: Rows)
  {
    a.Keys == b.Keys && forall id :: id in a ==> a[id].(active := true) == b[id].(active := true)
  }

  /** ops is the answer of the delta query: the selected rows, each once, in stamp order.
      Rows with equal stamps may come in either order. */
  ghost predicate IsQuery(rows: Rows, since: HLC, ops: seq<Op>)
  {
    && SetOf(ops) == Selected(rows, since)
    && |ops| == |Selected(rows, since)|
    && InOrder(ops)
  }

  ghost predicate InOrder(ops: seq<Op>)
  {
    forall i, j :: 0 <= i < j < |ops| ==> ops[i] != ops[j] && !Before(ops[j].ts, ops[i].ts)
  }

  /** Everything still to come is new and not before what is already out. */
  ghost predicate Follows(ops: seq<Op>, left: set<Op>)
  {
    forall i, o :: 0 <= i < |ops| && o in left ==> ops[i] != o && !Before(o.ts, ops[i].ts)
  }

  predicate Earliest(s: set<Op>, o: Op)
  {
    o in s && forall x :: x in s ==> !Before(x.ts, o.ts)
  }

  lemma TakeEarliest(ops: seq<Op>, left: set<Op>, o: Op)
    requires InOrder(ops) && Follows(ops, left) && Earliest(left, o)
    ensures InOrder(ops + [o]) && Follows(ops + [o], left - {o})
    ensures SetOf(ops + [o]) + (left - {o}) == SetOf(ops) + left
  {
  }

  /** The running maximum of the backend's loops, from the zero stamp. */
  function MaxStamp(ops: seq<Op>): HLC
  {
    if ops == [] then ZERO
    else
      var m := MaxStamp(ops[..|ops| - 1]);
      if Before(m, ops[|ops| - 1].ts) then ops[|ops| - 1].ts else m
  }

  lemma {:induction false} EarliestExists(s: set<Op>)
    requires s != {}
    ensures exists o :: Earliest(s, o)
  {
    var o :| o in s;
    if s == {o} {
      BeforeIrreflexive(o.ts);
      assert Earliest(s, o);
    } else {
      EarliestExists(s - {o});
      var e :| Earliest(s - {o}, e);
      BeforeIrreflexive(o.ts);
      if Before(o.ts, e.ts) {
        forall x | x in s ensures !Before(x.ts, o.ts) {
          BeforeStrictTotalOrder(x.ts, o.ts, e.ts);
        }
        assert Earliest(s, o);
      } else {
        assert Earliest(s, e);
      }
    }
  }

  // ----- Snapshots -----

  /** The loop of Compact that builds one state per doc out of the ops it keeps. */
  function DocStates(kept: seq<Op>): map<string, Snap>
  {
    if kept == [] then map[]
    else
      var op := kept[|kept| - 1];
      var docMap := DocStates(kept[..|kept| - 1]);
      var ds := if op.doc in docMap then docMap[op.doc] else Snap(map[], ZERO);
      docMap[op.doc := Snap(ds.fields[op.field := op.value], if Before(ds.hlc, op.ts) then op.ts else ds.hlc)]
  }

  /** before with the rows of the docs in done replaced. */
  function Written(before: map<string, Snap>, docMap: map<string, Snap>, done: set<string>): map<string, Snap>
  {
    before + map d | d in done && d in docMap :: docMap[d]
  }

  lemma WrittenAdd(before: map<string, Snap>, docMap: map<string, Snap>, done: set<string>, doc: string)
    requires doc in docMap
    ensures Written(before, docMap, done)[doc := docMap[doc]] == Written(before, docMap, done + {doc})
  {
  }

  lemma WrittenAll(before: map<string, Snap>, docMap: map<string, Snap>)
    ensures Written(before, docMap, docMap.Keys) == before + docMap
  {
  }

  lemma PartSizes<T>(all: set<T>, left: set<T>, done: set<T>)
    requires left <= all && done <= all
    requires forall x :: x in all ==> (x in left <==> x !in done)
    ensures |done| + |left| == |all|
  {
    assert all == done + left;
  }

  // ----- The table -----

  class Backend {
    var rows: Rows
    var snapshots: map<string, Snap>
    var schema: int

    constructor ()
      ensures rows == map[] && snapshots == map[] && schema == 1
    {
      rows := map[];
      snapshots := map[];
      schema := 1;
    }

    /** One transaction: it commits every row or, when any call fails, none. */
    method InsertOps(ops: seq<Op>, fault: Fault) returns (r: Result<()>)
      modifies this`rows
      ensures r.Ok? <==> !FailsWithin(fault, 0, |ops|)
      ensures r.Ok? ==> rows == Inserted(old(rows), ops)
      ensures r.Ok? ==> ActiveOps(rows) == ActiveOps(old(rows)) + NewOps(old(rows), ops)
      ensures r.Err? ==> rows == old(rows) && r.error == InsertFailed
    {
      var tx := rows;
      for i := 0 to |ops|
        invariant tx == Inserted(rows, ops[..i])
        invariant fault.FailAt? ==> i <= fault.call
        invariant rows == old(rows)
      {
        if fault == FailAt(i) {
          return Err(InsertFailed);
        }
        assert ops[..i + 1][..i] == ops[..i];
        if ops[i].id !in tx {
          tx := tx[ops[i].id := RowOf(ops[i])];
        }
      }
      if fault == FailAt(|ops|) {
        return Err(InsertFailed);
      }
      assert ops[..|ops|] == ops;
      PushIsVisible(rows, ops);
      rows := tx;
      return Ok(());
    }

    /** Picks the earliest remaining row until none is left. */
    method QueryOps(since: HLC) returns (ops: seq<Op>)
      ensures IsQuery(rows, since, ops)
    {
      ops := [];
      var left := Selected(rows, since);
      while left != {}
        invariant SetOf(ops) + left == Selected(rows, since)
        invariant |ops| + |left| == |Selected(rows, since)|
        invariant InOrder(ops) && Follows(ops, left)
        decreases left
      {
        EarliestExists(left);
        var o :| Earliest(left, o);
        TakeEarliest(ops, left, o);
        ops := ops + [o];
        left := left - {o};
      }
    }

    method CountOps() returns (count: nat)
      ensures count == |ActiveOps(rows)|
    {
      count := |ActiveOps(rows)|;
    }

    method ArchiveOps()
      modifies this`rows
      ensures rows == Archived(old(rows))
    {
      rows := Archived(rows);
    }

    /** One transaction: it commits every row or, when any call fails, none. */
    method ReactivateOps(ops: seq<Op>, fault: Fault) returns (r: Result<()>)
      modifies this`rows
      ensures r == if FailsWithin(fault, 0, |ops|) then Err(ReactivateFailed) else Ok(())
      ensures rows == if r.Ok? then Reactivated(old(rows), ops) else old(rows)
    {
      var tx := rows;
      for i := 0 to |ops|
        invariant tx == Reactivated(rows, ops[..i])
        invariant fault.FailAt? ==> i <= fault.call
        invariant rows == old(rows)
      {
        if fault == FailAt(i) {
          return Err(ReactivateFailed);
        }
        assert ops[..i + 1][..i] == ops[..i];
        tx := ReactivateOne(tx, ops[i]);
      }
      if fault == FailAt(|ops|) {
        return Err(ReactivateFailed);
      }
      assert ops[..|ops|] == ops;
      rows := tx;
      return Ok(());
    }

    method WriteSnapshot(doc: string, snap: Snap)
      modifies this`snapshots
      ensures snapshots == old(snapshots)[doc := snap]
    {
      snapshots := snapshots[doc := snap];
    }

    // ----- The backend -----

    method MergeOps(ops: seq<Op>, fault: Fault) returns (r: Result<()>)
      modifies this`rows
      ensures r.Ok? <==> !FailsWithin(fault, 0, |ops|)
      ensures r.Ok? ==> rows == Inserted(old(rows), ops)
      ensures r.Err? ==> rows == old(rows) && r.error == InsertFailed
    {
      r := InsertOps(ops, fault);
    }

    method GetDelta(since: HLC, fault: Fault) returns (r: Result<(seq<Op>, HLC)>)
      ensures r.Err? <==> fault.FailAt?
      ensures r.Err? ==> r.error == QueryFailed
      ensures r.Ok? ==> IsQuery(rows, since, r.value.0) && r.value.1 == MaxStamp(r.value.0)
    {
      if fault.FailAt? {
        return Err(QueryFailed);
      }
      var ops := QueryOps(since);
      var maxHLC := MaxOf(ops);
      return Ok((ops, maxHLC));
    }

    static method MaxOf(ops: seq<Op>) returns (maxHLC: HLC)
      ensures maxHLC == MaxStamp(ops)
    {
      maxHLC := ZERO;
      for i := 0 to |ops|
        invariant maxHLC == MaxStamp(ops[..i])
      {
        assert ops[..i + 1][..i] == ops[..i];
        if Before(maxHLC, ops[i].ts) {
          maxHLC := ops[i].ts;
        }
      }
      assert ops[..|ops|] == ops;
    }

    method GetSnapshot(fault: Fault) returns (r: Result<(map<string, Value>, HLC)>)
      ensures r.Err? <==> fault.FailAt?
      ensures r.Err? ==> r.error == QueryFailed
      ensures r.Ok? ==>
                exists ops :: IsQuery(rows, ZERO, ops) && IsFlat(r.value.0, Merged(ops)) && r.value.1 == MaxStamp(ops)
    {
      if fault.FailAt? {
        return Err(QueryFailed);
      }
      var ops := QueryOps(ZERO);
      var nested := Merge(ops);
      var maxHLC := MaxOf(ops);
      var flat := FlattenDocs(nested, Merged(ops));
      return Ok((flat, maxHLC));
    }

    /** The recorded schema version, one when none is recorded. */
    method SchemaVersion(ok: bool) returns (r: Result<int>)
      ensures r == if ok then Ok(schema) else Err(SchemaFailed)
    {
      return if ok then Ok(schema) else Err(SchemaFailed);
    }

    method OpCount(fault: Fault) returns (r: Result<nat>)
      ensures r == if fault.FailAt? then Err(QueryFailed) else Ok(|ActiveOps(rows)|)
    {
      if fault.FailAt? {
        return Err(QueryFailed);
      }
      var n := CountOps();
      return Ok(n);
    }

    /** Replays the log into one latest op per cell, records a snapshot row per doc,
        archives the table and brings the latest ops back. fault says which of the
        calls - query, one write per doc, archive, the reactivating transaction - fails. */
    method Compact(fault: Fault) returns (r: Result<()>)
      modifies this`rows, this`snapshots
      ensures CompactDone(old(rows), old(snapshots), fault, rows, snapshots, r)
    {
      if fault == FailAt(0) {
        return Err(QueryFailed);
      }
      var kept := LatestOps();
      var docMap := CollectDocs(kept);
      ghost var done;
      r, done := WriteSnapshots(docMap, fault);
      if r.Ok? {
        r := ArchiveAndReactivate(kept, fault, |docMap| + 1);
      }
      assert Outcome(old(rows), old(snapshots), fault, kept, done, rows, snapshots, r);
    }

    /** The replay: query, winner map, list of winners. */
    method LatestOps() returns (kept: seq<Op>)
      ensures IsWinnerList(Visible(rows), kept) && SetOf(kept) <= AllOps(rows)
    {
      var ops := QueryOps(ZERO);
      var winMap := WinMap(ops);
      MergedIsWinnerMap(ops);
      kept := InAnyOrder(winMap);
      KeptIsWinnerList(rows, winMap, kept);
    }

    method WriteSnapshots(docMap: map<string, Snap>, fault: Fault) returns (r: Result<()>, ghost done: set<string>)
      modifies this`snapshots
      ensures r == if FailsWithin(fault, 1, |docMap|) then Err(SnapshotFailed) else Ok(())
      ensures done <= docMap.Keys && (if r.Ok? then docMap.Keys <= done else |done| == fault.call - 1)
      ensures snapshots == Written(old(snapshots), docMap, done)
    {
      var docs := docMap.Keys;
      var calls := 1;
      ghost var was := snapshots;
      done := {};
      while docs != {}
        invariant docs <= docMap.Keys && done <= docMap.Keys
        invariant forall d :: d in docMap ==> d in docs || d in done
        invariant forall d :: d in done ==> d !in docs
        invariant calls + |docs| == 1 + |docMap|
        invariant fault.FailAt? && 1 <= fault.call ==> calls <= fault.call
        invariant snapshots == Written(was, docMap, done)
        decreases docs
      {
        if fault == FailAt(calls) {
          PartSizes(docMap.Keys, docs, done);
          return Err(SnapshotFailed), done;
        }
        var doc :| doc in docs;
        WriteSnapshot(doc, docMap[doc]);
        WrittenAdd(was, docMap, done, doc);
        docs, done, calls := docs - {doc}, done + {doc}, calls + 1;
      }
      return Ok(()), done;
    }

    method ArchiveAndReactivate(kept: seq<Op>, fault: Fault, call: nat) returns (r: Result<()>)
      requires SetOf(kept) <= AllOps(rows)
      modifies this`rows
      ensures r == if fault == FailAt(call) then Err(ArchiveFailed)
                   else if ReactivateFails(fault, call + 1, kept) then Err(ReactivateFailed)
                   else Ok(())
      ensures rows == if r.Ok? then KeepOnly(old(rows), SetOf(kept))
                      else if r.error == ReactivateFailed then Archived(old(rows))
                      else old(rows)
    {
      if fault == FailAt(call) {
        return Err(ArchiveFailed);
      }
      ArchiveOps();
      ReactivateArchived(old(rows), kept);
      if |kept| > 0 {
        r := ReactivateOps(kept, FaultFrom(fault, call + 1));
      } else {
        r := Ok(());
      }
    }

    /** The flat-key winner map. */
    static method WinMap(ops: seq<Op>) returns (winMap: CellMap)
      ensures winMap == Merged(ops)
    {
      winMap := map[];
      for i := 0 to |ops|
        invariant winMap == Merged(ops[..i])
      {
        assert ops[..i + 1][..i] == ops[..i];
        var key := Cell(ops[i].doc, ops[i].field);
        if key !in winMap || Before(winMap[key].ts, ops[i].ts) {
          winMap := winMap[key := ops[i]];
        }
      }
      assert ops[..|ops|] == ops;
    }

    /** Ranging over the winner map. */
    static method InAnyOrder(winMap: CellMap) returns (kept: seq<Op>)
      requires forall c :: c in winMap ==> winMap[c].Key() == c
      ensures SetOf(kept) == winMap.Values && OnePerCell(kept)
    {
      kept := [];
      var keys := winMap.Keys;
      while keys != {}
        invariant keys <= winMap.Keys
        invariant forall c :: c in winMap && c !in keys ==> winMap[c] in kept
        invariant forall o :: o in kept ==> o.Key() in winMap && o.Key() !in keys && winMap[o.Key()] == o
        invariant OnePerCell(kept)
        decreases keys
      {
        var key :| key in keys;
        kept := kept + [winMap[key]];
        keys := keys - {key};
      }
    }

    static method CollectDocs(kept: seq<Op>) returns (docMap: map<string, Snap>)
      ensures docMap == DocStates(kept)
    {
      docMap := map[];
      for i := 0 to |kept|
        invariant docMap == DocStates(kept[..i])
      {
        assert kept[..i + 1][..i] == kept[..i];
        var op := kept[i];
        var ds := if op.doc in docMap then docMap[op.doc] else Snap(map[], ZERO);
        var hlc := if Before(ds.hlc, op.ts) then op.ts else ds.hlc;
        docMap := docMap[op.doc := Snap(ds.fields[op.field := op.value], hlc)];
      }
      assert kept[..|kept|] == kept;
    }
  }

  // ----- What Compact does -----

  ghost predicate OnePerCell(kept: seq<Op>)
  {
    forall i, j :: 0 <= i < j < |kept| ==> kept[i].Key() != kept[j].Key()
  }

  /** kept is one latest op for every cell of s. */
  ghost predicate IsWinnerList(s: set<Op>, kept: seq<Op>)
  {
    && OnePerCell(kept)
    && (forall o :: o in kept ==> Wins(s, o))
    && CellsOf(SetOf(kept)) == CellsOf(s)
  }

  lemma KeptIsWinnerList(rows: Rows, w: CellMap, kept: seq<Op>)
    requires IsWinnerMap(Visible(rows), w) && SetOf(kept) == w.Values && OnePerCell(kept)
    ensures IsWinnerList(Visible(rows), kept)
    ensures SetOf(kept) <= AllOps(rows)
  {
    forall o | o in kept ensures Wins(Visible(rows), o) {
      assert o in SetOf(kept);
    }
    forall c | c in w ensures c in CellsOf(SetOf(kept)) {
      assert w[c] in SetOf(kept) && w[c].Key() == c;
    }
  }

  /** The outcome of Compact, by the statement that failed. */
  ghost predicate CompactDone(rows: Rows, snaps: map<string, Snap>, fault: Fault,
                              rows': Rows, snaps': map<string, Snap>, r: Result<()>)
  {
    if fault == FailAt(0) then r == Err(QueryFailed) && rows' == rows && snaps' == snaps
    else
      exists kept, done ::
        IsWinnerList(Visible(rows), kept) && Outcome(rows, snaps, fault, kept, done, rows', snaps', r)
  }

  /** One of the calls of the reactivating transaction, one per op and the commit, fails. */
  predicate ReactivateFails(fault: Fault, first: nat, kept: seq<Op>)
  {
    kept != [] && FailsWithin(fault, first, first + |kept|)
  }

  ghost predicate Outcome(rows: Rows, snaps: map<string, Snap>, fault: Fault, kept: seq<Op>, done: set<string>,
                          rows': Rows, snaps': map<string, Snap>, r: Result<()>)
  {
    var docMap := DocStates(kept);
    && done <= docMap.Keys && snaps' == Written(snaps, docMap, done)
    && if FailsWithin(fault, 1, |docMap|) then
         r == Err(SnapshotFailed) && rows' == rows && |done| == fault.call - 1
       else
         && done == docMap.Keys
         && if fault == FailAt(|docMap| + 1) then r == Err(ArchiveFailed) && rows' == rows
            else if ReactivateFails(fault, |docMap| + 2, kept) then
              r == Err(ReactivateFailed) && rows' == Archived(rows)
            else r == Ok(()) && rows' == KeepOnly(rows, SetOf(kept))
  }
}
