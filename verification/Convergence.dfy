/** Strong eventual consistency of the log: what readers see is a function of the
    set of ops that ever arrived. */
module Convergence {
  import opened Hlc
  import opened Lww
  import opened OpLog
  import opened LogTheory

  /** The latest op of every cell, over active and archived rows alike, is active. */
  ghost predicate LatestActive(rows: Rows)
  {
    forall o :: Wins(AllOps(rows), o) && WellStamped(o.ts) ==> rows[o.id].active
  }

  // ----- One step -----

  lemma InsertOneOps(rows: Rows, op: Op)
    ensures AllOps(InsertOne(rows, op)) == if op.id in rows then AllOps(rows) else AllOps(rows) + {Stored(op)}
  {
    var rows' := InsertOne(rows, op);
    forall o ensures o in AllOps(rows') <==> o in AllOps(rows) || (op.id !in rows && o == Stored(op)) {
      RowsToOps(rows, o);
      RowsToOps(rows', o);
    }
  }

  lemma InsertKeepsLatestActive(rows: Rows, op: Op)
    requires LatestActive(rows)
    ensures LatestActive(InsertOne(rows, op))
  {
    var rows' := InsertOne(rows, op);
    InsertOneOps(rows, op);
    forall o | Wins(AllOps(rows'), o) && WellStamped(o.ts) ensures rows'[o.id].active {
      if o.id in rows && op.id !in rows {
        RowsToOps(rows', o);
        assert Wins(AllOps(rows), o);
      }
    }
  }

  lemma {:induction false} MergeKeepsLatestActive(rows: Rows, ops: seq<Op>)
    requires LatestActive(rows)
    ensures LatestActive(Inserted(rows, ops))
  {
    if ops != [] {
      MergeKeepsLatestActive(rows, ops[..|ops| - 1]);
      InsertKeepsLatestActive(Inserted(rows, ops[..|ops| - 1]), ops[|ops| - 1]);
    }
  }

  lemma CompactKeepsLatestActive(rows: Rows, rows': Rows)
    requires LatestActive(rows) && TieFree(AllOps(rows)) && IsCompacted(rows, rows')
    ensures LatestActive(rows')
  {
    var kept :| IsWinnerList(Visible(rows), kept) && rows' == KeepOnly(rows, SetOf(kept));
    KeptActive(rows, kept);
    assert Visible(rows) <= AllOps(rows) && ActiveOps(rows) <= AllOps(rows);
    forall o | Wins(AllOps(rows), o) && WellStamped(o.ts) ensures rows'[o.id].active {
      RowsToOps(rows, o);
      assert Wins(Visible(rows), o);
      KeptIsWinner(rows, kept, o);
      RowsToOps(rows', o);
      assert o in SetOf(kept);
    }
  }

  /** With the invariant, a delta is a window on the state of every op ever inserted:
      the cells whose winner is after the cursor. */
  function AboveCursor(w: CellMap, since: HLC): CellMap
  {
    map c | c in w && AfterCursor(w[c].ts, since) :: w[c]
  }

  lemma DeltaIsWindow(rows: Rows, since: HLC)
    requires LatestActive(rows) && TieFree(AllOps(rows)) && FromZero(since)
    ensures Winners(Selected(rows, since)) == AboveCursor(Winners(AllOps(rows)), since)
  {
    var s, all := Selected(rows, since), AllOps(rows);
    var w := Winners(all);
    var v := AboveCursor(w, since);
    FromZeroIff(since);
    assert s <= all;
    forall c | c in v ensures v[c] in s && v[c].Key() == c {
      assert Wins(all, w[c]);
    }
    forall o | o in s ensures o.Key() in v {
      assert o.Key() in CellsOf(all);
      AfterCursorUpward(o.ts, w[o.Key()].ts, since);
    }
    WindowWins(all, s, w, v);
    TieFreeTop(s);
    WinnerMapUnique(s, Winners(s), v);
  }

  lemma WindowWins(all: set<Op>, s: set<Op>, w: CellMap, v: CellMap)
    requires IsWinnerMap(all, w) && s <= all
    requires forall c :: c in v ==> c in w && v[c] == w[c] && v[c] in s
    requires forall o :: o in s ==> o.Key() in v
    ensures IsWinnerMap(s, v)
  {
    forall c | c in v ensures Wins(s, v[c]) && c in CellsOf(s) {
      assert Wins(all, w[c]) && w[c].Key() == c;
    }
  }

  // ----- Histories -----

  datatype Act = Push(ops: seq<Op>) | CompactNow

  ghost predicate ActStep(act: Act, rows: Rows, rows': Rows)
  {
    match act
    case Push(ops) => rows' == Inserted(rows, ops)
    case CompactNow => IsCompacted(rows, rows')
  }

  /** rows is a table the log can hold after these batches and compactions, from start. */
  ghost predicate ReachesFrom(start: Rows, acts: seq<Act>, rows: Rows)
  {
    if acts == [] then rows == start
    else exists mid :: ReachesFrom(start, Earlier(acts), mid) && ActStep(Last(acts), mid, rows)
  }

  ghost predicate Reaches(acts: seq<Act>, rows: Rows)
  {
    ReachesFrom(map[], acts, rows)
  }

  function Earlier(acts: seq<Act>): (pre: seq<Act>)
    requires acts != []
    ensures |pre| < |acts|
  {
    acts[..|acts| - 1]
  }

  function Last(acts: seq<Act>): Act
    requires acts != []
  {
    acts[|acts| - 1]
  }

  function StoredSet(ops: seq<Op>): set<Op>
  {
    set o | o in ops :: Stored(o)
  }

  function Pushed(acts: seq<Act>): set<Op>
  {
    if acts == [] then {}
    else
      var earlier := Pushed(Earlier(acts));
      match Last(acts)
      case Push(ops) => earlier + StoredSet(ops)
      case CompactNow => earlier
  }

  /** An op id stands for one op. */
  ghost predicate UniqueIds(s: set<Op>)
  {
    forall a, b :: a in s && b in s && a.id == b.id ==> a == b
  }

  lemma UniqueSubset(s: set<Op>, t: set<Op>)
    requires UniqueIds(s) && t <= s
    ensures UniqueIds(t)
  {
  }

  lemma {:induction false} InsertedOps(rows: Rows, ops: seq<Op>)
    requires UniqueIds(AllOps(rows) + StoredSet(ops))
    ensures AllOps(Inserted(rows, ops)) == AllOps(rows) + StoredSet(ops)
  {
    if ops != [] {
      var pre, last := ops[..|ops| - 1], ops[|ops| - 1];
      StoredLast(ops);
      var s, t := AllOps(rows) + StoredSet(ops), AllOps(rows) + StoredSet(pre);
      assert s == t + {Stored(last)};
      UniqueSubset(s, t);
      InsertedOps(rows, pre);
      InsertOneUnique(Inserted(rows, pre), last);
    }
  }

  lemma {:induction false} InsertedExtends(rows: Rows, ops: seq<Op>)
    ensures forall id :: id in rows ==> id in Inserted(rows, ops) && Inserted(rows, ops)[id] == rows[id]
  {
    if ops != [] {
      InsertedExtends(rows, ops[..|ops| - 1]);
    }
  }

  lemma StoredLast(ops: seq<Op>)
    requires ops != []
    ensures StoredSet(ops) == StoredSet(ops[..|ops| - 1]) + {Stored(ops[|ops| - 1])}
  {
    assert ops == ops[..|ops| - 1] + [ops[|ops| - 1]];
  }

  lemma InsertOneUnique(rows: Rows, op: Op)
    requires UniqueIds(AllOps(rows) + {Stored(op)})
    ensures AllOps(InsertOne(rows, op)) == AllOps(rows) + {Stored(op)}
  {
    InsertOneOps(rows, op);
    if op.id in rows {
      var held := OpOf(op.id, rows[op.id]);
      RowsToOps(rows, held);
      assert held == Stored(op);
    }
  }

  lemma {:induction false} HistoryInvariant(acts: seq<Act>, rows: Rows)
    requires Reaches(acts, rows) && UniqueIds(Pushed(acts)) && TieFree(Pushed(acts))
    ensures AllOps(rows) == Pushed(acts) && LatestActive(rows)
  {
    if acts != [] {
      var mid :| ReachesFrom(map[], Earlier(acts), mid) && ActStep(Last(acts), mid, rows);
      assert Pushed(Earlier(acts)) <= Pushed(acts);
      HistoryInvariant(Earlier(acts), mid);
      match Last(acts)
      case Push(ops) =>
        InsertedOps(mid, ops);
        MergeKeepsLatestActive(mid, ops);
      case CompactNow =>
        CompactPostcondition(mid, rows);
        CompactKeepsLatestActive(mid, rows);
    }
  }

  /** Two logs that received the same set of ops - in any order, batching and duplication, with
      compactions anywhere between - answer every delta and every snapshot with the same state. */
  lemma StrongEventualConsistency(a: seq<Act>, b: seq<Act>, ra: Rows, rb: Rows, since: HLC, da: seq<Op>, db: seq<Op>)
    requires Reaches(a, ra) && Reaches(b, rb) && Pushed(a) == Pushed(b)
    requires UniqueIds(Pushed(a)) && TieFree(Pushed(a)) && FromZero(since)
    requires IsQuery(ra, since, da) && IsQuery(rb, since, db)
    ensures Merged(da) == Merged(db) == AboveCursor(Winners(Pushed(a)), since)
    ensures MaxStamp(da) == MaxStamp(db)
  {
    HistoryInvariant(a, ra);
    HistoryInvariant(b, rb);
    DeltaIsWindow(ra, since);
    DeltaIsWindow(rb, since);
    assert ActiveOps(ra) <= AllOps(ra) && ActiveOps(rb) <= AllOps(rb);
    DeltaMerges(ra, since, da);
    DeltaMerges(rb, since, db);
    TopUnique(Winners(Selected(ra, since)), MaxStamp(da), MaxStamp(db));
  }

  /** A fresh reader sees the winners of every op ever inserted, except those stamped at or below zero. */
  lemma VisibleIsEverythingIff(rows: Rows)
    requires LatestActive(rows) && TieFree(AllOps(rows))
    ensures Winners(Visible(rows)) == AboveCursor(Winners(AllOps(rows)), ZERO)
    ensures Winners(Visible(rows)) == Winners(AllOps(rows))
            <==> forall o :: Wins(AllOps(rows), o) ==> WellStamped(o.ts)
  {
    DeltaIsWindow(rows, ZERO);
    var all := AllOps(rows);
    WholeWindowIff(all, Winners(all));
  }

  lemma WholeWindowIff(s: set<Op>, w: CellMap)
    requires IsWinnerMap(s, w) && TieFree(s)
    ensures AboveCursor(w, ZERO) == w <==> forall o :: Wins(s, o) ==> WellStamped(o.ts)
  {
    if forall o :: Wins(s, o) ==> WellStamped(o.ts) {
      forall c | c in w ensures WellStamped(w[c].ts) {
        assert Wins(s, w[c]);
      }
    } else {
      var o :| Wins(s, o) && !WellStamped(o.ts);
      TieFreeTop(s);
      assert o.Key() in CellsOf(s);
      assert Wins(s, w[o.Key()]) && w[o.Key()] == o;
      assert o.Key() !in AboveCursor(w, ZERO);
    }
  }

  /** The snapshot is the state of all ops ever pushed exactly when no cell's latest op is stamped at or below zero. */
  lemma SnapshotIsEverythingIff(acts: seq<Act>, rows: Rows)
    requires Reaches(acts, rows) && UniqueIds(Pushed(acts)) && TieFree(Pushed(acts))
    ensures Winners(Visible(rows)) == Winners(Pushed(acts))
            <==> forall o :: Wins(Pushed(acts), o) ==> WellStamped(o.ts)
  {
    HistoryInvariant(acts, rows);
    VisibleIsEverythingIff(rows);
  }

  // ----- A compaction that stopped half-way -----

  /** Rows the log holds archived, under these ids. */
  predicate Dead(rows: Rows, ids: set<string>)
  {
    forall id :: id in ids ==> id in rows && !rows[id].active
  }

  function OpsWithout(ops: seq<Op>, ids: set<string>): seq<Op>
  {
    if ops == [] then []
    else
      var pre, last := OpsWithout(ops[..|ops| - 1], ids), ops[|ops| - 1];
      if last.id in ids then pre else pre + [last]
  }

  function ActsWithout(acts: seq<Act>, ids: set<string>): seq<Act>
  {
    if acts == [] then []
    else
      ActsWithout(Earlier(acts), ids) + [ActWithout(Last(acts), ids)]
  }

  function ActWithout(act: Act, ids: set<string>): Act
  {
    match act
    case Push(ops) => Push(OpsWithout(ops, ids))
    case CompactNow => CompactNow
  }

  lemma {:induction false} InsertBeside(rows: Rows, ops: seq<Op>, ids: set<string>)
    requires Dead(rows, ids)
    ensures forall id :: id in ids ==> id in Inserted(rows, ops) && Inserted(rows, ops)[id] == rows[id]
    ensures Inserted(rows, ops) - ids == Inserted(rows - ids, OpsWithout(ops, ids))
  {
    if ops != [] {
      InsertBeside(rows, ops[..|ops| - 1], ids);
    }
  }

  lemma DeadUnseen(rows: Rows, ids: set<string>)
    requires Dead(rows, ids)
    ensures Visible(rows - ids) == Visible(rows)
  {
    var rest := rows - ids;
    forall o ensures o in Visible(rest) <==> o in Visible(rows) {
      if o in Visible(rows) {
        assert o.id in rest && rest[o.id] == rows[o.id];
      }
    }
  }

  lemma CompactBeside(rows: Rows, rows': Rows, ids: set<string>)
    requires Dead(rows, ids) && IsCompacted(rows, rows')
    ensures forall id :: id in ids ==> id in rows' && rows'[id] == rows[id]
    ensures IsCompacted(rows - ids, rows' - ids)
  {
    var kept :| IsWinnerList(Visible(rows), kept) && rows' == KeepOnly(rows, SetOf(kept));
    DeadUnseen(rows, ids);
    forall id | id in ids ensures OpOf(id, rows[id]) !in SetOf(kept) {
      assert OpOf(id, rows[id]) in SetOf(kept) ==> Wins(Visible(rows), OpOf(id, rows[id]));
    }
    assert rows' - ids == KeepOnly(rows - ids, SetOf(kept));
  }

  lemma StepBeside(rows: Rows, act: Act, rows': Rows, ids: set<string>)
    requires Dead(rows, ids) && ActStep(act, rows, rows')
    ensures forall id :: id in ids ==> id in rows' && rows'[id] == rows[id]
    ensures ActStep(ActWithout(act, ids), rows - ids, rows' - ids)
  {
    match act
    case Push(ops) => InsertBeside(rows, ops, ids);
    case CompactNow => CompactBeside(rows, rows', ids);
  }

  lemma ReachesMore(start: Rows, acts: seq<Act>, mid: Rows, act: Act, rows: Rows)
    requires ReachesFrom(start, acts, mid) && ActStep(act, mid, rows)
    ensures ReachesFrom(start, acts + [act], rows)
  {
    var all := acts + [act];
    assert Earlier(all) == acts && Last(all) == act;
  }

  /** An archived row is never touched again, and the log goes on exactly as it would without the row,
      ignoring the ops that carry its id. */
  lemma {:induction false} DeadForever(start: Rows, acts: seq<Act>, rows: Rows, ids: set<string>)
    requires ReachesFrom(start, acts, rows) && Dead(start, ids)
    ensures forall id :: id in ids ==> id in rows && rows[id] == start[id]
    ensures ReachesFrom(start - ids, ActsWithout(acts, ids), rows - ids)
  {
    if acts != [] {
      var mid :| ReachesFrom(start, Earlier(acts), mid) && ActStep(Last(acts), mid, rows);
      DeadForever(start, Earlier(acts), mid, ids);
      StepBeside(mid, Last(acts), rows, ids);
      ReachesMore(start - ids, ActsWithout(Earlier(acts), ids), mid - ids, ActWithout(Last(acts), ids), rows - ids);
    }
  }

  /** Once Compact has stopped between archiving and reactivating, whatever is pushed and compacted later, no
      row of the time comes back: to its readers the log is one that started empty and ignores those ids. */
  lemma StrandedForever(rows: Rows, acts: seq<Act>, rows': Rows)
    requires ReachesFrom(Archived(rows), acts, rows')
    ensures forall id :: id in rows ==> id in rows' && rows'[id] == Archived(rows)[id]
    ensures Reaches(ActsWithout(acts, rows.Keys), rows' - rows.Keys)
    ensures Visible(rows') == Visible(rows' - rows.Keys)
  {
    DeadForever(Archived(rows), acts, rows', rows.Keys);
    DeadUnseen(rows', rows.Keys);
    assert Archived(rows) - rows.Keys == map[];
  }

  // ----- Size -----

  lemma ActiveSizeAfterCompact(rows: Rows, rows': Rows)
    requires IsCompacted(rows, rows')
    ensures |ActiveOps(rows')| == |CellsOf(Visible(rows))| <= |CellsOf(AllOps(rows))|
    ensures |ActiveOps(rows')| <= |ActiveOps(rows)|
  {
    CompactPostcondition(rows, rows');
    assert CellsOf(Visible(rows)) <= CellsOf(AllOps(rows));
    SubsetSize(CellsOf(Visible(rows)), CellsOf(AllOps(rows)));
    assert ActiveOps(rows') <= ActiveOps(rows);
    SubsetSize(ActiveOps(rows'), ActiveOps(rows));
  }

  lemma {:induction false} SubsetSize<T>(a: set<T>, b: set<T>)
    requires a <= b
    ensures |a| <= |b|
  {
    if a != {} {
      var x :| x in a;
      SubsetSize(a - {x}, b - {x});
    }
  }
}
