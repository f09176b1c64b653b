/** The snapshot rows and the statement boundaries of Compact. */
module Snapshots {
  import opened Hlc
  import opened Lww
  import opened OpLog
  import opened LogTheory

  // ----- Snapshot rows -----

  lemma {:induction false} DocStateHas(kept: seq<Op>, o: Op)
    requires OnePerCell(kept) && o in kept
    ensures o.doc in DocStates(kept)
    ensures var snap := DocStates(kept)[o.doc];
            o.field in snap.fields && snap.fields[o.field] == o.value && !Before(snap.hlc, o.ts)
  {
    var pre, last := kept[..|kept| - 1], kept[|kept| - 1];
    assert kept == pre + [last];
    BeforeIrreflexive(last.ts);
    if o != last {
      DocStateHas(pre, o);
      var j :| 0 <= j < |pre| && kept[j] == o;
      assert o.Key() != last.Key();
      BeforeStrictTotalOrder(DocStates(pre)[o.doc].hlc, last.ts, o.ts);
    }
  }

  lemma {:induction false} DocStateField(kept: seq<Op>, doc: string, field: string) returns (o: Op)
    requires doc in DocStates(kept) && field in DocStates(kept)[doc].fields
    ensures o in kept && o.Key() == Cell(doc, field)
  {
    var pre, last := kept[..|kept| - 1], kept[|kept| - 1];
    if last.doc == doc && last.field == field {
      o := last;
    } else {
      o := DocStateField(pre, doc, field);
    }
  }

  lemma {:induction false} DocStateClock(kept: seq<Op>, doc: string) returns (o: Op)
    requires doc in DocStates(kept) && forall o :: o in kept ==> WellStamped(o.ts)
    ensures o in kept && o.doc == doc && o.ts == DocStates(kept)[doc].hlc
  {
    var pre, last := kept[..|kept| - 1], kept[|kept| - 1];
    assert kept == pre + [last];
    CursorMeaning(last.ts, ZERO);
    if last.doc == doc && (doc !in DocStates(pre) || Before(DocStates(pre)[doc].hlc, last.ts)) {
      o := last;
    } else {
      o := DocStateClock(pre, doc);
    }
  }

  /** The row Compact writes for a doc: exactly the doc's cells with their winning values,
      stamped with the latest stamp of all the doc's visible ops, winners or not. */
  ghost predicate IsDocSnapshot(s: set<Op>, kept: seq<Op>, doc: string, snap: Snap)
  {
    && (forall f :: f in snap.fields <==> Cell(doc, f) in CellsOf(s))
    && (forall o :: o in kept && o.doc == doc ==> o.field in snap.fields && snap.fields[o.field] == o.value)
    && (forall o :: o in s && o.doc == doc ==> !Before(snap.hlc, o.ts))
    && (exists o :: o in s && o.doc == doc && o.ts == snap.hlc)
  }

  lemma SnapshotContents(rows: Rows, kept: seq<Op>, doc: string)
    requires IsWinnerList(Visible(rows), kept) && doc in DocStates(kept)
    ensures IsDocSnapshot(Visible(rows), kept, doc, DocStates(kept)[doc])
  {
    var s, snap := Visible(rows), DocStates(kept)[doc];
    forall o | o in kept ensures o in s && WellStamped(o.ts) {
      assert Wins(s, o);
    }
    forall f | f in snap.fields ensures Cell(doc, f) in CellsOf(s) {
      var o := DocStateField(kept, doc, f);
    }
    forall o | o in kept && o.doc == doc ensures o.field in snap.fields && snap.fields[o.field] == o.value {
      DocStateHas(kept, o);
    }
    forall o | o in s && o.doc == doc ensures !Before(snap.hlc, o.ts) && o.field in snap.fields {
      var k := CellKept(s, kept, o);
      DocStateHas(kept, k);
      assert Wins(s, k);
      BeforeStrictTotalOrder(o.ts, k.ts, snap.hlc);
    }
    forall f | Cell(doc, f) in CellsOf(s) ensures f in snap.fields {
      var o :| o in s && o.Key() == Cell(doc, f);
      assert o.field == f;
    }
    var top := DocStateClock(kept, doc);
  }

  lemma WrittenKeys(before: map<string, Snap>, docMap: map<string, Snap>, done: set<string>)
    requires done <= docMap.Keys
    ensures Written(before, docMap, done).Keys == before.Keys + done
    ensures forall d :: d in before && d !in done ==> Written(before, docMap, done)[d] == before[d]
    ensures forall d :: d in done ==> Written(before, docMap, done)[d] == docMap[d]
  {
  }

  /** However far Compact gets past its query, it writes one snapshot row per call that went through and touches no
      other; each row written holds the doc's cells with their winning values and its latest visible stamp. */
  lemma SnapshotsWritten(rows: Rows, snaps: map<string, Snap>, fault: Fault,
                         rows': Rows, snaps': map<string, Snap>, r: Result<()>)
    returns (kept: seq<Op>, done: set<string>)
    requires CompactDone(rows, snaps, fault, rows', snaps', r) && fault != FailAt(0)
    ensures IsWinnerList(Visible(rows), kept) && done <= DocsIn(Visible(rows)) && snaps'.Keys == snaps.Keys + done
    ensures if FailsWithin(fault, 1, |DocsIn(Visible(rows))|) then |done| == fault.call - 1
            else done == DocsIn(Visible(rows))
    ensures forall d :: d in done ==> IsDocSnapshot(Visible(rows), kept, d, snaps'[d])
    ensures forall d :: d in snaps && d !in done ==> snaps'[d] == snaps[d]
    ensures r.Ok? ==> rows' == KeepOnly(rows, SetOf(kept)) && done == DocsIn(Visible(rows))
  {
    kept, done :| IsWinnerList(Visible(rows), kept) && Outcome(rows, snaps, fault, kept, done, rows', snaps', r);
    OutcomeWrites(rows, snaps, fault, kept, done, rows', snaps', r);
    OutcomeSays(rows, snaps, fault, kept, done, rows', snaps', r);
    WrittenKeys(snaps, DocStates(kept), done);
    KeptSizes(Visible(rows), kept);
    assert |DocStates(kept)| == |DocStates(kept).Keys|;
    forall d | d in done ensures IsDocSnapshot(Visible(rows), kept, d, snaps'[d]) {
      SnapshotContents(rows, kept, d);
    }
  }

  // ----- Statement boundaries -----

  lemma ArchivedShows(rows: Rows, since: HLC)
    ensures Selected(Archived(rows), since) == {} && SameButStatus(rows, Archived(rows))
    ensures AllOps(Archived(rows)) == AllOps(rows)
  {
    var rows' := Archived(rows);
    forall id | id in rows ensures OpOf(id, rows'[id]) == OpOf(id, rows[id]) {}
  }

  function DocsIn(s: set<Op>): set<string>
  {
    set o | o in s :: o.doc
  }

  /** The call that fails is one of the reactivating transaction: the query, a write for every visible doc and
      the archiving come before it, and it has a call for every visible cell and a commit. */
  predicate StopsArchived(rows: Rows, fault: Fault)
  {
    var s := Visible(rows);
    s != {} && FailsWithin(fault, |DocsIn(s)| + 2, |DocsIn(s)| + 2 + |CellsOf(s)|)
  }

  lemma KeptSizes(s: set<Op>, kept: seq<Op>)
    requires IsWinnerList(s, kept)
    ensures DocStates(kept).Keys == DocsIn(s) && |kept| == |CellsOf(s)| && (kept == [] <==> s == {})
  {
    OnePerCellSize(kept);
    forall d | d in DocStates(kept) ensures d in DocsIn(s) {
      var o := DocStateDoc(kept, d);
      assert Wins(s, o);
    }
    forall o | o in s ensures o.doc in DocStates(kept) && kept != [] {
      var k := CellKept(s, kept, o);
      DocStateHas(kept, k);
    }
    if kept != [] {
      assert Wins(s, kept[0]);
    }
  }

  lemma {:induction false} DocStateDoc(kept: seq<Op>, doc: string) returns (o: Op)
    requires doc in DocStates(kept)
    ensures o in kept && o.doc == doc
  {
    if kept[|kept| - 1].doc == doc {
      o := kept[|kept| - 1];
    } else {
      o := DocStateDoc(kept[..|kept| - 1], doc);
    }
  }

  lemma StopsArchivedIff(rows: Rows, snaps: map<string, Snap>, fault: Fault,
                         rows': Rows, snaps': map<string, Snap>, r: Result<()>)
    requires CompactDone(rows, snaps, fault, rows', snaps', r)
    ensures r == Err(ReactivateFailed) <==> StopsArchived(rows, fault)
  {
    if fault != FailAt(0) {
      var kept, done :| IsWinnerList(Visible(rows), kept) && Outcome(rows, snaps, fault, kept, done, rows', snaps', r);
      OutcomeSays(rows, snaps, fault, kept, done, rows', snaps', r);
      ReactivateFailsIff(Visible(rows), kept, fault);
    }
  }

  lemma ReactivateFailsIff(s: set<Op>, kept: seq<Op>, fault: Fault)
    requires IsWinnerList(s, kept)
    ensures ReactivateFails(fault, |DocStates(kept)| + 2, kept)
            <==> s != {} && FailsWithin(fault, |DocsIn(s)| + 2, |DocsIn(s)| + 2 + |CellsOf(s)|)
  {
    KeptSizes(s, kept);
    assert |DocStates(kept)| == |DocStates(kept).Keys|;
  }

  /** No call of a compaction fails: the query, a write per visible doc, the archiving, and for a log that shows
      anything a reactivation per visible cell and the commit. */
  predicate AllCallsWork(rows: Rows, fault: Fault)
  {
    var s := Visible(rows);
    fault == NoFault || fault.call > if s == {} then 1 else |DocsIn(s)| + 2 + |CellsOf(s)|
  }

  /** Compact succeeds exactly when none of its calls fails. */
  lemma CompactSucceedsIff(rows: Rows, snaps: map<string, Snap>, fault: Fault,
                           rows': Rows, snaps': map<string, Snap>, r: Result<()>)
    requires CompactDone(rows, snaps, fault, rows', snaps', r)
    ensures r.Ok? <==> AllCallsWork(rows, fault)
    ensures r.Ok? ==> IsCompacted(rows, rows')
  {
    DoneIsCompacted(rows, snaps, fault, rows', snaps', r);
    if fault != FailAt(0) {
      var kept, done :| IsWinnerList(Visible(rows), kept) && Outcome(rows, snaps, fault, kept, done, rows', snaps', r);
      OutcomeSays(rows, snaps, fault, kept, done, rows', snaps', r);
      SucceedsIff(Visible(rows), kept, fault);
    }
  }

  lemma SucceedsIff(s: set<Op>, kept: seq<Op>, fault: Fault)
    requires IsWinnerList(s, kept) && fault != FailAt(0)
    ensures !FailsWithin(fault, 1, |DocStates(kept)| + 1) && !ReactivateFails(fault, |DocStates(kept)| + 2, kept)
            <==> fault == NoFault || fault.call > if s == {} then 1 else |DocsIn(s)| + 2 + |CellsOf(s)|
  {
    KeptSizes(s, kept);
    assert |DocStates(kept)| == |DocStates(kept).Keys|;
    if s == {} {
      assert |DocsIn(s)| == 0;
    }
  }

  /** Wherever Compact stops, no op is lost or altered except in status; and what readers see is what they saw
      before exactly when it did not stop after archiving and before the reactivation committed. */
  lemma CompactBoundaries(rows: Rows, snaps: map<string, Snap>, fault: Fault,
                          rows': Rows, snaps': map<string, Snap>, r: Result<()>)
    requires CompactDone(rows, snaps, fault, rows', snaps', r) && TieFree(ActiveOps(rows))
    ensures SameButStatus(rows, rows') && AllOps(rows') == AllOps(rows)
    ensures Winners(Visible(rows')) == Winners(Visible(rows)) <==> !StopsArchived(rows, fault)
    ensures StopsArchived(rows, fault) ==> rows' == Archived(rows)
  {
    DoneIsCompacted(rows, snaps, fault, rows', snaps', r);
    StopsArchivedIff(rows, snaps, fault, rows', snaps', r);
    if r == Err(ReactivateFailed) {
      ArchivedShows(rows, ZERO);
      var o :| o in Visible(rows);
      assert o.Key() in CellsOf(Visible(rows));
      assert Winners(Visible(rows)) != Winners(Visible(rows'));
    } else if r.Ok? {
      CompactPostcondition(rows, rows');
      SelectedSeen(rows, ZERO);
      CompactionInvisibleIff(rows, rows', ZERO);
    }
  }

  // ----- Order and repetition -----

  lemma SnapAt(kept: seq<Op>, other: seq<Op>, doc: string)
    requires OnePerCell(kept) && OnePerCell(other) && SetOf(kept) == SetOf(other) && doc in DocStates(kept)
    requires forall o :: o in kept ==> WellStamped(o.ts)
    ensures doc in DocStates(other) && DocStates(kept)[doc] == DocStates(other)[doc]
  {
    forall o | o in other ensures WellStamped(o.ts) {
      assert o in SetOf(kept);
    }
    SnapWithin(kept, other, doc);
    SnapWithin(other, kept, doc);
    BeforeTotal(DocStates(kept)[doc].hlc, DocStates(other)[doc].hlc);
  }

  lemma SnapWithin(kept: seq<Op>, other: seq<Op>, doc: string)
    requires OnePerCell(other) && SetOf(kept) == SetOf(other) && doc in DocStates(kept)
    requires OnePerCell(kept) && forall o :: o in kept ==> WellStamped(o.ts)
    ensures doc in DocStates(other) && !Before(DocStates(other)[doc].hlc, DocStates(kept)[doc].hlc)
    ensures forall f :: f in DocStates(kept)[doc].fields ==>
              f in DocStates(other)[doc].fields && DocStates(kept)[doc].fields[f] == DocStates(other)[doc].fields[f]
  {
    var top := DocStateClock(kept, doc);
    assert top in SetOf(other);
    DocStateHas(other, top);
    forall f | f in DocStates(kept)[doc].fields
      ensures f in DocStates(other)[doc].fields && DocStates(kept)[doc].fields[f] == DocStates(other)[doc].fields[f]
    {
      var o := DocStateField(kept, doc, f);
      assert o in SetOf(other);
      DocStateHas(kept, o);
      DocStateHas(other, o);
    }
  }

  lemma SameSetSameDocs(kept: seq<Op>, other: seq<Op>)
    requires OnePerCell(kept) && OnePerCell(other) && SetOf(kept) == SetOf(other)
    requires forall o :: o in kept ==> WellStamped(o.ts)
    ensures DocStates(kept) == DocStates(other)
  {
    forall o | o in other ensures WellStamped(o.ts) {
      assert o in SetOf(kept);
    }
    forall d | d in DocStates(kept) ensures d in DocStates(other) && DocStates(kept)[d] == DocStates(other)[d] {
      SnapAt(kept, other, d);
    }
    forall d | d in DocStates(other) ensures d in DocStates(kept) {
      SnapAt(other, kept, d);
    }
  }

  lemma KeptSeen(rows: Rows, kept: seq<Op>)
    requires IsWinnerList(Visible(rows), kept)
    ensures forall o :: o in kept ==> WellStamped(o.ts)
  {
    forall o | o in kept ensures WellStamped(o.ts) {
      assert Wins(Visible(rows), o);
    }
  }

  lemma DoneWith(rows: Rows, snaps: map<string, Snap>, fault: Fault, rows': Rows, snaps': map<string, Snap>)
    returns (kept: seq<Op>)
    requires CompactDone(rows, snaps, fault, rows', snaps', Ok(()))
    ensures IsWinnerList(Visible(rows), kept) && forall o :: o in kept ==> WellStamped(o.ts)
    ensures rows' == KeepOnly(rows, SetOf(kept)) && snaps' == snaps + DocStates(kept)
  {
    var done;
    kept, done :| IsWinnerList(Visible(rows), kept)
                  && Outcome(rows, snaps, fault, kept, done, rows', snaps', Ok(()));
    OutcomeSays(rows, snaps, fault, kept, done, rows', snaps', Ok(()));
    OutcomeWrites(rows, snaps, fault, kept, done, rows', snaps', Ok(()));
    WrittenAll(snaps, DocStates(kept));
    KeptSeen(rows, kept);
  }

  /** On a tie-free log two compactions of the same table end in the same rows and the same snapshot rows, in
      whatever order the rows and the maps were ranged over. */
  lemma CompactDeterministic(rows: Rows, snaps: map<string, Snap>, f: Fault, a: Rows, sa: map<string, Snap>,
                             g: Fault, b: Rows, sb: map<string, Snap>)
    requires CompactDone(rows, snaps, f, a, sa, Ok(())) && CompactDone(rows, snaps, g, b, sb, Ok(()))
    requires TieFree(ActiveOps(rows))
    ensures a == b && sa == sb
  {
    var kept := DoneWith(rows, snaps, f, a, sa);
    var other := DoneWith(rows, snaps, g, b, sb);
    forall o ensures o in SetOf(kept) <==> o in SetOf(other) {
      KeptIsWinner(rows, kept, o);
      KeptIsWinner(rows, other, o);
    }
    assert SetOf(kept) == SetOf(other);
    SameSetSameDocs(kept, other);
  }

  /** A second compaction changes neither an op row nor a snapshot row. */
  lemma CompactIdempotent(rows: Rows, snaps: map<string, Snap>, f: Fault, rows': Rows, snaps': map<string, Snap>,
                          g: Fault, rows'': Rows, snaps'': map<string, Snap>)
    requires CompactDone(rows, snaps, f, rows', snaps', Ok(()))
    requires CompactDone(rows', snaps', g, rows'', snaps'', Ok(()))
    ensures rows'' == rows' && snaps'' == snaps'
  {
    var kept := DoneWith(rows, snaps, f, rows', snaps');
    var again := DoneWith(rows', snaps', g, rows'', snaps'');
    KeptActive(rows, kept);
    KeptOfKept(kept, again);
    KeepTwice(rows, SetOf(kept));
    SameSetSameDocs(again, kept);
  }
}
