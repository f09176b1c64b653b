/** What the op log means to its readers: compaction is invisible, and the state
    depends only on which ops arrived. */
module LogTheory {
  import opened Hlc
  import opened Lww
  import opened OpLog

  /** A successful Compact. */
  ghost predicate IsCompacted(rows: Rows, rows': Rows)
  {
    exists kept :: IsWinnerList(Visible(rows), kept) && rows' == KeepOnly(rows, SetOf(kept))
  }

  // ----- A compaction that ran -----

  lemma OutcomeSays(rows: Rows, snaps: map<string, Snap>, fault: Fault, kept: seq<Op>, done: set<string>,
                    rows': Rows, snaps': map<string, Snap>, r: Result<()>)
    requires Outcome(rows, snaps, fault, kept, done, rows', snaps', r)
    ensures r == Err(ReactivateFailed) <==> ReactivateFails(fault, |DocStates(kept)| + 2, kept)
    ensures r.Err? ==> rows' == if r.error == ReactivateFailed then Archived(rows) else rows
    ensures r.Ok? ==> rows' == KeepOnly(rows, SetOf(kept))
    ensures r.Ok? <==> !FailsWithin(fault, 1, |DocStates(kept)| + 1)
                       && !ReactivateFails(fault, |DocStates(kept)| + 2, kept)
  {
  }

  lemma OutcomeWrites(rows: Rows, snaps: map<string, Snap>, fault: Fault, kept: seq<Op>, done: set<string>,
                      rows': Rows, snaps': map<string, Snap>, r: Result<()>)
    requires Outcome(rows, snaps, fault, kept, done, rows', snaps', r)
    ensures done <= DocStates(kept).Keys && snaps' == Written(snaps, DocStates(kept), done)
    ensures if FailsWithin(fault, 1, |DocStates(kept)|) then |done| == fault.call - 1 else done == DocStates(kept).Keys
  {
  }

  lemma DoneIsCompacted(rows: Rows, snaps: map<string, Snap>, fault: Fault,
                        rows': Rows, snaps': map<string, Snap>, r: Result<()>)
    requires CompactDone(rows, snaps, fault, rows', snaps', r)
    ensures r.Ok? ==> IsCompacted(rows, rows')
    ensures r.Err? ==> rows' == if r.error == ReactivateFailed then Archived(rows) else rows
    ensures r == Err(ReactivateFailed) ==> Visible(rows) != {}
  {
    if fault != FailAt(0) {
      var kept, done :| IsWinnerList(Visible(rows), kept) && Outcome(rows, snaps, fault, kept, done, rows', snaps', r);
      OutcomeSays(rows, snaps, fault, kept, done, rows', snaps', r);
      if kept != [] {
        assert Wins(Visible(rows), kept[0]);
      }
    }
  }

  // ----- What is selected after a compaction -----

  lemma SelectedAfter(rows: Rows, kept: seq<Op>, since: HLC, o: Op)
    requires IsWinnerList(Visible(rows), kept)
    ensures o in Selected(KeepOnly(rows, SetOf(kept)), since) <==> o in Selected(rows, since) && o in kept
  {
    var rows' := KeepOnly(rows, SetOf(kept));
    if o in kept {
      assert Wins(Visible(rows), o);
      assert rows'[o.id].active;
    }
    if o in Selected(rows', since) {
      assert o.id in rows && OpOf(o.id, rows[o.id]) == o;
    }
  }

  lemma KeptIsWinner(rows: Rows, kept: seq<Op>, o: Op)
    requires IsWinnerList(Visible(rows), kept) && TieFree(ActiveOps(rows))
    ensures o in kept <==> Wins(Visible(rows), o)
  {
    if Wins(Visible(rows), o) {
      var k := CellKept(Visible(rows), kept, o);
      assert Wins(Visible(rows), k);
      BeforeTotal(k.ts, o.ts);
      assert k in ActiveOps(rows) && o in ActiveOps(rows);
    }
  }

  /** The winner of a delta, if a fresh client could see it, survives compaction. */
  lemma WinnerIsKept(rows: Rows, kept: seq<Op>, since: HLC, o: Op)
    requires IsWinnerList(Visible(rows), kept) && TieFree(ActiveOps(rows))
    requires Wins(Selected(rows, since), o) && WellStamped(o.ts)
    ensures o in kept
  {
    assert o in Visible(rows);
    forall x | x in Visible(rows) && x.Key() == o.Key() ensures !Before(o.ts, x.ts) {
      BeforeStrictTotalOrder(o.ts, x.ts, x.ts);
      if !Before(x.ts, o.ts) {
        AfterCursorUpward(o.ts, x.ts, since);
        assert x in Selected(rows, since);
      }
    }
    KeptIsWinner(rows, kept, o);
  }

  lemma SelectedTieFree(rows: Rows, since: HLC)
    requires TieFree(ActiveOps(rows))
    ensures TieFree(Selected(rows, since)) && TopTieFree(Selected(rows, since))
  {
    assert Selected(rows, since) <= ActiveOps(rows);
    TieFreeTop(Selected(rows, since));
  }

  /** Compaction leaves the merged delta at a cursor unchanged exactly when no winner of
      that delta is stamped at or below zero. */
  lemma CompactionInvisibleIff(rows: Rows, rows': Rows, since: HLC)
    requires IsCompacted(rows, rows') && TieFree(ActiveOps(rows))
    ensures Winners(Selected(rows', since)) == Winners(Selected(rows, since))
            <==> forall o :: Wins(Selected(rows, since), o) ==> WellStamped(o.ts)
  {
    var kept :| IsWinnerList(Visible(rows), kept) && rows' == KeepOnly(rows, SetOf(kept));
    var s, t := Selected(rows, since), Selected(rows', since);
    forall o ensures o in t <==> o in s && o in kept { SelectedAfter(rows, kept, since, o); }
    SelectedTieFree(rows, since);
    if forall o :: Wins(s, o) ==> WellStamped(o.ts) {
      WinnersSurvive(rows, kept, since, s, t);
    } else {
      var o :| Wins(s, o) && !WellStamped(o.ts);
      var w, v, c := Winners(s), Winners(t), o.Key();
      assert c in CellsOf(s);
      assert Wins(s, w[c]) && w[c] == o;
      assert o in kept ==> Wins(Visible(rows), o);
      assert o !in t && (c in v ==> Wins(t, v[c]));
    }
  }

  lemma WinnersSurvive(rows: Rows, kept: seq<Op>, since: HLC, s: set<Op>, t: set<Op>)
    requires IsWinnerList(Visible(rows), kept) && TieFree(ActiveOps(rows))
    requires s == Selected(rows, since) && forall o :: o in t <==> o in s && o in kept
    requires forall o :: Wins(s, o) ==> WellStamped(o.ts)
    ensures Winners(t) == Winners(s)
  {
    var w := Winners(s);
    forall c | c in w ensures w[c] in t {
      WinnerIsKept(rows, kept, since, w[c]);
    }
    SmallerSameWinners(s, t, w);
    SelectedTieFree(rows, since);
    TieFreeTop(t);
    WinnerMapUnique(t, w, Winners(t));
  }

  /** A subset that still holds the winners has the same winners. */
  lemma SmallerSameWinners(s: set<Op>, t: set<Op>, w: CellMap)
    requires IsWinnerMap(s, w) && t <= s && forall c :: c in w ==> w[c] in t
    ensures IsWinnerMap(t, w)
  {
    forall c | c in w ensures c in CellsOf(t) {
      assert w[c] in t && w[c].Key() == c;
    }
  }

  lemma {:induction false} MaxStampMeaning(ops: seq<Op>)
    ensures !Before(MaxStamp(ops), ZERO)
    ensures forall o :: o in ops ==> !Before(MaxStamp(ops), o.ts)
    ensures MaxStamp(ops) == ZERO || exists o :: o in ops && o.ts == MaxStamp(ops)
  {
    if ops == [] {
      BeforeIrreflexive(ZERO);
    } else {
      var pre, last := ops[..|ops| - 1], ops[|ops| - 1];
      MaxStampMeaning(pre);
      assert ops == pre + [last];
      var m, n := MaxStamp(pre), MaxStamp(ops);
      BeforeIrreflexive(n);
      BeforeStrictTotalOrder(ZERO, m, n);
      BeforeTotal(m, last.ts);
      forall o | o in ops ensures !Before(n, o.ts) {
        if o in pre {
          BeforeStrictTotalOrder(m, n, o.ts);
        }
      }
    }
  }

  /** The maximum stamp of well-stamped ops is the maximum stamp of their winners. */
  lemma MaxStampOfWinners(ops: seq<Op>)
    requires forall o :: o in ops ==> WellStamped(o.ts)
    ensures IsTop(Merged(ops), MaxStamp(ops))
  {
    MergedIsWinnerMap(ops);
    MaxStampMeaning(ops);
    var w, m := Merged(ops), MaxStamp(ops);
    forall c | c in w ensures !Before(m, w[c].ts) {
      assert w[c] in SetOf(ops);
    }
    if ops != [] {
      var o := ops[0];
      assert o in ops;
      CursorMeaning(o.ts, ZERO);
      assert m != ZERO;
      var top :| top in ops && top.ts == m;
      assert top in SetOf(ops) && top.Key() in CellsOf(SetOf(ops));
      var x := w[top.Key()];
      assert Wins(SetOf(ops), x) && x in SetOf(ops);
      BeforeTotal(x.ts, m);
    }
  }

  ghost predicate IsTop(w: CellMap, m: HLC)
  {
    && (forall c :: c in w ==> !Before(m, w[c].ts))
    && (if w == map[] then m == ZERO else exists c :: c in w && w[c].ts == m)
  }

  lemma TopUnique(w: CellMap, m: HLC, n: HLC)
    requires IsTop(w, m) && IsTop(w, n)
    ensures m == n
  {
    BeforeTotal(m, n);
  }

  lemma DeltaMerges(rows: Rows, since: HLC, ops: seq<Op>)
    requires IsQuery(rows, since, ops) && TieFree(ActiveOps(rows)) && FromZero(since)
    ensures Merged(ops) == Winners(Selected(rows, since))
    ensures IsTop(Winners(Selected(rows, since)), MaxStamp(ops))
  {
    SelectedTieFree(rows, since);
    MergedIsWinners(ops);
    FromZeroIff(since);
    forall o | o in ops ensures WellStamped(o.ts) {
      assert o in SetOf(ops);
    }
    MaxStampOfWinners(ops);
  }

  lemma CompactedTieFree(rows: Rows, rows': Rows)
    requires IsCompacted(rows, rows') && TieFree(ActiveOps(rows))
    ensures ActiveOps(rows') <= Visible(rows) <= ActiveOps(rows) && TieFree(ActiveOps(rows'))
  {
    var kept :| IsWinnerList(Visible(rows), kept) && rows' == KeepOnly(rows, SetOf(kept));
    forall o | o in ActiveOps(rows') ensures o in Visible(rows) {
      assert o in kept && Wins(Visible(rows), o);
    }
  }

  /** For every cursor a client can hold, a delta merges to the same state and carries the
      same maximum stamp before and after a compaction, in whatever order rows come. */
  lemma CompactionInvisible(rows: Rows, rows': Rows, since: HLC, ops: seq<Op>, ops': seq<Op>)
    requires IsCompacted(rows, rows') && TieFree(ActiveOps(rows)) && FromZero(since)
    requires IsQuery(rows, since, ops) && IsQuery(rows', since, ops')
    ensures Merged(ops') == Merged(ops) && MaxStamp(ops') == MaxStamp(ops)
  {
    SelectedSeen(rows, since);
    CompactionInvisibleIff(rows, rows', since);
    CompactedTieFree(rows, rows');
    DeltaMerges(rows, since, ops);
    DeltaMerges(rows', since, ops');
    TopUnique(Winners(Selected(rows, since)), MaxStamp(ops), MaxStamp(ops'));
  }

  lemma SelectedSeen(rows: Rows, since: HLC)
    requires FromZero(since)
    ensures forall o :: o in Selected(rows, since) ==> WellStamped(o.ts)
  {
    FromZeroIff(since);
  }

  // ----- After a compaction -----

  lemma {:induction false} OnePerCellSize(kept: seq<Op>)
    requires OnePerCell(kept)
    ensures |SetOf(kept)| == |kept| == |CellsOf(SetOf(kept))|
  {
    if kept != [] {
      OnePerCellSize(kept[..|kept| - 1]);
      LastCellIsNew(kept);
    }
  }

  lemma LastCellIsNew(kept: seq<Op>)
    requires OnePerCell(kept) && kept != []
    ensures var s, last := SetOf(kept[..|kept| - 1]), kept[|kept| - 1];
            && SetOf(kept) == s + {last} && last !in s
            && CellsOf(SetOf(kept)) == CellsOf(s) + {last.Key()} && last.Key() !in CellsOf(s)
  {
    var pre, last := kept[..|kept| - 1], kept[|kept| - 1];
    assert kept == pre + [last];
    assert SetOf(kept) == SetOf(pre) + {last};
    forall o | o in SetOf(pre) ensures o.Key() != last.Key() {
      var j :| 0 <= j < |pre| && pre[j] == o;
      assert kept[j] == o;
    }
  }

  lemma CellKept(s: set<Op>, kept: seq<Op>, o: Op) returns (k: Op)
    requires IsWinnerList(s, kept) && o in s
    ensures k in kept && k.Key() == o.Key()
  {
    assert o.Key() in CellsOf(SetOf(kept));
    k :| k in SetOf(kept) && k.Key() == o.Key();
  }

  /** The active rows become the winners of what was visible: one per cell, each latest there;
      no op leaves or enters the table; how ties or map order fell does not matter for tie-free logs. */
  lemma CompactPostcondition(rows: Rows, rows': Rows)
    requires IsCompacted(rows, rows')
    ensures SameButStatus(rows, rows') && AllOps(rows') == AllOps(rows)
    ensures ActiveOps(rows') == Visible(rows') <= Visible(rows)
    ensures forall o :: o in ActiveOps(rows') ==> Wins(Visible(rows), o)
    ensures CellsOf(ActiveOps(rows')) == CellsOf(Visible(rows))
    ensures |ActiveOps(rows')| == |CellsOf(Visible(rows))|
  {
    var kept :| IsWinnerList(Visible(rows), kept) && rows' == KeepOnly(rows, SetOf(kept));
    KeptActive(rows, kept);
    OnePerCellSize(kept);
    forall o | o in SetOf(kept) ensures Wins(Visible(rows), o) {}
  }

  lemma KeptActive(rows: Rows, kept: seq<Op>)
    requires IsWinnerList(Visible(rows), kept)
    ensures ActiveOps(KeepOnly(rows, SetOf(kept))) == SetOf(kept) == Visible(KeepOnly(rows, SetOf(kept)))
    ensures SetOf(kept) <= Visible(rows) && AllOps(KeepOnly(rows, SetOf(kept))) == AllOps(rows)
    ensures SameButStatus(rows, KeepOnly(rows, SetOf(kept)))
  {
    var rows' := KeepOnly(rows, SetOf(kept));
    forall id | id in rows ensures OpOf(id, rows'[id]) == OpOf(id, rows[id]) {}
    forall o ensures o in ActiveOps(rows') <==> o in kept {
      RowsToOps(rows', o);
      if o in kept {
        assert Wins(Visible(rows), o);
        assert o in AllOps(rows);
      }
    }
    forall o ensures o in Visible(rows') <==> o in kept {
      SelectedAfter(rows, kept, ZERO, o);
      if o in kept {
        assert Wins(Visible(rows), o);
      }
    }
  }

  lemma KeepTwice(rows: Rows, kept: set<Op>)
    ensures KeepOnly(KeepOnly(rows, kept), kept) == KeepOnly(rows, kept)
  {
    var rows' := KeepOnly(rows, kept);
    forall id | id in rows ensures OpOf(id, rows'[id]) == OpOf(id, rows[id]) {}
  }

  lemma KeptOfKept(kept: seq<Op>, again: seq<Op>)
    requires OnePerCell(kept) && IsWinnerList(SetOf(kept), again)
    ensures SetOf(again) == SetOf(kept)
  {
    forall o | o in kept ensures o in again {
      assert o in SetOf(kept);
      var k := CellKept(SetOf(kept), again, o);
      assert Wins(SetOf(kept), k) && k in kept;
    }
    forall o | o in again ensures o in kept {
      assert Wins(SetOf(kept), o);
    }
  }
}
