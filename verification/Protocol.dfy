/** Whole runs of one server and any number of clients that feed back their cursor
    and apply what they receive by last-write-wins. */
module Protocol {
  import opened Options
  import opened Hlc
  import opened Lww
  import opened OpLog
  import opened LogTheory
  import opened Flatten
  import opened Convergence
  import opened Engine
  import opened SyncTheory
  import ClockRuns

  /** A client: its cursor, every op it was ever sent in order, and the ops that entered the
      log at or below its cursor of the moment. */
  datatype Client = Client(cursor: HLC, delivered: seq<Op>, late: set<Op>)
  {
    function Replica(): CellMap { Merged(delivered) }
  }

  datatype System = System(rows: Rows, clock: HLC, clients: map<string, Client>)

  const INITIAL: System := System(map[], ZERO, map[])

  datatype Label =
    | Join(client: string)
    | Exchange(client: string, ops: seq<Op>, now: Int64, answer: seq<Op>)
    | Unanswered(client: string, ops: seq<Op>, now: Int64)
    | PushOnly(ops: seq<Op>)
    | CompactNow

  function Below(rows: Rows, cursor: HLC): set<Op>
  {
    set o | o in AllOps(rows) && !AfterCursor(o.ts, cursor)
  }

  /** The table grew from rows to rows': what was added at or below the cursor is late. */
  function Aged(c: Client, rows: Rows, rows': Rows): Client
  {
    c.(late := c.late + set o | o in AllOps(rows') - AllOps(rows) && !AfterCursor(o.ts, c.cursor))
  }

  function AgedAll(cs: map<string, Client>, rows: Rows, rows': Rows): map<string, Client>
  {
    map i | i in cs :: Aged(cs[i], rows, rows')
  }

  /** Merge, then nothing or a compaction. */
  ghost predicate Pushes(rows: Rows, ops: seq<Op>, rows': Rows)
  {
    rows' == Inserted(rows, ops) || IsCompacted(Inserted(rows, ops), rows')
  }

  ghost predicate Step(dev: string, l: Label, s: System, s': System)
  {
    match l
    case Join(i) =>
      && i !in s.clients
      && s' == s.(clients := s.clients[i := Client(ZERO, [], Below(s.rows, ZERO))])
    case Exchange(i, ops, now, answer) =>
      && i in s.clients && now > 0
      && Pushes(s.rows, ops, s'.rows)
      && s'.clock == Received(s.clock, dev, s.clients[i].cursor, now)
      && IsQuery(s'.rows, s.clients[i].cursor, answer)
      && var c := Aged(s.clients[i], s.rows, s'.rows);
         s'.clients == AgedAll(s.clients, s.rows, s'.rows)
                       [i := Client(NewCursor(answer, s'.clock), c.delivered + answer, c.late)]
    case Unanswered(i, ops, now) =>
      && i in s.clients && now > 0
      && (s'.rows == s.rows || Pushes(s.rows, ops, s'.rows))
      && s'.clock == Received(s.clock, dev, s.clients[i].cursor, now)
      && s'.clients == AgedAll(s.clients, s.rows, s'.rows)
    case PushOnly(ops) =>
      && Pushes(s.rows, ops, s'.rows) && s'.clock == s.clock
      && s'.clients == AgedAll(s.clients, s.rows, s'.rows)
    case CompactNow =>
      && IsCompacted(s.rows, s'.rows) && s'.clock == s.clock && s'.clients == s.clients
  }

  /** What the environment supplies: stamps of one cell do not tie, and clocks stay below their limit. */
  ghost predicate Sane(s: System)
  {
    && TieFree(AllOps(s.rows))
    && !AtLimit(s.clock)
    && forall o :: o in AllOps(s.rows) ==> !AtLimit(o.ts)
  }

  ghost predicate Steps(dev: string, ls: seq<Label>, ss: seq<System>)
  {
    && |ss| == |ls| + 1 && ss[0] == INITIAL
    && forall i :: 0 <= i < |ls| ==> Step(dev, ls[i], ss[i], ss[i + 1])
  }

  ghost predicate IsRun(dev: string, ls: seq<Label>, ss: seq<System>)
  {
    Steps(dev, ls, ss) && forall i :: 0 <= i < |ss| ==> Sane(ss[i])
  }

  // ----- Requests as steps -----

  /** A request the engine answers is an Exchange, one it refuses is Unanswered. */
  function SyncLabel(i: string, msg: Message, env: Env, r: Result<Response>): Label
  {
    if r.Ok? then Exchange(i, msg.ops, env.now, r.value.ops) else Unanswered(i, msg.ops, env.now)
  }

  /** Where a request leaves the system, given the table it left. */
  function SyncTarget(dev: string, s: System, i: string, msg: Message, env: Env, rows': Rows,
                      r: Result<Response>): System
    requires i in s.clients
  {
    var clock := Received(s.clock, dev, msg.clock, env.now);
    var aged := AgedAll(s.clients, s.rows, rows');
    if r.Err? then System(rows', clock, aged)
    else
      var c := Aged(s.clients[i], s.rows, rows');
      System(rows', clock, aged[i := Client(r.value.newClock, c.delivered + r.value.ops, c.late)])
  }

  /** Whatever calls failed, a request is a step of the protocol unless it started a compaction that stopped
      between archiving and reactivating; and that is never a step. */
  lemma SyncIsStepIff(dev: string, s: System, snaps: map<string, Snap>, threshold: int, schema: int, i: string,
                      msg: Message, env: Env, rows': Rows, snaps': map<string, Snap>, compaction: Result<()>,
                      r: Result<Response>)
    requires i in s.clients && msg.clock == s.clients[i].cursor && env.now > 0
    requires SyncDone(s.rows, snaps, threshold, schema, Received(s.clock, dev, msg.clock, env.now), msg, env,
                      rows', snaps', compaction, r)
    ensures Step(dev, SyncLabel(i, msg, env, r), s, SyncTarget(dev, s, i, msg, env, rows', r))
            <==> !StrandsLog(s.rows, threshold, schema, msg, env)
    ensures StrandsLog(s.rows, threshold, schema, msg, env) ==> rows' == Archived(Inserted(s.rows, msg.ops))
  {
    SyncTable(s.rows, snaps, threshold, schema, Received(s.clock, dev, msg.clock, env.now), msg, env,
              rows', snaps', compaction, r);
  }

  lemma SyncTable(rows: Rows, snaps: map<string, Snap>, threshold: int, schema: int, clock: HLC,
                  msg: Message, env: Env, rows': Rows, snaps': map<string, Snap>, compaction: Result<()>,
                  r: Result<Response>)
    requires SyncDone(rows, snaps, threshold, schema, clock, msg, env, rows', snaps', compaction, r)
    ensures !StrandsLog(rows, threshold, schema, msg, env)
            ==> Pushes(rows, msg.ops, rows') || (r.Err? && rows' == rows)
    ensures StrandsLog(rows, threshold, schema, msg, env)
            ==> rows' == Archived(Inserted(rows, msg.ops)) && rows' != rows && !Pushes(rows, msg.ops, rows')
  {
    if Commits(msg, schema, env) && msg.ops != [] {
      var merged := Inserted(rows, msg.ops);
      MaybeCompactedCases(merged, snaps, threshold, env, rows', snaps', compaction);
      IntactIff(merged, snaps, threshold, env, rows', snaps', compaction);
      if !Intact(compaction) {
        StrandedIsNoPush(rows, msg.ops);
      }
    }
  }

  lemma StrandedIsNoPush(rows: Rows, ops: seq<Op>)
    requires Visible(Inserted(rows, ops)) != {}
    ensures !Pushes(rows, ops, Archived(Inserted(rows, ops))) && Archived(Inserted(rows, ops)) != rows
  {
    var merged := Inserted(rows, ops);
    var o :| o in Visible(merged);
    InsertedExtends(rows, ops);
    assert o.Key() in CellsOf(Visible(merged));
    if IsCompacted(merged, Archived(merged)) {
      CompactPostcondition(merged, Archived(merged));
    }
    assert merged[o.id].active && !Archived(merged)[o.id].active;
  }

  // ----- The replica invariant -----

  /** Delivered and late ops include the latest op, at or below the cursor, of every cell. */
  ghost predicate Covers(rows: Rows, c: Client)
  {
    && SetOf(c.delivered) + c.late <= Below(rows, c.cursor)
    && forall o :: Wins(Below(rows, c.cursor), o) ==> o in SetOf(c.delivered) + c.late
  }

  ghost predicate ClientInv(rows: Rows, c: Client)
  {
    FromZero(c.cursor) && !AtLimit(c.cursor) && Covers(rows, c)
  }

  ghost predicate Inv(s: System)
  {
    LatestActive(s.rows) && forall i :: i in s.clients ==> ClientInv(s.rows, s.clients[i])
  }

  lemma PushFacts(rows: Rows, ops: seq<Op>, rows': Rows)
    requires LatestActive(rows) && TieFree(AllOps(rows')) && Pushes(rows, ops, rows')
    ensures AllOps(rows) <= AllOps(rows') && LatestActive(rows')
  {
    InsertedKeeps(rows, ops);
    MergeKeepsLatestActive(rows, ops);
    if rows' != Inserted(rows, ops) {
      CompactPostcondition(Inserted(rows, ops), rows');
      CompactKeepsLatestActive(Inserted(rows, ops), rows');
    }
  }

  lemma AgedCovers(rows: Rows, rows': Rows, c: Client)
    requires Covers(rows, c) && AllOps(rows) <= AllOps(rows')
    ensures Covers(rows', Aged(c, rows, rows'))
  {
    var d := Aged(c, rows, rows');
    assert Below(rows, c.cursor) <= Below(rows', c.cursor);
    forall o | Wins(Below(rows', c.cursor), o) ensures o in SetOf(d.delivered) + d.late {
      if o in AllOps(rows) {
        assert Wins(Below(rows, c.cursor), o);
      }
    }
  }

  /** An answer brings the client up to everything. */
  lemma AnswerCovers(rows: Rows, c: Client, answer: seq<Op>, last: HLC, dev: string, now: Int64)
    requires LatestActive(rows) && ClientInv(rows, c) && now > 0 && !AtLimit(last)
    requires IsQuery(rows, c.cursor, answer)
    ensures var next := NewCursor(answer, Received(last, dev, c.cursor, now));
            && Below(rows, next) == AllOps(rows) && FromZero(next)
            && Covers(rows, Client(next, c.delivered + answer, c.late))
  {
    var next := NewCursor(answer, Received(last, dev, c.cursor, now));
    NewCursorSelected(rows, c.cursor, answer, last, dev, now);
    forall o | o in AllOps(rows) ensures o in Below(rows, next) {
      NothingEverAfterNewCursor(rows, c.cursor, answer, last, dev, now, o);
    }
    assert SetOf(c.delivered + answer) == SetOf(c.delivered) + SetOf(answer);
    assert SetOf(answer) <= AllOps(rows);
    forall o | Wins(AllOps(rows), o) ensures o in SetOf(c.delivered) + SetOf(answer) + c.late {
      WinnerReaches(rows, c, answer, o);
    }
  }

  /** A cell's latest op is in the answer or was covered before. */
  lemma WinnerReaches(rows: Rows, c: Client, answer: seq<Op>, o: Op)
    requires LatestActive(rows) && ClientInv(rows, c) && IsQuery(rows, c.cursor, answer)
    requires Wins(AllOps(rows), o)
    ensures o in SetOf(c.delivered) + SetOf(answer) + c.late
  {
    if AfterCursor(o.ts, c.cursor) {
      FromZeroIff(c.cursor);
      RowsToOps(rows, o);
      assert o in Selected(rows, c.cursor);
    } else {
      assert Wins(Below(rows, c.cursor), o);
    }
  }

  lemma NewCursorBelowLimit(rows: Rows, since: HLC, answer: seq<Op>, server: HLC)
    requires IsQuery(rows, since, answer) && !AtLimit(server)
    requires forall o :: o in AllOps(rows) ==> !AtLimit(o.ts)
    ensures !AtLimit(NewCursor(answer, server))
  {
    if NewCursor(answer, server) != server {
      var top := NewCursorCases(rows, since, answer, server);
      assert top in SetOf(answer) && top in AllOps(rows);
    }
  }

  lemma AgedInv(rows: Rows, rows': Rows, cs: map<string, Client>)
    requires forall i :: i in cs ==> ClientInv(rows, cs[i])
    requires AllOps(rows) <= AllOps(rows')
    ensures forall i :: i in cs ==> ClientInv(rows', AgedAll(cs, rows, rows')[i])
  {
    forall i | i in cs ensures ClientInv(rows', AgedAll(cs, rows, rows')[i]) {
      AgedCovers(rows, rows', cs[i]);
    }
  }

  lemma ExchangeInv(dev: string, s: System, s': System, i: string, ops: seq<Op>, now: Int64, answer: seq<Op>)
    requires Inv(s) && Sane(s) && Sane(s') && Step(dev, Exchange(i, ops, now, answer), s, s')
    ensures LatestActive(s'.rows) && ClientInv(s'.rows, s'.clients[i])
    ensures Below(s'.rows, s'.clients[i].cursor) == AllOps(s'.rows)
  {
    var c := Aged(s.clients[i], s.rows, s'.rows);
    PushFacts(s.rows, ops, s'.rows);
    assert ClientInv(s.rows, s.clients[i]);
    AgedCovers(s.rows, s'.rows, s.clients[i]);
    AnswerCovers(s'.rows, c, answer, s.clock, dev, now);
    NewCursorBelowLimit(s'.rows, c.cursor, answer, s'.clock);
  }

  lemma InvStep(dev: string, l: Label, s: System, s': System)
    requires Inv(s) && Sane(s) && Sane(s') && Step(dev, l, s, s')
    ensures Inv(s')
  {
    match l
    case Join(i) =>
      FromZeroClient(s.rows);
    case Exchange(i, ops, now, answer) =>
      PushFacts(s.rows, ops, s'.rows);
      AgedInv(s.rows, s'.rows, s.clients);
      ExchangeInv(dev, s, s', i, ops, now, answer);
    case Unanswered(i, ops, now) =>
      if s'.rows != s.rows {
        PushFacts(s.rows, ops, s'.rows);
      }
      AgedInv(s.rows, s'.rows, s.clients);
    case PushOnly(ops) =>
      PushFacts(s.rows, ops, s'.rows);
      AgedInv(s.rows, s'.rows, s.clients);
    case CompactNow =>
      CompactPostcondition(s.rows, s'.rows);
      CompactKeepsLatestActive(s.rows, s'.rows);
  }

  lemma FromZeroClient(rows: Rows)
    ensures ClientInv(rows, Client(ZERO, [], Below(rows, ZERO)))
  {
  }

  lemma {:induction false} InvRun(dev: string, ls: seq<Label>, ss: seq<System>, n: nat)
    requires IsRun(dev, ls, ss) && n < |ss|
    ensures Inv(ss[n])
  {
    if n > 0 {
      InvRun(dev, ls, ss, n - 1);
      InvStep(dev, ls[n - 1], ss[n - 1], ss[n]);
    }
  }

  /** Right after an answered request, in any run: the client's replica joined with its late ops is
      the last-write-wins state of every op ever inserted. */
  lemma ReplicaInvariant(dev: string, ls: seq<Label>, ss: seq<System>, n: nat)
    requires IsRun(dev, ls, ss) && n < |ls| && ls[n].Exchange?
    ensures ls[n].client in ss[n + 1].clients
    ensures var c := ss[n + 1].clients[ls[n].client];
            Lww.Join(c.Replica(), Winners(c.late)) == Winners(AllOps(ss[n + 1].rows))
    ensures SyncedCovers(ss[n + 1].rows, ss[n + 1].clients[ls[n].client])
  {
    InvRun(dev, ls, ss, n);
    var l, s' := ls[n], ss[n + 1];
    assert Step(dev, l, ss[n], s');
    ExchangeInv(dev, ss[n], s', l.client, l.ops, l.now, l.answer);
    CoveredState(s'.rows, s'.clients[l.client]);
  }

  /** What the client holds after an answer: only ops of the log, and the winner of every cell delivered or late. */
  ghost predicate SyncedCovers(rows: Rows, c: Client)
  {
    && SetOf(c.delivered) + c.late <= AllOps(rows)
    && forall o :: Wins(AllOps(rows), o) ==> o in SetOf(c.delivered) + c.late
  }

  lemma CoveredState(rows: Rows, c: Client)
    requires TieFree(AllOps(rows)) && Covers(rows, c) && Below(rows, c.cursor) == AllOps(rows)
    ensures SyncedCovers(rows, c)
    ensures Lww.Join(c.Replica(), Winners(c.late)) == Winners(AllOps(rows))
  {
    var all, got := AllOps(rows), SetOf(c.delivered);
    var w := Winners(all);
    forall k | k in w ensures w[k] in got + c.late {
      assert Wins(all, w[k]);
    }
    SmallerSameWinners(all, got + c.late, w);
    TieFreeTop(got + c.late);
    WinnerMapUnique(got + c.late, w, Winners(got + c.late));
    JoinWinners(got, c.late);
    MergedIsWinners(c.delivered);
  }

  /** What reaches a client is never one of its late ops, and is always well-stamped. */
  ghost predicate NeverLate(c: Client)
  {
    forall o :: o in c.delivered ==> o !in c.late && WellStamped(o.ts)
  }

  lemma AgedNeverLate(rows: Rows, rows': Rows, c: Client)
    requires NeverLate(c) && ClientInv(rows, c)
    ensures NeverLate(Aged(c, rows, rows'))
    ensures Aged(c, rows, rows').late <= Below(rows, c.cursor) + Below(rows', c.cursor)
  {
    forall o | o in c.delivered ensures o in AllOps(rows) {
      assert o in SetOf(c.delivered);
    }
  }

  lemma NeverLateStep(dev: string, l: Label, s: System, s': System, i: string)
    requires Step(dev, l, s, s') && i in s.clients && ClientInv(s.rows, s.clients[i]) && NeverLate(s.clients[i])
    ensures NeverLate(s'.clients[i])
  {
    AgedNeverLate(s.rows, s'.rows, s.clients[i]);
    if l.Exchange? && l.client == i {
      AnswerNeverLate(s'.rows, s.clients[i].cursor, l.answer);
    }
  }

  /** A late op of a client is never delivered to it, in any run. */
  lemma {:induction false} LateNeverDelivered(dev: string, ls: seq<Label>, ss: seq<System>, n: nat, i: string)
    requires IsRun(dev, ls, ss) && n < |ss| && i in ss[n].clients
    ensures NeverLate(ss[n].clients[i])
  {
    if n > 0 {
      assert Step(dev, ls[n - 1], ss[n - 1], ss[n]);
      if i in ss[n - 1].clients {
        LateNeverDelivered(dev, ls, ss, n - 1, i);
        InvRun(dev, ls, ss, n - 1);
        NeverLateStep(dev, ls[n - 1], ss[n - 1], ss[n], i);
      }
    }
  }

  lemma AnswerNeverLate(rows: Rows, since: HLC, answer: seq<Op>)
    requires IsQuery(rows, since, answer) && FromZero(since)
    ensures forall o :: o in answer ==> AfterCursor(o.ts, since) && WellStamped(o.ts)
  {
    FromZeroIff(since);
    forall o | o in answer ensures AfterCursor(o.ts, since) {
      assert o in SetOf(answer);
    }
  }

  /** Right after an answer, in any run: the replica is what the server itself answers to a fresh reader exactly
      when no well-stamped late op is the latest of its cell, and is the state of every op ever inserted exactly
      when no late op at all is; in particular when nothing was late. */
  lemma ReplicaEqualsServerIff(dev: string, ls: seq<Label>, ss: seq<System>, n: nat)
    requires IsRun(dev, ls, ss) && n < |ls| && ls[n].Exchange?
    ensures ls[n].client in ss[n + 1].clients
    ensures var c, rows := ss[n + 1].clients[ls[n].client], ss[n + 1].rows;
            && (c.Replica() == Winners(Visible(rows))
                <==> forall o :: o in c.late && Wins(AllOps(rows), o) ==> !WellStamped(o.ts))
            && (c.Replica() == Winners(AllOps(rows)) <==> forall o :: o in c.late ==> !Wins(AllOps(rows), o))
  {
    ReplicaInvariant(dev, ls, ss, n);
    LateNeverDelivered(dev, ls, ss, n + 1, ls[n].client);
    InvRun(dev, ls, ss, n + 1);
    ReplicaIsVisibleIff(ss[n + 1].rows, ss[n + 1].clients[ls[n].client]);
    ReplicaIsEverythingIff(ss[n + 1].rows, ss[n + 1].clients[ls[n].client]);
  }

  lemma ReplicaIsEverythingIff(rows: Rows, c: Client)
    requires TieFree(AllOps(rows)) && SyncedCovers(rows, c) && NeverLate(c)
    ensures c.Replica() == Winners(AllOps(rows)) <==> forall o :: o in c.late ==> !Wins(AllOps(rows), o)
  {
    var all, got := AllOps(rows), SetOf(c.delivered);
    var w := Winners(all);
    MergedIsWinners(c.delivered);
    if forall o :: o in c.late ==> !Wins(all, o) {
      forall k | k in w ensures w[k] in got {
        assert Wins(all, w[k]);
      }
      SmallerSameWinners(all, got, w);
      TieFreeTop(got);
      WinnerMapUnique(got, w, Winners(got));
    } else {
      var o :| o in c.late && Wins(all, o);
      WinnerMissed(all, c, o);
    }
  }

  lemma WinnerMissed(all: set<Op>, c: Client, o: Op)
    requires TieFree(all) && SetOf(c.delivered) <= all && NeverLate(c) && o in c.late && Wins(all, o)
    ensures o.Key() in Winners(all) && Winners(all)[o.Key()] == o
    ensures o.Key() in c.Replica() ==> c.Replica()[o.Key()] != o
  {
    var w := Winners(all);
    assert o.Key() in CellsOf(all);
    TieFreeTop(all);
    assert Wins(all, w[o.Key()]);
    MergedIsWinnerMap(c.delivered);
    assert o.Key() in c.Replica() ==> Wins(SetOf(c.delivered), c.Replica()[o.Key()]);
  }

  lemma ReplicaIsVisibleIff(rows: Rows, c: Client)
    requires LatestActive(rows) && TieFree(AllOps(rows)) && SyncedCovers(rows, c) && NeverLate(c)
    ensures c.Replica() == Winners(Visible(rows))
            <==> forall o :: o in c.late && Wins(AllOps(rows), o) ==> !WellStamped(o.ts)
  {
    var all, got := AllOps(rows), SetOf(c.delivered);
    var w := Winners(all);
    var v := AboveCursor(w, ZERO);
    VisibleIsEverythingIff(rows);
    MergedIsWinners(c.delivered);
    if forall o :: o in c.late && Wins(all, o) ==> !WellStamped(o.ts) {
      forall k | k in v ensures v[k] in got {
        assert Wins(all, w[k]);
      }
      forall o | o in got ensures o.Key() in v {
        assert o.Key() in CellsOf(all);
        AfterCursorUpward(o.ts, w[o.Key()].ts, ZERO);
      }
      WindowWins(all, got, w, v);
      TieFreeTop(got);
      WinnerMapUnique(got, v, Winners(got));
    } else {
      var o :| o in c.late && Wins(all, o) && WellStamped(o.ts);
      WinnerMissed(all, c, o);
      assert o.Key() in v && v[o.Key()] == o;
    }
  }

  /** A client behind the schema, in any run: if all it pushes is after its cursor and no doc id of the state so
      far continues another past a dot, the snapshot and the ops answered are together the server's state. */
  lemma SnapshotCompletes(dev: string, ls: seq<Label>, ss: seq<System>, n: nat, flat: map<string, Value>)
    requires IsRun(dev, ls, ss) && n < |ls| && ls[n].Exchange? && ls[n].client in ss[n].clients
    requires SnapshotAnswer(ss[n].rows, true, Some(flat))
    requires forall o :: o in ls[n].ops ==> AfterCursor(Stored(o).ts, ss[n].clients[ls[n].client].cursor)
    requires KeysApart(DocsOf(Winners(Visible(ss[n].rows))))
    ensures OverlayReads(flat, ls[n].answer, Winners(Visible(ss[n + 1].rows)))
  {
    InvRun(dev, ls, ss, n);
    var l, s, s' := ls[n], ss[n], ss[n + 1];
    assert Step(dev, l, s, s');
    var c := s.clients[l.client];
    assert ClientInv(s.rows, c);
    if s'.rows != Inserted(s.rows, l.ops) {
      CompactPostcondition(Inserted(s.rows, l.ops), s'.rows);
    }
    SchemaMismatchComplete(s.rows, l.ops, s'.rows, c.cursor, flat, l.answer);
  }

  // ----- Nothing is missed between two answers -----

  /** No answer to client i between steps n and m. */
  predicate NoAnswer(ls: seq<Label>, n: nat, m: nat, i: string)
    requires m <= |ls|
  {
    forall k :: n < k < m ==> !(ls[k].Exchange? && ls[k].client == i)
  }

  /** Until it is answered again, a client's cursor stays, and its late ops grow by exactly the ops that enter the
      log at or below that cursor. */
  lemma BetweenAnswers(dev: string, ls: seq<Label>, ss: seq<System>, n: nat, m: nat, i: string)
    requires IsRun(dev, ls, ss) && n < m <= |ls| && i in ss[n + 1].clients && NoAnswer(ls, n, m, i)
    ensures AllOps(ss[n + 1].rows) <= AllOps(ss[m].rows) && i in ss[m].clients
    ensures ss[m].clients[i] == Aged(ss[n + 1].clients[i], ss[n + 1].rows, ss[m].rows)
  {
    forall k | n < k < m && i in ss[k].clients ensures Ages(ss[k], ss[k + 1], i) {
      AgesAt(dev, ls, ss, k, i);
    }
    AgesAlong(ss, n + 1, m, i);
  }

  ghost predicate Ages(s: System, s': System, i: string)
    requires i in s.clients
  {
    && AllOps(s.rows) <= AllOps(s'.rows)
    && i in s'.clients && s'.clients[i] == Aged(s.clients[i], s.rows, s'.rows)
  }

  lemma {:induction false} AgesAlong(ss: seq<System>, n: nat, m: nat, i: string)
    requires n <= m < |ss| && i in ss[n].clients
    requires forall k :: n <= k < m && i in ss[k].clients ==> Ages(ss[k], ss[k + 1], i)
    ensures Ages(ss[n], ss[m], i)
    decreases m
  {
    if n == m {
      AgedNow(ss[m].clients[i], ss[m].rows);
    } else {
      AgesAlong(ss, n, m - 1, i);
      assert Ages(ss[m - 1], ss[m], i);
      AgedTwice(ss[n].clients[i], ss[n].rows, ss[m - 1].rows, ss[m].rows);
    }
  }

  lemma AgedNow(c: Client, rows: Rows)
    ensures Aged(c, rows, rows) == c
  {
    assert Aged(c, rows, rows).late == c.late;
  }

  lemma AgesAt(dev: string, ls: seq<Label>, ss: seq<System>, k: nat, i: string)
    requires IsRun(dev, ls, ss) && k < |ls| && i in ss[k].clients && !(ls[k].Exchange? && ls[k].client == i)
    ensures Ages(ss[k], ss[k + 1], i)
  {
    InvRun(dev, ls, ss, k);
    StepAges(dev, ls[k], ss[k], ss[k + 1], i);
  }

  lemma AnsweredAt(dev: string, ls: seq<Label>, ss: seq<System>, n: nat)
    requires IsRun(dev, ls, ss) && n < |ls| && ls[n].Exchange?
    ensures var i, answer := ls[n].client, ls[n].answer;
            && i in ss[n].clients && i in ss[n + 1].clients
            && IsQuery(ss[n + 1].rows, ss[n].clients[i].cursor, answer)
            && ss[n + 1].clients[i].late == Aged(ss[n].clients[i], ss[n].rows, ss[n + 1].rows).late
            && ss[n + 1].clients[i].cursor == NewCursor(answer, ss[n + 1].clock)
            && AllOps(ss[n].rows) <= AllOps(ss[n + 1].rows)
  {
    InvRun(dev, ls, ss, n);
    assert Step(dev, ls[n], ss[n], ss[n + 1]);
    PushFacts(ss[n].rows, ls[n].ops, ss[n + 1].rows);
  }

  lemma AgedTwice(c: Client, a: Rows, b: Rows, d: Rows)
    requires AllOps(a) <= AllOps(b) <= AllOps(d)
    ensures Aged(Aged(c, a, b), b, d) == Aged(c, a, d)
  {
    assert Aged(Aged(c, a, b), b, d).late == Aged(c, a, d).late;
  }

  /** What one step does to the ops and to a client it does not answer. */
  lemma StepAges(dev: string, l: Label, s: System, s': System, i: string)
    requires Inv(s) && Sane(s') && Step(dev, l, s, s') && i in s.clients && !(l.Exchange? && l.client == i)
    ensures Ages(s, s', i)
  {
    if l.CompactNow? {
      CompactPostcondition(s.rows, s'.rows);
    } else if s'.rows != s.rows {
      PushFacts(s.rows, l.ops, s'.rows);
    }
  }

  /** Two consecutive answers to a client, in any run. The cursor between them is the last stamp of the first answer if
      its wall time is positive, and what the server's clock received in every other case. An op that entered the log
      after the first answer is in the second exactly when it is after that cursor and active by then; if it is not
      after the cursor it is late, and only then. */
  lemma NextAnswer(dev: string, ls: seq<Label>, ss: seq<System>, n: nat, m: nat, i: string, o: Op)
    requires IsRun(dev, ls, ss) && n < m < |ls| && NoAnswer(ls, n, m, i)
    requires ls[n].Exchange? && ls[n].client == i && ls[m].Exchange? && ls[m].client == i
    requires o in AllOps(ss[m + 1].rows) && o !in AllOps(ss[n + 1].rows)
    ensures var first := ls[n].answer;
            var cursor := if first != [] && first[|first| - 1].ts.wall > 0 then first[|first| - 1].ts
                          else ss[n + 1].clock;
            && (o in ls[m].answer <==> AfterCursor(o.ts, cursor) && ss[m + 1].rows[o.id].active)
            && i in ss[m + 1].clients
            && (o in ss[m + 1].clients[i].late <==> !AfterCursor(o.ts, cursor))
  {
    AnsweredAt(dev, ls, ss, n);
    NewCursorIsLast(ss[n + 1].rows, ss[n].clients[i].cursor, ls[n].answer, ss[n + 1].clock);
    ReplicaInvariant(dev, ls, ss, n);
    BetweenAnswers(dev, ls, ss, n, m, i);
    AnsweredAt(dev, ls, ss, m);
    AgedTwice(ss[n + 1].clients[i], ss[n + 1].rows, ss[m].rows, ss[m + 1].rows);
    assert o in ls[m].answer <==> o in SetOf(ls[m].answer);
    RowsToOps(ss[m + 1].rows, o);
  }

  /** In particular an op stamped after every op of the first answer is never late, when the last of those has a
      device id and a positive wall time: if it is still active at the second answer, it is in it. */
  lemma NewerOpIsAnswered(dev: string, ls: seq<Label>, ss: seq<System>, n: nat, m: nat, i: string, o: Op)
    requires IsRun(dev, ls, ss) && n < m < |ls| && NoAnswer(ls, n, m, i)
    requires ls[n].Exchange? && ls[n].client == i && ls[m].Exchange? && ls[m].client == i
    requires o in AllOps(ss[m + 1].rows) && o !in AllOps(ss[n + 1].rows)
    requires var first := ls[n].answer; first != [] && first[|first| - 1].ts.wall > 0 && first[|first| - 1].ts.dev != ""
    requires forall a :: a in ls[n].answer ==> Before(a.ts, o.ts)
    ensures i in ss[m + 1].clients && o !in ss[m + 1].clients[i].late
    ensures ss[m + 1].rows[o.id].active ==> o in ls[m].answer
  {
    NextAnswer(dev, ls, ss, n, m, i, o);
    CursorMeaning(o.ts, ls[n].answer[|ls[n].answer| - 1].ts);
  }

  // ----- Delivery -----

  ghost predicate StrictlyIncreasing(ops: seq<Op>)
  {
    forall i, j :: 0 <= i < j < |ops| ==> Before(ops[i].ts, ops[j].ts)
  }

  /** Everything delivered is in stamp order, and nothing delivered is after the cursor. */
  ghost predicate DeliveredInOrder(c: Client)
  {
    && StrictlyIncreasing(c.delivered)
    && forall o :: o in c.delivered ==> !Before(c.cursor, o.ts)
  }

  lemma AnswerStrict(rows: Rows, since: HLC, answer: seq<Op>)
    requires IsQuery(rows, since, answer) && DistinctStamps(AllOps(rows))
    ensures StrictlyIncreasing(answer)
  {
    forall i, j | 0 <= i < j < |answer| ensures Before(answer[i].ts, answer[j].ts) {
      assert answer[i] in SetOf(answer) && answer[j] in SetOf(answer);
      assert answer[i] in AllOps(rows) && answer[j] in AllOps(rows);
      BeforeTotal(answer[i].ts, answer[j].ts);
    }
  }

  lemma DeliverStep(rows: Rows, c: Client, answer: seq<Op>, last: HLC, dev: string, now: Int64)
    requires DeliveredInOrder(c) && DistinctStamps(AllOps(rows)) && IsQuery(rows, c.cursor, answer)
    requires now > 0 && !AtLimit(last) && !AtLimit(c.cursor)
    ensures var next := NewCursor(answer, Received(last, dev, c.cursor, now));
            DeliveredInOrder(Client(next, c.delivered + answer, c.late))
  {
    var next := NewCursor(answer, Received(last, dev, c.cursor, now));
    var all := c.delivered + answer;
    AnswerStrict(rows, c.cursor, answer);
    NewCursorSelected(rows, c.cursor, answer, last, dev, now);
    CursorMeaning(next, c.cursor);
    forall o | o in all ensures !Before(next, o.ts) {
      if o in answer {
        AnswerBelowCursor(rows, c.cursor, answer, last, dev, now, o);
      } else {
        BeforeStrictTotalOrder(c.cursor, next, o.ts);
      }
    }
    forall i, j | 0 <= i < j < |all| ensures Before(all[i].ts, all[j].ts) {
      if i < |c.delivered| <= j {
        QueryAfter(rows, c.cursor, answer, all[j]);
        assert all[i] in c.delivered;
        BeforeStrictTotalOrder(all[i].ts, c.cursor, all[j].ts);
      }
    }
  }

  lemma InOrderStep(dev: string, l: Label, s: System, s': System, i: string)
    requires Step(dev, l, s, s') && Sane(s) && Inv(s) && DistinctStamps(AllOps(s'.rows))
    requires i in s.clients && DeliveredInOrder(s.clients[i])
    ensures DeliveredInOrder(s'.clients[i])
  {
    if l.Exchange? && l.client == i {
      assert ClientInv(s.rows, s.clients[i]);
      DeliverStep(s'.rows, Aged(s.clients[i], s.rows, s'.rows), l.answer, s.clock, dev, l.now);
    }
  }

  /** At-most-once delivery: over any run, with any late inserts, failures and compactions, the answers
      a client gets, laid end to end, are strictly increasing in stamp. */
  lemma {:induction false} DeliveryInOrder(dev: string, ls: seq<Label>, ss: seq<System>, n: nat, i: string)
    requires IsRun(dev, ls, ss) && n < |ss| && i in ss[n].clients
    requires forall k :: 0 <= k < |ss| ==> DistinctStamps(AllOps(ss[k].rows))
    ensures DeliveredInOrder(ss[n].clients[i])
  {
    if n > 0 {
      assert Step(dev, ls[n - 1], ss[n - 1], ss[n]);
      if i in ss[n - 1].clients {
        DeliveryInOrder(dev, ls, ss, n - 1, i);
        InvRun(dev, ls, ss, n - 1);
        InOrderStep(dev, ls[n - 1], ss[n - 1], ss[n], i);
      }
    }
  }

  // ----- What the clocks supply -----

  /** Every op carries the stamp of its own event on the clock of its own device. */
  ghost predicate StampedBy(ops: set<Op>, run: seq<ClockRuns.Step>, stamps: seq<HLC>, at: map<Op, nat>)
  {
    && (forall o :: o in ops ==> o in at && at[o] < |run| == |stamps|)
    && (forall o :: o in ops ==> o.ts == stamps[at[o]] && o.dev == run[at[o]].dev)
    && (forall a, b :: a in ops && b in ops && at[a] == at[b] ==> a == b)
  }

  /** Clocks with distinct device ids discharge what the log theorems assume of stamps, and
      storing such an op keeps it as it is. */
  lemma ClocksSupplyStamps(ops: set<Op>, run: seq<ClockRuns.Step>, stamps: seq<HLC>, at: map<Op, nat>)
    requires ClockRuns.IsRun(run, stamps) && StampedBy(ops, run, stamps, at)
    ensures DistinctStamps(ops) && TieFree(ops)
    ensures forall o :: o in ops ==> WellStamped(o.ts) && !AtLimit(o.ts) && Stored(o) == o
  {
    forall a, b | a in ops && b in ops && a.ts == b.ts ensures a == b {
      if at[a] < at[b] {
        ClockRuns.StampsDistinct(run, stamps, at[a], at[b]);
      } else if at[b] < at[a] {
        ClockRuns.StampsDistinct(run, stamps, at[b], at[a]);
      }
    }
    forall o | o in ops ensures WellStamped(o.ts) && !AtLimit(o.ts) && Stored(o) == o {
      ClockRuns.StampAdvances(run, stamps, at[o]);
      CursorMeaning(o.ts, ZERO);
    }
  }

  function PushedBy(l: Label): seq<Op>
  {
    if l.Join? || l.CompactNow? then [] else l.ops
  }

  /** The ops of the first n requests of a run. */
  function PushedOps(ls: seq<Label>, n: nat): set<Op>
    requires n <= |ls|
  {
    if n == 0 then {} else PushedOps(ls, n - 1) + SetOf(PushedBy(ls[n - 1]))
  }

  lemma PushAdds(rows: Rows, ops: seq<Op>, rows': Rows)
    requires Pushes(rows, ops, rows')
    ensures AllOps(rows') <= AllOps(rows) + StoredSet(ops)
  {
    InsertedKeeps(rows, ops);
    if rows' != Inserted(rows, ops) {
      CompactPostcondition(Inserted(rows, ops), rows');
    }
  }

  function StoredAll(s: set<Op>): set<Op>
  {
    set o | o in s :: Stored(o)
  }

  /** The log holds nothing but what some request pushed before. */
  lemma {:induction false} RowsWerePushed(dev: string, ls: seq<Label>, ss: seq<System>, n: nat)
    requires Steps(dev, ls, ss) && n < |ss|
    ensures AllOps(ss[n].rows) <= StoredAll(PushedOps(ls, n))
  {
    if n > 0 {
      RowsWerePushed(dev, ls, ss, n - 1);
      var l, s, s' := ls[n - 1], ss[n - 1], ss[n];
      assert Step(dev, l, s, s');
      if l.CompactNow? {
        CompactPostcondition(s.rows, s'.rows);
      } else if s'.rows != s.rows {
        PushAdds(s.rows, l.ops, s'.rows);
        forall o | o in StoredSet(l.ops) ensures o in StoredAll(PushedOps(ls, n)) {
          var p :| p in l.ops && o == Stored(p);
          assert p in PushedOps(ls, n);
        }
      }
    }
  }

  lemma {:induction false} PushedOpsGrow(ls: seq<Label>, n: nat, m: nat)
    requires n <= m <= |ls|
    ensures PushedOps(ls, n) <= PushedOps(ls, m)
    decreases m
  {
    if n < m {
      PushedOpsGrow(ls, n, m - 1);
    }
  }

  /** All pushed ops carry stamps of a network of clocks, and the server's own clock stays below its limit. */
  ghost predicate ClockedSteps(dev: string, ls: seq<Label>, ss: seq<System>,
                               run: seq<ClockRuns.Step>, stamps: seq<HLC>, at: map<Op, nat>)
  {
    && Steps(dev, ls, ss) && (forall k :: 0 <= k < |ss| ==> !AtLimit(ss[k].clock))
    && ClockRuns.IsRun(run, stamps) && StampedBy(PushedOps(ls, |ls|), run, stamps, at)
  }

  /** Then the protocol's assumptions hold throughout: no ties, distinct stamps, no stamp at the limit. */
  lemma ClockedIsRun(dev: string, ls: seq<Label>, ss: seq<System>,
                     run: seq<ClockRuns.Step>, stamps: seq<HLC>, at: map<Op, nat>)
    requires ClockedSteps(dev, ls, ss, run, stamps, at)
    ensures IsRun(dev, ls, ss) && forall k :: 0 <= k < |ss| ==> DistinctStamps(AllOps(ss[k].rows))
    ensures forall k, o :: 0 <= k < |ss| && o in AllOps(ss[k].rows) ==> WellStamped(o.ts)
  {
    var pushed := PushedOps(ls, |ls|);
    ClocksSupplyStamps(pushed, run, stamps, at);
    forall k | 0 <= k < |ss| ensures AllOps(ss[k].rows) <= pushed {
      RowsWerePushed(dev, ls, ss, k);
      PushedOpsGrow(ls, k, |ls|);
    }
  }

  /** Clients and server whose stamps come from clocks: every answer leaves the client with exactly the server's
      state unless an op that went in late won its cell, and no op ever reaches a client twice. */
  lemma ClockedDelivery(dev: string, ls: seq<Label>, ss: seq<System>,
                        run: seq<ClockRuns.Step>, stamps: seq<HLC>, at: map<Op, nat>, n: nat)
    requires ClockedSteps(dev, ls, ss, run, stamps, at) && n < |ls| && ls[n].Exchange?
    ensures ls[n].client in ss[n + 1].clients
    ensures var c, rows := ss[n + 1].clients[ls[n].client], ss[n + 1].rows;
            && (c.Replica() == Winners(Visible(rows)) <==> forall o :: o in c.late ==> !Wins(AllOps(rows), o))
            && DeliveredInOrder(c)
  {
    ClockedIsRun(dev, ls, ss, run, stamps, at);
    ReplicaEqualsServerIff(dev, ls, ss, n);
    ReplicaInvariant(dev, ls, ss, n);
    DeliveryInOrder(dev, ls, ss, n + 1, ls[n].client);
  }
}
