/** The wake-up channels of connected clients: the broadcaster, and the machine
    of its calls interleaved at the granularity of its lock and channel sends. */
module Broadcast {

  /** A channel of capacity one. announced is the set of op ids that were in the log
      when the channel was last offered a message. */
  class Channel {
    var buf: seq<string>
    ghost var announced: set<string>

    constructor ()
      ensures buf == [] && announced == {}
    {
      buf := [];
      announced := {};
    }
  }

  /** A send with a default case: it never waits, and drops the message when the buffer is full. */
  function Offer(buf: seq<string>): (r: seq<string>)
    ensures buf != [] ==> r == buf
    ensures buf == [] ==> r == ["sync"]
  {
    if |buf| < 1 then buf + ["sync"] else buf
  }

  function SubKey(app: string, user: string): string
  {
    app + "/" + user
  }

  /** Which users share a wake-up list: none but those whose names differ only in which slash separates them. */
  lemma SharesKeyIff(app: string, user: string, app': string, user': string)
    ensures SubKey(app, user) == SubKey(app', user')
            <==> || (app == app' && user == user')
                 || (exists mid :: app' == app + "/" + mid && user == mid + "/" + user')
                 || (exists mid :: app == app' + "/" + mid && user' == mid + "/" + user)
  {
    var k, k' := SubKey(app, user), SubKey(app', user');
    if k == k' {
      assert app == k[..|app|] && app' == k[..|app'|];
      assert user == k[|app| + 1..] && user' == k[|app'| + 1..];
      if |app| < |app'| {
        KeyMiddle(app, user, app', user');
      } else if |app'| < |app| {
        KeyMiddle(app', user', app, user);
      }
    }
    forall mid | app' == app + "/" + mid && user == mid + "/" + user' ensures k == k' {
      assert k == app + "/" + mid + "/" + user' == k';
    }
    forall mid | app == app' + "/" + mid && user' == mid + "/" + user ensures k == k' {
      assert k' == app' + "/" + mid + "/" + user == k;
    }
  }

  lemma KeyMiddle(app: string, user: string, app': string, user': string)
    requires SubKey(app, user) == SubKey(app', user') && |app| < |app'|
    ensures exists mid :: app' == app + "/" + mid && user == mid + "/" + user'
  {
    var k, mid := SubKey(app, user), app'[|app| + 1..];
    assert app' == k[..|app'|] && k[..|app| + 1] == app + "/";
    assert app' == app + "/" + mid;
    assert user == k[|app| + 1..] && k == app + "/" + (mid + "/" + user');
    assert user == mid + "/" + user';
  }

  function Listed<T>(subs: map<string, seq<T>>, key: string): (r: seq<T>)
    ensures key in subs ==> r == subs[key]
    ensures key !in subs ==> r == []
  {
    if key in subs then subs[key] else []
  }

  function RemoveFirst<T(==)>(s: seq<T>, x: T): (r: seq<T>)
    ensures x !in s ==> r == s
    ensures x in s ==> multiset(s) == multiset(r) + multiset{x}
  {
    if s == [] then []
    else if s[0] == x then
      assert s == [x] + s[1..];
      s[1..]
    else
      assert s == [s[0]] + s[1..];
      [s[0]] + RemoveFirst(s[1..], x)
  }

  lemma {:induction false} RemoveFirstAt<T>(s: seq<T>, i: nat)
    requires i < |s| && forall j :: 0 <= j < i ==> s[j] != s[i]
    ensures RemoveFirst(s, s[i]) == s[..i] + s[i + 1..]
  {
    if i > 0 {
      RemoveFirstAt(s[1..], i - 1);
      assert s[..i] + s[i + 1..] == [s[0]] + (s[1..][..i - 1] + s[1..][i..]);
    }
  }

  class Broadcaster {
    var subs: map<string, seq<Channel>>

    constructor ()
      ensures subs == map[]
    {
      subs := map[];
    }

    method Subscribe(app: string, user: string) returns (ch: Channel)
      modifies this
      ensures fresh(ch) && ch.buf == []
      ensures var k := SubKey(app, user);
              subs == old(subs)[k := (if k in old(subs) then old(subs)[k] else []) + [ch]]
    {
      ch := new Channel();
      var k := SubKey(app, user);
      subs := subs[k := Listed(subs, k) + [ch]];
    }

    method Unsubscribe(app: string, user: string, ch: Channel)
      modifies this
      ensures var k := SubKey(app, user);
              subs == if ch in Listed(old(subs), k) then old(subs)[k := RemoveFirst(old(subs)[k], ch)] else old(subs)
      ensures var k := SubKey(app, user);
              var list := Listed(old(subs), k);
              if ch !in list then subs == old(subs)
              else exists i :: 0 <= i < |list| && list[i] == ch && ch !in list[..i]
                               && subs == old(subs)[k := list[..i] + list[i + 1..]]
    {
      var k := SubKey(app, user);
      var list := Listed(subs, k);
      for i := 0 to |list|
        invariant forall j :: 0 <= j < i ==> list[j] != ch
        invariant subs == old(subs)
      {
        if list[i] == ch {
          RemoveFirstAt(list, i);
          subs := subs[k := list[..i] + list[i + 1..]];
          return;
        }
      }
    }

    /** The list is copied, then each channel is offered one message. */
    method Notify(app: string, user: string, ghost committed: set<string>)
      modifies set ch | ch in Listed(subs, SubKey(app, user))
      ensures forall ch :: ch in Listed(subs, SubKey(app, user)) ==>
                ch.buf == Offer(old(ch.buf)) && ch.announced == committed
      ensures forall k, ch :: k in subs && ch in subs[k] && ch !in Listed(subs, SubKey(app, user)) ==>
                ch.buf == old(ch.buf) && ch.announced == old(ch.announced)
    {
      var list := Listed(subs, SubKey(app, user));
      for i := 0 to |list|
        invariant forall ch :: ch in list[..i] ==> ch.buf == Offer(old(ch.buf)) && ch.announced == committed
        invariant forall ch :: ch in list && ch !in list[..i] ==> ch.buf == old(ch.buf)
      {
        assert list[..i + 1] == list[..i] + [list[i]];
        list[i].announced := committed;
        list[i].buf := Offer(list[i].buf);
      }
    }
  }

  // ----- Interleaved calls -----

  type ChanId = nat

  /** One Notify in flight: the copied list, how many sends are done, and the log version its push committed. */
  datatype Call = Call(key: string, version: nat, targets: seq<ChanId>, sent: nat)

  datatype State = State(
    subs: map<string, seq<ChanId>>,
    buffered: map<ChanId, seq<string>>, // what waits in each channel ever made
    seen: map<ChanId, nat>,             // log version when the channel last handed over a message
    version: nat,                       // pushes committed to the log
    calls: map<nat, Call>)

  datatype Label =
    | Commit
    | Start(call: nat, key: string, version: nat)
    | Send(call: nat)
    | Finish(call: nat)
    | Subscribe(key: string, ch: ChanId)
    | Unsubscribe(key: string, ch: ChanId)
    | Receive(ch: ChanId)

  const INITIAL: State := State(map[], map[], map[], 0, map[])

  predicate Enabled(l: Label, s: State)
  {
    match l
    case Commit => true
    case Start(n, k, v) => n !in s.calls && v <= s.version
    case Send(n) =>
      && n in s.calls && s.calls[n].sent < |s.calls[n].targets|
      && s.calls[n].targets[s.calls[n].sent] in s.buffered
    case Finish(n) => n in s.calls && s.calls[n].sent == |s.calls[n].targets|
    case Subscribe(k, ch) => ch !in s.buffered
    case Unsubscribe(k, ch) => true
    case Receive(ch) => ch in s.buffered && s.buffered[ch] != []
  }

  function Next(l: Label, s: State): State
    requires Enabled(l, s)
  {
    match l
    case Commit => s.(version := s.version + 1)
    case Start(n, k, v) => s.(calls := s.calls[n := Call(k, v, Listed(s.subs, k), 0)])
    case Send(n) =>
      var c := s.calls[n];
      var ch := c.targets[c.sent];
      s.(buffered := s.buffered[ch := Offer(s.buffered[ch])],
         calls := s.calls[n := c.(sent := c.sent + 1)])
    case Finish(n) => s.(calls := s.calls - {n})
    case Subscribe(k, ch) =>
      s.(subs := s.subs[k := Listed(s.subs, k) + [ch]], buffered := s.buffered[ch := []])
    case Unsubscribe(k, ch) =>
      if ch in Listed(s.subs, k) then s.(subs := s.subs[k := RemoveFirst(s.subs[k], ch)]) else s
    case Receive(ch) => s.(buffered := s.buffered[ch := s.buffered[ch][1..]], seen := s.seen[ch := s.version])
  }

  ghost predicate IsRun(ls: seq<Label>, ss: seq<State>)
  {
    && |ss| == |ls| + 1 && ss[0] == INITIAL
    && forall i :: 0 <= i < |ls| ==> Enabled(ls[i], ss[i]) && ss[i + 1] == Next(ls[i], ss[i])
  }

  /** A message is waiting, or one was taken when the log already held version v. */
  predicate Awake(s: State, ch: ChanId, v: nat)
  {
    ch in s.buffered && (s.buffered[ch] != [] || (ch in s.seen && s.seen[ch] >= v))
  }

  ghost predicate Inv(s: State)
  {
    && (forall ch :: ch in s.buffered ==> |s.buffered[ch]| <= 1)
    && (forall k, ch :: k in s.subs && ch in s.subs[k] ==> ch in s.buffered)
    && (forall n :: n in s.calls ==> CallInv(s, s.calls[n]))
  }

  ghost predicate CallInv(s: State, c: Call)
  {
    && c.version <= s.version && c.sent <= |c.targets|
    && (forall i :: 0 <= i < |c.targets| ==> c.targets[i] in s.buffered)
    && (forall i :: 0 <= i < c.sent ==> Awake(s, c.targets[i], c.version))
  }

  /** Nothing any caller does puts a woken subscriber back to sleep. */
  lemma AwakeStays(l: Label, s: State, ch: ChanId, v: nat)
    requires Enabled(l, s) && Awake(s, ch, v) && v <= s.version
    ensures Awake(Next(l, s), ch, v)
  {
  }

  lemma CallStays(l: Label, s: State, c: Call)
    requires Enabled(l, s) && CallInv(s, c)
    ensures CallInv(Next(l, s), c)
  {
    forall i | 0 <= i < c.sent ensures Awake(Next(l, s), c.targets[i], c.version) {
      AwakeStays(l, s, c.targets[i], c.version);
    }
  }

  lemma InvStep(l: Label, s: State)
    requires Enabled(l, s) && Inv(s)
    ensures Inv(Next(l, s))
  {
    var t := Next(l, s);
    forall n | n in t.calls ensures CallInv(t, t.calls[n]) {
      if n in s.calls {
        CallStays(l, s, s.calls[n]);
      }
    }
    if l.Unsubscribe? && l.ch in Listed(s.subs, l.key) {
      forall x | x in RemoveFirst(s.subs[l.key], l.ch) ensures x in s.subs[l.key] {
        assert x in multiset(RemoveFirst(s.subs[l.key], l.ch)) + multiset{l.ch};
      }
    }
  }

  lemma {:induction false} InvRun(ls: seq<Label>, ss: seq<State>, i: nat)
    requires IsRun(ls, ss) && i < |ss|
    ensures Inv(ss[i])
  {
    if i > 0 {
      InvRun(ls, ss, i - 1);
      InvStep(ls[i - 1], ss[i - 1]);
    }
  }

  /** The labels take s to t, each enabled where it is used. */
  ghost predicate Leads(s: State, ls: seq<Label>, t: State)
    decreases |ls|
  {
    if ls == [] then s == t else Enabled(ls[0], s) && Leads(Next(ls[0], s), ls[1..], t)
  }

  lemma LeadsFirst(s: State, l: Label, ls: seq<Label>, t: State)
    requires Enabled(l, s) && Leads(Next(l, s), ls, t)
    ensures Leads(s, [l] + ls, t)
  {
    assert ([l] + ls)[1..] == ls;
  }

  /** The channels a call has still to offer a message. */
  function Left(c: Call): seq<ChanId>
  {
    if c.sent <= |c.targets| then c.targets[c.sent..] else []
  }

  /** The steps a call has left: a send for each of m channels, and finish. */
  function StepsLeft(n: nat, m: nat): seq<Label>
  {
    if m == 0 then [Finish(n)] else [Send(n)] + StepsLeft(n, m - 1)
  }

  /** The call is gone, with all it had left done. */
  function Ended(s: State, n: nat): State
    requires n in s.calls
  {
    s.(buffered := Offered(s.buffered, Left(s.calls[n])), calls := s.calls - {n})
  }

  /** Every channel of chans offered a message, no other touched. */
  function Offered(buffered: map<ChanId, seq<string>>, chans: seq<ChanId>): map<ChanId, seq<string>>
  {
    map ch | ch in buffered :: if ch in chans then Offer(buffered[ch]) else buffered[ch]
  }

  lemma OfferTwice(buffered: map<ChanId, seq<string>>, chans: seq<ChanId>)
    requires chans != [] && chans[0] in buffered && forall ch :: ch in buffered ==> |buffered[ch]| <= 1
    ensures Offered(buffered[chans[0] := Offer(buffered[chans[0]])], chans[1..]) == Offered(buffered, chans)
  {
    assert chans == [chans[0]] + chans[1..];
  }

  /** A call in flight can run to its end by its own steps alone, whatever its channels hold and though nobody
      receives: one send per channel left, then it is gone and each of them has been offered a message. */
  lemma {:induction false} RunsToEnd(s: State, n: nat)
    requires Inv(s) && n in s.calls
    ensures Leads(s, StepsLeft(n, |Left(s.calls[n])|), Ended(s, n))
    decreases |Left(s.calls[n])|
  {
    var c := s.calls[n];
    assert CallInv(s, c);
    if Left(c) == [] {
      FinishOne(s, n);
    } else {
      var t := SendOne(s, n);
      RunsToEnd(t, n);
      LeadsFirst(s, Send(n), StepsLeft(n, |Left(t.calls[n])|), Ended(s, n));
    }
  }

  lemma FinishOne(s: State, n: nat)
    requires n in s.calls && CallInv(s, s.calls[n]) && Left(s.calls[n]) == []
    ensures Leads(s, [Finish(n)], Ended(s, n))
  {
    assert Offered(s.buffered, []) == s.buffered;
    assert Next(Finish(n), s) == Ended(s, n);
    LeadsFirst(s, Finish(n), [], Ended(s, n));
  }

  lemma SendOne(s: State, n: nat) returns (t: State)
    requires Inv(s) && n in s.calls && Left(s.calls[n]) != []
    ensures Enabled(Send(n), s) && t == Next(Send(n), s) && Inv(t) && n in t.calls
    ensures |Left(t.calls[n])| == |Left(s.calls[n])| - 1 && Ended(t, n) == Ended(s, n)
  {
    assert CallInv(s, s.calls[n]);
    t := Next(Send(n), s);
    InvStep(Send(n), s);
    OfferTwice(s.buffered, Left(s.calls[n]));
    assert Left(t.calls[n]) == Left(s.calls[n])[1..];
    assert t.calls - {n} == s.calls - {n};
  }

  /** So no send ever waits, in any reachable interleaving. */
  lemma NotifyNeverBlocks(ls: seq<Label>, ss: seq<State>, i: nat, n: nat)
    requires IsRun(ls, ss) && i < |ss| && n in ss[i].calls
    ensures Leads(ss[i], StepsLeft(n, |Left(ss[i].calls[n])|), Ended(ss[i], n))
    ensures forall ch :: ch in ss[i].buffered ==> |ss[i].buffered[ch]| <= 1
  {
    InvRun(ls, ss, i);
    RunsToEnd(ss[i], n);
  }

  /** One undisturbed call is a run of the machine - start, a send per listed channel, finish - and does to the
      buffers what Broadcaster.Notify does: each listed channel offered one message, nothing else changed. */
  lemma NotifyIsRun(s: State, n: nat, key: string)
    requires Inv(s) && n !in s.calls
    ensures var list := Listed(s.subs, key);
            Leads(s, [Start(n, key, s.version)] + StepsLeft(n, |list|), s.(buffered := Offered(s.buffered, list)))
  {
    var t := Next(Start(n, key, s.version), s);
    InvStep(Start(n, key, s.version), s);
    RunsToEnd(t, n);
    var list := Listed(s.subs, key);
    assert Left(t.calls[n]) == list;
    assert t.calls - {n} == s.calls;
    LeadsFirst(s, Start(n, key, s.version), StepsLeft(n, |list|), Ended(t, n));
  }

  /** A call keeps its list from its start until it finishes, whoever subscribes or leaves meanwhile. */
  lemma {:induction false} CallKeepsList(ls: seq<Label>, ss: seq<State>, j: nat, m: nat, n: nat)
    requires IsRun(ls, ss) && j < m < |ss| && ls[j].Start? && ls[j].call == n
    requires forall i :: j < i < m ==> ls[i] != Finish(n)
    ensures n in ss[m].calls && ss[m].calls[n].targets == Listed(ss[j].subs, ls[j].key)
    ensures ss[m].calls[n].version == ls[j].version
    decreases m
  {
    if m > j + 1 {
      CallKeepsList(ls, ss, j, m - 1, n);
    }
  }

  predicate AwakeFor(s: State, ch: ChanId, v: nat)
  {
    Awake(s, ch, v) && v <= s.version
  }

  lemma AwakeStep(ls: seq<Label>, ss: seq<State>, k: nat, ch: ChanId, v: nat)
    requires IsRun(ls, ss) && k < |ls| && AwakeFor(ss[k], ch, v)
    ensures AwakeFor(ss[k + 1], ch, v)
  {
    AwakeStays(ls[k], ss[k], ch, v);
  }

  lemma AwakeForever(ls: seq<Label>, ss: seq<State>, m: nat, t: nat, ch: ChanId, v: nat)
    requires IsRun(ls, ss) && m <= t < |ss| && AwakeFor(ss[m], ch, v)
    ensures AwakeFor(ss[t], ch, v)
  {
    for k := m to t
      invariant AwakeFor(ss[k], ch, v)
    {
      AwakeStep(ls, ss, k, ch, v);
    }
  }

  lemma ListedStep(l: Label, s: State, k: string, ch: ChanId)
    requires Enabled(l, s) && ch in Listed(s.subs, k) && l != Unsubscribe(k, ch)
    ensures ch in Listed(Next(l, s).subs, k)
  {
    if l.Unsubscribe? && l.key == k {
      RemoveFirstKeeps(s.subs[k], l.ch, ch);
    }
  }

  lemma {:induction false} RemoveFirstKeeps<T>(s: seq<T>, x: T, y: T)
    requires y in s && y != x
    ensures y in RemoveFirst(s, x)
  {
    if s[0] != x && s[0] != y {
      RemoveFirstKeeps(s[1..], x, y);
    }
  }

  /** A subscriber that does not leave stays listed. */
  lemma {:induction false} StaysListed(ls: seq<Label>, ss: seq<State>, i: nat, j: nat, k: string, ch: ChanId)
    requires IsRun(ls, ss) && i <= j < |ss| && ch in Listed(ss[i].subs, k)
    requires forall x :: i <= x < j ==> ls[x] != Unsubscribe(k, ch)
    ensures ch in Listed(ss[j].subs, k)
    decreases j
  {
    if i < j {
      StaysListed(ls, ss, i, j - 1, k, ch);
      ListedStep(ls[j - 1], ss[j - 1], k, ch);
    }
  }

  lemma {:induction false} VersionGrows(ls: seq<Label>, ss: seq<State>, i: nat, t: nat)
    requires IsRun(ls, ss) && i <= t < |ss|
    ensures ss[i].version <= ss[t].version
    decreases t
  {
    if i < t {
      VersionGrows(ls, ss, i, t - 1);
    }
  }

  /** The log version noted for a channel is the one at a step that received from it. */
  lemma {:induction false} SeenMeaning(ls: seq<Label>, ss: seq<State>, t: nat, ch: ChanId) returns (x: nat)
    requires IsRun(ls, ss) && t < |ss| && ch in ss[t].seen
    ensures x < t && ls[x] == Receive(ch) && ss[x].version == ss[t].seen[ch]
  {
    if ls[t - 1] == Receive(ch) {
      x := t - 1;
    } else {
      x := SeenMeaning(ls, ss, t - 1, ch);
    }
  }

  /** No lost wakeup: for a subscriber listed when a push commits (step i), that has not left when the push's Notify
      copies the list (step j), from the moment the call finishes (step m) on a message is waiting or was received
      after the commit - with any other calls, sends and receives in between and after. */
  lemma NoLostWakeup(ls: seq<Label>, ss: seq<State>, i: nat, j: nat, m: nat, t: nat, n: nat, ch: ChanId)
    requires IsRun(ls, ss) && i < j < m < t < |ss|
    requires ls[i] == Commit && ls[j].Start? && ls[j].call == n && ls[j].version == ss[i + 1].version
    requires ls[m] == Finish(n) && forall x :: j < x < m ==> ls[x] != Finish(n)
    requires ch in Listed(ss[i].subs, ls[j].key)
    requires forall x :: i <= x < j ==> ls[x] != Unsubscribe(ls[j].key, ch)
    ensures ch in ss[t].buffered
    ensures ss[t].buffered[ch] != [] || exists x :: i < x < t && ls[x] == Receive(ch)
  {
    AwakeAfter(ls, ss, i, j, m, t, n, ch);
    if ss[t].buffered[ch] == [] {
      var x := SeenMeaning(ls, ss, t, ch);
      if x <= i {
        VersionGrows(ls, ss, x, i);
      }
    }
  }

  lemma AwakeAfter(ls: seq<Label>, ss: seq<State>, i: nat, j: nat, m: nat, t: nat, n: nat, ch: ChanId)
    requires IsRun(ls, ss) && i < j < m < t < |ss|
    requires ls[i] == Commit && ls[j].Start? && ls[j].call == n && ls[j].version == ss[i + 1].version
    requires ls[m] == Finish(n) && forall x :: j < x < m ==> ls[x] != Finish(n)
    requires ch in Listed(ss[i].subs, ls[j].key)
    requires forall x :: i <= x < j ==> ls[x] != Unsubscribe(ls[j].key, ch)
    ensures Awake(ss[t], ch, ss[i + 1].version)
  {
    StaysListed(ls, ss, i, j, ls[j].key, ch);
    CallKeepsList(ls, ss, j, m, n);
    InvRun(ls, ss, m);
    var c := ss[m].calls[n];
    assert CallInv(ss[m], c);
    var x :| 0 <= x < |c.targets| && c.targets[x] == ch;
    assert Awake(ss[m], c.targets[x], c.version);
    AwakeForever(ls, ss, m, t, ch, c.version);
  }
}
