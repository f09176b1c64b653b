/** Whole runs of clocks: the closed form of one clock, the exact overflow
    condition, and causality and uniqueness across a network of clocks. */
module ClockRuns {
  import opened Hlc

  // ----- One clock -----

  datatype Event = Local(now: Int64) | Remote(now: Int64, from: HLC)

  /** The stamps a machine clock holds after a sequence of calls. */
  function ClockRun(last: HLC, dev: string, evs: seq<Event>): HLC
  {
    if evs == [] then last
    else
      var before := ClockRun(last, dev, evs[..|evs| - 1]);
      match evs[|evs| - 1]
      case Local(now) => Ticked(before, dev, now)
      case Remote(now, from) => Received(before, dev, from, now)
  }

  /** The same run over unbounded integers. */
  function IdealRun(n: int, evs: seq<Event>): int
  {
    if evs == [] then n
    else
      var before := IdealRun(n, evs[..|evs| - 1]);
      match evs[|evs| - 1]
      case Local(now) => Max(before + 1, now * UNIT)
      case Remote(now, from) => Max(Max(before, Code(from)) + 1, now * UNIT)
  }

  /** What each event, and the start, contributes to the clock k events later. */
  ghost predicate Contributes(n: int, evs: seq<Event>, c: int)
  {
    || c == n + |evs|
    || (exists i :: 0 <= i < |evs| && c == evs[i].now * UNIT + (|evs| - 1 - i))
    || (exists i :: 0 <= i < |evs| && evs[i].Remote? && c == Code(evs[i].from) + 1 + (|evs| - 1 - i))
  }

  /** Closed form: the clock is the maximum of the contributions. */
  lemma {:induction false} ClosedForm(n: int, evs: seq<Event>)
    ensures Contributes(n, evs, IdealRun(n, evs))
    ensures forall c :: Contributes(n, evs, c) ==> c <= IdealRun(n, evs)
  {
    if evs != [] {
      var k := |evs| - 1;
      var pre := evs[..k];
      ClosedForm(n, pre);
      var m := IdealRun(n, evs);
      forall c | Contributes(n, evs, c) ensures c <= m {
        if c != n + |evs| && c != evs[k].now * UNIT && !(evs[k].Remote? && c == Code(evs[k].from) + 1) {
          ContributesShift(n, evs, c);
        } else if c == n + |evs| {
          assert Contributes(n, pre, n + k);
        }
      }
      if m == IdealRun(n, pre) + 1 {
        ContributesGrow(n, evs, m - 1);
      }
    }
  }

  lemma ContributesShift(n: int, evs: seq<Event>, c: int)
    requires evs != [] && Contributes(n, evs, c)
    requires c != evs[|evs| - 1].now * UNIT && c != n + |evs|
    requires !(evs[|evs| - 1].Remote? && c == Code(evs[|evs| - 1].from) + 1)
    ensures Contributes(n, evs[..|evs| - 1], c - 1)
  {
    var k := |evs| - 1;
    var pre := evs[..k];
    if i :| 0 <= i < |evs| && c == evs[i].now * UNIT + (|evs| - 1 - i) {
      assert pre[i].now == evs[i].now;
    } else {
      var i :| 0 <= i < |evs| && evs[i].Remote? && c == Code(evs[i].from) + 1 + (|evs| - 1 - i);
      assert pre[i] == evs[i];
    }
  }

  lemma ContributesGrow(n: int, evs: seq<Event>, c: int)
    requires evs != [] && Contributes(n, evs[..|evs| - 1], c)
    ensures Contributes(n, evs, c + 1)
  {
    var pre := evs[..|evs| - 1];
    if c != n + |pre| {
      if i :| 0 <= i < |pre| && c == pre[i].now * UNIT + (|pre| - 1 - i) {
        assert evs[i].now == pre[i].now;
      } else {
        var i :| 0 <= i < |pre| && pre[i].Remote? && c == Code(pre[i].from) + 1 + (|pre| - 1 - i);
        assert evs[i] == pre[i];
      }
    }
  }

  lemma {:induction false} IdealRunMonotone(n: int, evs: seq<Event>, k: nat)
    requires k <= |evs|
    ensures IdealRun(n, evs[..k]) + (|evs| - k) <= IdealRun(n, evs)
  {
    if k == |evs| {
      assert evs[..k] == evs;
    } else {
      var pre := evs[..|evs| - 1];
      assert pre[..k] == evs[..k];
      IdealRunMonotone(n, pre, k);
    }
  }

  /** The machine clock follows the integers for a whole run exactly when the
      final integer fits, a condition the closed form lets a caller compute. */
  lemma {:induction false} NoOverflowIff(last: HLC, dev: string, evs: seq<Event>)
    ensures (forall k :: 0 <= k <= |evs| ==> Code(ClockRun(last, dev, evs[..k])) == IdealRun(Code(last), evs[..k]))
            <==> IdealRun(Code(last), evs) <= LIMIT
  {
    if IdealRun(Code(last), evs) <= LIMIT {
      forall k | 0 <= k <= |evs|
        ensures Code(ClockRun(last, dev, evs[..k])) == IdealRun(Code(last), evs[..k])
      {
        IdealRunMonotone(Code(last), evs, k);
        FollowsIntegers(last, dev, evs[..k]);
      }
    } else {
      assert evs[..|evs|] == evs;
      CodeBounds(ClockRun(last, dev, evs));
    }
  }

  lemma {:induction false} FollowsIntegers(last: HLC, dev: string, evs: seq<Event>)
    requires IdealRun(Code(last), evs) <= LIMIT
    ensures Code(ClockRun(last, dev, evs)) == IdealRun(Code(last), evs)
  {
    if evs != [] {
      IdealRunMonotone(Code(last), evs, |evs| - 1);
      FollowsIntegers(last, dev, evs[..|evs| - 1]);
    }
  }

  /** Drift: if every input stays at or below a bound, after k events the clock is
      at most k past the larger of its start and that bound. */
  lemma DriftBound(last: HLC, dev: string, evs: seq<Event>, bound: int)
    requires forall i :: 0 <= i < |evs| ==> evs[i].now * UNIT <= bound + 1
    requires forall i :: 0 <= i < |evs| && evs[i].Remote? ==> Code(evs[i].from) <= bound
    requires Max(Code(last), bound) + |evs| <= LIMIT
    ensures Code(last) + |evs| <= Code(ClockRun(last, dev, evs)) <= Max(Code(last), bound) + |evs|
  {
    var m := IdealRun(Code(last), evs);
    ClosedForm(Code(last), evs);
    assert Contributes(Code(last), evs, Code(last) + |evs|);
    FollowsIntegers(last, dev, evs);
  }

  // ----- A network of clocks -----

  /** One call on the clock of device dev; a receive names the earlier event whose
      stamp it was handed. Clocks are told apart by their device ids. */
  datatype Step = Step(dev: string, now: Int64, source: Source)
  datatype Source = NoSource | From(index: nat)

  /** The stamp the clock of dev holds just before event i; fresh clocks hold zero. */
  function Held(run: seq<Step>, stamps: seq<HLC>, i: nat, dev: string): HLC
    requires i <= |run| == |stamps|
  {
    if i == 0 then ZERO
    else if run[i - 1].dev == dev then stamps[i - 1]
    else Held(run, stamps, i - 1, dev)
  }

  /** stamps are what the clocks issued in this run, and no clock reached its limit. */
  ghost predicate IsRun(run: seq<Step>, stamps: seq<HLC>)
  {
    && |run| == |stamps|
    && (forall i :: 0 <= i < |run| ==> !AtLimit(stamps[i]))
    && (forall i :: 0 <= i < |run| ==> Issued(run, stamps, i))
  }

  ghost predicate Issued(run: seq<Step>, stamps: seq<HLC>, i: nat)
    requires i < |run| == |stamps|
  {
    var held := Held(run, stamps, i, run[i].dev);
    match run[i].source
    case NoSource => stamps[i] == Ticked(held, run[i].dev, run[i].now)
    case From(j) => j < i && stamps[i] == Received(held, run[i].dev, stamps[j], run[i].now)
  }

  lemma {:induction false} HeldPrefix(run: seq<Step>, stamps: seq<HLC>, step: Step, stamp: HLC, i: nat, dev: string)
    requires i <= |run| == |stamps|
    ensures Held(run + [step], stamps + [stamp], i, dev) == Held(run, stamps, i, dev)
  {
    if i > 0 {
      HeldPrefix(run, stamps, step, stamp, i - 1, dev);
    }
  }

  lemma HeldLast(run: seq<Step>, stamps: seq<HLC>, step: Step, stamp: HLC, dev: string)
    requires |run| == |stamps|
    ensures Held(run + [step], stamps + [stamp], |run| + 1, dev)
            == if dev == step.dev then stamp else Held(run, stamps, |run|, dev)
  {
    HeldPrefix(run, stamps, step, stamp, |run|, dev);
  }

  /** What the clock's own call returns: Tick, or Receive of a stamp issued before, on the stamp the clock holds. */
  ghost predicate Issues(run: seq<Step>, stamps: seq<HLC>, step: Step, stamp: HLC)
    requires |run| == |stamps|
  {
    var held := Held(run, stamps, |run|, step.dev);
    match step.source
    case NoSource => stamp == Ticked(held, step.dev, step.now)
    case From(j) => j < |run| && stamp == Received(held, step.dev, stamps[j], step.now)
  }

  lemma IssuedPrefix(run: seq<Step>, stamps: seq<HLC>, step: Step, stamp: HLC, i: nat)
    requires i < |run| == |stamps|
    ensures Issued(run + [step], stamps + [stamp], i) <==> Issued(run, stamps, i)
  {
    HeldPrefix(run, stamps, step, stamp, i, run[i].dev);
  }

  lemma IssuedLast(run: seq<Step>, stamps: seq<HLC>, step: Step, stamp: HLC)
    requires |run| == |stamps|
    ensures Issued(run + [step], stamps + [stamp], |run|) <==> Issues(run, stamps, step, stamp)
  {
    HeldPrefix(run, stamps, step, stamp, |run|, step.dev);
  }

  /** A run goes on exactly by what the call returns, short of the limit; the clock called then holds the new stamp,
      and no other changes. */
  lemma RunExtendsIff(run: seq<Step>, stamps: seq<HLC>, step: Step, stamp: HLC, dev: string)
    requires IsRun(run, stamps)
    ensures IsRun(run + [step], stamps + [stamp]) <==> Issues(run, stamps, step, stamp) && !AtLimit(stamp)
    ensures Held(run + [step], stamps + [stamp], |run| + 1, dev)
            == if dev == step.dev then stamp else Held(run, stamps, |run|, dev)
  {
    var more, all := run + [step], stamps + [stamp];
    IssuedLast(run, stamps, step, stamp);
    assert all[|run|] == stamp;
    forall i | 0 <= i < |run| ensures Issued(more, all, i) && !AtLimit(all[i]) {
      IssuedPrefix(run, stamps, step, stamp, i);
      assert Issued(run, stamps, i) && all[i] == stamps[i];
    }
    HeldLast(run, stamps, step, stamp, dev);
  }

  predicate Direct(run: seq<Step>, i: nat, j: nat)
    requires i < j < |run|
  {
    run[i].dev == run[j].dev || run[j].source == From(i)
  }

  /** Happened-before: program order and message delivery, closed transitively. */
  ghost predicate HappenedBefore(run: seq<Step>, i: nat, j: nat)
    requires j < |run|
    decreases j
  {
    && i < j
    && (Direct(run, i, j) || exists k: nat :: i < k < j && HappenedBefore(run, i, k) && Direct(run, k, j))
  }

  lemma {:induction false} HeldSound(run: seq<Step>, stamps: seq<HLC>, i: nat, dev: string)
    requires IsRun(run, stamps) && i <= |run|
    ensures !AtLimit(Held(run, stamps, i, dev))
    ensures Code(Held(run, stamps, i, dev)) >= 0
    decreases i, 0
  {
    if i > 0 {
      HeldSound(run, stamps, i - 1, dev);
      StampAdvances(run, stamps, i - 1);
    }
  }

  lemma {:induction false} StampAdvances(run: seq<Step>, stamps: seq<HLC>, i: nat)
    requires IsRun(run, stamps) && i < |run|
    ensures Code(stamps[i]) > 0 && stamps[i].dev == run[i].dev
    ensures Code(Held(run, stamps, i, run[i].dev)) < Code(stamps[i])
    ensures run[i].source.From? ==> run[i].source.index < i && Code(stamps[run[i].source.index]) < Code(stamps[i])
    decreases i, 1
  {
    var held := Held(run, stamps, i, run[i].dev);
    HeldSound(run, stamps, i, run[i].dev);
    assert Issued(run, stamps, i);
    match run[i].source
    case NoSource => TickAdvancesIff(held, run[i].dev, run[i].now);
    case From(j) => ReceiveAdvancesIff(held, run[i].dev, stamps[j], run[i].now);
  }

  /** The stamp held is at or after everything the device issued before. */
  lemma {:induction false} HeldCoversEarlier(run: seq<Step>, stamps: seq<HLC>, i: nat, k: nat)
    requires IsRun(run, stamps) && k < i <= |run|
    ensures Code(stamps[k]) <= Code(Held(run, stamps, i, run[k].dev))
    decreases i
  {
    if k < i - 1 {
      HeldCoversEarlier(run, stamps, i - 1, k);
      StampAdvances(run, stamps, i - 1);
    }
  }

  lemma DirectAdvances(run: seq<Step>, stamps: seq<HLC>, i: nat, j: nat)
    requires IsRun(run, stamps) && i < j < |run| && Direct(run, i, j)
    ensures Code(stamps[i]) < Code(stamps[j])
  {
    StampAdvances(run, stamps, j);
    HeldCoversEarlier(run, stamps, j, i);
  }

  /** The clock condition. */
  lemma {:induction false} HappenedBeforeImpliesBefore(run: seq<Step>, stamps: seq<HLC>, i: nat, j: nat)
    requires IsRun(run, stamps) && j < |run| && HappenedBefore(run, i, j)
    ensures Before(stamps[i], stamps[j]) && Code(stamps[i]) < Code(stamps[j])
    decreases j
  {
    if Direct(run, i, j) {
      DirectAdvances(run, stamps, i, j);
    } else {
      var k: nat :| i < k < j && HappenedBefore(run, i, k) && Direct(run, k, j);
      HappenedBeforeImpliesBefore(run, stamps, i, k);
      DirectAdvances(run, stamps, k, j);
    }
    CodeOrder(stamps[i], stamps[j]);
  }

  /** No stamp is ever issued twice, by any device, and all are well-stamped. */
  lemma StampsDistinct(run: seq<Step>, stamps: seq<HLC>, i: nat, j: nat)
    requires IsRun(run, stamps) && i < j < |run|
    ensures stamps[i] != stamps[j]
    ensures WellStamped(stamps[i]) && WellStamped(stamps[j])
  {
    StampAdvances(run, stamps, i);
    StampAdvances(run, stamps, j);
    CursorMeaning(stamps[i], ZERO);
    CursorMeaning(stamps[j], ZERO);
    if run[i].dev == run[j].dev {
      DirectAdvances(run, stamps, i, j);
    }
  }
}
