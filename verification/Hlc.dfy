/** Hybrid logical clock stamps: the total order, the cursor predicates of the
    delta query, and the clock that issues stamps. */
module Hlc {
  const MAX_INT64: int := 0x7FFF_FFFF_FFFF_FFFF
  const MIN_INT64: int := -0x8000_0000_0000_0000
  const MAX_UINT32: int := 0xFFFF_FFFF

  /** Number of logical values that fit in one unit of wall time. */
  const UNIT: int := 0x1_0000_0000

  type Int64 = x: int | MIN_INT64 <= x <= MAX_INT64
  type Uint32 = x: int | 0 <= x <= MAX_UINT32

  datatype HLC = HLC(wall: Int64, logical: Uint32, dev: string)

  /** The zero value: the cursor of a client that has never synced. */
  const ZERO: HLC := HLC(0, 0, "")

  /** Order of device ids: bytewise in Go and in SQLite, which on UTF-8 text is
      the order of the code points. */
  predicate Less(a: string, b: string)
  {
    b != "" && (a == "" || a[0] < b[0] || (a[0] == b[0] && Less(a[1..], b[1..])))
  }

  predicate Before(a: HLC, b: HLC)
  {
    if a.wall != b.wall then a.wall < b.wall
    else if a.logical != b.logical then a.logical < b.logical
    else Less(a.dev, b.dev)
  }

  /** The WHERE clause of the delta query. A cursor without a device id ignores
      device ids altogether. */
  predicate AfterCursor(ts: HLC, since: HLC)
  {
    if since.dev != "" then
      || ts.wall > since.wall
      || (ts.wall == since.wall && ts.logical > since.logical)
      || (ts.wall == since.wall && ts.logical == since.logical && Less(since.dev, ts.dev))
    else
      || ts.wall > since.wall
      || (ts.wall == since.wall && ts.logical > since.logical)
  }

  /** Stamps a zero cursor can see. */
  predicate WellStamped(ts: HLC)
  {
    AfterCursor(ts, ZERO)
  }

  // ----- The order -----

  lemma {:induction false} LessIrreflexive(a: string)
    ensures !Less(a, a)
  {
    if a != "" {
      LessIrreflexive(a[1..]);
    }
  }

  lemma {:induction false} LessTransitive(a: string, b: string, c: string)
    requires Less(a, b) && Less(b, c)
    ensures Less(a, c)
  {
    if a != "" && a[0] == b[0] == c[0] {
      LessTransitive(a[1..], b[1..], c[1..]);
    }
  }

  lemma {:induction false} LessTotal(a: string, b: string)
    ensures Less(a, b) || a == b || Less(b, a)
  {
    if a != "" && b != "" && a[0] == b[0] {
      LessTotal(a[1..], b[1..]);
      assert a == [a[0]] + a[1..] && b == [b[0]] + b[1..];
    }
  }

  /** The two agree up to place k, and there a ends or has the smaller character. */
  predicate SmallerAt(a: string, b: string, k: nat)
  {
    && k <= |a| && k < |b| && a[..k] == b[..k]
    && (k == |a| || a[k] < b[k])
  }

  /** The order of device ids goes by the first difference. */
  lemma {:induction false} LessIff(a: string, b: string)
    ensures Less(a, b) <==> exists k: nat :: SmallerAt(a, b, k)
  {
    if a == "" || b == "" || a[0] != b[0] {
      assert b != "" && (a == "" || a[0] < b[0]) ==> SmallerAt(a, b, 0);
      forall k: nat ensures SmallerAt(a, b, k) ==> k == 0 { SmallerHead(a, b, k); }
    } else {
      LessIff(a[1..], b[1..]);
      forall k: nat ensures SmallerAt(a[1..], b[1..], k) <==> SmallerAt(a, b, k + 1) {
        SmallerTail(a, b, k);
      }
      assert !SmallerAt(a, b, 0);
      forall k: nat | SmallerAt(a, b, k) ensures SmallerAt(a[1..], b[1..], k - 1) {}
    }
  }

  lemma SmallerHead(a: string, b: string, k: nat)
    ensures k > 0 && SmallerAt(a, b, k) ==> a != "" && b != "" && a[0] == b[0]
  {
    assert k > 0 && SmallerAt(a, b, k) ==> a[..k][0] == a[0] && b[..k][0] == b[0];
  }

  lemma SmallerTail(a: string, b: string, k: nat)
    requires a != "" && b != "" && a[0] == b[0]
    ensures SmallerAt(a[1..], b[1..], k) <==> SmallerAt(a, b, k + 1)
  {
    if k + 1 <= |a| && k + 1 < |b| {
      assert a[..k + 1] == [a[0]] + a[1..][..k] && b[..k + 1] == [b[0]] + b[1..][..k];
    }
  }

  /** Wall time first, then the counter, then the device id by its first difference. */
  lemma BeforeIff(a: HLC, b: HLC)
    ensures Before(a, b)
            <==> || a.wall < b.wall
                 || (a.wall == b.wall && a.logical < b.logical)
                 || (a.wall == b.wall && a.logical == b.logical && exists k: nat :: SmallerAt(a.dev, b.dev, k))
  {
    LessIff(a.dev, b.dev);
  }

  lemma BeforeIrreflexive(a: HLC)
    ensures !Before(a, a)
  {
    LessIrreflexive(a.dev);
  }

  lemma BeforeTransitive(a: HLC, b: HLC, c: HLC)
    requires Before(a, b) && Before(b, c)
    ensures Before(a, c)
  {
    if a.wall == b.wall == c.wall && a.logical == b.logical == c.logical {
      LessTransitive(a.dev, b.dev, c.dev);
    }
  }

  lemma BeforeTotal(a: HLC, b: HLC)
    ensures Before(a, b) || a == b || Before(b, a)
  {
    LessTotal(a.dev, b.dev);
  }

  /** Before is a strict total order, so exactly one of the three cases holds. */
  lemma BeforeStrictTotalOrder(a: HLC, b: HLC, c: HLC)
    ensures !Before(a, a)
    ensures Before(a, b) ==> !Before(b, a)
    ensures Before(a, b) || a == b || Before(b, a)
    ensures Before(a, b) && Before(b, c) ==> Before(a, c)
    ensures !Before(b, a) && !Before(c, b) ==> !Before(c, a)
    ensures !Before(b, a) && Before(b, c) ==> Before(a, c)
    ensures Before(a, b) && !Before(c, b) ==> Before(a, c)
  {
    BeforeIrreflexive(a);
    BeforeTotal(a, b);
    BeforeTotal(b, c);
    BeforeTotal(a, c);
    if Before(a, b) && Before(b, a) { BeforeTransitive(a, b, a); }
    if Before(a, b) && Before(b, c) { BeforeTransitive(a, b, c); }
    if Before(c, a) && Before(a, b) { BeforeTransitive(c, a, b); }
    if Before(b, c) && Before(c, a) { BeforeTransitive(b, c, a); }
  }

  // ----- Cursors -----

  /** The two query predicates in terms of the order: a full cursor selects
      exactly the stamps after it, a partial one the stamps with a greater code. */
  lemma CursorMeaning(ts: HLC, since: HLC)
    ensures since.dev != "" ==> (AfterCursor(ts, since) <==> Before(since, ts))
    ensures since.dev == "" ==> (AfterCursor(ts, since) <==> Code(since) < Code(ts))
    ensures AfterCursor(ts, since) ==> Before(since, ts)
    ensures Code(since) < Code(ts) ==> AfterCursor(ts, since)
  {
  }

  /** Whatever is selected stays selected when its stamp grows or the cursor shrinks to zero. */
  lemma AfterCursorUpward(x: HLC, y: HLC, since: HLC)
    requires AfterCursor(x, since) && !Before(y, x)
    ensures AfterCursor(y, since)
  {
    if since.dev != "" {
      BeforeStrictTotalOrder(since, x, y);
      CursorMeaning(x, since);
      CursorMeaning(y, since);
    }
  }

  /** Moving the cursor forward over something it selected never selects more. */
  lemma CursorAdvance(ts: HLC, since: HLC, next: HLC)
    requires AfterCursor(next, since)
    requires AfterCursor(ts, next)
    ensures AfterCursor(ts, since)
  {
    CursorMeaning(ts, next);
    BeforeStrictTotalOrder(next, ts, ts);
    AfterCursorUpward(next, ts, since);
  }

  /** The cursors that never select a stamp the zero cursor would not. */
  predicate FromZero(since: HLC)
  {
    Code(since) > 0 || (Code(since) == 0 && since.dev == "")
  }

  /** FromZero is exactly the class of cursors that select well-stamped ops only. */
  lemma FromZeroIff(since: HLC)
    ensures FromZero(since) <==> forall ts: HLC | AfterCursor(ts, since) :: WellStamped(ts)
  {
    if FromZero(since) {
      forall ts: HLC | AfterCursor(ts, since) ensures WellStamped(ts) {
        CursorMeaning(ts, since);
        CursorMeaning(ts, ZERO);
      }
    } else if since.dev != "" && Code(since) == 0 {
      var ts := HLC(0, 0, since.dev + "z");
      LessExtend(since.dev, "z");
      assert AfterCursor(ts, since);
      assert !WellStamped(ts);
    } else {
      assert AfterCursor(ZERO, since);
      assert !WellStamped(ZERO);
    }
  }

  lemma {:induction false} LessExtend(a: string, b: string)
    requires b != ""
    ensures Less(a, a + b)
  {
    if a != "" {
      assert (a + b)[1..] == a[1..] + b;
      LessExtend(a[1..], b);
    }
  }

  // ----- Stamps as integers -----

  function Code(h: HLC): int
  {
    h.wall * UNIT + h.logical
  }

  const LIMIT: int := MAX_INT64 * UNIT + MAX_UINT32
  const BOTTOM: int := MIN_INT64 * UNIT

  function FromCode(n: int, dev: string): (h: HLC)
    requires BOTTOM <= n <= LIMIT
    ensures Code(h) == n && h.dev == dev
  {
    HLC(n / UNIT, n % UNIT, dev)
  }

  lemma CodeBounds(h: HLC)
    ensures BOTTOM <= Code(h) <= LIMIT
    ensures FromCode(Code(h), h.dev) == h
  {
  }

  lemma CodeOrder(a: HLC, b: HLC)
    ensures Code(a) < Code(b) ==> Before(a, b)
    ensures Code(a) == Code(b) ==> a.wall == b.wall && a.logical == b.logical
    ensures Before(a, b) ==> Code(a) <= Code(b)
  {
  }

  /** True of the one stamp a clock cannot step past without wrapping int64. */
  predicate AtLimit(h: HLC)
  {
    h.wall == MAX_INT64 && h.logical == MAX_UINT32
  }

  function Max(a: int, b: int): int
  {
    if a > b then a else b
  }

  /** Two's complement: one past the limit is the bottom. */
  function WrapCode(n: int): int
  {
    if n == LIMIT + 1 then BOTTOM else n
  }

  /** The stamp Tick issues: one more than the last, or the physical time. */
  function Ticked(last: HLC, dev: string, now: Int64): HLC
  {
    CodeBounds(last);
    FromCode(WrapCode(Max(Code(last) + 1, now * UNIT)), dev)
  }

  /** The stamp Receive issues: one more than both inputs, or the physical time. */
  function Received(last: HLC, dev: string, remote: HLC, now: Int64): HLC
  {
    CodeBounds(last);
    CodeBounds(remote);
    FromCode(WrapCode(Max(Max(Code(last), Code(remote)) + 1, now * UNIT)), dev)
  }

  // ----- The clock -----

  function Wrap64(x: int): Int64
    requires MIN_INT64 <= x <= MAX_INT64 + 1
  {
    if x == MAX_INT64 + 1 then MIN_INT64 else x
  }

  function Max3(a: Int64, b: Int64, c: Int64): (m: Int64)
    ensures m >= a && m >= b && m >= c && m in {a, b, c}
  {
    if a >= b && a >= c then a else if b >= c then b else c
  }

  function Max2u(a: Uint32, b: Uint32): (m: Uint32)
    ensures m >= a && m >= b && m in {a, b}
  {
    if a > b then a else b
  }

  /** The carry of the logical counter into the wall time. */
  method AdvanceLogicalWall(wall: Int64, logical: Uint32) returns (w: Int64, l: Uint32)
    ensures w * UNIT + l == WrapCode(wall * UNIT + logical + 1)
  {
    if logical == MAX_UINT32 {
      l := 0;
      w := Wrap64(wall + 1);
    } else {
      l := logical + 1;
      w := wall;
    }
  }

  class Clock {
    var last: HLC
    const deviceID: string

    constructor (deviceID: string)
      ensures last == ZERO && this.deviceID == deviceID
    {
      last := ZERO;
      this.deviceID := deviceID;
    }

    /** now is what the physical clock reads during the call. */
    method Tick(now: Int64) returns (stamp: HLC)
      modifies this
      ensures stamp == last == Ticked(old(last), deviceID, now)
    {
      ghost var target := Ticked(last, deviceID, now);
      if now <= last.wall {
        if last.logical == MAX_UINT32 {
          last := last.(wall := Wrap64(last.wall + 1), logical := 0);
        } else {
          last := last.(logical := last.logical + 1);
        }
      } else {
        last := last.(wall := now, logical := 0);
      }
      last := last.(dev := deviceID);
      CodeOrder(last, target);
      return last;
    }

    method Receive(remote: HLC, now: Int64) returns (stamp: HLC)
      modifies this
      ensures stamp == last == Received(old(last), deviceID, remote, now)
    {
      ghost var target := Received(last, deviceID, remote, now);
      var maxWall := Max3(now, last.wall, remote.wall);
      var logical: Uint32;
      if maxWall == last.wall && maxWall == remote.wall {
        logical := Max2u(last.logical, remote.logical);
        maxWall, logical := AdvanceLogicalWall(maxWall, logical);
      } else if maxWall == last.wall {
        maxWall, logical := AdvanceLogicalWall(maxWall, last.logical);
      } else if maxWall == remote.wall {
        maxWall, logical := AdvanceLogicalWall(maxWall, remote.logical);
      } else {
        logical := 0;
      }
      last := HLC(maxWall, logical, deviceID);
      CodeOrder(last, target);
      return last;
    }
  }

  /** A tick is after the previous stamp exactly when that stamp is not the limit. */
  lemma TickAdvancesIff(last: HLC, dev: string, now: Int64)
    ensures Before(last, Ticked(last, dev, now)) <==> !AtLimit(last)
    ensures !AtLimit(last) ==> Code(Ticked(last, dev, now)) == Max(Code(last) + 1, now * UNIT)
  {
    CodeBounds(last);
    CodeOrder(last, Ticked(last, dev, now));
  }

  /** A receive is after both inputs exactly when neither is the limit. */
  lemma ReceiveAdvancesIff(last: HLC, dev: string, remote: HLC, now: Int64)
    ensures (Before(last, Received(last, dev, remote, now)) && Before(remote, Received(last, dev, remote, now)))
            <==> !AtLimit(last) && !AtLimit(remote)
    ensures !AtLimit(last) && !AtLimit(remote) ==>
              Code(Received(last, dev, remote, now)) == Max(Max(Code(last), Code(remote)) + 1, now * UNIT)
  {
    var r := Received(last, dev, remote, now);
    CodeBounds(last);
    CodeBounds(remote);
    CodeOrder(last, r);
    CodeOrder(remote, r);
  }
}
