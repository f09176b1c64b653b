/** The failed-attempt limiter in front of the admin console. Times are
    nanoseconds; requests are served one at a time with non-decreasing clocks. */
module Limiter {
  const MAX_ATTEMPTS: int := 5
  const WINDOW: int := 900_000_000_000   // 15 minutes

  datatype Bucket = Bucket(count: nat, resetAt: int)
  type Buckets = map<string, Bucket>

  /** The clock readings one request takes: on the limit check, then twice while recording. */
  datatype Times = Times(checked: int, judged: int, stamped: int)
  {
    predicate Ordered() { checked <= judged <= stamped }
  }

  datatype Status = Forbidden | TooManyRequests | Unauthorized | Served

  function AfterCheck(b: Buckets, ip: string, now: int): Buckets
  {
    if ip in b && now > b[ip].resetAt then b - {ip} else b
  }

  predicate Blocked(b: Buckets, ip: string, now: int)
  {
    ip in b && now <= b[ip].resetAt && b[ip].count >= MAX_ATTEMPTS
  }

  function AfterRecord(b: Buckets, ip: string, judged: int, stamped: int): Buckets
  {
    if ip !in b || judged > b[ip].resetAt then b[ip := Bucket(1, stamped + WINDOW)]
    else b[ip := b[ip].(count := b[ip].count + 1)]
  }

  /** The buckets after one request, and the time of the failure it recorded, if any. */
  datatype Request = Request(ip: string, allowed: bool, passes: bool, at: Times)

  predicate Records(b: Buckets, r: Request)
  {
    r.allowed && !Blocked(b, r.ip, r.at.checked) && !r.passes
  }

  function Handled(b: Buckets, r: Request): Buckets
  {
    if !r.allowed then b
    else
      var c := AfterCheck(b, r.ip, r.at.checked);
      if Records(b, r) then AfterRecord(c, r.ip, r.at.judged, r.at.stamped) else c
  }

  /** White space, as Unicode has it. */
  predicate IsSpace(c: char)
  {
    || '\t' <= c <= '\r' || c == ' ' || c == '\U{85}' || c == '\U{A0}' || c == '\U{1680}'
    || '\U{2000}' <= c <= '\U{200A}' || c == '\U{2028}' || c == '\U{2029}' || c == '\U{202F}'
    || c == '\U{205F}' || c == '\U{3000}'
  }

  /** An entry of the allow list without the white space around it. */
  function Trim(s: string): string
  {
    if s == [] then []
    else if IsSpace(s[0]) then Trim(s[1..])
    else if IsSpace(s[|s| - 1]) then Trim(s[..|s| - 1])
    else s
  }

  predicate AllSpace(s: string)
  {
    forall c :: c in s ==> IsSpace(c)
  }

  /** What Trim takes away is white space, and none is left at either end. */
  lemma {:induction false} TrimMeaning(s: string) returns (left: string, right: string)
    ensures s == left + Trim(s) + right && AllSpace(left) && AllSpace(right)
    ensures Trim(s) != [] ==> !IsSpace(Trim(s)[0]) && !IsSpace(Trim(s)[|Trim(s)| - 1])
  {
    left, right := [], [];
    if s != [] && IsSpace(s[0]) {
      left, right := TrimMeaning(s[1..]);
      left := [s[0]] + left;
    } else if s != [] && IsSpace(s[|s| - 1]) {
      left, right := TrimMeaning(s[..|s| - 1]);
      right := right + [s[|s| - 1]];
    }
  }

  predicate ListAllows(allowed: seq<string>, ip: string)
  {
    exists i :: 0 <= i < |allowed| && Trim(allowed[i]) == ip
  }

  class AdminAuth {
    var rateBuckets: Buckets
    const allowedIPs: seq<string>

    constructor (allowedIPs: seq<string>)
      ensures rateBuckets == map[] && this.allowedIPs == allowedIPs
    {
      rateBuckets := map[];
      this.allowedIPs := allowedIPs;
    }

    method IpAllowed(ip: string) returns (ok: bool)
      ensures ok <==> ListAllows(allowedIPs, ip)
    {
      for i := 0 to |allowedIPs|
        invariant forall j :: 0 <= j < i ==> Trim(allowedIPs[j]) != ip
      {
        if Trim(allowedIPs[i]) == ip {
          return true;
        }
      }
      return false;
    }

    method RateLimited(ip: string, now: int) returns (limited: bool)
      modifies this
      ensures limited == Blocked(old(rateBuckets), ip, now)
      ensures rateBuckets == AfterCheck(old(rateBuckets), ip, now)
    {
      if ip !in rateBuckets {
        return false;
      }
      if now > rateBuckets[ip].resetAt {
        rateBuckets := rateBuckets - {ip};
        return false;
      }
      return rateBuckets[ip].count >= MAX_ATTEMPTS;
    }

    method RecordAttempt(ip: string, judged: int, stamped: int)
      modifies this
      ensures rateBuckets == AfterRecord(old(rateBuckets), ip, judged, stamped)
    {
      if ip !in rateBuckets || judged > rateBuckets[ip].resetAt {
        rateBuckets := rateBuckets[ip := Bucket(1, stamped + WINDOW)];
        return;
      }
      var b := rateBuckets[ip];
      rateBuckets := rateBuckets[ip := b.(count := b.count + 1)];
    }

    /** passes: the request carries the right password. */
    method RequireAdminAuth(ip: string, passes: bool, at: Times) returns (status: Status)
      modifies this
      ensures var allowed := allowedIPs == [] || exists i :: 0 <= i < |allowedIPs| && Trim(allowedIPs[i]) == ip;
              var b := old(rateBuckets);
              var full := ip in b && b[ip].count >= 5 && at.checked <= b[ip].resetAt;
              && status == (if !allowed then Forbidden
                            else if full then TooManyRequests
                            else if passes then Served
                            else Unauthorized)
              && (status in {Forbidden, TooManyRequests} ==> rateBuckets == b)
              && (status == Served ==>
                    rateBuckets == if ip in b && at.checked > b[ip].resetAt then b - {ip} else b)
              && (status == Unauthorized ==>
                    rateBuckets == b[ip := if ip in b && at.checked <= b[ip].resetAt && at.judged <= b[ip].resetAt
                                           then Bucket(b[ip].count + 1, b[ip].resetAt)
                                           else Bucket(1, at.stamped + 15 * 60 * 1_000_000_000)])
      ensures var allowed := allowedIPs == [] || ListAllows(allowedIPs, ip);
              rateBuckets == Handled(old(rateBuckets), Request(ip, allowed, passes, at))
    {
      if |allowedIPs| > 0 {
        var ok := IpAllowed(ip);
        if !ok {
          return Forbidden;
        }
      }
      var limited := RateLimited(ip, at.checked);
      if limited {
        return TooManyRequests;
      }
      if !passes {
        RecordAttempt(ip, at.judged, at.stamped);
        return Unauthorized;
      }
      return Served;
    }
  }

  // ----- Runs -----

  ghost predicate InTime(rs: seq<Request>)
  {
    && (forall i :: 0 <= i < |rs| ==> rs[i].at.Ordered())
    && (forall i, j :: 0 <= i < j < |rs| ==> rs[i].at.stamped <= rs[j].at.checked)
  }

  function After(rs: seq<Request>): Buckets
  {
    if rs == [] then map[] else Handled(After(rs[..|rs| - 1]), rs[|rs| - 1])
  }

  /** The failures recorded for one address: when, and as which attempt of their bucket. */
  datatype Failure = Failure(time: int, attempt: nat, resetAt: int)

  function Failures(rs: seq<Request>, ip: string): seq<Failure>
  {
    if rs == [] then []
    else
      var pre, r := rs[..|rs| - 1], rs[|rs| - 1];
      if r.ip == ip && Records(After(pre), r) then
        Failures(pre, ip) + [Failure(r.at.judged, After(rs)[ip].count, After(rs)[ip].resetAt)]
      else Failures(pre, ip)
  }

  /** Failures come in buckets of at most five, and a bucket is only replaced after its reset time. */
  ghost predicate Bucketed(f: seq<Failure>)
  {
    && (forall i :: 0 <= i < |f| ==> 1 <= f[i].attempt <= MAX_ATTEMPTS)
    && (forall i :: 0 <= i < |f| && f[i].attempt == 1 ==> f[i].resetAt >= f[i].time + WINDOW)
    && (forall i, j :: 0 <= i && j == i + 1 < |f| ==> Follows(f[i], f[j]))
    && InTimeOrder(f)
  }

  ghost predicate InTimeOrder(f: seq<Failure>)
  {
    forall i, j :: 0 <= i < j < |f| ==> f[i].time <= f[j].time
  }

  /** e can follow last: the next attempt of its bucket, or the first of a new one after the reset. */
  predicate Follows(last: Failure, e: Failure)
  {
    || (e.attempt == last.attempt + 1 && e.resetAt == last.resetAt)
    || (e.attempt == 1 && e.time > last.resetAt)
  }

  /** The bucket table agrees with the history of one address. */
  ghost predicate Agrees(b: Buckets, f: seq<Failure>, ip: string, now: int)
  {
    && (ip in b ==> f != [] && f[|f| - 1].attempt == b[ip].count && f[|f| - 1].resetAt == b[ip].resetAt)
    && (ip !in b && f != [] ==> f[|f| - 1].resetAt < now)
    && (forall i :: 0 <= i < |f| ==> f[i].time <= now)
  }

  function LastTime(rs: seq<Request>): int
    requires rs != []
  {
    rs[|rs| - 1].at.stamped
  }

  lemma {:induction false} RunInvariant(rs: seq<Request>, ip: string)
    requires InTime(rs)
    ensures Bucketed(Failures(rs, ip))
    ensures rs == [] ==> ip !in After(rs) && Failures(rs, ip) == []
    ensures rs != [] ==> Agrees(After(rs), Failures(rs, ip), ip, LastTime(rs))
  {
    if rs != [] {
      var pre, r := rs[..|rs| - 1], rs[|rs| - 1];
      RunInvariant(pre, ip);
      StepInvariant(After(pre), Failures(pre, ip), r, ip, if pre == [] then r.at.checked else LastTime(pre));
    }
  }

  lemma StepInvariant(b: Buckets, f: seq<Failure>, r: Request, ip: string, now: int)
    requires Bucketed(f) && Agrees(b, f, ip, now) && now <= r.at.checked && r.at.Ordered()
    ensures var g := if r.ip == ip && Records(b, r)
                     then f + [Failure(r.at.judged, Handled(b, r)[ip].count, Handled(b, r)[ip].resetAt)] else f;
            Bucketed(g) && Agrees(Handled(b, r), g, ip, r.at.stamped)
  {
    if r.ip == ip && Records(b, r) {
      var h := Handled(b, r)[ip];
      var e := Failure(r.at.judged, h.count, h.resetAt);
      if f != [] {
        assert Follows(f[|f| - 1], e);
      }
      BucketedAdd(f, e);
    }
  }

  lemma BucketedAdd(f: seq<Failure>, e: Failure)
    requires Bucketed(f) && 1 <= e.attempt <= MAX_ATTEMPTS && (e.attempt == 1 ==> e.resetAt >= e.time + WINDOW)
    requires f != [] ==> Follows(f[|f| - 1], e)
    requires forall i :: 0 <= i < |f| ==> f[i].time <= e.time
    ensures Bucketed(f + [e])
  {
  }

  /** No bucket ever counts past the maximum. */
  lemma {:induction false} BucketNeverPastMax(rs: seq<Request>, ip: string)
    requires InTime(rs) && ip in After(rs)
    ensures 1 <= After(rs)[ip].count <= 5
  {
    RunInvariant(rs, ip);
  }

  /** Attempt numbers run up from one; after five steps without a new bucket there would be a sixth. */
  lemma {:induction false} NextBucket(f: seq<Failure>, i: nat, j: nat)
    requires Bucketed(f) && i < j < |f|
    requires forall x :: i < x <= j ==> f[x].attempt != 1
    ensures f[j].attempt == f[i].attempt + (j - i)
    decreases j
  {
    if i + 1 < j {
      NextBucket(f, i, j - 1);
    }
  }

  lemma {:induction false} SameBucket(f: seq<Failure>, i: nat, j: nat)
    requires Bucketed(f) && i <= j < |f|
    requires forall x :: i < x <= j ==> f[x].attempt != 1
    ensures f[j].resetAt == f[i].resetAt
    decreases j
  {
    if i < j {
      SameBucket(f, i, j - 1);
    }
  }

  lemma FindNewBucket(f: seq<Failure>, i: nat) returns (p: nat)
    requires Bucketed(f) && i < |f| && i + (MAX_ATTEMPTS + 1 - f[i].attempt) < |f|
    ensures i < p <= i + (MAX_ATTEMPTS + 1 - f[i].attempt) && f[p].attempt == 1
    ensures forall x :: i < x < p ==> f[x].attempt != 1
  {
    p := i + 1;
    while f[p].attempt != 1
      invariant i < p <= i + (MAX_ATTEMPTS + 1 - f[i].attempt)
      invariant forall x :: i < x < p ==> f[x].attempt != 1
      decreases i + (MAX_ATTEMPTS + 1 - f[i].attempt) - p
    {
      NextBucket(f, i, p);
      p := p + 1;
    }
  }

  /** Ten failures never fit in a closed window of fifteen minutes. */
  lemma TenDoNotFit(f: seq<Failure>, i: nat)
    requires Bucketed(f) && i + 9 < |f|
    ensures f[i + 9].time > f[i].time + WINDOW
  {
    var p := i;
    if f[i].attempt != 1 {
      p := FindNewBucket(f, i);
    }
    var q := FindNewBucket(f, p);
    SameBucket(f, p, q - 1);
  }

  /** How many of the failures fall in the closed window of fifteen minutes that starts at from, in nanoseconds. */
  function CountIn(f: seq<Failure>, from: int): nat
  {
    if f == [] then 0
    else CountIn(f[..|f| - 1], from) + if from <= f[|f| - 1].time <= from + 15 * 60 * 1_000_000_000 then 1 else 0
  }

  /** The bound over any closed window: four failures of one bucket and five of the next. */
  lemma AtMostNine(rs: seq<Request>, ip: string, from: int)
    requires InTime(rs)
    ensures CountIn(Failures(rs, ip), from) <= 9
  {
    RunInvariant(rs, ip);
    CountBound(Failures(rs, ip), from);
  }

  lemma {:induction false} CountBound(f: seq<Failure>, from: int)
    requires Bucketed(f)
    ensures CountIn(f, from) <= 9
  {
    var n := |f|;
    if n > 9 && from <= f[n - 1].time <= from + WINDOW {
      TenDoNotFit(f, n - 10);
      CountNone(f[..n - 9], from);
      CountTail(f, n - 9, from);
    } else if n > 9 {
      BucketedPrefix(f);
      CountBound(f[..n - 1], from);
    } else {
      CountTail(f, 0, from);
    }
  }

  lemma BucketedPrefix(f: seq<Failure>)
    requires Bucketed(f) && f != []
    ensures Bucketed(f[..|f| - 1])
  {
  }

  lemma {:induction false} CountNone(f: seq<Failure>, from: int)
    requires forall i :: 0 <= i < |f| ==> f[i].time < from
    ensures CountIn(f, from) == 0
  {
    if f != [] {
      CountNone(f[..|f| - 1], from);
    }
  }

  lemma {:induction false} CountTail(f: seq<Failure>, k: nat, from: int)
    requires k <= |f|
    ensures CountIn(f, from) <= CountIn(f[..k], from) + (|f| - k)
  {
    if k == |f| {
      assert f[..k] == f;
    } else {
      assert f[..|f| - 1][..k] == f[..k];
      CountTail(f[..|f| - 1], k, from);
    }
  }

  function Attempt(time: int): Request
  {
    Request("ip", true, false, Times(time, time, time))
  }

  lemma CountAdd(f: seq<Failure>, e: Failure, from: int)
    ensures CountIn(f + [e], from) == CountIn(f, from) + if from <= e.time <= from + WINDOW then 1 else 0
  {
    assert (f + [e])[..|f|] == f;
  }

  lemma OneMore(rs: seq<Request>, time: int, from: int)
    requires !Blocked(After(rs), "ip", time)
    ensures After(rs + [Attempt(time)]) == Handled(After(rs), Attempt(time))
    ensures CountIn(Failures(rs + [Attempt(time)], "ip"), from)
            == CountIn(Failures(rs, "ip"), from) + if from <= time <= from + WINDOW then 1 else 0
  {
    var all := rs + [Attempt(time)];
    assert all[..|all| - 1] == rs;
    var b := After(all);
    assert Records(After(rs), Attempt(time));
    CountAdd(Failures(rs, "ip"), Failure(time, b["ip"].count, b["ip"].resetAt), from);
  }

  /** A failure that opens a bucket, then four more of it. */
  lemma FiveFailures(rs: seq<Request>, first: int, rest: int, from: int)
    requires first <= rest <= first + WINDOW && ("ip" in After(rs) ==> first > After(rs)["ip"].resetAt)
    ensures var t := Five(rs, first, rest);
            && "ip" in After(t) && After(t)["ip"] == Bucket(5, first + WINDOW)
            && CountIn(Failures(t, "ip"), from) == CountIn(Failures(rs, "ip"), from)
               + (if from <= first <= from + WINDOW then 1 else 0) + (if from <= rest <= from + WINDOW then 4 else 0)
  {
    var a := rs + [Attempt(first)];
    var b := a + [Attempt(rest)];
    var c := b + [Attempt(rest)];
    var d := c + [Attempt(rest)];
    OneMore(rs, first, from);
    OneMore(a, rest, from);
    OneMore(b, rest, from);
    OneMore(c, rest, from);
    OneMore(d, rest, from);
  }

  /** Nine is reached: a bucket opened just before the window, and a full one right after its reset. */
  lemma NineIsReached() returns (rs: seq<Request>)
    ensures InTime(rs) && CountIn(Failures(rs, "ip"), 10) == 9
  {
    var t := WINDOW + 1;
    var first := Five([], 0, 10);
    FiveFailures([], 0, 10, 10);
    rs := Five(first, t, t);
    FiveFailures(first, t, t, 10);
    InTimeFive([], 0, 10, 0);
    InTimeFive(first, t, t, 10);
  }

  function Five(rs: seq<Request>, first: int, rest: int): seq<Request>
  {
    rs + [Attempt(first)] + [Attempt(rest)] + [Attempt(rest)] + [Attempt(rest)] + [Attempt(rest)]
  }

  lemma InTimeFive(rs: seq<Request>, first: int, rest: int, now: int)
    requires InTime(rs) && now <= first <= rest && forall i :: 0 <= i < |rs| ==> rs[i].at.stamped <= now
    ensures InTime(Five(rs, first, rest))
    ensures forall i :: 0 <= i < |rs| + 5 ==> Five(rs, first, rest)[i].at.stamped <= rest
  {
  }
}
