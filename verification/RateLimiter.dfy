/** The fixed-window request counter (middleware/rate_limit.py). Requests are handled one at a time, the cache
    works, and a key expires exactly at its time to live. */
module RateLimiter {

  const RATE_LIMIT: nat := 60
  const RATE_LIMIT_WINDOW: real := 60.0
  const MOST_IN_A_MINUTE: nat := 2 * RATE_LIMIT - 1

  datatype Entry = Entry(count: nat, expires: real)
  datatype Request = Request(ip: string, time: real)

  type Cache = map<string, Entry>

  predicate Live(cache: Cache, ip: string, now: real) {
    ip in cache && now < cache[ip].expires
  }

  /** One counted request: the entry it leaves. A new entry opens a window; an old one keeps its end. */
  function Counted(cache: Cache, r: Request): Entry {
    if Live(cache, r.ip, r.time) then Entry(cache[r.ip].count + 1, cache[r.ip].expires)
    else Entry(1, r.time + RATE_LIMIT_WINDOW)
  }

  predicate Passes(cache: Cache, r: Request) {
    Counted(cache, r).count <= RATE_LIMIT
  }

  function After(cache: Cache, r: Request): Cache {
    cache[r.ip := Counted(cache, r)]
  }

  class GlobalRateLimit {
    var cache: Cache

    constructor ()
      ensures cache == map[]
    {
      cache := map[];
    }

    /** `__call__`: static, media and health paths and requests without an address are not counted. */
    method Handle(r: Request, counted: bool) returns (passed: bool)
      modifies this
      ensures counted ==> passed == Passes(old(cache), r) && cache == After(old(cache), r)
      ensures !counted ==> passed && cache == old(cache)
    {
      if !counted { return true; }
      var count;
      if Add(cache, r.ip, r.time) {
        cache := cache[r.ip := Entry(1, r.time + RATE_LIMIT_WINDOW)];
        count := 1;
      } else {
        count := cache[r.ip].count + 1;
        cache := cache[r.ip := cache[r.ip].(count := count)];
      }
      return !(count > RATE_LIMIT);
    }

    /** `cache.add` succeeds only without a live entry. */
    static predicate Add(cache: Cache, ip: string, now: real) {
      !Live(cache, ip, now)
    }
  }

  // ---- timed runs

  ghost predicate InOrder(rs: seq<Request>) {
    forall i, j | 0 <= i < j < |rs| :: rs[i].time <= rs[j].time
  }

  /** What every reachable cache is like: no window ends more than its length after `now`, and the request that
      opened it is counted. */
  ghost predicate Plausible(cache: Cache, now: real) {
    forall ip | ip in cache :: cache[ip].expires <= now + RATE_LIMIT_WINDOW && cache[ip].count >= 1
  }

  /** How many requests of an address pass with a time from `start` on and before `start + length`. */
  function Passed(cache: Cache, rs: seq<Request>, ip: string, start: real, length: real): nat
    decreases |rs|
  {
    if rs == [] then 0
    else
      (if rs[0].ip == ip && start <= rs[0].time < start + length && Passes(cache, rs[0]) then 1 else 0) +
      Passed(After(cache, rs[0]), rs[1..], ip, start, length)
  }

  /** What is left of the open window. */
  function Left(e: Entry): nat {
    if e.count < RATE_LIMIT then RATE_LIMIT - e.count else 0
  }

  /** How many passes the interval of one window length from `start` can still see. */
  function Budget(cache: Cache, ip: string, now: real, start: real): nat {
    if now >= start + RATE_LIMIT_WINDOW then 0
    else if !Live(cache, ip, now) then (if now >= start then RATE_LIMIT else MOST_IN_A_MINUTE)
    else if cache[ip].expires - RATE_LIMIT_WINDOW >= start then Left(cache[ip])
    else if cache[ip].expires > start then Left(cache[ip]) + RATE_LIMIT
    else MOST_IN_A_MINUTE
  }

  lemma {:induction false} PassedWithinBudget(cache: Cache, rs: seq<Request>, ip: string, start: real, now: real)
    requires InOrder(rs) && Plausible(cache, now) && (rs != [] ==> now <= rs[0].time)
    ensures Passed(cache, rs, ip, start, RATE_LIMIT_WINDOW) <= Budget(cache, ip, now, start)
    decreases |rs|
  {
    if rs != [] {
      var r := rs[0];
      PassedWithinBudget(After(cache, r), rs[1..], ip, start, r.time);
    }
  }

  /** Over every timed run, from any reachable cache, at most 119 requests of an address pass in any 60 seconds:
      two windows meet the interval, and the request that opened the first of them lies before it. */
  lemma AtMost119InAMinute(cache: Cache, rs: seq<Request>, ip: string, start: real, now: real)
    requires InOrder(rs) && Plausible(cache, now) && (rs != [] ==> now <= rs[0].time)
    ensures Passed(cache, rs, ip, start, 60.0) <= 119
  {
    PassedWithinBudget(cache, rs, ip, start, now);
  }

  // ---- exactly how many pass

  ghost predicate InOrderFrom(rs: seq<Request>, start: real) {
    InOrder(rs) && forall i | 0 <= i < |rs| :: start <= rs[i].time
  }

  /** The requests of an address from one time on and before another. */
  function Asked(rs: seq<Request>, ip: string, from: real, to: real): nat {
    if rs == [] then 0
    else (if rs[0].ip == ip && from <= rs[0].time < to then 1 else 0) + Asked(rs[1..], ip, from, to)
  }

  function Least(a: nat, b: nat): nat {
    if a < b then a else b
  }

  /** The end of the window that is open at `start`, or `start` itself when none is. */
  function WindowEnd(cache: Cache, ip: string, start: real): real {
    if Live(cache, ip, start) then cache[ip].expires else start
  }

  /** What the window open at `start` still lets through. */
  function LeftAt(cache: Cache, ip: string, start: real): nat {
    if Live(cache, ip, start) then Left(cache[ip]) else 0
  }

  /** Of all requests of an address in the 60 seconds from `start`, those before the open window's end share what it
      has left, and those after share one full window. */
  lemma {:induction false} PassedExactly(cache: Cache, rs: seq<Request>, ip: string, start: real)
    requires InOrderFrom(rs, start)
    ensures var end := start + RATE_LIMIT_WINDOW;
            var close := if WindowEnd(cache, ip, start) < end then WindowEnd(cache, ip, start) else end;
            Passed(cache, rs, ip, start, RATE_LIMIT_WINDOW) ==
            Least(Asked(rs, ip, start, close), LeftAt(cache, ip, start)) + Least(Asked(rs, ip, close, end), RATE_LIMIT)
    decreases |rs|
  {
    if rs != [] {
      var r, rest := rs[0], rs[1..];
      assert forall i | 0 <= i < |rest| :: rest[i] == rs[i + 1] && r.time <= rs[i + 1].time;
      PassedExactly(After(cache, r), rest, ip, start);
      var end, close := start + RATE_LIMIT_WINDOW, WindowEnd(cache, ip, start);
      AskedSpan(rest, ip, end, end);
      AskedSpan(rs, ip, end, end);
      if r.ip == ip && end <= r.time {
        NoneAsked(rest, ip, r.time, end);
        NoneAsked(rs, ip, r.time, end);
      } else if r.ip == ip && close <= r.time {
        NoneAsked(rest, ip, r.time, close);
        AskedSplit(rest, ip, start, close, end);
      }
    }
  }

  lemma {:induction false} NoneAsked(rs: seq<Request>, ip: string, now: real, last: real)
    requires last <= now && forall i | 0 <= i < |rs| :: now <= rs[i].time
    ensures forall from, to | to <= last :: Asked(rs, ip, from, to) == 0
  {
    if rs != [] { NoneAsked(rs[1..], ip, now, last); }
  }

  lemma {:induction false} AskedSpan(rs: seq<Request>, ip: string, from: real, to: real)
    requires to <= from
    ensures Asked(rs, ip, from, to) == 0
  {
    if rs != [] { AskedSpan(rs[1..], ip, from, to); }
  }

  lemma {:induction false} AskedSplit(rs: seq<Request>, ip: string, from: real, middle: real, to: real)
    requires from <= middle <= to
    ensures Asked(rs, ip, from, to) == Asked(rs, ip, from, middle) + Asked(rs, ip, middle, to)
  {
    if rs != [] { AskedSplit(rs[1..], ip, from, middle, to); }
  }

  /** The documented limit holds in the 60 seconds from `start`, whatever is asked, exactly when no window is open
      then, or the open one is used up or ends no sooner. */
  lemma LimitHoldsIff(cache: Cache, ip: string, start: real)
    ensures (forall rs: seq<Request> | InOrderFrom(rs, start) ::
               Passed(cache, rs, ip, start, RATE_LIMIT_WINDOW) <= RATE_LIMIT) <==>
            !Live(cache, ip, start) || Left(cache[ip]) == 0 || start + RATE_LIMIT_WINDOW <= cache[ip].expires
  {
    if !Live(cache, ip, start) || Left(cache[ip]) == 0 || start + RATE_LIMIT_WINDOW <= cache[ip].expires {
      forall rs: seq<Request> | InOrderFrom(rs, start)
        ensures Passed(cache, rs, ip, start, RATE_LIMIT_WINDOW) <= RATE_LIMIT
      {
        PassedExactly(cache, rs, ip, start);
        AskedSpan(rs, ip, start + RATE_LIMIT_WINDOW, start + RATE_LIMIT_WINDOW);
      }
    } else {
      var close := cache[ip].expires;
      var rs := [Request(ip, start)] + Copies(ip, close, RATE_LIMIT);
      PassedExactly(cache, rs, ip, start);
      assert rs[0] == Request(ip, start) && rs[1..] == Copies(ip, close, RATE_LIMIT);
      CopiesAsked(ip, close, RATE_LIMIT, start, close);
      CopiesAsked(ip, close, RATE_LIMIT, close, start + RATE_LIMIT_WINDOW);
      assert Passed(cache, rs, ip, start, RATE_LIMIT_WINDOW) > RATE_LIMIT;
    }
  }

  lemma {:induction false} CopiesAsked(ip: string, time: real, n: nat, from: real, to: real)
    ensures Asked(Copies(ip, time, n), ip, from, to) == if from <= time < to then n else 0
    decreases n
  {
    if n > 0 {
      assert Copies(ip, time, n)[1..] == Copies(ip, time, n - 1);
      CopiesAsked(ip, time, n - 1, from, to);
    }
  }

  /** So in a window that opens with the first request, exactly the first 60 requests of the address pass. */
  lemma WindowPassesExactly(cache: Cache, rs: seq<Request>, ip: string, start: real)
    requires InOrder(rs) &&
             (forall i | 0 <= i < |rs| :: rs[i].ip == ip && start <= rs[i].time < start + RATE_LIMIT_WINDOW)
    requires !Live(cache, ip, start)
    ensures Passed(cache, rs, ip, start, 60.0) == Least(|rs|, 60)
  {
    PassedExactly(cache, rs, ip, start);
    AskedSpan(rs, ip, start, start);
    AllAsked(rs, ip, start, start + RATE_LIMIT_WINDOW);
  }

  lemma {:induction false} AllAsked(rs: seq<Request>, ip: string, from: real, to: real)
    requires forall i | 0 <= i < |rs| :: rs[i].ip == ip && from <= rs[i].time < to
    ensures Asked(rs, ip, from, to) == |rs|
  {
    if rs != [] { AllAsked(rs[1..], ip, from, to); }
  }

  /** The bound is reached: the limit of 60 a minute holds window by window only, and 119 requests can pass within
      one second and a half. */
  lemma BurstAcrossWindows(ip: string)
    ensures var rs := Burst(ip);
            InOrder(rs) && Passed(map[], rs, ip, 59.0, 1.5) == 119
  {
    var rs := Burst(ip);
    var first := Request(ip, 0.0);
    var started := After(map[], first);
    assert rs[0] == first && rs[1..] == Copies(ip, 59.0, 59) + Copies(ip, 60.0, 60);
    SameInstant(started, Copies(ip, 60.0, 60), ip, 59.0, 59);
    var full := started[ip := Entry(60, 60.0)];
    assert Copies(ip, 60.0, 60)[0] == Request(ip, 60.0);
    var next := After(full, Request(ip, 60.0));
    assert Copies(ip, 60.0, 60) == [Request(ip, 60.0)] + (Copies(ip, 60.0, 59) + []);
    SameInstant(next, [], ip, 60.0, 59);
  }

  function Copies(ip: string, time: real, n: nat): seq<Request> {
    seq(n, i => Request(ip, time))
  }

  function Burst(ip: string): seq<Request> {
    [Request(ip, 0.0)] + Copies(ip, 59.0, 59) + Copies(ip, 60.0, 60)
  }

  /** Requests at one instant all pass while the window has room. */
  lemma {:induction false} SameInstant(cache: Cache, rest: seq<Request>, ip: string, time: real, n: nat)
    requires Live(cache, ip, time) && cache[ip].count + n <= RATE_LIMIT && 59.0 <= time < 60.5
    ensures Passed(cache, Copies(ip, time, n) + rest, ip, 59.0, 1.5) ==
            n + Passed(cache[ip := Entry(cache[ip].count + n, cache[ip].expires)], rest, ip, 59.0, 1.5)
  {
    var rs := Copies(ip, time, n) + rest;
    if n == 0 {
      assert rs == rest;
      assert cache[ip := Entry(cache[ip].count, cache[ip].expires)] == cache;
    } else {
      var next := After(cache, rs[0]);
      assert rs[0] == Request(ip, time);
      assert rs[1..] == Copies(ip, time, n - 1) + rest;
      SameInstant(next, rest, ip, time, n - 1);
      assert next[ip := Entry(next[ip].count + (n - 1), next[ip].expires)] ==
          cache[ip := Entry(cache[ip].count + n, cache[ip].expires)];
    }
  }
}
