/** The per-IP token bucket of url-shortener/src/rate_limit.rs and its idle sweeper, over the reals. */
module RateLimit {
  import opened Options

  type Ip = nat
  type Time = real

  const IDLE_EVICT: real := 600.0

  datatype Bucket = Bucket(tokens: real, last: Time)
  datatype Params = Params(capacity: real, rate: real)
  type Buckets = map<Ip, Bucket>

  /** `RateLimiter::new`: an absent burst defaults to the rate. */
  function Configure(rps: nat, burst: nat): Params {
    Params((if burst == 0 then rps else burst) as real, rps as real)
  }

  function Min(a: real, b: real): real { if a <= b then a else b }

  /** `duration_since` saturates at zero. */
  function Since(now: Time, last: Time): real { if now > last then now - last else 0.0 }

  /** Tokens refilled over a span of time. */
  function Refill(p: Params, span: real): real { span * p.rate }

  lemma RefillAdds(p: Params, a: real, b: real)
    ensures Refill(p, a) + Refill(p, b) == Refill(p, a + b)
    ensures Refill(p, 0.0) == 0.0
  {
  }

  lemma RefillGrows(p: Params, a: real, b: real)
    requires p.rate > 0.0 && a <= b
    ensures Refill(p, a) <= Refill(p, b)
    ensures 0.0 <= a ==> 0.0 <= Refill(p, a)
  {
  }

  /** Tokens on hand when a request of `ip` arrives. */
  function Level(p: Params, m: Buckets, ip: Ip, now: Time): real {
    if ip in m then Min(m[ip].tokens + Refill(p, Since(now, m[ip].last)), p.capacity) else p.capacity
  }

  function Admit(p: Params, m: Buckets, ip: Ip, now: Time): bool {
    p.rate <= 0.0 || Level(p, m, ip, now) >= 1.0
  }

  function AfterCheck(p: Params, m: Buckets, ip: Ip, now: Time): Buckets {
    if p.rate <= 0.0 then m
    else m[ip := Bucket(Level(p, m, ip, now) - if Admit(p, m, ip, now) then 1.0 else 0.0, now)]
  }

  function AfterSweep(m: Buckets, now: Time): Buckets {
    map ip | ip in m && Since(now, m[ip].last) < IDLE_EVICT :: m[ip]
  }

  class RateLimiter {
    const p: Params
    var buckets: Buckets

    constructor (rps: nat, burst: nat)
      ensures p == Configure(rps, burst) && buckets == map[]
    {
      p := Params((if burst == 0 then rps else burst) as real, rps as real);
      buckets := map[];
    }

    /** One request under the lock, with the stamp taken before it. */
    method Check(ip: Ip, now: Time) returns (ok: bool)
      modifies this
      ensures ok == Admit(p, old(buckets), ip, now)
      ensures buckets == AfterCheck(p, old(buckets), ip, now)
    {
      if p.rate <= 0.0 {
        return true;
      }
      if ip !in buckets {
        buckets := buckets[ip := Bucket(p.capacity, now)];
      }
      var bucket := buckets[ip];
      var tokens := Min(bucket.tokens + Refill(p, Since(now, bucket.last)), p.capacity);
      if tokens >= 1.0 {
        buckets := buckets[ip := Bucket(tokens - 1.0, now)];
        ok := true;
      } else {
        buckets := buckets[ip := Bucket(tokens, now)];
        ok := false;
      }
    }

    /** One pass of the sweeper's `retain`. */
    method Sweep(now: Time)
      modifies this
      ensures buckets == AfterSweep(old(buckets), now)
      ensures forall ip :: ip in buckets <==> ip in old(buckets) && now - old(buckets)[ip].last < 600.0
    {
      var todo := buckets.Keys;
      while todo != {}
        invariant todo <= buckets.Keys <= old(buckets).Keys
        invariant forall ip :: ip in buckets ==> buckets[ip] == old(buckets)[ip]
        invariant forall ip :: ip in old(buckets) && ip !in todo ==>
                    (ip in buckets <==> Since(now, old(buckets)[ip].last) < IDLE_EVICT)
        decreases |todo|
      {
        var ip :| ip in todo;
        todo := todo - {ip};
        if Since(now, buckets[ip].last) >= IDLE_EVICT {
          buckets := buckets - {ip};
        }
      }
    }
  }

  /* ---------- the exact admission rule ---------- */

  datatype Request = Request(ip: Ip, at: Time)

  /** The buckets after a run of requests, in the order in which they took the lock. */
  function State(p: Params, run: seq<Request>): Buckets {
    if run == [] then map[]
    else var n := |run| - 1; AfterCheck(p, State(p, run[..n]), run[n].ip, run[n].at)
  }

  /** Request `n` is let through. */
  predicate Admits(p: Params, run: seq<Request>, n: nat)
    requires n < |run|
  {
    Admit(p, State(p, run[..n]), run[n].ip, run[n].at)
  }

  /** How many requests of `ip` were let through. */
  function Admitted(p: Params, run: seq<Request>, ip: Ip): nat {
    if run == [] then 0
    else
      var n := |run| - 1;
      Admitted(p, run[..n], ip) + if run[n].ip == ip && Admits(p, run, n) then 1 else 0
  }

  function LastStamp(run: seq<Request>, ip: Ip): Option<Time> {
    if run == [] then None
    else var n := |run| - 1; if run[n].ip == ip then Some(run[n].at) else LastStamp(run[..n], ip)
  }

  /** Time that has passed for `ip`: the sum of the forward steps between its stamps. Backward steps count as zero. */
  function Passed(run: seq<Request>, ip: Ip): real {
    if run == [] then 0.0
    else
      var n := |run| - 1;
      Passed(run[..n], ip) +
        if run[n].ip == ip && LastStamp(run[..n], ip).Some? then Since(run[n].at, LastStamp(run[..n], ip).value)
        else 0.0
  }

  /** What the burst and the refill since request `j` allow, less what was let through since. */
  function Slack(p: Params, run: seq<Request>, ip: Ip, j: nat): real
    requires j < |run|
  {
    p.capacity + Refill(p, Passed(run, ip) - Passed(run[..j + 1], ip)) -
      (Admitted(p, run, ip) - Admitted(p, run[..j], ip)) as real
  }

  /** `v` is the least slack over all requests of `ip` so far. */
  predicate LeastSlack(p: Params, run: seq<Request>, ip: Ip, v: real) {
    && (forall j :: 0 <= j < |run| && run[j].ip == ip ==> v <= Slack(p, run, ip, j))
    && (exists j :: 0 <= j < |run| && run[j].ip == ip && v == Slack(p, run, ip, j))
  }

  /** The bucket of `ip` holds exactly the least slack. */
  predicate TightBucket(p: Params, run: seq<Request>, ip: Ip) {
    var m := State(p, run);
    match LastStamp(run, ip)
    case None => ip !in m
    case Some(t) => ip in m && m[ip].last == t && LeastSlack(p, run, ip, m[ip].tokens)
  }

  /** One more request shifts every earlier slack by what was refilled and spent with it. */
  lemma SlackStep(p: Params, run: seq<Request>, ip: Ip, j: nat)
    requires 0 <= j < |run| - 1
    ensures var before := run[..|run| - 1];
            && before[j] == run[j]
            && Slack(p, run, ip, j) == Slack(p, before, ip, j) + Refill(p, Passed(run, ip) - Passed(before, ip))
                                       - (Admitted(p, run, ip) - Admitted(p, before, ip)) as real
  {
    var before := run[..|run| - 1];
    assert before[..j + 1] == run[..j + 1] && before[..j] == run[..j];
    hide Refill, Passed, Admitted;
    RefillAdds(p, Passed(before, ip) - Passed(run[..j + 1], ip), Passed(run, ip) - Passed(before, ip));
  }

  lemma SlackOfLast(p: Params, run: seq<Request>, ip: Ip)
    requires run != []
    ensures var n := |run| - 1;
            Slack(p, run, ip, n) == p.capacity - (Admitted(p, run, ip) - Admitted(p, run[..n], ip)) as real
  {
    assert run[..|run|] == run;
    hide Refill, Passed, Admitted;
    RefillAdds(p, 0.0, 0.0);
  }

  /** A request of another address changes no slack. */
  lemma LeastOther(p: Params, run: seq<Request>, ip: Ip, v: real)
    requires run != [] && run[|run| - 1].ip != ip && LeastSlack(p, run[..|run| - 1], ip, v)
    ensures LeastSlack(p, run, ip, v)
  {
    hide Slack;
    var n := |run| - 1;
    var before := run[..n];
    forall j | 0 <= j < n ensures Slack(p, run, ip, j) == Slack(p, before, ip, j) && run[j] == before[j] {
      SlackUnmoved(p, run, ip, j);
    }
    var j :| 0 <= j < n && before[j].ip == ip && v == Slack(p, before, ip, j);
    assert run[j].ip == ip && v == Slack(p, run, ip, j);
  }

  lemma SlackUnmoved(p: Params, run: seq<Request>, ip: Ip, j: nat)
    requires j < |run| - 1 && run[|run| - 1].ip != ip
    ensures Slack(p, run, ip, j) == Slack(p, run[..|run| - 1], ip, j) && run[j] == run[..|run| - 1][j]
  {
    var before := run[..|run| - 1];
    assert Passed(run, ip) == Passed(before, ip) && Admitted(p, run, ip) == Admitted(p, before, ip);
    hide Slack, Passed, Admitted, Refill;
    RefillAdds(p, 0.0, 0.0);
    SlackStep(p, run, ip, j);
  }

  /** Refill, cap and spend, seen as the new least slack. */
  lemma LeastSame(p: Params, run: seq<Request>, ip: Ip, v: real, gain: real, spent: real)
    requires run != [] && run[|run| - 1].ip == ip && LeastSlack(p, run[..|run| - 1], ip, v)
    requires gain == Refill(p, Passed(run, ip) - Passed(run[..|run| - 1], ip))
    requires spent == (Admitted(p, run, ip) - Admitted(p, run[..|run| - 1], ip)) as real
    ensures LeastSlack(p, run, ip, Min(v + gain, p.capacity) - spent)
  {
    hide Slack, Passed, Admitted, Refill;
    var n := |run| - 1;
    var before := run[..n];
    SlackOfLast(p, run, ip);
    forall j | 0 <= j < n
      ensures Slack(p, run, ip, j) == Slack(p, before, ip, j) + gain - spent && run[j] == before[j]
    {
      SlackStep(p, run, ip, j);
    }
    var j :| 0 <= j < n && before[j].ip == ip && v == Slack(p, before, ip, j);
    var k := if v + gain <= p.capacity then j else n;
    assert run[k].ip == ip && Min(v + gain, p.capacity) - spent == Slack(p, run, ip, k);
  }

  lemma LeastFirst(p: Params, run: seq<Request>, ip: Ip)
    requires run != [] && run[|run| - 1].ip == ip && LastStamp(run[..|run| - 1], ip).None?
    ensures LeastSlack(p, run, ip, p.capacity - (Admitted(p, run, ip) - Admitted(p, run[..|run| - 1], ip)) as real)
  {
    hide Slack, Passed, Admitted, Refill;
    var n := |run| - 1;
    SlackOfLast(p, run, ip);
    NoneBefore(run[..n], ip);
    forall j | 0 <= j < n ensures run[j].ip != ip { assert run[j] == run[..n][j]; }
    assert run[n].ip == ip;
  }

  lemma {:induction false} NoneBefore(run: seq<Request>, ip: Ip)
    requires LastStamp(run, ip).None?
    ensures forall j :: 0 <= j < |run| ==> run[j].ip != ip
    decreases |run|
  {
    if run != [] {
      var before := run[..|run| - 1];
      NoneBefore(before, ip);
      forall j | 0 <= j < |run| - 1 ensures run[j].ip != ip { assert run[j] == before[j]; }
    }
  }

  lemma {:induction false} BucketIsTight(p: Params, run: seq<Request>, ip: Ip)
    requires p.rate > 0.0
    ensures TightBucket(p, run, ip)
    decreases |run|
  {
    if run != [] {
      BucketIsTight(p, run[..|run| - 1], ip);
      TightStep(p, run, ip);
    }
  }

  lemma TightStep(p: Params, run: seq<Request>, ip: Ip)
    requires p.rate > 0.0 && run != [] && TightBucket(p, run[..|run| - 1], ip)
    ensures TightBucket(p, run, ip)
  {
    hide Refill, LeastSlack;
    var n := |run| - 1;
    var before, m, r := run[..n], State(p, run[..n]), run[n];
    if r.ip != ip {
      if LastStamp(before, ip).Some? {
        LeastOther(p, run, ip, m[ip].tokens);
      }
    } else {
      var spent := if Admits(p, run, n) then 1.0 else 0.0;
      assert spent == (Admitted(p, run, ip) - Admitted(p, before, ip)) as real;
      if LastStamp(before, ip).None? {
        LeastFirst(p, run, ip);
      } else {
        LeastSame(p, run, ip, m[ip].tokens, Refill(p, Since(r.at, m[ip].last)), spent);
      }
    }
  }

  /** The slack request `n` finds, counted from request `j`. */
  function SlackAt(p: Params, run: seq<Request>, n: nat, j: nat): real
    requires j <= n < |run|
  {
    var ip := run[n].ip;
    p.capacity + Refill(p, Passed(run[..n + 1], ip) - Passed(run[..j + 1], ip)) -
      (Admitted(p, run[..n], ip) - Admitted(p, run[..j], ip)) as real
  }

  /** The answer to the last request of a run, and what it leaves. */
  lemma LastCheck(p: Params, run: seq<Request>)
    requires p.rate > 0.0 && run != []
    ensures var n := |run| - 1;
            var ip, spent := run[n].ip, if Admits(p, run, n) then 1 else 0;
            && ip in State(p, run) && LastStamp(run, ip).Some?
            && (Admits(p, run, n) <==> State(p, run)[ip].tokens + spent as real >= 1.0)
            && Admitted(p, run, ip) == Admitted(p, run[..n], ip) + spent
  {
    hide Level;
  }

  lemma SlackAtLast(p: Params, run: seq<Request>, j: nat)
    requires run != [] && j < |run|
    ensures var n := |run| - 1;
            var ip := run[n].ip;
            Slack(p, run, ip, j) == SlackAt(p, run, n, j) - (Admitted(p, run, ip) - Admitted(p, run[..n], ip)) as real
  {
    assert run[..|run|] == run;
    hide Refill, Passed, Admitted;
  }

  lemma AdmissionOfLast(p: Params, run: seq<Request>)
    requires p.rate > 0.0 && run != []
    ensures var n := |run| - 1;
            Admits(p, run, n) <==> forall j :: 0 <= j <= n && run[j].ip == run[n].ip ==> 1.0 <= SlackAt(p, run, n, j)
  {
    var n := |run| - 1;
    var ip := run[n].ip;
    BucketIsTight(p, run, ip);
    LastCheck(p, run);
    hide Slack, SlackAt, State, Admits, Admitted, Passed, Refill;
    var level := State(p, run)[ip].tokens + (Admitted(p, run, ip) - Admitted(p, run[..n], ip)) as real;
    forall j | 0 <= j <= n && run[j].ip == ip ensures level <= SlackAt(p, run, n, j) {
      SlackAtLast(p, run, j);
    }
    var k :| 0 <= k <= n && run[k].ip == ip && State(p, run)[ip].tokens == Slack(p, run, ip, k);
    SlackAtLast(p, run, k);
    assert level == SlackAt(p, run, n, k);
  }

  /** Answers and slacks depend on the run up to the request alone. */
  lemma AdmitsPrefix(p: Params, run: seq<Request>, n: nat, m: nat)
    requires n < m <= |run|
    ensures run[..m][n] == run[n] && Admits(p, run[..m], n) == Admits(p, run, n)
  {
    hide Admit, State;
    assert run[..m][..n] == run[..n];
  }

  lemma SlackAtPrefix(p: Params, run: seq<Request>, n: nat, j: nat)
    requires j <= n < |run|
    ensures run[..n + 1][j] == run[j] && SlackAt(p, run[..n + 1], n, j) == SlackAt(p, run, n, j)
  {
    hide Passed, Admitted, Refill;
    var upto := run[..n + 1];
    assert upto[..n + 1] == upto && upto[..n] == run[..n] && upto[..j + 1] == run[..j + 1] && upto[..j] == run[..j];
  }

  /** Exact token-bucket theorem, for stamps in any order: request `n` is let through if and only if, counting from each
      request `j` of the same address up to itself, the number let through stays within the burst plus the refill. */
  lemma AdmissionRule(p: Params, run: seq<Request>, n: nat)
    requires p.rate > 0.0 && n < |run|
    ensures Admits(p, run, n) <==> forall j :: 0 <= j <= n && run[j].ip == run[n].ip ==> 1.0 <= SlackAt(p, run, n, j)
  {
    hide Admits, SlackAt;
    var upto := run[..n + 1];
    AdmissionOfLast(p, upto);
    AdmitsPrefix(p, run, n, n + 1);
    forall j | 0 <= j <= n ensures upto[j] == run[j] && SlackAt(p, upto, n, j) == SlackAt(p, run, n, j) {
      SlackAtPrefix(p, run, n, j);
    }
  }

  predicate Nondecreasing(run: seq<Request>) {
    forall i, j :: 0 <= i <= j < |run| ==> run[i].at <= run[j].at
  }

  /** For stamps in order, the time passed between two requests of an address is the difference of their stamps. */
  lemma {:induction false} PassedIsDifference(run: seq<Request>, ip: Ip, j: nat, n: nat)
    requires Nondecreasing(run) && j <= n < |run| && run[j].ip == run[n].ip == ip
    ensures Passed(run[..n + 1], ip) - Passed(run[..j + 1], ip) == run[n].at - run[j].at
    decreases n
  {
    if j < n {
      var m := Previous(run, ip, j, n);
      PassedIsDifference(run, ip, j, m);
      assert run[..n + 1][..n] == run[..n];
    }
  }

  /** The last request of `ip` before `n`. */
  lemma {:induction false} Previous(run: seq<Request>, ip: Ip, j: nat, n: nat) returns (m: nat)
    requires j < n <= |run| && run[j].ip == ip
    ensures j <= m < n && run[m].ip == ip
    ensures LastStamp(run[..n], ip) == Some(run[m].at) && Passed(run[..n], ip) == Passed(run[..m + 1], ip)
    decreases n
  {
    assert run[..n][..n - 1] == run[..n - 1];
    if run[n - 1].ip == ip {
      m := n - 1;
    } else {
      m := Previous(run, ip, j, n - 1);
    }
  }

  /** With stamps in order the rule speaks of wall-clock time alone. */
  lemma AdmissionByClock(p: Params, run: seq<Request>, n: nat)
    requires p.rate > 0.0 && n < |run| && Nondecreasing(run)
    ensures var ip := run[n].ip;
            Admits(p, run, n) <==>
              forall j :: 0 <= j <= n && run[j].ip == ip ==>
                (Admitted(p, run[..n], ip) - Admitted(p, run[..j], ip) + 1) as real
                <= p.capacity + Refill(p, run[n].at - run[j].at)
  {
    AdmissionRule(p, run, n);
    hide Refill, Passed, Admitted, Admits;
    var ip := run[n].ip;
    forall j | 0 <= j <= n && run[j].ip == ip
      ensures SlackAt(p, run, n, j) == p.capacity + Refill(p, run[n].at - run[j].at)
                                       - (Admitted(p, run[..n], ip) - Admitted(p, run[..j], ip)) as real
    {
      PassedIsDifference(run, ip, j, n);
    }
  }

  lemma AdmittedStep(p: Params, run: seq<Request>, ip: Ip, n: nat)
    requires 0 < n <= |run|
    ensures Admitted(p, run[..n], ip)
         == Admitted(p, run[..n - 1], ip) + if run[n - 1].ip == ip && Admits(p, run, n - 1) then 1 else 0
  {
    AdmitsPrefix(p, run, n - 1, n);
    hide Admits;
    assert run[..n][..n - 1] == run[..n - 1];
  }

  /** A request that is let through leaves the window it closes within bounds. */
  lemma WindowClosed(p: Params, run: seq<Request>, i: nat, n: nat)
    requires p.rate > 0.0 && Nondecreasing(run) && i <= n < |run| && Admits(p, run, n)
    ensures var ip := run[n].ip;
            (Admitted(p, run[..n], ip) + 1 - Admitted(p, run[..i], ip)) as real
            <= p.capacity + Refill(p, run[n].at - run[i].at)
  {
    hide Refill, Admits, Admitted;
    var j := FirstOf(p, run, run[n].ip, i, n);
    AdmissionByClock(p, run, n);
    assert run[i].at <= run[j].at;
    RefillGrows(p, run[n].at - run[j].at, run[n].at - run[i].at);
  }

  /** Every window of length `span` lets through at most the burst plus `rps * span` requests of an address. */
  lemma {:induction false} WindowBound(p: Params, run: seq<Request>, ip: Ip, i: nat, n: nat, span: real)
    requires p.rate > 0.0 && p.capacity >= 0.0 && span >= 0.0 && Nondecreasing(run)
    requires i <= n <= |run| && (i < n ==> run[n - 1].at - run[i].at <= span)
    ensures (Admitted(p, run[..n], ip) - Admitted(p, run[..i], ip)) as real <= p.capacity + Refill(p, span)
    decreases n
  {
    RefillGrows(p, 0.0, span);
    hide Refill, Admits, Admitted;
    if i < n {
      AdmittedStep(p, run, ip, n);
      if run[n - 1].ip == ip && Admits(p, run, n - 1) {
        WindowClosed(p, run, i, n - 1);
        RefillGrows(p, run[n - 1].at - run[i].at, span);
      } else {
        WindowBound(p, run, ip, i, n - 1, span);
      }
    }
  }

  /** The same in the numbers that the limiter was made with. */
  lemma BurstAndRate(rps: nat, burst: nat, run: seq<Request>, ip: Ip, i: nat, n: nat, span: real)
    requires rps > 0 && span >= 0.0 && Nondecreasing(run)
    requires i <= n <= |run| && (i < n ==> run[n - 1].at - run[i].at <= span)
    ensures var p := Configure(rps, burst);
            (Admitted(p, run[..n], ip) - Admitted(p, run[..i], ip)) as real
            <= (if burst == 0 then rps else burst) as real + span * rps as real
  {
    hide Admitted;
    WindowBound(Configure(rps, burst), run, ip, i, n, span);
  }

  /** At one instant a new limiter lets through exactly `burst` requests of an address, `rps` if no burst is given. */
  lemma {:induction false} BurstAtOnce(rps: nat, burst: nat, run: seq<Request>, ip: Ip, at: Time, n: nat)
    requires rps > 0 && n < |run| && forall i :: 0 <= i < |run| ==> run[i] == Request(ip, at)
    ensures Admits(Configure(rps, burst), run, n) <==> n < if burst == 0 then rps else burst
    ensures var m, most := State(Configure(rps, burst), run[..n + 1]), if burst == 0 then rps else burst;
            ip in m && m[ip] == Bucket((if n < most then most - n - 1 else 0) as real, at)
    decreases n
  {
    var p, before := Configure(rps, burst), run[..n];
    assert run[..n + 1][..n] == before;
    assert Refill(p, 0.0) == 0.0;
    hide Refill;
    if n > 0 {
      BurstAtOnce(rps, burst, run, ip, at, n - 1);
    } else {
      assert State(p, before) == map[];
    }
  }

  /** The first request of `ip` from `i` on; nothing of `ip` is let through before it. */
  lemma {:induction false} FirstOf(p: Params, run: seq<Request>, ip: Ip, i: nat, n: nat) returns (j: nat)
    requires i <= n < |run| && run[n].ip == ip
    ensures i <= j <= n && run[j].ip == ip && Admitted(p, run[..j], ip) == Admitted(p, run[..i], ip)
    decreases n - i
  {
    if run[i].ip == ip {
      j := i;
    } else {
      assert run[..i + 1][..i] == run[..i];
      j := FirstOf(p, run, ip, i + 1, n);
    }
  }

  /* ---------- eviction of idle buckets ---------- */

  datatype Event = Ask(ip: Ip, at: Time) | Evict(at: Time)

  datatype Run = Run(buckets: Buckets, answers: seq<bool>)

  function Exec(p: Params, events: seq<Event>): Run {
    if events == [] then Run(map[], [])
    else
      var r := Exec(p, events[..|events| - 1]);
      match events[|events| - 1]
      case Ask(ip, at) => Run(AfterCheck(p, r.buckets, ip, at), r.answers + [Admit(p, r.buckets, ip, at)])
      case Evict(at) => Run(AfterSweep(r.buckets, at), r.answers)
  }

  /** The same run without the sweeper. */
  function Unswept(events: seq<Event>): seq<Event> {
    if events == [] then []
    else
      var n := |events| - 1;
      Unswept(events[..n]) + if events[n].Ask? then [events[n]] else []
  }

  /** Stamps are taken before the lock, at most `d` before it is held: no event carries a stamp that lags an earlier
      one's by more. */
  predicate Lags(d: Time, events: seq<Event>) {
    forall i, j :: 0 <= i <= j < |events| ==> events[i].at <= events[j].at + d
  }

  /** The swept map agrees with the full one, and what is missing from it will have refilled by `soonest`, the earliest
      stamp that may still come. */
  predicate Indistinguishable(p: Params, swept: Buckets, full: Buckets, soonest: Time) {
    && (forall ip :: ip in swept ==> ip in full && full[ip] == swept[ip])
    && (forall ip :: ip in full ==> full[ip].tokens >= 0.0)
    && (forall ip :: ip in full && ip !in swept ==> full[ip].tokens + Refill(p, soonest - full[ip].last) >= p.capacity)
  }

  lemma AskAlike(p: Params, swept: Buckets, full: Buckets, ip: Ip, now: Time, soonest: Time)
    requires p.rate > 0.0 && p.capacity >= 0.0
    requires Indistinguishable(p, swept, full, now) && Indistinguishable(p, swept, full, soonest)
    ensures Admit(p, swept, ip, now) == Admit(p, full, ip, now)
    ensures Indistinguishable(p, AfterCheck(p, swept, ip, now), AfterCheck(p, full, ip, now), soonest)
  {
    hide Refill;
    if ip in full {
      RefillGrows(p, now - full[ip].last, Since(now, full[ip].last));
      RefillGrows(p, 0.0, Since(now, full[ip].last));
    }
    assert Level(p, swept, ip, now) == Level(p, full, ip, now);
  }

  lemma SweepAlike(p: Params, swept: Buckets, full: Buckets, now: Time, soonest: Time, d: Time)
    requires p.rate > 0.0 && p.capacity <= Refill(p, IDLE_EVICT - d) && now <= soonest + d
    requires Indistinguishable(p, swept, full, soonest)
    ensures Indistinguishable(p, AfterSweep(swept, now), full, soonest)
  {
    hide Refill;
    forall ip | ip in swept && ip !in AfterSweep(swept, now)
      ensures full[ip].tokens + Refill(p, soonest - full[ip].last) >= p.capacity
    {
      assert now - full[ip].last >= IDLE_EVICT;
      RefillGrows(p, IDLE_EVICT - d, soonest - full[ip].last);
    }
  }

  /** A swept run answers as the unswept one does, and stays indistinguishable from it for every stamp that may still
      come. */
  lemma {:induction false} SweptRunsAlike(p: Params, events: seq<Event>, d: Time, soonest: Time)
    requires p.rate > 0.0 && 0.0 <= p.capacity <= Refill(p, IDLE_EVICT - d) && Lags(d, events)
    requires forall i :: 0 <= i < |events| ==> events[i].at <= soonest + d
    ensures Exec(p, events).answers == Exec(p, Unswept(events)).answers
    ensures Indistinguishable(p, Exec(p, events).buckets, Exec(p, Unswept(events)).buckets, soonest)
    decreases |events|
  {
    hide Refill, Indistinguishable, AfterCheck, AfterSweep, Admit;
    if events == [] {
      NothingYet(p, soonest);
    } else {
      var n := |events| - 1;
      var before, e := events[..n], events[n];
      SweptRunsAlike(p, before, d, soonest);
      var swept, full := Exec(p, before).buckets, Exec(p, Unswept(before)).buckets;
      if e.Ask? {
        SweptRunsAlike(p, before, d, e.at);
        AskAlike(p, swept, full, e.ip, e.at, soonest);
        assert (Unswept(before) + [e])[..|Unswept(before)|] == Unswept(before);
      } else {
        SweepAlike(p, swept, full, e.at, soonest, d);
        assert Unswept(events) == Unswept(before);
      }
    }
  }

  lemma NothingYet(p: Params, soonest: Time)
    ensures Indistinguishable(p, map[], map[], soonest)
  {
  }

  /* When the burst exceeds what 600 seconds refill, an evicted bucket comes back too full. */

  function Repeat(ip: Ip, at: Time, k: nat): seq<Event> {
    if k == 0 then [] else Repeat(ip, at, k - 1) + [Ask(ip, at)]
  }

  /** A request that finds a token spends it and leaves the rest for the same instant. */
  lemma SpendOne(p: Params, m: Buckets, ip: Ip, at: Time)
    requires p.rate > 0.0 && 1.0 <= Level(p, m, ip, at)
    ensures Admit(p, m, ip, at)
    ensures var after := AfterCheck(p, m, ip, at);
            ip in after && after[ip] == Bucket(Level(p, m, ip, at) - 1.0, at)
                && Level(p, after, ip, at) == after[ip].tokens
  {
    RefillAdds(p, 0.0, 0.0);
    hide Refill;
  }

  /** A burst at one instant spends one token each, as long as there are tokens. */
  lemma {:induction false} Burst(p: Params, events: seq<Event>, ip: Ip, at: Time, k: nat)
    requires p.rate > 0.0 && k as real <= Level(p, Exec(p, events).buckets, ip, at)
    ensures var r, s := Exec(p, events), Exec(p, events + Repeat(ip, at, k));
            && |s.answers| == |r.answers| + k
            && Level(p, s.buckets, ip, at) == Level(p, r.buckets, ip, at) - k as real
            && (k > 0 ==> ip in s.buckets && s.buckets[ip] == Bucket(Level(p, r.buckets, ip, at) - k as real, at))
    decreases k
  {
    hide Level, Admit, AfterCheck, AfterSweep;
    if k == 0 {
      assert events + Repeat(ip, at, 0) == events;
    } else {
      Burst(p, events, ip, at, k - 1);
      var all := events + Repeat(ip, at, k - 1);
      assert events + Repeat(ip, at, k) == all + [Ask(ip, at)];
      ExecOne(p, all, Ask(ip, at));
      hide Exec, Repeat;
      SpendOne(p, Exec(p, all).buckets, ip, at);
    }
  }

  lemma ExecOne(p: Params, events: seq<Event>, e: Event)
    ensures var r := Exec(p, events);
            Exec(p, events + [e]) ==
            match e
            case Ask(ip, at) => Run(AfterCheck(p, r.buckets, ip, at), r.answers + [Admit(p, r.buckets, ip, at)])
            case Evict(at) => Run(AfterSweep(r.buckets, at), r.answers)
  {
    assert (events + [e])[..|events|] == events;
  }

  lemma {:induction false} RepeatEvents(ip: Ip, at: Time, k: nat)
    ensures |Repeat(ip, at, k)| == k
    ensures forall i :: 0 <= i < k ==> Repeat(ip, at, k)[i].at == at
    ensures Unswept(Repeat(ip, at, k)) == Repeat(ip, at, k)
    decreases k
  {
    if k > 0 {
      RepeatEvents(ip, at, k - 1);
      UnsweptOne(Repeat(ip, at, k - 1), Ask(ip, at));
    }
  }

  lemma UnsweptOne(events: seq<Event>, e: Event)
    ensures Unswept(events + [e]) == Unswept(events) + if e.Ask? then [e] else []
  {
    assert (events + [e])[..|events|] == events;
  }

  lemma {:induction false} UnsweptConcat(a: seq<Event>, b: seq<Event>)
    ensures Unswept(a + b) == Unswept(a) + Unswept(b)
    decreases |b|
  {
    if b == [] {
      assert a + b == a;
    } else {
      var n := |b| - 1;
      UnsweptConcat(a, b[..n]);
      assert (a + b)[..|a| + n] == a + b[..n];
    }
  }

  /** The earliest stamp that a request may carry after a sweep stamped 600. */
  function Soonest(d: Time): Time { if d <= IDLE_EVICT then IDLE_EVICT - d else 0.0 }

  /** Whole tokens refilled by then. */
  function Whole(d: Time, rps: nat): nat
    requires d >= 0.0
  {
    var r := Soonest(d) * rps as real;
    assert r >= 0.0;
    r.Floor
  }

  /** Spend the whole burst at 0, sweep at 600, then ask for one more than was refilled, as early as may be. */
  function Overdraw(capacity: nat, rps: nat, d: Time): seq<Event>
    requires d >= 0.0
  {
    Repeat(0, 0.0, capacity) + [Evict(IDLE_EVICT)] + Repeat(0, Soonest(d), Whole(d, rps)) + [Ask(0, Soonest(d))]
  }

  lemma OverdrawShape(capacity: nat, rps: nat, d: Time)
    requires d >= 0.0
    ensures Lags(d, Overdraw(capacity, rps, d))
    ensures Unswept(Overdraw(capacity, rps, d)) ==
            Repeat(0, 0.0, capacity) + Repeat(0, Soonest(d), Whole(d, rps)) + [Ask(0, Soonest(d))]
  {
    var t, k := Soonest(d), Whole(d, rps);
    RepeatEvents(0, 0.0, capacity);
    RepeatEvents(0, t, k);
    hide Repeat, Unswept, Whole;
    StampsLag(Repeat(0, 0.0, capacity), Repeat(0, t, k), d);
    UnsweptParts(Repeat(0, 0.0, capacity), Evict(IDLE_EVICT), Repeat(0, t, k), Ask(0, t));
  }

  lemma StampsLag(a: seq<Event>, b: seq<Event>, d: Time)
    requires d >= 0.0
    requires forall i :: 0 <= i < |a| ==> a[i].at == 0.0
    requires forall i :: 0 <= i < |b| ==> b[i].at == Soonest(d)
    ensures Lags(d, a + [Evict(IDLE_EVICT)] + b + [Ask(0, Soonest(d))])
  {
    var all := a + [Evict(IDLE_EVICT)] + b + [Ask(0, Soonest(d))];
    forall i | 0 <= i < |all|
      ensures all[i].at == if i < |a| then 0.0 else if i == |a| then IDLE_EVICT else Soonest(d)
    {
    }
  }

  lemma UnsweptParts(a: seq<Event>, sweep: Event, b: seq<Event>, last: Event)
    requires sweep.Evict? && last.Ask? && Unswept(a) == a && Unswept(b) == b
    ensures Unswept(a + [sweep] + b + [last]) == a + b + [last]
  {
    UnsweptOne(a + [sweep] + b, last);
    UnsweptConcat(a + [sweep], b);
    UnsweptOne(a, sweep);
    hide Unswept;
  }

  /** The last answer of a run. */
  lemma LastAnswer(p: Params, events: seq<Event>, ip: Ip, at: Time)
    ensures var s := Exec(p, events + [Ask(ip, at)]);
            s.answers != [] && s.answers[|s.answers| - 1] == Admit(p, Exec(p, events).buckets, ip, at)
  {
    ExecOne(p, events, Ask(ip, at));
  }

  /** Less than a token more than the whole ones is refilled, and all of it fits. */
  lemma WholeTokens(p: Params, capacity: nat, rps: nat, d: Time)
    requires p == Params(capacity as real, rps as real) && d >= 0.0 && rps > 0
    requires p.capacity > Refill(p, IDLE_EVICT - d) && capacity > 0
    ensures var k := Whole(d, rps);
            k as real <= Refill(p, Soonest(d)) < k as real + 1.0 && k + 1 <= capacity
    ensures Soonest(d) >= 0.0 && Refill(p, Soonest(d)) < p.capacity
  {
    var r := Soonest(d) * rps as real;
    assert r.Floor as real <= r < r.Floor as real + 1.0;
  }

  /** Without the sweep the extra request is refused, with it the request is let through. */
  lemma OverdrawDiffers(p: Params, capacity: nat, rps: nat, d: Time)
    requires p == Params(capacity as real, rps as real) && d >= 0.0 && rps > 0 && capacity > 0
    requires p.capacity > Refill(p, IDLE_EVICT - d)
    ensures Exec(p, Overdraw(capacity, rps, d)).answers != Exec(p, Unswept(Overdraw(capacity, rps, d))).answers
  {
    var t, k := Soonest(d), Whole(d, rps);
    var a, b := Repeat(0, 0.0, capacity), Repeat(0, t, k);
    OverdrawShape(capacity, rps, d);
    WholeTokens(p, capacity, rps, d);
    assert [] + a == a;
    Burst(p, [], 0, 0.0, capacity);
    var spent := Exec(p, a).buckets;
    assert spent[0] == Bucket(0.0, 0.0);
    hide Refill, Exec, Repeat, Unswept, Soonest, Whole;

    // Unswept: the second burst spends every whole token refilled by then.
    assert Since(t, 0.0) == t;
    Burst(p, a, 0, t, k);
    LastAnswer(p, a + b, 0, t);
    assert !Admit(p, Exec(p, a + b).buckets, 0, t);

    // Swept: the bucket is gone, and its successor starts full.
    ExecOne(p, a, Evict(IDLE_EVICT));
    var swept := a + [Evict(IDLE_EVICT)];
    assert 0 !in Exec(p, swept).buckets;
    Burst(p, swept, 0, t, k);
    LastAnswer(p, swept + b, 0, t);
    assert Admit(p, Exec(p, swept + b).buckets, 0, t);
  }

  /** Evicting idle buckets preserves behaviour, on every run of requests and sweeps whose stamps lag the order of the
      lock by at most `d`, exactly when 600 seconds less `d` refill the whole burst. Stamps in order are `d == 0`. */
  lemma EvictionPreserves(rps: nat, burst: nat, d: Time)
    requires rps > 0 && d >= 0.0
    ensures var p := Configure(rps, burst);
            (forall events :: Lags(d, events) ==> Exec(p, events).answers == Exec(p, Unswept(events)).answers)
            <==> (if burst == 0 then rps else burst) as real <= (600.0 - d) * rps as real
  {
    var p := Configure(rps, burst);
    var capacity := if burst == 0 then rps else burst;
    assert p.capacity == capacity as real && Refill(p, IDLE_EVICT - d) == (600.0 - d) * rps as real;
    hide Refill, Exec, Unswept, Lags, Overdraw;
    if p.capacity <= Refill(p, IDLE_EVICT - d) {
      forall events | Lags(d, events) ensures Exec(p, events).answers == Exec(p, Unswept(events)).answers {
        assert d >= 0.0;
        SweptRunsAlike(p, events, d, Highest(events));
      }
    } else {
      OverdrawShape(capacity, rps, d);
      OverdrawDiffers(p, capacity, rps, d);
    }
  }

  function Highest(events: seq<Event>): (t: Time)
    ensures forall i :: 0 <= i < |events| ==> events[i].at <= t
  {
    if events == [] then 0.0
    else
      var n := |events| - 1;
      var t := Highest(events[..n]);
      if t < events[n].at then events[n].at else t
  }

  /** With limiting disabled everything passes and nothing is stored. */
  lemma Disabled(burst: nat, run: seq<Request>, n: nat)
    requires n < |run|
    ensures Admits(Configure(0, burst), run, n) && State(Configure(0, burst), run) == map[]
  {
    DisabledState(Configure(0, burst), run);
  }

  lemma {:induction false} DisabledState(p: Params, run: seq<Request>)
    requires p.rate <= 0.0
    ensures State(p, run) == map[]
    decreases |run|
  {
    if run != [] {
      DisabledState(p, run[..|run| - 1]);
    }
  }
}
