/** The hit batcher of url-shortener/src/hits.rs: a bounded queue, a worker that owns the map of pending counts, and its
    flushes. The view batcher of the pastebin is the same program over paste ids. */
module Batcher {
  type Code = nat

  const CHANNEL_CAPACITY: nat := 8192

  type Counts = map<Code, nat>

  function Count(m: Counts, code: Code): nat { if code in m then m[code] else 0 }

  function Bump(m: Counts, code: Code, n: nat): Counts { m[code := Count(m, code) + n] }

  function Drop(m: Counts, code: Code): Counts { m - {code} }

  lemma BumpCount(m: Counts, code: Code, n: nat, other: Code)
    ensures Count(Bump(m, code, n), other) == Count(m, other) + if other == code then n else 0
    ensures Bump(m, code, n).Keys == m.Keys + {code}
  {
  }

  lemma DropCount(m: Counts, code: Code, other: Code)
    ensures Count(Drop(m, code), other) == if other == code then 0 else Count(m, other)
    ensures Drop(m, code).Keys == m.Keys - {code}
  {
  }

  /** `increment_hits_by` on the hit counters of the existing rows: a missing row is left alone. */
  function AddTo(rows: Counts, code: Code, n: nat): Counts {
    if code in rows then rows[code := rows[code] + n] else rows
  }

  /** The rows once every pending count is written, but for the writes that fail. */
  function Credit(rows: Counts, pending: Counts, failing: set<Code>): (r: Counts) {
    map code | code in rows :: rows[code] + if code in failing then 0 else Count(pending, code)
  }

  datatype Msg = Hit(code: Code) | Flush(ack: nat)

  /* ---------- the worker on its own ---------- */

  lemma CreditNothing(rows: Counts, failing: set<Code>)
    ensures Credit(rows, map[], failing) == rows
  {
  }

  /** Writing one more count is one more addition. */
  lemma CreditOne(rows: Counts, written: Counts, code: Code, n: nat, failing: set<Code>)
    requires code !in written
    ensures Credit(rows, written[code := n], failing)
         == if code in failing then Credit(rows, written, failing) else AddTo(Credit(rows, written, failing), code, n)
  {
    var more, less := Credit(rows, written[code := n], failing), Credit(rows, written, failing);
    forall c | c in rows ensures more[c] == less[c] + if c == code && c !in failing then n else 0 {
      assert Count(written[code := n], c) == if c == code then n else Count(written, c);
    }
  }

  lemma CreditBump(rows: Counts, pending: Counts, code: Code)
    ensures Credit(rows, Bump(pending, code, 1), {}) == AddTo(Credit(rows, pending, {}), code, 1)
  {
    var more, less := Credit(rows, Bump(pending, code, 1), {}), Credit(rows, pending, {});
    forall c | c in rows ensures more[c] == less[c] + if c == code then 1 else 0 {
      assert Count(Bump(pending, code, 1), c) == Count(pending, c) + if c == code then 1 else 0;
    }
  }

  function Without(m: Counts, codes: set<Code>): Counts { map c | c in m && c !in codes :: m[c] }

  lemma WithoutLess(m: Counts, codes: set<Code>, code: Code)
    requires code in codes && code in m
    ensures code !in Without(m, codes) && Without(m, codes - {code}) == Without(m, codes)[code := m[code]]
  {
  }

  lemma WithoutEnds(m: Counts)
    ensures Without(m, m.Keys) == map[] && Without(m, {}) == m
  {
  }

  /** `flush`: drain the map in whatever order its iterator takes; the result is the same. */
  method FlushPending(rows: Counts, pending: Counts, failing: set<Code>) returns (r: Counts)
    ensures r == Credit(rows, pending, failing)
  {
    hide Credit, AddTo, Without;
    r := rows;
    var todo := pending.Keys;
    CreditNothing(rows, failing);
    WithoutEnds(pending);
    while todo != {}
      invariant todo <= pending.Keys && r == Credit(rows, Without(pending, todo), failing)
      decreases |todo|
    {
      var code :| code in todo;
      WithoutLess(pending, todo, code);
      CreditOne(rows, Without(pending, todo), code, pending[code], failing);
      if code !in failing {
        r := AddTo(r, code, pending[code]);
      }
      todo := todo - {code};
    }
  }

  /** What ends a wait of the worker's loop, with the codes whose writes would fail if it leads to a flush. */
  datatype Wakeup =
    | Received(msg: Msg, failing: set<Code>) | SendersDropped(failing: set<Code>) | Ticked(failing: set<Code>)

  datatype Worker = Worker(rows: Counts, pending: Counts, acks: seq<nat>, stopped: bool)

  function Flushed(t: Worker, failing: set<Code>): Worker {
    t.(rows := Credit(t.rows, t.pending, failing), pending := map[])
  }

  function Woken(t: Worker, w: Wakeup, maxPending: nat): Worker {
    match w
    case Received(Hit(code), failing) =>
      var u := t.(pending := Bump(t.pending, code, 1));
      if |u.pending| >= maxPending then Flushed(u, failing) else u
    case Received(Flush(ack), failing) => Flushed(t, failing).(acks := t.acks + [ack])
    case SendersDropped(failing) => Flushed(t, failing).(stopped := true)
    case Ticked(failing) => Flushed(t, failing)
  }

  /** The worker after these wake-ups; once stopped it stays so. */
  function AfterAll(rows: Counts, maxPending: nat, wakeups: seq<Wakeup>): Worker {
    if wakeups == [] then Worker(rows, map[], [], false)
    else
      var t := AfterAll(rows, maxPending, wakeups[..|wakeups| - 1]);
      if t.stopped then t else Woken(t, wakeups[|wakeups| - 1], maxPending)
  }

  /** One turn of the worker's loop. */
  method Wake(t: Worker, w: Wakeup, maxPending: nat) returns (u: Worker)
    ensures u == Woken(t, w, maxPending)
  {
    hide Credit;
    var store, pending := t.rows, t.pending;
    match w {
      case Received(Hit(code), failing) =>
        pending := pending[code := Count(pending, code) + 1];
        if |pending| >= maxPending {
          store := FlushPending(store, pending, failing);
          pending := map[];
        }
        u := Worker(store, pending, t.acks, t.stopped);
      case Received(Flush(ack), failing) =>
        store := FlushPending(store, pending, failing);
        u := Worker(store, map[], t.acks + [ack], t.stopped);
      case SendersDropped(failing) =>
        store := FlushPending(store, pending, failing);
        u := Worker(store, map[], t.acks, true);
      case Ticked(failing) =>
        store := FlushPending(store, pending, failing);
        u := Worker(store, map[], t.acks, t.stopped);
    }
  }

  /** `run`, as spawned with `max_pending.max(1)`. */
  method RunWorker(rows: Counts, maxPending: nat, wakeups: seq<Wakeup>) returns (t: Worker)
    ensures t == AfterAll(rows, if maxPending == 0 then 1 else maxPending, wakeups)
  {
    hide Woken;
    t := Worker(rows, map[], [], false);
    var k := 0;
    while k < |wakeups| && !t.stopped
      invariant k <= |wakeups| && t == AfterAll(rows, AtLeastOne(maxPending), wakeups[..k])
    {
      assert wakeups[..k + 1][..k] == wakeups[..k];
      t := Wake(t, wakeups[k], AtLeastOne(maxPending));
      k := k + 1;
    }
    if t.stopped {
      StoppedStays(rows, AtLeastOne(maxPending), wakeups, k);
    } else {
      assert wakeups[..k] == wakeups;
    }
  }

  function AtLeastOne(n: nat): nat { if n == 0 then 1 else n }

  lemma {:induction false} StoppedStays(rows: Counts, limit: nat, wakeups: seq<Wakeup>, k: nat)
    requires k <= |wakeups| && AfterAll(rows, limit, wakeups[..k]).stopped
    ensures AfterAll(rows, limit, wakeups) == AfterAll(rows, limit, wakeups[..k])
    decreases |wakeups| - k
  {
    if k == |wakeups| {
      assert wakeups[..k] == wakeups;
    } else {
      assert wakeups[..k + 1][..k] == wakeups[..k];
      StoppedStays(rows, limit, wakeups, k + 1);
    }
  }

  /** `ImmediateHitRecorder` on the same messages, up to the end of the channel. */
  function Immediate(rows: Counts, wakeups: seq<Wakeup>): Counts {
    if wakeups == [] then rows
    else
      var w := wakeups[|wakeups| - 1];
      var before := Immediate(rows, wakeups[..|wakeups| - 1]);
      if w.Received? && w.msg.Hit? then AddTo(before, w.msg.code, 1) else before
  }

  /** No write fails, and nothing comes after the end. */
  predicate Clean(wakeups: seq<Wakeup>) {
    forall i :: 0 <= i < |wakeups| ==> wakeups[i].failing == {} && (wakeups[i].SendersDropped? ==> i == |wakeups| - 1)
  }

  lemma {:induction false} GoesOn(rows: Counts, limit: nat, wakeups: seq<Wakeup>)
    requires forall i :: 0 <= i < |wakeups| ==> !wakeups[i].SendersDropped?
    ensures !AfterAll(rows, limit, wakeups).stopped
    decreases |wakeups|
  {
    hide Credit;
    if wakeups != [] {
      GoesOn(rows, limit, wakeups[..|wakeups| - 1]);
    }
  }

  lemma NotStoppedBefore(rows: Counts, limit: nat, wakeups: seq<Wakeup>)
    requires Clean(wakeups) && wakeups != []
    ensures Clean(wakeups[..|wakeups| - 1]) && !AfterAll(rows, limit, wakeups[..|wakeups| - 1]).stopped
  {
    hide AfterAll;
    GoesOn(rows, limit, wakeups[..|wakeups| - 1]);
  }

  /** What is written plus what is pending is what immediate recording would have written. */
  lemma {:induction false} BatchingIsImmediate(rows: Counts, limit: nat, wakeups: seq<Wakeup>)
    requires Clean(wakeups)
    ensures Credit(AfterAll(rows, limit, wakeups).rows, AfterAll(rows, limit, wakeups).pending, {})
              == Immediate(rows, wakeups)
    decreases |wakeups|
  {
    hide Credit, Woken;
    if wakeups == [] {
      CreditNothing(rows, {});
    } else {
      var n := |wakeups| - 1;
      BatchingIsImmediate(rows, limit, wakeups[..n]);
      NotStoppedBefore(rows, limit, wakeups);
      WokenIsImmediate(AfterAll(rows, limit, wakeups[..n]), wakeups[n], limit);
    }
  }

  lemma WokenIsImmediate(t: Worker, w: Wakeup, limit: nat)
    requires w.failing == {}
    ensures var u := Woken(t, w, limit);
            Credit(u.rows, u.pending, {}) ==
            if w.Received? && w.msg.Hit? then AddTo(Credit(t.rows, t.pending, {}), w.msg.code, 1)
            else Credit(t.rows, t.pending, {})
  {
    hide Credit, AddTo, Bump;
    CreditNothing(Credit(t.rows, t.pending, {}), {});
    if w.Received? && w.msg.Hit? {
      CreditBump(t.rows, t.pending, w.msg.code);
      CreditNothing(Credit(t.rows, Bump(t.pending, w.msg.code, 1), {}), {});
    }
  }

  /** Whenever the worker waits, fewer than `max_pending` codes are pending. */
  lemma {:induction false} PendingStaysSmall(rows: Counts, limit: nat, wakeups: seq<Wakeup>)
    requires limit >= 1
    ensures |AfterAll(rows, limit, wakeups).pending| < limit
    decreases |wakeups|
  {
    if wakeups != [] {
      PendingStaysSmall(rows, limit, wakeups[..|wakeups| - 1]);
    }
  }

  /** After any flush, on a timer, on demand or at the end, the rows are those of immediate recording. */
  lemma FlushShowsEverything(rows: Counts, maxPending: nat, wakeups: seq<Wakeup>)
    requires Clean(wakeups) && wakeups != []
    requires var w := wakeups[|wakeups| - 1]; w.Ticked? || w.SendersDropped? || w.msg.Flush?
    ensures AfterAll(rows, AtLeastOne(maxPending), wakeups).rows == Immediate(rows, wakeups)
  {
    hide Credit;
    var limit := AtLeastOne(maxPending);
    NotStoppedBefore(rows, limit, wakeups);
    BatchingIsImmediate(rows, limit, wakeups);
    assert AfterAll(rows, limit, wakeups).pending == map[];
    CreditNothing(AfterAll(rows, limit, wakeups).rows, {});
  }

  /* ---------- the worker, told from its wake-ups alone ---------- */

  /** Hits of `code` among the wake-ups, and the codes that were hit. */
  function Hits(wakeups: seq<Wakeup>, code: Code): nat {
    if wakeups == [] then 0
    else
      var n := |wakeups| - 1;
      Hits(wakeups[..n], code) + if HitAt(wakeups, n) && wakeups[n].msg.code == code then 1 else 0
  }

  predicate HitAt(wakeups: seq<Wakeup>, i: nat) {
    i < |wakeups| && wakeups[i].Received? && wakeups[i].msg.Hit?
  }

  function Codes(wakeups: seq<Wakeup>): set<Code> {
    set i | 0 <= i < |wakeups| && HitAt(wakeups, i) :: wakeups[i].msg.code
  }

  /** How many wake-ups the last flush covers: any wake-up but a hit flushes, and so does a hit that brings the codes
      since the flush before up to the limit. */
  function LastFlush(limit: nat, wakeups: seq<Wakeup>): (k: nat)
    ensures k <= |wakeups|
  {
    if wakeups == [] then 0
    else
      var n := |wakeups| - 1;
      var k := LastFlush(limit, wakeups[..n]);
      if HitAt(wakeups, n) && |Codes(wakeups[k..])| < limit then k else n + 1
  }

  /** Every row with its hits. */
  function Tallied(rows: Counts, wakeups: seq<Wakeup>): Counts {
    map code | code in rows :: rows[code] + Hits(wakeups, code)
  }

  lemma {:induction false} ImmediateTallies(rows: Counts, wakeups: seq<Wakeup>)
    ensures Immediate(rows, wakeups) == Tallied(rows, wakeups)
    decreases |wakeups|
  {
    if wakeups != [] {
      ImmediateTallies(rows, wakeups[..|wakeups| - 1]);
    }
  }

  lemma CodesMore(wakeups: seq<Wakeup>, w: Wakeup)
    ensures Codes(wakeups + [w]) == Codes(wakeups) + if w.Received? && w.msg.Hit? then {w.msg.code} else {}
  {
    var all := wakeups + [w];
    forall code ensures code in Codes(all) <==>
                          code in Codes(wakeups) || (w.Received? && w.msg.Hit? && w.msg.code == code)
    {
      if code in Codes(wakeups) {
        var i :| 0 <= i < |wakeups| && HitAt(wakeups, i) && wakeups[i].msg.code == code;
        assert HitAt(all, i);
      }
      if w.Received? && w.msg.Hit? && w.msg.code == code {
        assert HitAt(all, |wakeups|);
      }
      if code in Codes(all) {
        var i :| 0 <= i < |all| && HitAt(all, i) && all[i].msg.code == code;
        assert i < |wakeups| ==> HitAt(wakeups, i);
      }
    }
  }

  /** What is pending are the hits since the last flush. */
  predicate PendingSince(pending: Counts, wakeups: seq<Wakeup>) {
    pending.Keys == Codes(wakeups) && forall code :: code in pending ==> pending[code] == Hits(wakeups, code)
  }

  lemma PendingMore(pending: Counts, wakeups: seq<Wakeup>, w: Wakeup)
    requires PendingSince(pending, wakeups) && w.Received? && w.msg.Hit?
    ensures PendingSince(Bump(pending, w.msg.code, 1), wakeups + [w])
  {
    var all, code := wakeups + [w], w.msg.code;
    CodesMore(wakeups, w);
    assert all[..|wakeups|] == wakeups;
    if code !in pending {
      NoHits(wakeups, code);
    }
  }

  lemma {:induction false} NoHits(wakeups: seq<Wakeup>, code: Code)
    requires code !in Codes(wakeups)
    ensures Hits(wakeups, code) == 0
    decreases |wakeups|
  {
    if wakeups != [] {
      var n := |wakeups| - 1;
      CodesMore(wakeups[..n], wakeups[n]);
      assert wakeups[..n] + [wakeups[n]] == wakeups;
      NoHits(wakeups[..n], code);
    }
  }

  /** The worker, exactly: the rows hold the hits that the last flush covers, the map holds those since, and no write
      comes before its time. */
  lemma {:induction false} WorkerExactly(rows: Counts, limit: nat, wakeups: seq<Wakeup>)
    requires Clean(wakeups)
    ensures var t, k := AfterAll(rows, limit, wakeups), LastFlush(limit, wakeups);
            t.rows == Tallied(rows, wakeups[..k]) && PendingSince(t.pending, wakeups[k..])
    decreases |wakeups|
  {
    hide Credit, Woken, Tallied;
    if wakeups == [] {
      NothingTallied(rows);
    } else {
      var n := |wakeups| - 1;
      var before, k := wakeups[..n], LastFlush(limit, wakeups[..n]);
      var t := AfterAll(rows, limit, before);
      NotStoppedBefore(rows, limit, wakeups);
      WorkerExactly(rows, limit, before);
      if HitAt(wakeups, n) {
        PendingMore(t.pending, before[k..], wakeups[n]);
        assert before[k..] + [wakeups[n]] == wakeups[k..];
      }
      WokenFlushes(t, wakeups[n], limit);
      if LastFlush(limit, wakeups) == n + 1 {
        FlushedTallies(rows, limit, wakeups);
      } else {
        assert wakeups[..k] == before[..k];
      }
    }
  }

  lemma NothingTallied(rows: Counts)
    ensures Tallied(rows, []) == rows && PendingSince(map[], [])
  {
  }

  lemma WokenFlushes(t: Worker, w: Wakeup, limit: nat)
    ensures var u, hit := Woken(t, w, limit), w.Received? && w.msg.Hit?;
            if hit && |Bump(t.pending, w.msg.code, 1).Keys| < limit
            then u.rows == t.rows && u.pending == Bump(t.pending, w.msg.code, 1)
            else u.pending == map[]
  {
    hide Credit;
    assert forall m: Counts :: |m| == |m.Keys|;
  }

  lemma FlushedTallies(rows: Counts, limit: nat, wakeups: seq<Wakeup>)
    requires Clean(wakeups) && AfterAll(rows, limit, wakeups).pending == map[]
    ensures AfterAll(rows, limit, wakeups).rows == Tallied(rows, wakeups[..|wakeups|])
    ensures PendingSince(map[], wakeups[|wakeups|..])
  {
    BatchingIsImmediate(rows, limit, wakeups);
    CreditNothing(AfterAll(rows, limit, wakeups).rows, {});
    ImmediateTallies(rows, wakeups);
    NothingTallied(rows);
    assert wakeups[..|wakeups|] == wakeups && wakeups[|wakeups|..] == [];
    hide AfterAll, Tallied;
  }

  /** The flush requests received before the last sender was dropped. */
  function Requested(wakeups: seq<Wakeup>): seq<nat> {
    if wakeups == [] then []
    else
      var n := |wakeups| - 1;
      Requested(wakeups[..n]) +
        if wakeups[n].Received? && wakeups[n].msg.Flush? && forall i :: 0 <= i < n ==> !wakeups[i].SendersDropped?
        then [wakeups[n].msg.ack] else []
  }

  /** Every flush request that is received is acknowledged, in order, once, and nothing else is. */
  lemma {:induction false} AcksAreRequests(rows: Counts, limit: nat, wakeups: seq<Wakeup>)
    ensures var t := AfterAll(rows, limit, wakeups);
            && t.acks == Requested(wakeups)
            && (t.stopped <==> exists i :: 0 <= i < |wakeups| && wakeups[i].SendersDropped?)
    decreases |wakeups|
  {
    hide Credit, Bump;
    if wakeups != [] {
      var n := |wakeups| - 1;
      AcksAreRequests(rows, limit, wakeups[..n]);
      assert forall i :: 0 <= i < n ==> wakeups[..n][i] == wakeups[i];
      if AfterAll(rows, limit, wakeups[..n]).stopped {
        var i :| 0 <= i < n && wakeups[..n][i].SendersDropped?;
        assert wakeups[i].SendersDropped?;
      }
    }
  }
}
