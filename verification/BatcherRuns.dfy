/** The hit batcher among its callers: recorders, flush requests, the worker and its flushes write by write, and rows
    that come and go, all interleaved in any order. */
module BatcherRuns {
  import opened Batcher

  /** What the worker does once a flush has emptied the map. */
  datatype After = Resume | Acknowledge(ack: nat) | Stop

  datatype Loop = Waiting | Flushing(after: After) | Exited

  /** The specification's account of one code: hits attempted, dropped at the queue, written to its row, lost with a
      missing row or a failed write; and how many had been accepted when each flush was requested. */
  datatype Ledger = Ledger(attempted: nat, dropped: nat, credited: nat, lost: nat, due: seq<nat>)

  datatype Sys = Sys(maxPending: nat, rows: Counts, pending: Counts, queue: seq<Msg>, closed: bool, loop: Loop,
                     nextAck: nat, acked: set<nat>)

  function Init(maxPending: nat): Sys { Sys(AtLeastOne(maxPending), map[], map[], [], false, Waiting, 0, {}) }

  datatype Event =
    | Record(code: Code)                  // a hit; dropped when the queue is full or the worker is gone
    | Request                             // a flush request gets its slot in the queue
    | Close                               // the last sender is dropped
    | Receive                             // the worker takes a message, or sees the end of the channel
    | Tick                                // its timer fires
    | Write(code: Code, fails: bool)      // one write of a flush
    | Emptied                             // the flush is over
    | AddRow(code: Code) | RemoveRow(code: Code)   // links are made and deleted meanwhile

  predicate Accepts(s: Sys) { |s.queue| < CHANNEL_CAPACITY && s.loop != Exited }

  predicate Enabled(s: Sys, e: Event) {
    match e
    case Record(_) => !s.closed
    case Request => !s.closed && Accepts(s)
    case Close => true
    case Receive => s.loop == Waiting && (s.queue != [] || s.closed)
    case Tick => s.loop == Waiting
    case Write(code, _) => s.loop.Flushing? && code in s.pending
    case Emptied => s.loop.Flushing? && |s.pending| == 0
    case AddRow(code) => code !in s.rows
    case RemoveRow(_) => true
  }

  function Receiving(s: Sys): Sys
    requires Enabled(s, Receive)
  {
    if s.queue == [] then s.(loop := Flushing(Stop))
    else
      match s.queue[0]
      case Hit(code) =>
        var pending := Bump(s.pending, code, 1);
        s.(queue := s.queue[1..], pending := pending,
           loop := if |pending| >= s.maxPending then Flushing(Resume) else Waiting)
      case Flush(ack) => s.(queue := s.queue[1..], loop := Flushing(Acknowledge(ack)))
  }

  function Step(s: Sys, e: Event): Sys
    requires Enabled(s, e)
  {
    match e
    case Record(code) => if Accepts(s) then s.(queue := s.queue + [Hit(code)]) else s
    case Request => s.(queue := s.queue + [Flush(s.nextAck)], nextAck := s.nextAck + 1)
    case Close => s.(closed := true)
    case Receive => Receiving(s)
    case Tick => s.(loop := Flushing(Resume))
    case Write(code, fails) =>
      s.(rows := if fails then s.rows else AddTo(s.rows, code, Count(s.pending, code)),
          pending := Drop(s.pending, code))
    case Emptied =>
      (match s.loop.after
       case Resume => s.(loop := Waiting)
       case Acknowledge(ack) => s.(loop := Waiting, acked := s.acked + {ack})
       case Stop => s.(loop := Exited))
    case AddRow(code) => s.(rows := s.rows[code := 0])
    case RemoveRow(code) => s.(rows := Drop(s.rows, code))
  }

  /** Any schedule of events; one that is not enabled when its turn comes does nothing. */
  function Exec(maxPending: nat, events: seq<Event>): Sys {
    if events == [] then Init(maxPending)
    else
      var s, e := Exec(maxPending, events[..|events| - 1]), events[|events| - 1];
      if Enabled(s, e) then Step(s, e) else s
  }

  /** One line in the account of `code`: what event `e` in state `s` does to it. */
  function Entered(l: Ledger, s: Sys, e: Event, code: Code): Ledger {
    match e
    case Record(c) =>
      if c != code then l else l.(attempted := l.attempted + 1, dropped := l.dropped + if Accepts(s) then 0 else 1)
    case Request => l.(due := l.due + [Minus(l.attempted, l.dropped)])
    case Write(c, fails) =>
      var n := Count(s.pending, c);
      if c != code then l else if c in s.rows && !fails then l.(credited := l.credited + n) else l.(lost := l.lost + n)
    case _ => l
  }

  function Minus(a: nat, b: nat): nat { if a >= b then a - b else 0 }

  function Account(maxPending: nat, events: seq<Event>, code: Code): Ledger {
    if events == [] then Ledger(0, 0, 0, 0, [])
    else
      var n := |events| - 1;
      var l, s := Account(maxPending, events[..n], code), Exec(maxPending, events[..n]);
      if Enabled(s, events[n]) then Entered(l, s, events[n], code) else l
  }

  /** Hits of `code` waiting in the queue. */
  function Queued(queue: seq<Msg>, code: Code): nat {
    if queue == [] then 0 else Queued(queue[..|queue| - 1], code) + if queue[|queue| - 1] == Hit(code) then 1 else 0
  }

  lemma {:induction false} QueuedFront(queue: seq<Msg>, code: Code)
    requires queue != []
    ensures Queued(queue, code) == (if queue[0] == Hit(code) then 1 else 0) + Queued(queue[1..], code)
    decreases |queue|
  {
    var n := |queue| - 1;
    if n > 0 {
      QueuedFront(queue[..n], code);
      assert queue[..n][1..] == queue[1..][..n - 1];
    } else {
      assert queue[..0] == [] && queue[1..] == [];
    }
  }

  lemma QueuedMore(queue: seq<Msg>, msg: Msg, code: Code)
    ensures Queued(queue + [msg], code) == Queued(queue, code) + if msg == Hit(code) then 1 else 0
  {
    assert (queue + [msg])[..|queue|] == queue;
  }

  /* ---------- conservation ---------- */

  /** What has left the batcher for good. */
  function Settled(l: Ledger): nat { l.credited + l.lost }

  predicate Conserved(l: Ledger, s: Sys, code: Code) {
    l.attempted == l.dropped + Queued(s.queue, code) + Count(s.pending, code) + Settled(l)
  }

  predicate Bounded(s: Sys) {
    && s.maxPending >= 1 && |s.queue| <= CHANNEL_CAPACITY && |s.pending| <= s.maxPending
    && (s.loop == Waiting ==> |s.pending| < s.maxPending)
    && (s.loop == Exited || s.loop == Flushing(Stop) ==> s.closed && s.queue == [])
    && (s.loop == Exited ==> |s.pending| == 0)
  }

  lemma ReceiveConserves(l: Ledger, s: Sys, code: Code)
    requires Enabled(s, Receive) && Conserved(l, s, code)
    ensures Conserved(l, Receiving(s), code)
  {
    if s.queue != [] {
      QueuedFront(s.queue, code);
      if s.queue[0].Hit? { BumpCount(s.pending, s.queue[0].code, 1, code); }
    }
    hide Queued, Count, Bump;
  }

  /** A write settles the pending hits of its code and no others. */
  lemma WriteSettles(l: Ledger, s: Sys, c: Code, fails: bool, code: Code)
    requires Enabled(s, Write(c, fails))
    ensures var t, m := Step(s, Write(c, fails)), Entered(l, s, Write(c, fails), code);
            && t.queue == s.queue && m.attempted == l.attempted && m.dropped == l.dropped && m.due == l.due
            && Settled(m) + Count(t.pending, code) == Settled(l) + Count(s.pending, code)
            && Settled(m) >= Settled(l)
  {
    DropCount(s.pending, c, code);
    hide Count, Drop, AddTo;
  }

  lemma StepConserves(l: Ledger, s: Sys, e: Event, code: Code)
    requires Enabled(s, e) && Conserved(l, s, code)
    ensures Conserved(Entered(l, s, e, code), Step(s, e), code)
  {
    hide AddTo, Drop, Count, Queued, Receiving;
    match e
    case Record(c) => QueuedMore(s.queue, Hit(c), code);
    case Request => QueuedMore(s.queue, Flush(s.nextAck), code);
    case Receive => ReceiveConserves(l, s, code);
    case Write(c, fails) => WriteSettles(l, s, c, fails, code);
    case _ =>
  }

  lemma StepBounded(s: Sys, e: Event)
    requires Enabled(s, e) && Bounded(s)
    ensures Bounded(Step(s, e)) && Step(s, e).maxPending == s.maxPending
  {
    hide AddTo, Bump, Drop, Count;
    match e
    case Receive => if s.queue != [] && s.queue[0].Hit? { BumpSize(s.pending, s.queue[0].code, 1); }
    case Write(c, _) => DropSize(s.pending, c);
    case _ =>
  }

  lemma BumpSize(m: Counts, code: Code, n: nat)
    ensures |Bump(m, code, n)| <= |m| + 1
  {
    BumpCount(m, code, n, code);
    assert |Bump(m, code, n)| == |m.Keys + {code}|;
  }

  lemma DropSize(m: Counts, code: Code)
    ensures |Drop(m, code)| <= |m|
  {
    DropCount(m, code, code);
    assert |Drop(m, code)| == |m.Keys - {code}|;
  }

  /** Conservation, in every reachable state and for every code: hits attempted are those dropped at the queue,
      queued, pending, credited to the row, and lost to a missing row or a failed write. And the batcher stays small:
      whenever the worker waits, fewer than `max_pending` codes are pending. */
  lemma {:induction false} HitsConserved(maxPending: nat, events: seq<Event>, code: Code)
    ensures Conserved(Account(maxPending, events, code), Exec(maxPending, events), code)
    ensures Bounded(Exec(maxPending, events))
    ensures Exec(maxPending, events).maxPending == if maxPending == 0 then 1 else maxPending
    decreases |events|
  {
    hide Step, Enabled, Entered;
    if events != [] {
      var n := |events| - 1;
      HitsConserved(maxPending, events[..n], code);
      hide Conserved, Bounded;
      var l, s := Account(maxPending, events[..n], code), Exec(maxPending, events[..n]);
      if Enabled(s, events[n]) {
        StepConserves(l, s, events[n], code);
        StepBounded(s, events[n]);
      }
    }
  }

  /** The final flush leaves nothing behind: once the worker has exited, every hit was dropped, credited or lost. */
  lemma NothingLeftAtExit(maxPending: nat, events: seq<Event>, code: Code)
    requires Exec(maxPending, events).loop == Exited
    ensures var l := Account(maxPending, events, code); l.attempted == l.dropped + l.credited + l.lost
  {
    HitsConserved(maxPending, events, code);
    NothingPending(Exec(maxPending, events).pending, code);
  }

  lemma NothingPending(m: Counts, code: Code)
    requires |m| == 0
    ensures Count(m, code) == 0
  {
  }

  /* ---------- when a hit is dropped ---------- */

  /** Hits and flush requests made, up to the drop of the last sender. */
  function Sent(events: seq<Event>): nat {
    if events == [] then 0
    else
      var n := |events| - 1;
      Sent(events[..n]) + if (events[n].Record? || events[n].Request?) && Close !in events[..n] then 1 else 0
  }

  /** Messages that the worker has taken: one whenever it waits and one is there. */
  function Taken(maxPending: nat, events: seq<Event>): nat {
    if events == [] then 0
    else
      var n := |events| - 1;
      var s := Exec(maxPending, events[..n]);
      Taken(maxPending, events[..n]) + if events[n] == Receive && s.loop == Waiting && s.queue != [] then 1 else 0
  }

  /** At no time are more than 8192 messages under way. */
  predicate KeepsUp(maxPending: nat, events: seq<Event>) {
    forall n :: 0 <= n <= |events| ==> Sent(events[..n]) <= Taken(maxPending, events[..n]) + 8192
  }

  lemma KeepsUpBefore(maxPending: nat, events: seq<Event>)
    requires events != [] && KeepsUp(maxPending, events)
    ensures KeepsUp(maxPending, events[..|events| - 1])
  {
    var before := events[..|events| - 1];
    forall n | 0 <= n <= |before| ensures Sent(before[..n]) <= Taken(maxPending, before[..n]) + 8192 {
      assert before[..n] == events[..n];
    }
  }

  lemma {:induction false} ClosedSince(maxPending: nat, events: seq<Event>)
    ensures Exec(maxPending, events).closed <==> Close in events
    decreases |events|
  {
    hide Step;
    if events != [] {
      ClosedSince(maxPending, events[..|events| - 1]);
      StepCloses(Exec(maxPending, events[..|events| - 1]), events[|events| - 1]);
      assert events == events[..|events| - 1] + [events[|events| - 1]];
    }
  }

  lemma StepCloses(s: Sys, e: Event)
    ensures Enabled(s, Close)
    ensures Enabled(s, e) ==> (Step(s, e).closed <==> s.closed || e == Close)
  {
    hide AddTo, Drop, Count, Bump;
  }

  /** As long as the worker keeps up, no hit is dropped, and the queue holds exactly what was sent and not yet taken. */
  lemma {:induction false} NoHitDropped(maxPending: nat, events: seq<Event>, code: Code)
    requires KeepsUp(maxPending, events)
    ensures Account(maxPending, events, code).dropped == 0
    ensures Sent(events) == Taken(maxPending, events) + |Exec(maxPending, events).queue|
    decreases |events|
  {
    if events != [] {
      var n := |events| - 1;
      var before := events[..n];
      KeepsUpBefore(maxPending, events);
      NoHitDropped(maxPending, before, code);
      HitsConserved(maxPending, before, code);
      ClosedSince(maxPending, before);
      assert events[..|events|] == events;
      hide KeepsUp, Conserved, Step;
      NextMessage(Exec(maxPending, before), events[n]);
      hide Enabled;
    }
  }

  /** What an event does to the queue, and to the account of any code. */
  lemma NextMessage(s: Sys, e: Event)
    requires Bounded(s)
    ensures var t := if Enabled(s, e) then Step(s, e) else s;
            var sends := (e.Record? || e == Request) && !s.closed && |s.queue| < 8192;
            var takes := e == Receive && s.loop == Waiting && s.queue != [];
            |t.queue| == |s.queue| + if sends then 1 else if takes then -1 else 0
    ensures !s.closed && |s.queue| < 8192 ==> Accepts(s)
  {
    hide AddTo, Drop, Count, Bump;
  }

  /** A hit is dropped exactly when it finds 8192 messages queued; in particular the next one is, when the worker has
      kept up and 8192 messages are under way. */
  lemma DroppedWhenFull(maxPending: nat, events: seq<Event>, code: Code)
    requires Close !in events
    ensures var l, m := Account(maxPending, events, code), Account(maxPending, events + [Record(code)], code);
            && m.attempted == l.attempted + 1
            && m.dropped == l.dropped + (if |Exec(maxPending, events).queue| == 8192 then 1 else 0)
            && (KeepsUp(maxPending, events) ==>
                  m.dropped == (if Sent(events) == Taken(maxPending, events) + 8192 then 1 else 0))
  {
    HitsConserved(maxPending, events, code);
    ClosedSince(maxPending, events);
    AccountNext(maxPending, events, Record(code), code);
    if KeepsUp(maxPending, events) {
      NoHitDropped(maxPending, events, code);
    }
    hide Account, Exec, Sent, Taken, KeepsUp, Conserved;
  }

  /* ---------- the exit ---------- */

  /** How far the worker is from its exit. */
  function Distance(s: Sys): nat {
    match s.loop
    case Exited => 0
    case Flushing(Stop) => 1
    case Waiting => 2
    case Flushing(_) => 3
  }

  /** A step that brings it closer, once the last sender is gone. */
  lemma Closer(s: Sys) returns (e: Event)
    requires Bounded(s) && s.closed && s.loop != Exited
    ensures Enabled(s, e) && Step(s, e).closed
    ensures var t := Step(s, e);
            || |t.queue| < |s.queue|
            || (t.queue == s.queue && Distance(t) < Distance(s))
            || (t.queue == s.queue && t.loop == s.loop && |t.pending| < |s.pending|)
  {
    hide AddTo, Bump, Count;
    if s.loop == Waiting {
      e := Receive;
    } else if |s.pending| == 0 {
      e := Emptied;
    } else {
      var code :| code in s.pending;
      e := Write(code, false);
      assert Drop(s.pending, code).Keys == s.pending.Keys - {code};
      assert |Drop(s.pending, code)| == |s.pending.Keys - {code}| && |s.pending| == |s.pending.Keys|;
    }
  }

  /** Once the last sender is gone the worker can always go on to its exit, from any reachable state. */
  lemma {:induction false} CanExit(maxPending: nat, events: seq<Event>) returns (all: seq<Event>)
    requires Exec(maxPending, events).closed
    ensures events <= all && Exec(maxPending, all).loop == Exited
    decreases |Exec(maxPending, events).queue|, Distance(Exec(maxPending, events)), |Exec(maxPending, events).pending|
  {
    all := events;
    if Exec(maxPending, events).loop != Exited {
      HitsConserved(maxPending, events, 0);
      var e := Closer(Exec(maxPending, events));
      ExecNext(maxPending, events, e);
      hide Exec, Step, Enabled, Conserved, Bounded;
      all := CanExit(maxPending, events + [e]);
    }
  }

  /* ---------- acknowledgements ---------- */

  /** Hits accepted before flush request `ack` number at most `most`. */
  predicate Due(l: Ledger, ack: nat, most: nat) { ack < |l.due| && l.due[ack] <= most }

  /** Every hit accepted before a flush request is ahead of it: in the queue before it, pending, or settled; and once
      the request is acknowledged, settled. */
  predicate AcksHonest(l: Ledger, s: Sys, code: Code) {
    && |l.due| == s.nextAck
    && (forall ack :: ack in s.acked ==> Due(l, ack, Settled(l)))
    && (s.loop.Flushing? && s.loop.after.Acknowledge? ==> Due(l, s.loop.after.ack, Settled(l) + Count(s.pending, code)))
    && (forall k :: 0 <= k < |s.queue| && s.queue[k].Flush? ==>
          Due(l, s.queue[k].ack, Settled(l) + Count(s.pending, code) + Queued(s.queue[..k], code)))
  }

  /** A message joins the queue behind all others. */
  lemma EnqueueHonest(l: Ledger, s: Sys, m: Ledger, t: Sys, msg: Msg, code: Code)
    requires AcksHonest(l, s, code) && t == s.(queue := s.queue + [msg], nextAck := t.nextAck)
    requires Settled(m) == Settled(l) && |m.due| == t.nextAck && l.due <= m.due
    requires msg.Flush? ==> Due(m, msg.ack, Settled(l) + Count(s.pending, code) + Queued(s.queue, code))
    ensures AcksHonest(m, t, code)
  {
    hide Queued, Count, Settled;
    forall k | 0 <= k < |t.queue| && t.queue[k].Flush?
      ensures Due(m, t.queue[k].ack, Settled(m) + Count(t.pending, code) + Queued(t.queue[..k], code))
    {
      if k < |s.queue| {
        assert t.queue[k] == s.queue[k] && t.queue[..k] == s.queue[..k];
      } else {
        assert t.queue[..k] == s.queue;
      }
    }
  }

  lemma DequeueHonest(l: Ledger, s: Sys, t: Sys, code: Code)
    requires AcksHonest(l, s, code) && s.queue != [] && t.queue == s.queue[1..] && t.acked == s.acked
               && t.nextAck == s.nextAck
    requires Count(t.pending, code) == Count(s.pending, code) + if s.queue[0] == Hit(code) then 1 else 0
    requires t.loop.Flushing? && t.loop.after.Acknowledge? ==> s.queue[0] == Flush(t.loop.after.ack)
    ensures AcksHonest(l, t, code)
  {
    assert s.queue[..0] == [] && Queued([], code) == 0;
    hide Count, Settled, Queued, Due;
    forall k | 0 <= k < |t.queue| && t.queue[k].Flush?
      ensures Due(l, t.queue[k].ack, Settled(l) + Count(t.pending, code) + Queued(t.queue[..k], code))
    {
      assert s.queue[k + 1] == t.queue[k];
      QueuedFront(s.queue[..k + 1], code);
      assert s.queue[..k + 1][1..] == t.queue[..k];
    }
  }

  lemma ReceiveHonest(l: Ledger, s: Sys, code: Code)
    requires AcksHonest(l, s, code) && Enabled(s, Receive)
    ensures AcksHonest(l, Receiving(s), code)
  {
    if s.queue != [] {
      if s.queue[0].Hit? { BumpCount(s.pending, s.queue[0].code, 1, code); }
      hide AcksHonest, Bump, Count;
      DequeueHonest(l, s, Receiving(s), code);
    }
  }

  lemma WriteHonest(l: Ledger, s: Sys, c: Code, fails: bool, code: Code)
    requires Enabled(s, Write(c, fails)) && AcksHonest(l, s, code)
    ensures AcksHonest(Entered(l, s, Write(c, fails), code), Step(s, Write(c, fails)), code)
  {
    WriteSettles(l, s, c, fails, code);
    hide Settled, Count, Drop, AddTo, Queued;
    var t, m := Step(s, Write(c, fails)), Entered(l, s, Write(c, fails), code);
    assert t.loop == s.loop && t.acked == s.acked;
    hide Entered;
  }

  lemma StepHonest(l: Ledger, s: Sys, e: Event, code: Code)
    requires Enabled(s, e) && AcksHonest(l, s, code) && Conserved(l, s, code)
    ensures AcksHonest(Entered(l, s, e, code), Step(s, e), code)
  {
    hide AddTo, Drop, Queued, Receiving, Count;
    var t, m := Step(s, e), Entered(l, s, e, code);
    match e
    case Record(c) =>
      if Accepts(s) {
        hide AcksHonest;
        EnqueueHonest(l, s, m, t, Hit(c), code);
      }
    case Request =>
      assert |l.due| == s.nextAck;
      hide AcksHonest;
      EnqueueHonest(l, s, m, t, Flush(s.nextAck), code);
    case Receive => ReceiveHonest(l, s, code);
    case Write(c, fails) => WriteHonest(l, s, c, fails, code);
    case Emptied => assert Count(s.pending, code) == 0 by { NothingPending(s.pending, code); }
    case _ =>
  }

  lemma {:induction false} AlwaysHonest(maxPending: nat, events: seq<Event>, code: Code)
    ensures AcksHonest(Account(maxPending, events, code), Exec(maxPending, events), code)
    decreases |events|
  {
    hide Step, Enabled, Entered;
    if events != [] {
      var n := |events| - 1;
      AlwaysHonest(maxPending, events[..n], code);
      HitsConserved(maxPending, events[..n], code);
      hide AcksHonest, Conserved, Bounded;
      var l, s := Account(maxPending, events[..n], code), Exec(maxPending, events[..n]);
      if Enabled(s, events[n]) {
        StepHonest(l, s, events[n], code);
      }
    }
  }

  /** A flush request is on its way: queued, or being served. */
  predicate Under(s: Sys, ack: nat) { Flush(ack) in s.queue || s.loop == Flushing(Acknowledge(ack)) }

  ghost predicate AcksComplete(s: Sys) {
    forall ack: nat :: (ack in s.acked <==> ack < s.nextAck && !Under(s, ack)) && (Under(s, ack) ==> ack < s.nextAck)
  }

  /** Each request is on its way at one place only. */
  predicate AcksApart(s: Sys) {
    && (forall i, j :: 0 <= i < j < |s.queue| && s.queue[i].Flush? && s.queue[j].Flush? ==>
          s.queue[i].ack < s.queue[j].ack)
    && (s.loop.Flushing? && s.loop.after.Acknowledge? ==>
          forall i :: 0 <= i < |s.queue| && s.queue[i].Flush? ==> s.loop.after.ack < s.queue[i].ack)
  }

  lemma StepAcks(s: Sys, e: Event)
    requires Enabled(s, e) && AcksComplete(s) && AcksApart(s) && Bounded(s)
    ensures AcksComplete(Step(s, e)) && AcksApart(Step(s, e))
  {
    hide AddTo, Bump, Drop, Count, Bounded;
    match e
    case Request => RequestAcks(s);
    case Receive => if s.queue == [] { SameAcks(s, Step(s, e), []); } else { ReceiveAcks(s); }
    case Emptied => EmptiedAcks(s);
    case Record(c) => SameAcks(s, Step(s, e), if Accepts(s) then [Hit(c)] else []);
    case _ => SameAcks(s, Step(s, e), []);
  }

  /** No request comes or goes. */
  lemma SameAcks(s: Sys, t: Sys, hit: seq<Msg>)
    requires AcksComplete(s) && AcksApart(s) && t.acked == s.acked && t.nextAck == s.nextAck
    requires t.queue == s.queue + hit && forall i :: 0 <= i < |hit| ==> hit[i].Hit?
    requires t.loop == s.loop || (s.loop == Waiting && (t.loop == Flushing(Resume) || t.loop == Flushing(Stop)))
    ensures AcksComplete(t) && AcksApart(t)
  {
    forall ack: nat ensures Under(t, ack) <==> Under(s, ack) {
    }
  }

  lemma RequestAcks(s: Sys)
    requires Enabled(s, Request) && AcksComplete(s) && AcksApart(s)
    ensures AcksComplete(Step(s, Request)) && AcksApart(Step(s, Request))
  {
    var t := Step(s, Request);
    forall i | 0 <= i < |s.queue| && s.queue[i].Flush? ensures s.queue[i].ack < s.nextAck {
      assert Under(s, s.queue[i].ack);
    }
    assert s.loop.Flushing? && s.loop.after.Acknowledge? ==> Under(s, s.loop.after.ack);
    forall ack: nat ensures Under(t, ack) <==> Under(s, ack) || ack == s.nextAck {
    }
  }

  lemma ReceiveAcks(s: Sys)
    requires Enabled(s, Receive) && s.queue != [] && AcksComplete(s) && AcksApart(s)
    ensures AcksComplete(Receiving(s)) && AcksApart(Receiving(s))
  {
    hide Bump;
    var t := Receiving(s);
    assert s.queue == [s.queue[0]] + t.queue;
    forall ack: nat ensures Under(t, ack) <==> Under(s, ack) {
    }
  }

  lemma EmptiedAcks(s: Sys)
    requires Enabled(s, Emptied) && AcksComplete(s) && AcksApart(s)
    ensures AcksComplete(Step(s, Emptied)) && AcksApart(Step(s, Emptied))
  {
    var t := Step(s, Emptied);
    forall ack: nat ensures Under(t, ack) <==> Under(s, ack) && s.loop != Flushing(Acknowledge(ack)) {
    }
  }

  /** Every flush request is acknowledged, once the worker is done with it: on every schedule the requests acknowledged
      are all those made but for the ones queued or being served. Once the worker has exited all of them are. */
  lemma {:induction false} EveryRequestAcked(maxPending: nat, events: seq<Event>)
    ensures AcksComplete(Exec(maxPending, events)) && AcksApart(Exec(maxPending, events))
    ensures var s := Exec(maxPending, events);
            s.loop == Exited ==> forall ack: nat :: ack in s.acked <==> ack < s.nextAck
    decreases |events|
  {
    hide Step, Enabled;
    if events != [] {
      var n := |events| - 1;
      EveryRequestAcked(maxPending, events[..n]);
      HitsConserved(maxPending, events[..n], 0);
      hide Conserved, AcksComplete, AcksApart, Bounded, Account;
      if Enabled(Exec(maxPending, events[..n]), events[n]) {
        StepAcks(Exec(maxPending, events[..n]), events[n]);
      }
    }
    AckedAtExit(maxPending, events);
  }

  lemma AckedAtExit(maxPending: nat, events: seq<Event>)
    requires AcksComplete(Exec(maxPending, events))
    ensures var s := Exec(maxPending, events);
            s.loop == Exited ==> forall ack: nat :: ack in s.acked <==> ack < s.nextAck
  {
    HitsConserved(maxPending, events, 0);
    hide Exec, Conserved, Account;
    ExitedAcks(Exec(maxPending, events));
  }

  lemma ExitedAcks(s: Sys)
    requires AcksComplete(s) && Bounded(s)
    ensures s.loop == Exited ==> forall ack: nat :: ack in s.acked <==> ack < s.nextAck
  {
  }

  /** The worker starts a flush for a reason only: its timer, a request, the end of the channel, or a hit that brings
      the codes pending up to the limit; and that hit always starts one. */
  lemma FlushesForAReason(maxPending: nat, events: seq<Event>, e: Event)
    requires Exec(maxPending, events).loop == Waiting && Enabled(Exec(maxPending, events), e)
    ensures var s, t := Exec(maxPending, events), Exec(maxPending, events + [e]);
            var most := if maxPending == 0 then 1 else maxPending;
            t.loop.Flushing? <==>
              || e == Tick
              || (e == Receive && (s.queue == [] || s.queue[0].Flush? || |s.pending.Keys + {s.queue[0].code}| >= most))
  {
    HitsConserved(maxPending, events, 0);
    ExecNext(maxPending, events, e);
    var s := Exec(maxPending, events);
    hide Exec, Conserved, Account;
    if e == Receive && s.queue != [] && s.queue[0].Hit? {
      BumpCount(s.pending, s.queue[0].code, 1, 0);
      assert |Bump(s.pending, s.queue[0].code, 1)| == |Bump(s.pending, s.queue[0].code, 1).Keys|;
    }
    hide Bump, Count, AddTo, Drop;
  }

  lemma {:induction false} LedgerGrows(maxPending: nat, events: seq<Event>, n: nat, code: Code)
    requires n <= |events|
    ensures Account(maxPending, events[..n], code).due <= Account(maxPending, events, code).due
    decreases |events|
  {
    if n == |events| {
      assert events[..n] == events;
    } else {
      var before := events[..|events| - 1];
      LedgerGrows(maxPending, before, n, code);
      assert before[..n] == events[..n];
    }
  }

  /** What a flush request notes down when it is made. */
  lemma RequestNotes(maxPending: nat, events: seq<Event>, code: Code)
    requires Enabled(Exec(maxPending, events), Request)
    ensures var l, ack := Account(maxPending, events, code), Exec(maxPending, events).nextAck;
            var m := Account(maxPending, events + [Request], code);
            ack < |m.due| && l.attempted >= l.dropped && m.due[ack] == l.attempted - l.dropped
  {
    hide Account, Exec, Enabled, Queued, Count, Settled, Due;
    AlwaysHonest(maxPending, events, code);
    HitsConserved(maxPending, events, code);
    AccountNext(maxPending, events, Request, code);
  }

  lemma AccountNext(maxPending: nat, events: seq<Event>, e: Event, code: Code)
    requires Enabled(Exec(maxPending, events), e)
    ensures Account(maxPending, events + [e], code)
         == Entered(Account(maxPending, events, code), Exec(maxPending, events), e, code)
  {
    hide Enabled, Entered, Exec;
    assert (events + [e])[..|events|] == events;
  }

  /** An acknowledged flush has taken everything before it: if the request made by event `n` is acknowledged at the
      end, then every hit accepted before it has by then been credited or lost; none of them is still queued or
      pending. */
  lemma FlushTakesEverything(maxPending: nat, events: seq<Event>, n: nat, code: Code)
    requires n < |events| && events[n] == Request && Enabled(Exec(maxPending, events[..n]), Request)
    requires Exec(maxPending, events[..n]).nextAck in Exec(maxPending, events).acked
    ensures var before, after := Account(maxPending, events[..n], code), Account(maxPending, events, code);
            before.attempted - before.dropped <= after.credited + after.lost
  {
    hide Exec, Account, Enabled;
    AlwaysHonest(maxPending, events, code);
    RequestNotes(maxPending, events[..n], code);
    assert events[..n] + [Request] == events[..n + 1];
    LedgerGrows(maxPending, events, n + 1, code);
  }

  /* ---------- compared with immediate recording ---------- */

  /** The rows as `ImmediateHitRecorder` would have them after the same schedule. */
  function Immediate(maxPending: nat, events: seq<Event>): Counts {
    if events == [] then map[]
    else
      var n := |events| - 1;
      var rows, e := Immediate(maxPending, events[..n]), events[n];
      if Enabled(Exec(maxPending, events[..n]), e) then Recorded(rows, e) else rows
  }

  function Recorded(rows: Counts, e: Event): Counts {
    match e
    case Record(c) => AddTo(rows, c, 1)
    case AddRow(c) => rows[c := 0]
    case RemoveRow(c) => Drop(rows, c)
    case _ => rows
  }

  /** What happened to `code` since its row was last made: the hits that were queued or pending at that moment, and
      the hits dropped at the queue and lost to failed writes from then on. */
  datatype Since = Since(carried: nat, dropped: nat, lost: nat)

  function Noted(t: Since, s: Sys, e: Event, code: Code): Since {
    match e
    case AddRow(c) => if c == code then Since(Queued(s.queue, code) + Count(s.pending, code), 0, 0) else t
    case Record(c) => if c == code && !Accepts(s) then t.(dropped := t.dropped + 1) else t
    case Write(c, fails) => if c == code && fails then t.(lost := t.lost + Count(s.pending, code)) else t
    case _ => t
  }

  function Story(maxPending: nat, events: seq<Event>, code: Code): Since {
    if events == [] then Since(0, 0, 0)
    else
      var n := |events| - 1;
      var t, s := Story(maxPending, events[..n], code), Exec(maxPending, events[..n]);
      if Enabled(s, events[n]) then Noted(t, s, events[n], code) else t
  }

  /** The count of a row, what was kept from it and what is on its way to it make up what immediate recording gives,
      plus what was on its way when the row was made. */
  predicate Accounted(t: Since, s: Sys, immediate: Counts, code: Code) {
    && (code in s.rows <==> code in immediate)
    && (code in s.rows ==>
          s.rows[code] + t.dropped + t.lost + Queued(s.queue, code) + Count(s.pending, code)
              == immediate[code] + t.carried)
  }

  lemma AddToCount(rows: Counts, c: Code, n: nat, code: Code)
    ensures code in AddTo(rows, c, n) <==> code in rows
    ensures code in rows ==> AddTo(rows, c, n)[code] == rows[code] + if c == code then n else 0
  {
  }

  lemma RecordAccounted(t: Since, s: Sys, immediate: Counts, c: Code, code: Code)
    requires Enabled(s, Record(c)) && Accounted(t, s, immediate, code)
    ensures Accounted(Noted(t, s, Record(c), code), Step(s, Record(c)), AddTo(immediate, c, 1), code)
  {
    QueuedMore(s.queue, Hit(c), code);
    AddToCount(immediate, c, 1, code);
    hide Queued, Count, AddTo;
  }

  lemma ReceiveAccounted(t: Since, s: Sys, immediate: Counts, code: Code)
    requires Enabled(s, Receive) && Accounted(t, s, immediate, code)
    ensures Accounted(t, Receiving(s), immediate, code)
  {
    if s.queue != [] {
      QueuedFront(s.queue, code);
      if s.queue[0].Hit? { BumpCount(s.pending, s.queue[0].code, 1, code); }
    }
    hide Queued, Count, Bump;
  }

  lemma WriteAccounted(t: Since, s: Sys, immediate: Counts, c: Code, fails: bool, code: Code)
    requires Enabled(s, Write(c, fails)) && Accounted(t, s, immediate, code)
    ensures Accounted(Noted(t, s, Write(c, fails), code), Step(s, Write(c, fails)), immediate, code)
  {
    DropCount(s.pending, c, code);
    AddToCount(s.rows, c, Count(s.pending, c), code);
    hide Queued, Count, Drop, AddTo;
  }

  lemma StepAccounted(t: Since, s: Sys, immediate: Counts, e: Event, code: Code)
    requires Enabled(s, e) && Accounted(t, s, immediate, code)
    ensures Accounted(Noted(t, s, e, code), Step(s, e), Recorded(immediate, e), code)
  {
    hide AddTo, Drop, Queued, Count, Receiving;
    match e
    case Record(c) => RecordAccounted(t, s, immediate, c, code);
    case Request => QueuedMore(s.queue, Flush(s.nextAck), code);
    case Receive => ReceiveAccounted(t, s, immediate, code);
    case Write(c, fails) => WriteAccounted(t, s, immediate, c, fails, code);
    case RemoveRow(c) => RemoveAccounted(t, s, immediate, c, code);
    case _ =>
  }

  lemma RemoveAccounted(t: Since, s: Sys, immediate: Counts, c: Code, code: Code)
    requires Accounted(t, s, immediate, code)
    ensures Accounted(t, s.(rows := Drop(s.rows, c)), Drop(immediate, c), code)
  {
    hide Queued, Count;
  }

  lemma {:induction false} AlwaysAccounted(maxPending: nat, events: seq<Event>, code: Code)
    ensures Accounted(Story(maxPending, events, code), Exec(maxPending, events), Immediate(maxPending, events), code)
    decreases |events|
  {
    hide Step, Enabled, Noted, Recorded, Accounted;
    if events == [] {
      assert Accounted(Since(0, 0, 0), Init(maxPending), map[], code) by { NothingAccounted(maxPending, code); }
    } else {
      var n := |events| - 1;
      AlwaysAccounted(maxPending, events[..n], code);
      var t, s := Story(maxPending, events[..n], code), Exec(maxPending, events[..n]);
      if Enabled(s, events[n]) {
        StepAccounted(t, s, Immediate(maxPending, events[..n]), events[n], code);
      }
    }
  }

  lemma NothingAccounted(maxPending: nat, code: Code)
    ensures Accounted(Since(0, 0, 0), Init(maxPending), map[], code)
  {
  }

  /** Batching against immediate recording, for every schedule and every row there is, links deleted and made again
      included: the row lacks exactly what was dropped, lost or is on its way since it was made, and has gained what
      was on its way when it was made. So a row that has caught up, with nothing dropped or lost since, is exact if
      and only if no hit of its code was in flight when it was made. */
  lemma BatchedAgainstImmediate(maxPending: nat, events: seq<Event>, code: Code)
    requires code in Exec(maxPending, events).rows
    ensures var t, s := Story(maxPending, events, code), Exec(maxPending, events);
            && code in Immediate(maxPending, events)
            && s.rows[code] + t.dropped + t.lost + Queued(s.queue, code) + Count(s.pending, code)
               == Immediate(maxPending, events)[code] + t.carried
            && (Queued(s.queue, code) == Count(s.pending, code) == t.dropped == t.lost == 0 ==>
                  (s.rows[code] == Immediate(maxPending, events)[code] <==> t.carried == 0))
  {
    AlwaysAccounted(maxPending, events, code);
    hide Story, Exec, Immediate, Queued, Count;
  }

  /* How to make a row with nothing in flight: flush after the last hit of its code. */

  lemma {:induction false} QuietAccount(maxPending: nat, events: seq<Event>, n: nat, code: Code)
    requires n <= |events| && forall i :: n <= i < |events| ==> events[i] != Record(code)
    ensures var before, after := Account(maxPending, events[..n], code), Account(maxPending, events, code);
            after.attempted == before.attempted && after.dropped == before.dropped
    decreases |events|
  {
    hide Exec, Enabled, Count;
    if n == |events| {
      assert events[..n] == events;
    } else {
      var before := events[..|events| - 1];
      QuietAccount(maxPending, before, n, code);
      assert before[..n] == events[..n];
    }
  }

  /** If a flush request is acknowledged and no hit of the code came after it, none is in flight. */
  lemma FlushClears(maxPending: nat, events: seq<Event>, n: nat, code: Code)
    requires n < |events| && events[n] == Request && Enabled(Exec(maxPending, events[..n]), Request)
    requires Exec(maxPending, events[..n]).nextAck in Exec(maxPending, events).acked
    requires forall i :: n <= i < |events| ==> events[i] != Record(code)
    ensures var s := Exec(maxPending, events); Queued(s.queue, code) == Count(s.pending, code) == 0
  {
    FlushTakesEverything(maxPending, events, n, code);
    QuietAccount(maxPending, events, n, code);
    HitsConserved(maxPending, events, code);
    hide Exec, Account, Enabled, Queued, Count;
  }

  /** The row of `code` was made by event `m` and is still the same. */
  predicate MadeAt(maxPending: nat, events: seq<Event>, m: nat, code: Code) {
    && m < |events| && events[m] == AddRow(code) && Enabled(Exec(maxPending, events[..m]), AddRow(code))
    && forall i :: m < i < |events| ==> events[i] != AddRow(code) && events[i] != RemoveRow(code)
  }

  lemma {:induction false} CarriedFromMaking(maxPending: nat, events: seq<Event>, m: nat, code: Code)
    requires MadeAt(maxPending, events, m, code)
    ensures code in Exec(maxPending, events).rows
    ensures var s := Exec(maxPending, events[..m]);
            Story(maxPending, events, code).carried == Queued(s.queue, code) + Count(s.pending, code)
    decreases |events|
  {
    var n := |events| - 1;
    if m < n {
      var before := events[..n];
      assert before[..m] == events[..m];
      CarriedFromMaking(maxPending, before, m, code);
      RowStays(Exec(maxPending, before), events[n], code);
      hide Queued, Count, Step, Enabled;
    }
  }

  lemma RowStays(s: Sys, e: Event, code: Code)
    requires code in s.rows && e != RemoveRow(code)
    ensures Enabled(s, e) ==> code in Step(s, e).rows
  {
    hide Bump, Count;
  }

  /** What a caller can do about it: ask for a flush after the last hit of a code and make the row once that is
      acknowledged. Then, on every schedule that follows, the row and what is dropped, lost or on its way to it add up
      to what immediate recording gives. */
  lemma MadeAfterFlush(maxPending: nat, events: seq<Event>, n: nat, m: nat, code: Code)
    requires MadeAt(maxPending, events, m, code) && n < m
    requires events[n] == Request && Enabled(Exec(maxPending, events[..n]), Request)
    requires Exec(maxPending, events[..n]).nextAck in Exec(maxPending, events[..m]).acked
    requires forall i :: n <= i < m ==> events[i] != Record(code)
    ensures var t, s := Story(maxPending, events, code), Exec(maxPending, events);
            && code in s.rows && code in Immediate(maxPending, events)
            && s.rows[code] + t.dropped + t.lost + Queued(s.queue, code) + Count(s.pending, code)
               == Immediate(maxPending, events)[code]
  {
    CarriedFromMaking(maxPending, events, m, code);
    assert events[..m][..n] == events[..n];
    FlushClears(maxPending, events[..m], n, code);
    BatchedAgainstImmediate(maxPending, events, code);
    hide Story, Exec, Immediate, Queued, Count;
  }

  /* The row of a link that is never removed. */

  predicate Kept(events: seq<Event>, code: Code) { forall i :: 0 <= i < |events| ==> events[i] != RemoveRow(code) }

  lemma StepCredits(l: Ledger, s: Sys, e: Event, code: Code)
    requires Enabled(s, e) && e != RemoveRow(code)
    requires if code in s.rows then s.rows[code] == l.credited else l.credited == 0
    ensures var t, m := Step(s, e), Entered(l, s, e, code);
            && (if code in t.rows then t.rows[code] == m.credited else m.credited == 0)
            && (code in s.rows ==> code in t.rows)
  {
    hide Count, Bump;
    if e.RemoveRow? { DropCount(s.rows, e.code, code); }
  }

  lemma {:induction false} RowIsCredited(maxPending: nat, events: seq<Event>, code: Code)
    requires Kept(events, code)
    ensures var l, s := Account(maxPending, events, code), Exec(maxPending, events);
            if code in s.rows then s.rows[code] == l.credited else l.credited == 0
    decreases |events|
  {
    hide Step, Enabled, Entered;
    if events != [] {
      var n := |events| - 1;
      RowIsCredited(maxPending, events[..n], code);
      var l, s := Account(maxPending, events[..n], code), Exec(maxPending, events[..n]);
      if Enabled(s, events[n]) {
        StepCredits(l, s, events[n], code);
      }
    }
  }

  /** Hits that came before their row. */
  function Early(maxPending: nat, events: seq<Event>, code: Code): nat {
    if events == [] then 0
    else
      var n := |events| - 1;
      var s := Exec(maxPending, events[..n]);
      Early(maxPending, events[..n], code) +
        if events[n] == Record(code) && Enabled(s, events[n]) && code !in s.rows then 1 else 0
  }

  lemma {:induction false} EarlyOrImmediate(maxPending: nat, events: seq<Event>, code: Code)
    requires Kept(events, code)
    ensures Account(maxPending, events, code).attempted
         == Count(Immediate(maxPending, events), code) + Early(maxPending, events, code)
    decreases |events|
  {
    if events != [] {
      var n := |events| - 1;
      EarlyOrImmediate(maxPending, events[..n], code);
      AlwaysAccounted(maxPending, events[..n], code);
      var s, rows, e := Exec(maxPending, events[..n]), Immediate(maxPending, events[..n]), events[n];
      if Enabled(s, e) {
        RecordedCount(s, rows, e, code);
      }
      hide Exec, Enabled, Accounted, Count, Recorded, Queued;
    }
  }

  lemma RecordedCount(s: Sys, rows: Counts, e: Event, code: Code)
    requires Enabled(s, e) && (code in s.rows <==> code in rows) && e != RemoveRow(code)
    ensures Count(Recorded(rows, e), code) == Count(rows, code) + if e == Record(code) && code in s.rows then 1 else 0
  {
  }

  /** A row that is made once and stays gains every hit that came before it, and lacks what was dropped, lost or is on
      its way over the whole run. */
  lemma KeptAgainstImmediate(maxPending: nat, events: seq<Event>, code: Code)
    requires Kept(events, code) && code in Exec(maxPending, events).rows
    ensures var l, s := Account(maxPending, events, code), Exec(maxPending, events);
            s.rows[code] + l.dropped + l.lost + Queued(s.queue, code) + Count(s.pending, code)
            == Count(Immediate(maxPending, events), code) + Early(maxPending, events, code)
  {
    RowIsCredited(maxPending, events, code);
    HitsConserved(maxPending, events, code);
    EarlyOrImmediate(maxPending, events, code);
  }

  lemma ExecNext(maxPending: nat, events: seq<Event>, e: Event)
    requires Enabled(Exec(maxPending, events), e)
    ensures Exec(maxPending, events + [e]) == Step(Exec(maxPending, events), e)
  {
    hide Enabled, Step;
    assert (events + [e])[..|events|] == events;
  }

  function Remake(): seq<Event> { [AddRow(0)] + [Record(0)] + [RemoveRow(0)] + [AddRow(0)] }

  /** A hit is queued behind its row. */
  function Waits(rows: Counts): Sys { Sys(2, rows, map[], [Hit(0)], false, Waiting, 0, {}) }

  lemma FirstHit()
    ensures Exec(2, [AddRow(0)] + [Record(0)]) == Waits(map[0 := 0])
  {
    assert Exec(2, []) == Init(2) && [] + [AddRow(0)] == [AddRow(0)];
    hide Exec, AddTo, Bump, Count;
    ExecNext(2, [], AddRow(0));
    ExecNext(2, [AddRow(0)], Record(0));
  }

  lemma Remade()
    ensures Exec(2, Remake()) == Waits(map[0 := 0])
  {
    FirstHit();
    hide Exec, AddTo, Bump, Count;
    var events := [AddRow(0)] + [Record(0)];
    assert Step(Waits(map[0 := 0]), RemoveRow(0)) == Waits(map[]) by { assert Drop(map[0 := 0], 0) == map[]; }
    assert Step(Waits(map[]), AddRow(0)) == Waits(map[0 := 0]);
    ExecNext(2, events, RemoveRow(0));
    hide Step, Waits;
    ExecNext(2, events + [RemoveRow(0)], AddRow(0));
  }

  /** Where rows are removed and remade the two do differ: a hit still queued when its row goes is written to the next
      row of the same code, although that row was never hit. */
  lemma RemadeRowInheritsHits()
    ensures var events := Remake() + [Receive] + [Tick] + [Write(0, false)];
            Exec(2, events).rows == map[0 := 1] && events[3] == AddRow(0)
            && forall i :: 3 <= i < |events| ==> !events[i].Record?
  {
    Remade();
    hide Exec, Bump, Count;
    BumpCount(map[], 0, 1, 0);
    assert Bump(map[], 0, 1).Keys == {0} && |Bump(map[], 0, 1)| == |{0}| && Count(map[], 0) == 0 by { OnePending(); }
    ExecNext(2, Remake(), Receive);
    ExecNext(2, Remake() + [Receive], Tick);
    ExecNext(2, Remake() + [Receive] + [Tick], Write(0, false));
  }

  lemma OnePending()
    ensures Bump(map[], 0, 1).Keys == {0} && |Bump(map[], 0, 1)| == |{0}| && Count(map[], 0) == 0
  {
    assert Bump(map[], 0, 1) == map[0 := 1];
    assert |map[0 := 1]| == |map[0 := 1].Keys|;
  }
}
