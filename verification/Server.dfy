/** `Server::run`: accept loop, permits, connection tasks, registry and drain as interleaved steps. */
module Server {
  import opened Registry

  const U32_MAX: nat := 0xFFFF_FFFF

  /** Where a connection task stands. Its guard lives from `Guarded` until `Dropped`; its permit until it is gone. */
  datatype Task = Spawned | Guarded | Asking(query: nat) | Dropped

  /** Where `run` stands. A permit is held in `Accepting`; `Drained` and `Expired` end the drain. */
  datatype Loop = Checking | WaitingPermit | Accepting | Draining | Drained | Expired | Returned(drained: bool)

  datatype Sys = Sys(
    max: nat, available: nat, flag: bool, loop: Loop, drainHeld: nat,
    tasks: map<nat, Task>, nextId: nat,
    queue: seq<Cmd>, conns: set<nat>, replies: map<nat, nat>,
    /* bookkeeping of the specification: guards alive when each count was asked for */
    nextQuery: nat, liveAt: map<nat, nat>)

  function Init(max: nat): Sys {
    Sys(max, max, false, Checking, 0, map[], 1, [], {}, map[], 0, map[])
  }

  /** How many permits the drain asks for: `u32::try_from(max_conns).unwrap_or(u32::MAX)`. */
  function DrainNeed(max: nat): nat { if max <= U32_MAX then max else U32_MAX }

  predicate HasGuard(t: Task) { t.Guarded? || t.Asking? }

  function LiveGuards(s: Sys): set<nat> { set id | id in s.tasks && HasGuard(s.tasks[id]) }

  datatype Event =
    | Shutdown                 // the watch flag is set
    | Check                    // top of the accept loop
    | Acquire | StopWaiting    // first select
    | Accept(addr: Addr) | AcceptFails | StopAccepting   // second select
    | DrainTake(n: nat) | DrainDone | GraceElapsed | Return
    | Begin(id: nat, peer: Addr)   // it creates its guard
    | Query(id: nat)               // a `/status` request asks for the count
    | Answered(id: nat)            // and gets its reply
    | End(id: nat)                 // return or panic: locals are dropped, the guard with them
    | Release(id: nat)             // then the permit
    | Process                      // the registry actor handles one command

  predicate Enabled(s: Sys, e: Event) {
    match e
    case Shutdown => true
    case Check => s.loop == Checking
    case Acquire => s.loop == WaitingPermit && s.available > 0
    case StopWaiting => s.loop == WaitingPermit && s.flag
    case Accept(_) => s.loop == Accepting
    case AcceptFails => s.loop == Accepting
    case StopAccepting => s.loop == Accepting && s.flag
    case DrainTake(n) => s.loop == Draining && n <= s.available && s.drainHeld + n <= DrainNeed(s.max)
    case DrainDone => s.loop == Draining && s.drainHeld == DrainNeed(s.max)
    case GraceElapsed => s.loop == Draining
    case Return => s.loop == Drained || s.loop == Expired
    case Begin(id, _) => id in s.tasks && s.tasks[id] == Spawned
    case Query(id) => id in s.tasks && s.tasks[id] == Guarded
    case Answered(id) => id in s.tasks && s.tasks[id].Asking? && s.tasks[id].query in s.replies
    case End(id) => id in s.tasks && s.tasks[id] != Dropped
    case Release(id) => id in s.tasks && s.tasks[id] == Dropped
    case Process => s.queue != []
  }

  function Step(s: Sys, e: Event): Sys
    requires Enabled(s, e)
  {
    match e
    case Shutdown => s.(flag := true)
    case Check => s.(loop := if s.flag then Draining else WaitingPermit)
    case Acquire => s.(loop := Accepting, available := s.available - 1)
    case StopWaiting => s.(loop := Draining)
    case Accept(_) => s.(loop := Checking, tasks := s.tasks[s.nextId := Spawned], nextId := s.nextId + 1)
    case AcceptFails => s.(loop := Checking, available := s.available + 1)
    case StopAccepting => s.(loop := Draining, available := s.available + 1)
    case DrainTake(n) => s.(available := s.available - n, drainHeld := s.drainHeld + n)
    case DrainDone => s.(loop := Drained)
    case GraceElapsed => s.(loop := Expired, available := s.available + s.drainHeld, drainHeld := 0)
    case Return => s.(loop := Returned(s.loop == Drained), available := s.available + s.drainHeld, drainHeld := 0)
    case Begin(id, peer) => s.(tasks := s.tasks[id := Guarded], queue := s.queue + [Register(id, peer)])
    case Query(id) =>
      s.(tasks := s.tasks[id := Asking(s.nextQuery)], queue := s.queue + [ActiveCount(s.nextQuery)],
         liveAt := s.liveAt[s.nextQuery := |LiveGuards(s)|], nextQuery := s.nextQuery + 1)
    case Answered(id) => s.(tasks := s.tasks[id := Guarded])
    case End(id) =>
      s.(tasks := s.tasks[id := Dropped],
         queue := if HasGuard(s.tasks[id]) then s.queue + [Deregister(id)] else s.queue)
    case Release(id) => s.(tasks := s.tasks - {id}, available := s.available + 1)
    case Process =>
      s.(queue := s.queue[1..], conns := Replay(s.conns, s.queue[..1]),
         replies := if s.queue[0].ActiveCount? then s.replies[s.queue[0].query := |s.conns|] else s.replies)
  }

  /** Any schedule of events; one that is not enabled when its turn comes does nothing. */
  function Exec(max: nat, events: seq<Event>): Sys {
    if events == [] then Init(max)
    else
      var s, e := Exec(max, events[..|events| - 1]), events[|events| - 1];
      if Enabled(s, e) then Step(s, e) else s
  }

  /* ---------- permits ---------- */

  function AcceptHeld(s: Sys): nat { if s.loop == Accepting then 1 else 0 }

  predicate PermitsConserved(s: Sys) {
    s.available + AcceptHeld(s) + |s.tasks| + s.drainHeld == s.max
  }

  predicate PermitInv(s: Sys) {
    && PermitsConserved(s)
    && (s.drainHeld > 0 ==> s.loop == Draining || s.loop == Drained)
    && (s.loop == Drained ==> s.drainHeld == DrainNeed(s.max))
    && (s.max <= U32_MAX && (s.loop == Drained || s.loop == Returned(true)) ==> s.tasks == map[])
    && (forall id :: id in s.tasks ==> id < s.nextId)
  }

  lemma PermitStep(s: Sys, e: Event)
    requires PermitInv(s) && Enabled(s, e)
    ensures PermitInv(Step(s, e)) && Step(s, e).max == s.max
  {
    match e
    case Accept(_) =>
      assert s.nextId !in s.tasks;
    case Begin(id, _) => assert s.tasks[id := Guarded].Keys == s.tasks.Keys;
    case Query(id) => assert s.tasks[id := Asking(s.nextQuery)].Keys == s.tasks.Keys;
    case Answered(id) => assert s.tasks[id := Guarded].Keys == s.tasks.Keys;
    case End(id) => assert s.tasks[id := Dropped].Keys == s.tasks.Keys;
    case Release(id) => assert (s.tasks - {id}).Keys == s.tasks.Keys - {id};
    case _ =>
  }

  /** In every reachable state every permit is accounted for: free, held by the accept loop, by a connection task, or by
      the drain. */
  lemma {:induction false} PermitConservation(max: nat, events: seq<Event>)
    ensures PermitInv(Exec(max, events)) && Exec(max, events).max == max
    decreases |events|
  {
    if events != [] {
      var n := |events| - 1;
      PermitConservation(max, events[..n]);
      if Enabled(Exec(max, events[..n]), events[n]) {
        PermitStep(Exec(max, events[..n]), events[n]);
      }
    }
  }

  predicate DrainSucceeded(s: Sys) { s.loop == Drained || s.loop == Returned(true) }

  /** A drain that succeeds within the grace period means that no connection is live, then or ever after, on every
      schedule, exactly when the connection limit fits the `u32` the drain asks for. */
  lemma DrainMeansQuiet(max: nat)
    ensures (forall events :: DrainSucceeded(Exec(max, events)) ==> Exec(max, events).tasks == map[])
              <==> max <= 4_294_967_295
  {
    if max <= U32_MAX {
      forall events | DrainSucceeded(Exec(max, events)) ensures Exec(max, events).tasks == map[] {
        PermitConservation(max, events);
      }
    } else {
      var events := EarlyDrain(max);
      assert DrainSucceeded(Exec(max, events)) && Exec(max, events).tasks != map[];
    }
  }

  lemma ExecNext(max: nat, events: seq<Event>, e: Event)
    requires Enabled(Exec(max, events), e)
    ensures Exec(max, events + [e]) == Step(Exec(max, events), e)
  {
    hide Enabled, Step;
    assert (events + [e])[..|events|] == events;
  }

  /** With a larger limit the drain can finish while a connection lives on. */
  lemma EarlyDrain(max: nat) returns (events: seq<Event>)
    requires max > U32_MAX
    ensures DrainSucceeded(Exec(max, events)) && Exec(max, events).tasks != map[]
  {
    hide Exec;
    ExecEmpty(max);
    ExecNext(max, [], Check);
    assert [] + [Check] == [Check];
    ExecNext(max, [Check], Acquire);
    events := [Check] + [Acquire];
    ExecNext(max, events, Accept(0));
    events := events + [Accept(0)];
    assert 1 in Exec(max, events).tasks;
    ExecNext(max, events, Shutdown);
    events := events + [Shutdown];
    ExecNext(max, events, Check);
    events := events + [Check];
    ExecNext(max, events, DrainTake(U32_MAX));
    events := events + [DrainTake(U32_MAX)];
    ExecNext(max, events, DrainDone);
    events := events + [DrainDone];
  }

  lemma ExecEmpty(max: nat)
    ensures Exec(max, []) == Init(max)
  {
  }

  /* ---------- shutdown ---------- */

  /** Connections accepted so far. */
  function Accepted(max: nat, events: seq<Event>): nat {
    if events == [] then 0
    else
      var n := |events| - 1;
      Accepted(max, events[..n]) + if events[n].Accept? && Exec(max, events[..n]).loop == Accepting then 1 else 0
  }

  predicate PastTheLoop(s: Sys) { s.loop.Draining? || s.loop.Drained? || s.loop.Expired? || s.loop.Returned? }

  /** How many more connections may be accepted once the flag is set. */
  function StillToAccept(s: Sys): nat { if s.loop == WaitingPermit || s.loop == Accepting then 1 else 0 }

  lemma StepShutsDown(s: Sys, e: Event)
    requires Enabled(s, e)
    ensures var t := Step(s, e);
            && (s.flag ==> t.flag) && (t.flag ==> s.flag || e == Shutdown)
            && (PastTheLoop(s) ==> PastTheLoop(t)) && (PastTheLoop(t) ==> PastTheLoop(s) || s.flag)
            && (s.flag ==> StillToAccept(t) + (if e.Accept? then 1 else 0) <= StillToAccept(s))
            && (e.Accept? ==> s.loop == Accepting) && (s.loop == Accepting && e.Accept? ==> !PastTheLoop(s))
  {
  }

  /** Once the flag is set at most one more connection is accepted, on every schedule. */
  lemma {:induction false} AtMostOneMore(max: nat, events: seq<Event>, n: nat)
    requires n <= |events| && Exec(max, events[..n]).flag
    ensures Exec(max, events).flag
    ensures Accepted(max, events) + StillToAccept(Exec(max, events)) <=
            Accepted(max, events[..n]) + StillToAccept(Exec(max, events[..n]))
    ensures Accepted(max, events) <= Accepted(max, events[..n]) + 1
    decreases |events|
  {
    if n == |events| {
      assert events[..n] == events;
    } else {
      var m := |events| - 1;
      assert events[..m][..n] == events[..n];
      AtMostOneMore(max, events[..m], n);
      var s := Exec(max, events[..m]);
      hide Step;
      if Enabled(s, events[m]) {
        StepShutsDown(s, events[m]);
      }
    }
  }

  /** The loop ends for no other reason than the flag, and for good: the drain begins only after a `Shutdown`. */
  lemma {:induction false} EndsWhenTold(max: nat, events: seq<Event>)
    ensures Exec(max, events).flag ==> Shutdown in events
    ensures PastTheLoop(Exec(max, events)) ==> Exec(max, events).flag
    decreases |events|
  {
    if events != [] {
      var m := |events| - 1;
      EndsWhenTold(max, events[..m]);
      var s := Exec(max, events[..m]);
      hide Step;
      assert events == events[..m] + [events[m]];
      if Enabled(s, events[m]) {
        StepShutsDown(s, events[m]);
      }
    }
  }

  /** And a drain that finds no connection left succeeds: it can take every permit it asks for and return. */
  lemma DrainCompletes(max: nat, events: seq<Event>) returns (more: seq<Event>)
    requires max <= U32_MAX && Exec(max, events).loop == Draining && Exec(max, events).tasks == map[]
    ensures more == events + [DrainTake(Exec(max, events).available)] + [DrainDone] + [Return]
    ensures Exec(max, more).loop == Returned(true) && Exec(max, more).available == max
  {
    hide Exec;
    PermitConservation(max, events);
    more := events + [DrainTake(Exec(max, events).available)];
    ExecNext(max, events, DrainTake(Exec(max, events).available));
    ExecNext(max, more, DrainDone);
    more := more + [DrainDone];
    ExecNext(max, more, Return);
    more := more + [Return];
  }

  /* ---------- the registry ---------- */

  /** The queue leads from the actor's set to the guards now alive, and each waiting count will be taken over exactly
      the guards that were alive when it was enqueued. */
  predicate RegistryInv(s: Sys) {
    && Replay(s.conns, s.queue) == LiveGuards(s)
    && (forall i :: 0 <= i < |s.queue| && s.queue[i].ActiveCount? ==>
          s.queue[i].query in s.liveAt && s.liveAt[s.queue[i].query] == |Replay(s.conns, s.queue[..i])|)
    && (forall q :: q in s.replies ==> q in s.liveAt && s.replies[q] == s.liveAt[q])
    && (forall q :: q in s.liveAt ==> q < s.nextQuery && 1 <= s.liveAt[q] <= s.max)
  }

  /** What a command enqueued now will do to the set the queue leads to. */
  function After(live: set<nat>, cmd: Cmd): set<nat> {
    match cmd
    case Register(id, _) => live + {id}
    case Deregister(id) => live - {id}
    case ActiveCount(_) => live
  }

  lemma Enqueue(s: Sys, t: Sys, cmd: Cmd)
    requires RegistryInv(s)
    requires t.queue == s.queue + [cmd] && t.conns == s.conns && t.replies == s.replies && t.max == s.max
    requires LiveGuards(t) == After(LiveGuards(s), cmd)
    requires if cmd.ActiveCount?
             then cmd.query == s.nextQuery && t.nextQuery == s.nextQuery + 1
                  && t.liveAt == s.liveAt[s.nextQuery := |LiveGuards(s)|] && 1 <= |LiveGuards(s)| <= s.max
             else t.liveAt == s.liveAt && t.nextQuery == s.nextQuery
    ensures RegistryInv(t)
  {
    hide LiveGuards;
    var n := |s.queue|;
    assert t.queue[..n] == s.queue;
    assert Replay(t.conns, t.queue) == After(Replay(s.conns, s.queue), cmd);
    forall i | 0 <= i < |t.queue| && t.queue[i].ActiveCount?
      ensures t.queue[i].query in t.liveAt && t.liveAt[t.queue[i].query] == |Replay(t.conns, t.queue[..i])|
    {
      if i < n {
        assert t.queue[i] == s.queue[i] && t.queue[..i] == s.queue[..i];
      }
    }
  }

  lemma Untouched(s: Sys, t: Sys)
    requires RegistryInv(s) && LiveGuards(t) == LiveGuards(s)
    requires t.queue == s.queue && t.conns == s.conns && t.replies == s.replies && t.max == s.max
    requires t.liveAt == s.liveAt && t.nextQuery == s.nextQuery
    ensures RegistryInv(t)
  {
  }

  lemma LiveGuardsBounded(s: Sys)
    requires PermitInv(s)
    ensures |LiveGuards(s)| <= s.max
  {
    var live := LiveGuards(s);
    assert live <= s.tasks.Keys;
    SubsetSize(live, s.tasks.Keys);
  }

  lemma SubsetSize<T>(a: set<T>, b: set<T>)
    requires a <= b
    ensures |a| <= |b|
  {
    assert b == a + (b - a);
  }

  lemma ProcessStep(s: Sys)
    requires RegistryInv(s) && s.queue != []
    ensures RegistryInv(Step(s, Process))
  {
    var t := Step(s, Process);
    ReplayFront(s.conns, s.queue);
    assert s.queue[..0] == [];
    forall i | 0 <= i < |t.queue| && t.queue[i].ActiveCount?
      ensures t.queue[i].query in t.liveAt && t.liveAt[t.queue[i].query] == |Replay(t.conns, t.queue[..i])|
    {
      var front := s.queue[..i + 1];
      assert s.queue[i + 1] == t.queue[i];
      ReplayFront(s.conns, front);
      assert front[..1] == s.queue[..1] && front[1..] == t.queue[..i];
    }
    assert LiveGuards(t) == LiveGuards(s);
  }

  lemma BeginStep(s: Sys, id: nat, peer: Addr)
    requires RegistryInv(s) && Enabled(s, Begin(id, peer))
    ensures RegistryInv(Step(s, Begin(id, peer)))
  {
    hide RegistryInv, Replay;
    var t := Step(s, Begin(id, peer));
    assert LiveGuards(t) == LiveGuards(s) + {id};
    hide LiveGuards;
    Enqueue(s, t, Register(id, peer));
  }

  lemma QueryStep(s: Sys, id: nat)
    requires RegistryInv(s) && PermitInv(s) && Enabled(s, Query(id))
    ensures RegistryInv(Step(s, Query(id)))
  {
    hide RegistryInv, Replay;
    var t := Step(s, Query(id));
    assert LiveGuards(t) == LiveGuards(s);
    assert id in LiveGuards(s);
    LiveGuardsBounded(s);
    hide LiveGuards, PermitInv;
    Enqueue(s, t, ActiveCount(s.nextQuery));
  }

  lemma EndStep(s: Sys, id: nat)
    requires RegistryInv(s) && Enabled(s, End(id))
    ensures RegistryInv(Step(s, End(id)))
  {
    hide RegistryInv, Replay;
    var t := Step(s, End(id));
    assert LiveGuards(t) == LiveGuards(s) - {id};
    assert !HasGuard(s.tasks[id]) ==> id !in LiveGuards(s);
    hide LiveGuards;
    if HasGuard(s.tasks[id]) {
      Enqueue(s, t, Deregister(id));
    } else {
      Untouched(s, t);
    }
  }

  /** No other event touches a guard or the queue. */
  lemma QuietStep(s: Sys, e: Event)
    requires PermitInv(s) && Enabled(s, e) && !e.Process? && !e.Begin? && !e.Query? && !e.End?
    ensures LiveGuards(Step(s, e)) == LiveGuards(s)
  {
    if e.Accept? {
      assert s.nextId !in s.tasks;
    }
  }

  lemma RegistryStep(s: Sys, e: Event)
    requires RegistryInv(s) && PermitInv(s) && Enabled(s, e)
    ensures RegistryInv(Step(s, e))
  {
    hide RegistryInv, Replay, LiveGuards, PermitInv;
    match e
    case Process => ProcessStep(s);
    case Begin(id, peer) => BeginStep(s, id, peer);
    case Query(id) => QueryStep(s, id);
    case End(id) => EndStep(s, id);
    case _ =>
      QuietStep(s, e);
      Untouched(s, Step(s, e));
  }

  lemma {:induction false} RegistryAlways(max: nat, events: seq<Event>)
    ensures RegistryInv(Exec(max, events))
    decreases |events|
  {
    if events == [] {
      assert LiveGuards(Init(max)) == {};
    } else {
      var n := |events| - 1;
      RegistryAlways(max, events[..n]);
      PermitConservation(max, events[..n]);
      if Enabled(Exec(max, events[..n]), events[n]) {
        RegistryStep(Exec(max, events[..n]), events[n]);
      }
    }
  }

  /** The event that asked for count `q`. */
  lemma {:induction false} AskedWhen(max: nat, events: seq<Event>, q: nat) returns (n: nat)
    requires q in Exec(max, events).liveAt
    ensures n < |events| && events[n].Query? && Enabled(Exec(max, events[..n]), events[n])
    ensures var s := Exec(max, events[..n]); q == s.nextQuery && Exec(max, events).liveAt[q] == |LiveGuards(s)|
    decreases |events|
  {
    hide Enabled, Step, LiveGuards;
    var m := |events| - 1;
    var before, s, e := events[..m], Exec(max, events[..m]), events[m];
    if Enabled(s, e) {
      LiveAtStep(s, e, q);
    }
    if Enabled(s, e) && e.Query? && q == s.nextQuery {
      n := m;
    } else {
      n := AskedWhen(max, before, q);
      assert before[..n] == events[..n];
    }
  }

  lemma LiveAtStep(s: Sys, e: Event, q: nat)
    requires Enabled(s, e) && q in Step(s, e).liveAt
    ensures if e.Query? && q == s.nextQuery then Step(s, e).liveAt[q] == |LiveGuards(s)|
            else q in s.liveAt && Step(s, e).liveAt[q] == s.liveAt[q]
  {
    hide LiveGuards;
  }

  /** Counts are linearizable at the moment they are asked for: on every schedule each reply was asked for by one of
      its events, and equals the number of guards alive just before that event; and a `/status` count lies between 1
      and `max_connections`. */
  lemma CountsLinearizable(max: nat, events: seq<Event>, q: nat)
    requires q in Exec(max, events).replies
    ensures exists n :: 0 <= n < |events| && events[n].Query? && Enabled(Exec(max, events[..n]), events[n])
                        && Exec(max, events[..n]).nextQuery == q
                        && Exec(max, events).replies[q] == |LiveGuards(Exec(max, events[..n]))|
    ensures 1 <= Exec(max, events).replies[q] <= max
  {
    RegistryAlways(max, events);
    PermitConservation(max, events);
    var n := AskedWhen(max, events, q);
    hide Exec, Enabled, LiveGuards;
    assert Exec(max, events[..n]).nextQuery == q;
  }

  /** A connection that ended, however it ended, does not linger: once the actor has caught up, its set is the set of
      live guards. */
  lemma NothingLeaks(max: nat, events: seq<Event>)
    requires Exec(max, events).queue == []
    ensures Exec(max, events).conns == LiveGuards(Exec(max, events))
  {
    RegistryAlways(max, events);
  }

  /* ---------- the actor object ---------- */

  /** The actor holds what the state says of the registry. */
  ghost predicate Mirrors(actor: Actor, s: Sys)
    reads actor
  {
    actor.queue == s.queue && actor.conns.Keys == s.conns && actor.replies == s.replies
  }

  /** What an event does to the actor: a guard is made or dropped, a count asked for, a command processed. */
  method Follow(actor: Actor, s: Sys, e: Event)
    requires Mirrors(actor, s) && Enabled(s, e)
    modifies actor
    ensures Mirrors(actor, Step(s, e))
  {
    match e {
      case Begin(id, peer) => actor.Guard(id, peer);
      case Query(_) => actor.Ask(s.nextQuery);
      case End(id) =>
        if HasGuard(s.tasks[id]) {
          actor.Drop(id);
        }
      case Process =>
        assert |actor.conns| == |actor.conns.Keys|;
        actor.ProcessOne();
      case _ =>
    }
  }

  /** On every schedule the actor object ends up as the state says, so that what is proved of the state holds of the
      object. */
  method Play(max: nat, events: seq<Event>) returns (actor: Actor)
    ensures fresh(actor) && Mirrors(actor, Exec(max, events))
  {
    hide Enabled, Step;
    actor := new Actor();
    var s, k := Init(max), 0;
    while k < |events|
      invariant k <= |events| && s == Exec(max, events[..k]) && Mirrors(actor, s)
    {
      assert events[..k + 1][..k] == events[..k];
      if Enabled(s, events[k]) {
        Follow(actor, s, events[k]);
        s := Step(s, events[k]);
      }
      k := k + 1;
    }
    assert events[..k] == events;
  }
}
