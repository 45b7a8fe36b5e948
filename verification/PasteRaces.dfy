/** Concurrent `PasteService` calls, cut at every await: each cache or repository call is one step, and the steps of
    different calls interleave in any order. */
module PasteRaces {
  import opened Options
  import opened CacheAside
  import Pastes

  type Paste = Pastes.Paste

  /** Each insert makes a new paste, numbered by its place in `made`, so that a reused id still tells pastes apart.
      View counts are not tracked here. */
  type Instance = nat

  /** How a fetch came by what it returns, with the times of the steps that decided it. */
  datatype Source = FromCache(gotAt: nat, checkedAt: nat) | FromRow(readAt: nat) | ByTaking

  /** What a fetch returned, where it had it from, and when it returned. */
  datatype Serve = Serve(inst: Instance, source: Source, at: nat)

  /** Where a call stands: the step it does next. */
  datatype Pc =
    | GetEntry(id: Key)                                              // fetch: look in the cache
    | CheckEntry(id: Key, inst: Instance, gotAt: nat)                // has the snapshot expired?
    | DropEntry(id: Key)                                             // if so, out of the cache with it
    | GetRow(id: Key)                                                // look in the database
    | CheckRow(id: Key, inst: Instance, readAt: nat)                 // has the row expired?
    | Purge(id: Key) | PurgeEntry(id: Key)                           // if so, purge both
    | Take(id: Key)                                                  // burn after reading
    | ComputeTtl(id: Key, inst: Instance, readAt: nat)
    | SetEntry(id: Key, inst: Instance, ttl: nat, readAt: nat)
    | Record(inst: Instance, source: Source)                         // count the view and return
    | DeleteRow(id: Key) | DeleteEntry(id: Key, erased: bool)        // delete: database first, then cache

  /** How a call ends: what a fetch returned, nothing under this id, a delete that found its paste, a failed backend. */
  datatype Ending = Returned(inst: Instance) | NotThere | Erased | NoBackend

  datatype Next = Goes(pc: Pc) | Answers(ending: Ending)

  datatype Sys = Sys(
    now: nat, rows: map<Key, Instance>, entries: Entries<Instance>, calls: map<nat, Pc>,
    /* bookkeeping of the specification */
    made: seq<Paste>, removedAt: map<Instance, nat>, log: seq<Serve>, endings: seq<Ending>)

  function Init(): Sys { Sys(0, map[], map[], map[], [], map[], [], []) }

  datatype Event =
    | Tick(span: nat)
    | Insert(paste: Paste)                     // the insert of a `create`
    | StartFetch(call: nat, id: Key)
    | StartDelete(call: nat, id: Key)
    | Advance(call: nat, fails: bool)          // the call's next step; its backend may fail
    | Evict(id: Key)                           // the cache forgets an entry

  function Goto(s: Sys, call: nat, pc: Pc): Sys { s.(calls := s.calls[call := pc]) }
  function Ended(s: Sys, ending: Ending): Sys { s.(endings := s.endings + [ending]) }
  function End(s: Sys, call: nat, ending: Ending): Sys { Ended(s, ending).(calls := s.calls - {call}) }

  function WithoutRow(s: Sys, id: Key): Sys {
    if id in s.rows then s.(rows := s.rows - {id}, removedAt := s.removedAt[s.rows[id] := s.now]) else s
  }

  function ForgetEntry(s: Sys, id: Key, lost: bool): Sys { s.(entries := WithoutEntry(s.entries, id, lost)) }

  function Serving(s: Sys, inst: Instance, source: Source): Sys {
    s.(log := s.log + [Serve(inst, source, s.now)])
  }

  predicate Expired(s: Sys, inst: Instance) {
    inst < |s.made| && IsExpired(s.made[inst].expiresAt, Seconds(s.now))
  }

  /** The entry a get would find. */
  predicate Found(kind: Kind, s: Sys, id: Key) { !kind.NoOp? && id in s.entries && Live(kind, s.entries[id], s.now) }

  /** What the step does to the cache, the database and the log. */
  function Effect(kind: Kind, s: Sys, pc: Pc, fails: bool): Sys {
    match pc
    case DropEntry(id) => ForgetEntry(s, id, fails)
    case PurgeEntry(id) => ForgetEntry(s, id, fails)
    case DeleteEntry(id, _) => ForgetEntry(s, id, fails)
    case SetEntry(id, inst, ttl, _) => s.(entries := WithEntry(kind, s.entries, id, inst, ttl, s.now, fails))
    case Purge(id) => if fails then s else WithoutRow(s, id)
    case DeleteRow(id) => if fails then s else WithoutRow(s, id)
    case Take(id) => if fails || id !in s.rows then s else Serving(WithoutRow(s, id), s.rows[id], ByTaking)
    case Record(inst, source) => Serving(s, inst, source)
    case _ => s
  }

  /** Where the call goes from there, or how it ends. */
  function Then(kind: Kind, s: Sys, pc: Pc, fails: bool): Next {
    match pc
    case GetEntry(id) =>
      if Found(kind, s, id) && !fails then Goes(CheckEntry(id, s.entries[id].value, s.now)) else Goes(GetRow(id))
    case CheckEntry(id, inst, gotAt) =>
      if Expired(s, inst) then Goes(DropEntry(id)) else Goes(Record(inst, FromCache(gotAt, s.now)))
    case DropEntry(id) => Goes(GetRow(id))
    case GetRow(id) =>
      if fails then Answers(NoBackend)
      else if id !in s.rows then Answers(NotThere)
      else Goes(CheckRow(id, s.rows[id], s.now))
    case CheckRow(id, inst, readAt) =>
      if Expired(s, inst) then Goes(Purge(id))
      else if inst < |s.made| && s.made[inst].oneShot then Goes(Take(id))
      else Goes(ComputeTtl(id, inst, readAt))
    case Purge(id) => Goes(PurgeEntry(id))
    case PurgeEntry(_) => Answers(NotThere)
    case Take(id) =>
      Answers(if fails then NoBackend else if id !in s.rows then NotThere else Returned(s.rows[id]))
    case ComputeTtl(id, inst, readAt) =>
      var ttl := CacheTtl(if inst < |s.made| then s.made[inst].expiresAt else None, Seconds(s.now));
      Goes(if ttl > 0 then SetEntry(id, inst, ttl, readAt) else Record(inst, FromRow(readAt)))
    case SetEntry(_, inst, _, readAt) => Goes(Record(inst, FromRow(readAt)))
    case Record(inst, _) => Answers(Returned(inst))
    case DeleteRow(id) => if fails then Answers(NoBackend) else Goes(DeleteEntry(id, id in s.rows))
    case DeleteEntry(_, erased) => Answers(if erased then Erased else NotThere)
  }

  function NextStep(kind: Kind, s: Sys, call: nat, fails: bool): Sys
    requires call in s.calls
  {
    var pc := s.calls[call];
    var t := Effect(kind, s, pc, fails);
    match Then(kind, s, pc, fails)
    case Answers(ending) => End(t, call, ending)
    case Goes(next) => Goto(t, call, next)
  }

  /** An event that cannot happen now changes nothing. */
  function Step(kind: Kind, s: Sys, e: Event): Sys {
    match e
    case Tick(span) => s.(now := s.now + span)
    case Insert(paste) =>
      if paste.id in s.rows then s else s.(rows := s.rows[paste.id := |s.made|], made := s.made + [paste])
    case StartFetch(call, id) => if call in s.calls then s else Goto(s, call, GetEntry(id))
    case StartDelete(call, id) => if call in s.calls then s else Goto(s, call, DeleteRow(id))
    case Advance(call, fails) => if call in s.calls then NextStep(kind, s, call, fails) else s
    case Evict(id) => ForgetEntry(s, id, false)
  }

  function Exec(kind: Kind, events: seq<Event>): Sys {
    if events == [] then Init() else Step(kind, Exec(kind, events[..|events| - 1]), events[|events| - 1])
  }

  /* ---------- burn after reading, and expiry ---------- */

  /** A paste that may be cached: known and not burn-after-read. */
  predicate Keepable(made: seq<Paste>, inst: Instance) { inst < |made| && !made[inst].oneShot }

  /** Served in time: what came out of the cache was checked before its own expiry. */
  predicate InTime(made: seq<Paste>, inst: Instance, source: Source) {
    && inst < |made|
    && (source.FromCache? ==>
          source.gotAt <= source.checkedAt && !IsExpired(made[inst].expiresAt, Seconds(source.checkedAt)))
  }

  predicate SafePc(made: seq<Paste>, now: nat, pc: Pc) {
    match pc
    case CheckEntry(_, inst, gotAt) => Keepable(made, inst) && gotAt <= now
    case CheckRow(_, inst, _) => inst < |made|
    case ComputeTtl(_, inst, _) => Keepable(made, inst)
    case SetEntry(_, inst, ttl, _) => Keepable(made, inst) && 0 < ttl <= MAX_CACHE_TTL_SECS
    case Record(inst, source) => Keepable(made, inst) && InTime(made, inst, source)
    case _ => true
  }

  predicate SafeRows(s: Sys) {
    && (forall id :: id in s.rows ==> s.rows[id] < |s.made| && s.rows[id] !in s.removedAt)
    && (forall a, b :: a in s.rows && b in s.rows && s.rows[a] == s.rows[b] ==> a == b)
    && (forall inst :: inst in s.removedAt ==> inst < |s.made|)
  }

  predicate SafeCache(s: Sys) { forall id :: id in s.entries ==> Keepable(s.made, s.entries[id].value) }

  predicate SafeCalls(s: Sys) { forall c :: c in s.calls ==> SafePc(s.made, s.now, s.calls[c]) }

  /** A burn-after-read paste is served once at most, and then it is gone. */
  predicate SafeLog(s: Sys) {
    && (forall k :: 0 <= k < |s.log| ==> InTime(s.made, s.log[k].inst, s.log[k].source))
    && (forall k :: 0 <= k < |s.log| && s.made[s.log[k].inst].oneShot ==> s.log[k].inst in s.removedAt)
    && (forall j, k :: 0 <= j < k < |s.log| && s.made[s.log[j].inst].oneShot ==> s.log[j].inst != s.log[k].inst)
  }

  predicate Safe(s: Sys) { SafeRows(s) && SafeCache(s) && SafeCalls(s) && SafeLog(s) }

  lemma GotoSafe(s: Sys, call: nat, pc: Pc)
    requires Safe(s) && SafePc(s.made, s.now, pc)
    ensures Safe(Goto(s, call, pc))
  {
    hide Keepable, InTime, SafePc;
  }

  lemma EndSafe(s: Sys, call: nat, ending: Ending)
    requires Safe(s)
    ensures Safe(End(s, call, ending))
  {
    hide Keepable, InTime, SafePc;
  }

  lemma WithoutRowSafe(s: Sys, id: Key)
    requires Safe(s)
    ensures Safe(WithoutRow(s, id))
  {
    hide Keepable, InTime, SafePc;
  }

  lemma EntriesSafe(s: Sys, entries: Entries<Instance>)
    requires Safe(s) && forall id :: id in entries ==> Keepable(s.made, entries[id].value)
    ensures Safe(s.(entries := entries))
  {
    hide Keepable, InTime, SafePc;
  }

  lemma ForgetSafe(s: Sys, id: Key, lost: bool)
    requires Safe(s)
    ensures Safe(ForgetEntry(s, id, lost))
  {
    hide Keepable, InTime, SafePc;
    EntriesSafe(s, WithoutEntry(s.entries, id, lost));
  }

  lemma ServingSafe(s: Sys, inst: Instance, source: Source)
    requires Safe(s) && Keepable(s.made, inst) && InTime(s.made, inst, source)
    ensures Safe(Serving(s, inst, source))
  {
    hide InTime, SafePc;
  }

  /** Taking removes the row in the same step, so no other take can serve it. */
  lemma TakingSafe(s: Sys, id: Key)
    requires Safe(s) && id in s.rows
    ensures Safe(Serving(WithoutRow(s, id), s.rows[id], ByTaking))
  {
    WithoutRowSafe(s, id);
    hide SafePc;
  }

  lemma EffectSafe(kind: Kind, s: Sys, pc: Pc, fails: bool)
    requires Safe(s) && SafePc(s.made, s.now, pc)
    ensures Safe(Effect(kind, s, pc, fails))
  {
    var t := Effect(kind, s, pc, fails);
    match pc
    case Take(id) => if !fails && id in s.rows { TakingSafe(s, id); }
    case Record(inst, source) => ServingSafe(s, inst, source);
    case SetEntry(id, inst, ttl, readAt) => EntriesSafe(s, t.entries);
    case Purge(id) => WithoutRowSafe(s, id);
    case DeleteRow(id) => WithoutRowSafe(s, id);
    case DropEntry(id) => ForgetSafe(s, id, fails);
    case PurgeEntry(id) => ForgetSafe(s, id, fails);
    case DeleteEntry(id, erased) => ForgetSafe(s, id, fails);
    case _ =>
  }

  lemma ThenSafe(kind: Kind, s: Sys, pc: Pc, fails: bool)
    requires SafeRows(s) && SafeCache(s) && SafePc(s.made, s.now, pc)
    ensures Then(kind, s, pc, fails).Goes? ==> SafePc(s.made, s.now, Then(kind, s, pc, fails).pc)
  {
  }

  lemma NextStepSafe(kind: Kind, s: Sys, call: nat, fails: bool)
    requires Safe(s) && call in s.calls
    ensures Safe(NextStep(kind, s, call, fails))
  {
    var pc := s.calls[call];
    assert SafePc(s.made, s.now, pc) && SafeRows(s) && SafeCache(s);
    var t := Effect(kind, s, pc, fails);
    assert t.made == s.made && t.now == s.now;
    hide Safe, SafePc, SafeRows, SafeCache, Effect, Then;
    EffectSafe(kind, s, pc, fails);
    ThenSafe(kind, s, pc, fails);
    match Then(kind, s, pc, fails)
    case Answers(ending) => EndSafe(t, call, ending);
    case Goes(next) => GotoSafe(t, call, next);
  }

  lemma InsertSafe(s: Sys, paste: Paste)
    requires Safe(s) && paste.id !in s.rows
    ensures Safe(s.(rows := s.rows[paste.id := |s.made|], made := s.made + [paste]))
  {
    var t := s.(rows := s.rows[paste.id := |s.made|], made := s.made + [paste]);
    assert forall inst :: 0 <= inst < |s.made| ==> t.made[inst] == s.made[inst];
    assert SafeCache(t) && SafeRows(t);
    assert SafeCalls(t) by {
      forall c | c in t.calls ensures SafePc(t.made, t.now, t.calls[c]) {
        assert SafePc(s.made, s.now, s.calls[c]);
      }
    }
    assert SafeLog(t) by {
      hide SafePc;
      forall k | 0 <= k < |t.log|
        ensures InTime(t.made, t.log[k].inst, t.log[k].source) && t.made[t.log[k].inst] == s.made[s.log[k].inst]
      {
        assert InTime(s.made, s.log[k].inst, s.log[k].source);
      }
    }
  }

  lemma TickSafe(s: Sys, span: nat)
    requires Safe(s)
    ensures Safe(s.(now := s.now + span))
  {
    var t := s.(now := s.now + span);
    hide Keepable, InTime;
    forall c | c in t.calls ensures SafePc(t.made, t.now, t.calls[c]) {
      assert SafePc(s.made, s.now, s.calls[c]);
    }
  }

  lemma StepSafe(kind: Kind, s: Sys, e: Event)
    requires Safe(s)
    ensures Safe(Step(kind, s, e))
  {
    hide Safe, NextStep;
    match e
    case Tick(span) => TickSafe(s, span);
    case Insert(paste) => if paste.id !in s.rows { InsertSafe(s, paste); }
    case StartFetch(call, id) => GotoSafe(s, call, GetEntry(id));
    case StartDelete(call, id) => GotoSafe(s, call, DeleteRow(id));
    case Advance(call, fails) => if call in s.calls { NextStepSafe(kind, s, call, fails); }
    case Evict(id) => ForgetSafe(s, id, false);
  }

  lemma {:induction false} AlwaysSafe(kind: Kind, events: seq<Event>)
    ensures Safe(Exec(kind, events))
    decreases |events|
  {
    hide Step;
    if events != [] {
      AlwaysSafe(kind, events[..|events| - 1]);
      hide Safe;
      StepSafe(kind, Exec(kind, events[..|events| - 1]), events[|events| - 1]);
    }
  }

  /** Burn after reading, under any interleaving, with any cache and any failures: of all fetches over the whole run at
      most one returns a given burn-after-read paste. */
  lemma BurnAfterReading(kind: Kind, events: seq<Event>, j: nat, k: nat)
    requires j < k < |Exec(kind, events).log|
    ensures var s := Exec(kind, events);
            s.log[j].inst == s.log[k].inst ==> s.log[j].inst < |s.made| && !s.made[s.log[j].inst].oneShot
  {
    AlwaysSafe(kind, events);
  }

  /** Nor does any cache ever hold one, and once one was returned its row is gone. */
  lemma NeverCached(kind: Kind, events: seq<Event>)
    ensures var s := Exec(kind, events);
            && (forall id :: id in s.entries ==> s.entries[id].value < |s.made| && !s.made[s.entries[id].value].oneShot)
            && (forall k :: 0 <= k < |s.log| && s.log[k].inst < |s.made| && s.made[s.log[k].inst].oneShot ==>
                  s.log[k].inst !in s.rows.Values)
  {
    AlwaysSafe(kind, events);
  }

  /** Nothing is served from the cache at or after its own expiry, to the millisecond, even by a cache that ignores
      the time to live. */
  lemma NeverServedExpired(kind: Kind, events: seq<Event>, k: nat)
    requires k < |Exec(kind, events).log| && Exec(kind, events).log[k].source.FromCache?
    ensures var s := Exec(kind, events);
            && s.log[k].inst < |s.made|
            && var expiresAt := s.made[s.log[k].inst].expiresAt;
               expiresAt.Some? ==> s.log[k].source.checkedAt < SECOND * expiresAt.value
  {
    AlwaysSafe(kind, events);
  }

  /* ---------- bounded staleness ---------- */

  /** The last instant at which a paste was in the database; now, if it still is. */
  function LastSeen(s: Sys, inst: Instance): nat { if inst in s.removedAt then s.removedAt[inst] else s.now }

  /** Until when a paste may be found in the cache, if entries are set within `d` of reading the row. */
  function StaleUntil(d: nat, s: Sys, inst: Instance): nat {
    LastSeen(s, inst) + SECOND * MAX_CACHE_TTL_SECS + if inst in s.removedAt then d else 0
  }

  predicate CurrentSource(d: nat, s: Sys, inst: Instance, source: Source) {
    source.FromCache? ==> source.gotAt < StaleUntil(d, s, inst)
  }

  predicate CurrentPc(d: nat, s: Sys, pc: Pc) {
    match pc
    case CheckEntry(_, inst, gotAt) => gotAt < StaleUntil(d, s, inst)
    case CheckRow(_, inst, readAt) => readAt <= LastSeen(s, inst)
    case ComputeTtl(_, inst, readAt) => readAt <= LastSeen(s, inst)
    case SetEntry(_, inst, ttl, readAt) => readAt <= LastSeen(s, inst) && 0 < ttl <= MAX_CACHE_TTL_SECS
    case Record(inst, source) => CurrentSource(d, s, inst, source)
    case _ => true
  }

  predicate CurrentEntry(d: nat, s: Sys, e: Entry<Instance>) {
    e.deadline.Some? && e.deadline.value <= StaleUntil(d, s, e.value)
  }

  predicate Current(d: nat, s: Sys) {
    && (forall id :: id in s.entries ==> CurrentEntry(d, s, s.entries[id]))
    && (forall c :: c in s.calls ==> CurrentPc(d, s, s.calls[c]))
    && (forall k :: 0 <= k < |s.log| ==> CurrentSource(d, s, s.log[k].inst, s.log[k].source))
  }

  /** Time passing and rows going only ever extend these bounds. */
  ghost predicate Extends(d: nat, s: Sys, t: Sys) {
    forall inst: Instance :: LastSeen(s, inst) <= LastSeen(t, inst) && StaleUntil(d, s, inst) <= StaleUntil(d, t, inst)
  }

  /** What was current and what is added now stays current. */
  lemma StaysCurrent(d: nat, s: Sys, t: Sys)
    requires Current(d, s) && Extends(d, s, t)
    requires forall id :: id in t.entries ==>
               (id in s.entries && t.entries[id] == s.entries[id]) || CurrentEntry(d, s, t.entries[id])
    requires forall c :: c in t.calls ==> (c in s.calls && t.calls[c] == s.calls[c]) || CurrentPc(d, s, t.calls[c])
    requires forall k :: 0 <= k < |t.log| ==>
               (k < |s.log| && t.log[k] == s.log[k]) || CurrentSource(d, s, t.log[k].inst, t.log[k].source)
    ensures Current(d, t)
  {
    hide StaleUntil, LastSeen;
    forall c | c in t.calls ensures CurrentPc(d, t, t.calls[c]) {
      assert CurrentPc(d, s, t.calls[c]);
    }
  }

  lemma StepExtends(d: nat, kind: Kind, s: Sys, e: Event)
    requires SafeRows(s)
    ensures Extends(d, s, Step(kind, s, e))
  {
    if e.Advance? && e.call in s.calls {
      EffectExtends(d, kind, s, s.calls[e.call], e.fails);
    }
  }

  lemma EffectExtends(d: nat, kind: Kind, s: Sys, pc: Pc, fails: bool)
    requires SafeRows(s)
    ensures Extends(d, s, Effect(kind, s, pc, fails))
  {
  }

  /** The set of a fetch follows its read of the row within `d`. */
  predicate Prompt(d: nat, s: Sys, e: Event) {
    e.Advance? && e.call in s.calls && s.calls[e.call].SetEntry? ==> s.now <= s.calls[e.call].readAt + d
  }

  predicate PromptRun(kind: Kind, d: nat, events: seq<Event>) {
    events == [] ||
      var before := events[..|events| - 1];
      PromptRun(kind, d, before) && Prompt(d, Exec(kind, before), events[|events| - 1])
  }

  lemma ThenCurrent(d: nat, s: Sys, pc: Pc, fails: bool)
    requires Current(d, s) && CurrentPc(d, s, pc) && SafeRows(s)
    ensures Then(Redis, s, pc, fails).Goes? ==> CurrentPc(d, s, Then(Redis, s, pc, fails).pc)
  {
    match pc
    case GetEntry(id) => if Found(Redis, s, id) { assert CurrentEntry(d, s, s.entries[id]); }
    case _ =>
  }

  lemma EffectCurrent(d: nat, s: Sys, pc: Pc, fails: bool)
    requires Current(d, s) && CurrentPc(d, s, pc) && (pc.SetEntry? ==> s.now <= pc.readAt + d)
    ensures var t := Effect(Redis, s, pc, fails);
            && t.calls == s.calls
            && (forall id :: id in t.entries ==>
                  (id in s.entries && t.entries[id] == s.entries[id]) || CurrentEntry(d, s, t.entries[id]))
            && (forall k :: 0 <= k < |t.log| ==>
                  (k < |s.log| && t.log[k] == s.log[k]) || CurrentSource(d, s, t.log[k].inst, t.log[k].source))
  {
  }

  lemma StepCurrent(d: nat, s: Sys, e: Event)
    requires Current(d, s) && Prompt(d, s, e) && SafeRows(s)
    ensures Current(d, Step(Redis, s, e))
  {
    var t := Step(Redis, s, e);
    StepExtends(d, Redis, s, e);
    if e.Advance? && e.call in s.calls {
      var pc := s.calls[e.call];
      assert CurrentPc(d, s, pc);
      ThenCurrent(d, s, pc, e.fails);
      EffectCurrent(d, s, pc, e.fails);
      hide Current, Extends, CurrentPc, CurrentEntry, CurrentSource, Effect, Then, SafeRows;
      StaysCurrent(d, s, t);
    } else {
      hide Current, Extends, CurrentEntry, CurrentSource, NextStep;
      StaysCurrent(d, s, t);
    }
  }

  lemma {:induction false} AlwaysCurrent(d: nat, events: seq<Event>)
    requires PromptRun(Redis, d, events)
    ensures Current(d, Exec(Redis, events))
    decreases |events|
  {
    hide Step, Prompt;
    if events != [] {
      var n := |events| - 1;
      AlwaysCurrent(d, events[..n]);
      AlwaysSafe(Redis, events[..n]);
      hide Current;
      StepCurrent(d, Exec(Redis, events[..n]), events[n]);
    }
  }

  /** Bounded staleness, under any interleaving and any failures, lost invalidations included: with a cache that honours
      the time to live, and sets that follow their reads within `d`, a removed paste is found in the cache only before
      its removal plus `d` plus 300 seconds; and a fetch that returns within `r` of finding it returns it only before
      `r` after that. */
  lemma BoundedStaleness(d: nat, r: nat, events: seq<Event>, k: nat)
    requires PromptRun(Redis, d, events)
    requires var s := Exec(Redis, events); k < |s.log| && s.log[k].source.FromCache? && s.log[k].inst in s.removedAt
    ensures var s := Exec(Redis, events);
            var removed := s.removedAt[s.log[k].inst];
            && s.log[k].source.gotAt < removed + d + SECOND * MAX_CACHE_TTL_SECS
            && (s.log[k].at <= s.log[k].source.gotAt + r ==>
                  s.log[k].at < removed + d + r + SECOND * MAX_CACHE_TTL_SECS)
  {
    AlwaysCurrent(d, events);
  }

  /* ---------- the bound is exact ---------- */

  predicate Reaches(d: nat, events: seq<Event>, s: Sys) { PromptRun(Redis, d, events) && Exec(Redis, events) == s }

  lemma Go(d: nat, events: seq<Event>, s: Sys, e: Event, t: Sys) returns (more: seq<Event>)
    requires Reaches(d, events, s) && Prompt(d, s, e) && Step(Redis, s, e) == t
    ensures Reaches(d, more, t)
  {
    hide Step, Prompt;
    more := events + [e];
    assert more[..|events|] == events;
  }

  /** A step that only moves a call on. */
  lemma GoOn(d: nat, events: seq<Event>, s: Sys, call: nat, pc: Pc, next: Pc) returns (more: seq<Event>)
    requires Reaches(d, events, Goto(s, call, pc)) && !pc.SetEntry?
    requires var t := Goto(s, call, pc); Effect(Redis, t, pc, false) == t && Then(Redis, t, pc, false) == Goes(next)
    ensures Reaches(d, more, Goto(s, call, next))
  {
    hide Reaches, Effect, Then;
    assert s.calls[call := pc][call := next] == s.calls[call := next];
    more := Go(d, events, Goto(s, call, pc), Advance(call, false), Goto(s, call, next));
  }

  function Posted(p: Paste): Sys { Sys(0, map[p.id := 0], map[], map[], [p], map[], [], []) }

  lemma RowRead(d: nat, p: Paste) returns (events: seq<Event>)
    ensures Reaches(d, events, Goto(Posted(p), 1, CheckRow(p.id, 0, 0)))
  {
    assert Reaches(d, [], Init());
    hide Reaches;
    events := Go(d, [], Init(), Insert(p), Posted(p));
    events := Go(d, events, Posted(p), StartFetch(1, p.id), Goto(Posted(p), 1, GetEntry(p.id)));
    hide Step, NextStep;
    events := GoOn(d, events, Posted(p), 1, GetEntry(p.id), GetRow(p.id));
    events := GoOn(d, events, Posted(p), 1, GetRow(p.id), CheckRow(p.id, 0, 0));
  }

  /** A fetch has read the row and is about to set the cache. */
  lemma AboutToSet(d: nat, p: Paste) returns (events: seq<Event>)
    requires !p.oneShot && p.expiresAt.None?
    ensures Reaches(d, events, Goto(Posted(p), 1, SetEntry(p.id, 0, 300, 0)))
  {
    hide Reaches;
    events := RowRead(d, p);
    assert Posted(p).made[0] == p;
    events := GoOn(d, events, Posted(p), 1, CheckRow(p.id, 0, 0), ComputeTtl(p.id, 0, 0));
    events := GoOn(d, events, Posted(p), 1, ComputeTtl(p.id, 0, 0), SetEntry(p.id, 0, 300, 0));
  }

  /** The paste was deleted while the fetch was about to set the cache. */
  function Deleted(p: Paste, now: nat, endings: seq<Ending>): Sys {
    Sys(now, map[], map[], map[1 := SetEntry(p.id, 0, 300, 0)], [p], map[0 := 0], [], endings)
  }

  /** The set arrived after `d` seconds. */
  function Stale(d: nat, p: Paste, now: nat, log: seq<Serve>): Sys {
    var entry := Entry(0, Some(d + SECOND * 300));
    var endings := [Erased] + seq(|log|, i requires 0 <= i < |log| => Returned(log[i].inst));
    Sys(now, map[], map[p.id := entry], map[1 := Record(0, FromRow(0))], [p], map[0 := 0], log, endings)
  }

  /** Meanwhile the paste is deleted, database and cache; then, `d` seconds after the read, the set arrives. */
  lemma SetAfterDelete(d: nat, p: Paste) returns (events: seq<Event>)
    requires !p.oneShot && p.expiresAt.None?
    ensures Reaches(d, events, Stale(d, p, d, []))
  {
    hide Reaches;
    events := AboutToSet(d, p);
    var s, erase := Goto(Posted(p), 1, SetEntry(p.id, 0, 300, 0)), Advance(2, false);
    events := Go(d, events, s, StartDelete(2, p.id), Goto(s, 2, DeleteRow(p.id)));
    var forget := Goto(Deleted(p, 0, []), 2, DeleteEntry(p.id, true));
    events := Go(d, events, Goto(s, 2, DeleteRow(p.id)), erase, forget);
    events := Go(d, events, forget, erase, Deleted(p, 0, [Erased]));
    events := Go(d, events, Deleted(p, 0, [Erased]), Tick(d), Deleted(p, d, [Erased]));
    events := Go(d, events, Deleted(p, d, [Erased]), Advance(1, false), Stale(d, p, d, []));
  }

  /** The bound cannot be improved: for every `d` some run serves a paste from the cache in the last second that the
      bound allows, although its deletion has long succeeded. */
  lemma StalenessIsTight(d: nat, p: Paste) returns (events: seq<Event>)
    requires !p.oneShot && p.expiresAt.None?
    ensures PromptRun(Redis, d, events)
    ensures var s := Exec(Redis, events);
            && |s.log| == 1 && s.log[0].inst == 0 && s.log[0].source.FromCache? && 0 in s.removedAt
            && s.log[0].at == s.log[0].source.gotAt == s.removedAt[0] + d + SECOND * MAX_CACHE_TTL_SECS - 1
  {
    hide Exec, PromptRun;
    var late, hit := d + (SECOND * 300 - 1), FromCache(d + (SECOND * 300 - 1), d + (SECOND * 300 - 1));
    var s := Stale(d, p, late, []);
    events := SetAfterDelete(d, p);
    events := Go(d, events, Stale(d, p, d, []), Tick(SECOND * 300 - 1), s);
    events := Go(d, events, s, StartFetch(3, p.id), Goto(s, 3, GetEntry(p.id)));
    events := LastSteps(d, p, events);
  }

  lemma LastSteps(d: nat, p: Paste, events: seq<Event>) returns (more: seq<Event>)
    requires p.expiresAt.None? && Reaches(d, events, Goto(Stale(d, p, d + (SECOND * 300 - 1), []), 3, GetEntry(p.id)))
    ensures var late := d + (SECOND * 300 - 1);
            Reaches(d, more, Stale(d, p, late, [Serve(0, FromCache(late, late), late)]))
  {
    hide Reaches;
    var late, hit := d + (SECOND * 300 - 1), FromCache(d + (SECOND * 300 - 1), d + (SECOND * 300 - 1));
    var s := Stale(d, p, late, []);
    more := GoOn(d, events, s, 3, GetEntry(p.id), CheckEntry(p.id, 0, late));
    more := GoOn(d, more, s, 3, CheckEntry(p.id, 0, late), Record(0, hit));
    more := Go(d, more, Goto(s, 3, Record(0, hit)), Advance(3, false), Stale(d, p, late, [Serve(0, hit, late)]));
  }
}
