/** Concurrent `LinkService` calls, cut at every await: each cache or repository call is one step, and the steps of
    different calls interleave in any order. Unlike a paste, a cached target carries no expiry to check again. */
module LinkRaces {
  import opened Options
  import opened CacheAside
  import Links

  type Link = Links.Link

  /** Each insert makes a new link, numbered by its place in `made`. The cache holds targets; that an entry also knows
      which link its target came from is bookkeeping that no step looks at. Hits are not tracked here. */
  type Instance = nat

  /** How a redirect came by its target, with the times of the steps that decided it. */
  datatype Source = FromCache(gotAt: nat) | FromRow(readAt: nat, checkedAt: nat)

  datatype Redirect = Redirect(code: Key, inst: Instance, source: Source, at: nat)

  /** Where a call stands: the step it does next. */
  datatype Pc =
    | GetEntry(code: Key)                                            // resolve: look in the cache
    | GetRow(code: Key)                                              // look in the database
    | CheckRow(code: Key, inst: Instance, readAt: nat)               // has the row expired?
    | Purge(code: Key) | PurgeEntry(code: Key)                       // if so, purge both
    | ComputeTtl(code: Key, inst: Instance, readAt: nat, checkedAt: nat)
    | SetEntry(code: Key, inst: Instance, ttl: nat, readAt: nat, checkedAt: nat)
    | Record(code: Key, inst: Instance, source: Source)              // count the hit and redirect
    | ReadRow(code: Key) | TestRow(code: Key, inst: Instance)        // get: look in the database, has it expired?
    | DropRow(code: Key)                                             // if so, purge the row alone
    | DeleteRow(code: Key) | DeleteEntry(code: Key, erased: bool)    // delete: database first, then cache

  /** How a call ends: with a redirect, with a link shown, with nothing under this code, a delete that found its link, a
      failed backend. */
  datatype Ending = Redirected(inst: Instance) | Displayed(inst: Instance) | NotThere | Erased | NoBackend

  datatype Next = Goes(pc: Pc) | Answers(ending: Ending)

  datatype Sys = Sys(
    now: nat, rows: map<Key, Instance>, entries: Entries<Instance>, calls: map<nat, Pc>,
    /* bookkeeping of the specification */
    made: seq<Link>, removedAt: map<Instance, nat>, log: seq<Redirect>, endings: seq<Ending>)

  function Init(): Sys { Sys(0, map[], map[], map[], [], map[], [], []) }

  datatype Event =
    | Tick(span: nat)
    | Insert(link: Link)                       // the insert of a `create`
    | Start(call: nat, pc: Pc)                 // a resolve, a get or a delete, from its first step
    | Advance(call: nat, fails: bool)          // the call's next step; its backend may fail
    | Evict(code: Key)                         // the cache forgets an entry

  predicate FirstStep(pc: Pc) { pc.GetEntry? || pc.ReadRow? || pc.DeleteRow? }

  function Goto(s: Sys, call: nat, pc: Pc): Sys { s.(calls := s.calls[call := pc]) }
  function Ended(s: Sys, ending: Ending): Sys { s.(endings := s.endings + [ending]) }
  function End(s: Sys, call: nat, ending: Ending): Sys { Ended(s, ending).(calls := s.calls - {call}) }

  function WithoutRow(s: Sys, code: Key): Sys {
    if code in s.rows then s.(rows := s.rows - {code}, removedAt := s.removedAt[s.rows[code] := s.now]) else s
  }

  function Expiry(s: Sys, inst: Instance): Option<int> { if inst < |s.made| then s.made[inst].expiresAt else None }

  predicate Expired(s: Sys, inst: Instance) { IsExpired(Expiry(s, inst), Seconds(s.now)) }

  /** The entry a get would find. */
  predicate Found(kind: Kind, s: Sys, code: Key) {
    !kind.NoOp? && code in s.entries && Live(kind, s.entries[code], s.now)
  }

  /** What the step does to the cache, the database and the log. */
  function Effect(kind: Kind, s: Sys, pc: Pc, fails: bool): Sys {
    match pc
    case PurgeEntry(code) => s.(entries := WithoutEntry(s.entries, code, fails))
    case DeleteEntry(code, _) => s.(entries := WithoutEntry(s.entries, code, fails))
    case SetEntry(code, inst, ttl, _, _) =>
      s.(entries := WithEntry(kind, s.entries, code, inst, ttl, s.now, fails))
    case Purge(code) => if fails then s else WithoutRow(s, code)
    case DropRow(code) => if fails then s else WithoutRow(s, code)
    case DeleteRow(code) => if fails then s else WithoutRow(s, code)
    case Record(code, inst, source) => s.(log := s.log + [Redirect(code, inst, source, s.now)])
    case _ => s
  }

  /** Where the call goes from there, or how it ends. */
  function Then(kind: Kind, s: Sys, pc: Pc, fails: bool): Next {
    match pc
    case GetEntry(code) =>
      if Found(kind, s, code) && !fails then Goes(Record(code, s.entries[code].value, FromCache(s.now)))
      else Goes(GetRow(code))
    case GetRow(code) =>
      if fails then Answers(NoBackend)
      else if code !in s.rows then Answers(NotThere)
      else Goes(CheckRow(code, s.rows[code], s.now))
    case CheckRow(code, inst, readAt) =>
      Goes(if Expired(s, inst) then Purge(code) else ComputeTtl(code, inst, readAt, s.now))
    case Purge(code) => Goes(PurgeEntry(code))
    case PurgeEntry(_) => Answers(NotThere)
    case ComputeTtl(code, inst, readAt, checkedAt) =>
      var ttl := CacheTtl(Expiry(s, inst), Seconds(s.now));
      Goes(if ttl > 0 then SetEntry(code, inst, ttl, readAt, checkedAt)
           else Record(code, inst, FromRow(readAt, checkedAt)))
    case SetEntry(code, inst, _, readAt, checkedAt) => Goes(Record(code, inst, FromRow(readAt, checkedAt)))
    case Record(_, inst, _) => Answers(Redirected(inst))
    case ReadRow(code) =>
      if fails then Answers(NoBackend)
      else if code !in s.rows then Answers(NotThere)
      else Goes(TestRow(code, s.rows[code]))
    case TestRow(code, inst) => if Expired(s, inst) then Goes(DropRow(code)) else Answers(Displayed(inst))
    case DropRow(_) => Answers(NotThere)
    case DeleteRow(code) => if fails then Answers(NoBackend) else Goes(DeleteEntry(code, code in s.rows))
    case DeleteEntry(_, erased) => Answers(if erased then Erased else NotThere)
  }

  function NextStep(kind: Kind, s: Sys, call: nat, fails: bool): Sys
    requires call in s.calls
  {
    var pc := s.calls[call];
    var t := Effect(kind, s, pc, fails);
    match Then(kind, s, pc, fails)
    case Answers(ending) => End(t, call, ending)
    case Goes(next) => Goto(t, call, next)
  }

  /** An event that cannot happen now changes nothing. */
  function Step(kind: Kind, s: Sys, e: Event): Sys {
    match e
    case Tick(span) => s.(now := s.now + span)
    case Insert(link) =>
      if link.code in s.rows then s else s.(rows := s.rows[link.code := |s.made|], made := s.made + [link])
    case Start(call, pc) => if call in s.calls || !FirstStep(pc) then s else Goto(s, call, pc)
    case Advance(call, fails) => if call in s.calls then NextStep(kind, s, call, fails) else s
    case Evict(code) => s.(entries := WithoutEntry(s.entries, code, false))
  }

  function Exec(kind: Kind, events: seq<Event>): Sys {
    if events == [] then Init() else Step(kind, Exec(kind, events[..|events| - 1]), events[|events| - 1])
  }

  /* ---------- what every interleaving keeps ---------- */

  /** The last instant at which a link was in the database; now, if it still is. */
  function LastSeen(s: Sys, inst: Instance): nat { if inst in s.removedAt then s.removedAt[inst] else s.now }

  /** If entries are set within `d` of reading the row, an entry for this link may be live up to `t`. */
  predicate Within(d: nat, s: Sys, inst: Instance, t: nat) {
    && t <= LastSeen(s, inst) + SECOND * MAX_CACHE_TTL_SECS + (if inst in s.removedAt then d else 0)
    && match Expiry(s, inst) case None => true case Some(e) => t < SECOND * (e + 1) + d
  }

  predicate Known(s: Sys, code: Key, inst: Instance) { inst < |s.made| && s.made[inst].code == code }

  /** The row was there when it was read, and had not expired when it was checked. */
  predicate Checked(s: Sys, inst: Instance, readAt: nat, checkedAt: nat) {
    && readAt <= LastSeen(s, inst) && readAt <= checkedAt <= s.now
    && match Expiry(s, inst) case None => true case Some(e) => checkedAt < SECOND * e
  }

  predicate GoodSource(d: nat, s: Sys, inst: Instance, source: Source) {
    match source
    case FromCache(gotAt) => Within(d, s, inst, gotAt + 1)
    case FromRow(readAt, checkedAt) => Checked(s, inst, readAt, checkedAt)
  }

  predicate GoodPc(d: nat, s: Sys, pc: Pc) {
    match pc
    case CheckRow(code, inst, readAt) => Known(s, code, inst) && readAt <= LastSeen(s, inst) && readAt <= s.now
    case ComputeTtl(code, inst, readAt, checkedAt) => Known(s, code, inst) && Checked(s, inst, readAt, checkedAt)
    case SetEntry(code, inst, ttl, readAt, checkedAt) =>
      && Known(s, code, inst) && Checked(s, inst, readAt, checkedAt) && 0 < ttl <= MAX_CACHE_TTL_SECS
      && (match Expiry(s, inst) case None => true case Some(e) => readAt + SECOND * ttl < SECOND * (e + 1))
    case Record(code, inst, source) => Known(s, code, inst) && GoodSource(d, s, inst, source)
    case TestRow(code, inst) => Known(s, code, inst)
    case _ => true
  }

  predicate GoodEntry(d: nat, s: Sys, code: Key, e: Entry<Instance>) {
    Known(s, code, e.value) && e.deadline.Some? && Within(d, s, e.value, e.deadline.value)
  }

  predicate GoodRedirect(d: nat, s: Sys, r: Redirect) {
    Known(s, r.code, r.inst) && GoodSource(d, s, r.inst, r.source)
  }

  predicate GoodRows(s: Sys) {
    && (forall code :: code in s.rows ==> Known(s, code, s.rows[code]) && s.rows[code] !in s.removedAt)
    && (forall inst :: inst in s.removedAt ==> inst < |s.made| && s.removedAt[inst] <= s.now)
  }

  predicate Good(d: nat, s: Sys) {
    && GoodRows(s)
    && (forall code :: code in s.entries ==> GoodEntry(d, s, code, s.entries[code]))
    && (forall c :: c in s.calls ==> GoodPc(d, s, s.calls[c]))
    && (forall k :: 0 <= k < |s.log| ==> GoodRedirect(d, s, s.log[k]))
  }

  /** Time passing, links made and rows going only ever extend what is good. */
  predicate Extends(s: Sys, t: Sys) {
    && s.now <= t.now && |s.made| <= |t.made| && t.made[..|s.made|] == s.made
    && (forall inst :: inst in s.removedAt ==> inst in t.removedAt && t.removedAt[inst] == s.removedAt[inst])
    && (forall inst :: inst in t.removedAt && inst !in s.removedAt ==> s.now <= t.removedAt[inst])
  }

  lemma StillKnown(s: Sys, t: Sys, code: Key, inst: Instance)
    requires Extends(s, t) && Known(s, code, inst)
    ensures Known(t, code, inst) && Expiry(t, inst) == Expiry(s, inst) && LastSeen(s, inst) <= LastSeen(t, inst)
  {
    assert t.made[..|s.made|][inst] == t.made[inst];
  }

  lemma PcStays(d: nat, s: Sys, t: Sys, pc: Pc)
    requires Extends(s, t) && GoodPc(d, s, pc)
    ensures GoodPc(d, t, pc)
  {
    forall code, inst | Known(s, code, inst) { StillKnown(s, t, code, inst); }
    hide Known, Expiry;
  }

  lemma EntryStays(d: nat, s: Sys, t: Sys, code: Key, e: Entry<Instance>)
    requires Extends(s, t) && GoodEntry(d, s, code, e)
    ensures GoodEntry(d, t, code, e)
  {
    StillKnown(s, t, code, e.value);
    hide Known, Expiry;
  }

  lemma RedirectStays(d: nat, s: Sys, t: Sys, r: Redirect)
    requires Extends(s, t) && GoodRedirect(d, s, r)
    ensures GoodRedirect(d, t, r)
  {
    StillKnown(s, t, r.code, r.inst);
    hide Known, Expiry;
  }

  /** What was good and what is added now stays good. */
  lemma StaysGood(d: nat, s: Sys, t: Sys)
    requires Good(d, s) && Extends(s, t) && GoodRows(t)
    requires forall code :: code in t.entries ==>
               (code in s.entries && t.entries[code] == s.entries[code]) || GoodEntry(d, s, code, t.entries[code])
    requires forall c :: c in t.calls ==> (c in s.calls && t.calls[c] == s.calls[c]) || GoodPc(d, s, t.calls[c])
    requires forall k :: 0 <= k < |t.log| ==> (k < |s.log| && t.log[k] == s.log[k]) || GoodRedirect(d, s, t.log[k])
    ensures Good(d, t)
  {
    hide Extends, GoodRows, GoodEntry, GoodPc, GoodRedirect;
    forall code | code in t.entries ensures GoodEntry(d, t, code, t.entries[code]) {
      EntryStays(d, s, t, code, t.entries[code]);
    }
    forall c | c in t.calls ensures GoodPc(d, t, t.calls[c]) {
      PcStays(d, s, t, t.calls[c]);
    }
    forall k | 0 <= k < |t.log| ensures GoodRedirect(d, t, t.log[k]) {
      RedirectStays(d, s, t, t.log[k]);
    }
  }

  /** The set of a resolve follows its read of the row within `d`. */
  predicate Prompt(d: nat, s: Sys, e: Event) {
    e.Advance? && e.call in s.calls && s.calls[e.call].SetEntry? ==> s.now <= s.calls[e.call].readAt + d
  }

  predicate PromptRun(kind: Kind, d: nat, events: seq<Event>) {
    events == [] ||
      var before := events[..|events| - 1];
      PromptRun(kind, d, before) && Prompt(d, Exec(kind, before), events[|events| - 1])
  }

  lemma ThenGood(d: nat, s: Sys, pc: Pc, fails: bool)
    requires Good(d, s) && GoodPc(d, s, pc)
    ensures Then(Redis, s, pc, fails).Goes? ==> GoodPc(d, s, Then(Redis, s, pc, fails).pc)
  {
    match pc
    case GetEntry(code) => if Found(Redis, s, code) { assert GoodEntry(d, s, code, s.entries[code]); }
    case ComputeTtl(code, inst, readAt, checkedAt) => TtlFits(Expiry(s, inst), readAt, s.now);
    case _ =>
  }

  /** The time to live is what is left in whole seconds; up to a second less may really be left. */
  lemma TtlFits(expiresAt: Option<int>, readAt: nat, now: nat)
    requires readAt <= now
    ensures expiresAt.Some? && CacheTtl(expiresAt, Seconds(now)) > 0 ==>
              readAt + SECOND * CacheTtl(expiresAt, Seconds(now)) < SECOND * (expiresAt.value + 1)
  {
    hide Seconds;
  }

  /** The time to live is set less than `d` after the row was read. */
  lemma SetGood(d: nat, s: Sys, pc: Pc)
    requires GoodRows(s) && GoodPc(d, s, pc) && pc.SetEntry? && s.now <= pc.readAt + d
    ensures GoodEntry(d, s, pc.code, Entry(pc.inst, DeadlineOf(s.now, pc.ttl)))
  {
  }

  lemma EffectGood(d: nat, s: Sys, pc: Pc, fails: bool)
    requires Good(d, s) && GoodPc(d, s, pc) && (pc.SetEntry? ==> s.now <= pc.readAt + d)
    ensures var t := Effect(Redis, s, pc, fails);
            && t.calls == s.calls && Extends(s, t) && GoodRows(t)
            && (forall code :: code in t.entries ==>
                  (code in s.entries && t.entries[code] == s.entries[code]) || GoodEntry(d, s, code, t.entries[code]))
            && (forall k :: 0 <= k < |t.log| ==>
                  (k < |s.log| && t.log[k] == s.log[k]) || GoodRedirect(d, s, t.log[k]))
  {
    if pc.SetEntry? {
      SetGood(d, s, pc);
    }
    hide Within, Checked, DeadlineOf, GoodEntry;
  }

  lemma NextStepGood(d: nat, s: Sys, call: nat, fails: bool)
    requires Good(d, s) && call in s.calls && Prompt(d, s, Advance(call, fails))
    ensures Good(d, NextStep(Redis, s, call, fails))
  {
    var pc := s.calls[call];
    assert GoodPc(d, s, pc);
    ThenGood(d, s, pc, fails);
    EffectGood(d, s, pc, fails);
    hide Good, GoodRows, Extends, GoodEntry, GoodRedirect, GoodPc, Effect, Then, Known;
    SameTime(s, Effect(Redis, s, pc, fails), NextStep(Redis, s, call, fails));
    StaysGood(d, s, NextStep(Redis, s, call, fails));
  }

  lemma SameTime(s: Sys, t: Sys, u: Sys)
    requires Extends(s, t) && GoodRows(t) && u == t.(calls := u.calls, endings := u.endings)
    ensures Extends(s, u) && GoodRows(u)
  {
  }

  lemma StepGood(d: nat, s: Sys, e: Event)
    requires Good(d, s) && Prompt(d, s, e)
    ensures Good(d, Step(Redis, s, e))
  {
    if e.Advance? && e.call in s.calls {
      hide Good, Prompt, NextStep;
      NextStepGood(d, s, e.call, e.fails);
    } else {
      OtherExtends(s, e);
      hide GoodRows, Extends, NextStep, GoodEntry, GoodRedirect;
      StaysGood(d, s, Step(Redis, s, e));
    }
  }

  lemma OtherExtends(s: Sys, e: Event)
    requires GoodRows(s) && !(e.Advance? && e.call in s.calls)
    ensures Extends(s, Step(Redis, s, e)) && GoodRows(Step(Redis, s, e))
  {
  }

  lemma {:induction false} AlwaysGood(d: nat, events: seq<Event>)
    requires PromptRun(Redis, d, events)
    ensures Good(d, Exec(Redis, events))
    decreases |events|
  {
    hide Step, Prompt;
    if events != [] {
      var n := |events| - 1;
      AlwaysGood(d, events[..n]);
      hide Good;
      StepGood(d, Exec(Redis, events[..n]), events[n]);
    }
  }

  /** Under any interleaving and any failures, lost invalidations included, with a cache that honours the time to live
      and sets that follow their reads within `d`: a redirect goes to a target that was made under its code. Taken from
      the cache, it was found there before the removal of its link plus `d` plus 300 seconds, and before the expiry plus
      `d` plus a second; a resolve that returns within `r` of finding it does so less than `r` after that. Taken from
      the database, it was read before the removal and checked before the expiry. */
  lemma BoundedRedirects(d: nat, r: nat, events: seq<Event>, k: nat)
    requires PromptRun(Redis, d, events) && k < |Exec(Redis, events).log|
    ensures var s := Exec(Redis, events);
            var last := s.log[k];
            && last.inst < |s.made| && s.made[last.inst].code == last.code
            && var removed, expiresAt := last.inst in s.removedAt, s.made[last.inst].expiresAt;
               match last.source
               case FromCache(gotAt) =>
                 && (removed ==> gotAt < s.removedAt[last.inst] + d + SECOND * MAX_CACHE_TTL_SECS)
                 && (expiresAt.Some? ==> gotAt + 1 < SECOND * (expiresAt.value + 1) + d)
                 && (last.at <= gotAt + r ==>
                       && (removed ==> last.at < s.removedAt[last.inst] + d + r + SECOND * MAX_CACHE_TTL_SECS)
                       && (expiresAt.Some? ==> last.at + 1 < SECOND * (expiresAt.value + 1) + d + r))
               case FromRow(readAt, checkedAt) =>
                 && (removed ==> readAt <= s.removedAt[last.inst])
                 && (expiresAt.Some? ==> readAt <= checkedAt < SECOND * expiresAt.value)
  {
    AlwaysGood(d, events);
    hide Exec, PromptRun;
    assert GoodRedirect(d, Exec(Redis, events), Exec(Redis, events).log[k]);
  }

  /* ---------- both bounds are exact ---------- */

  predicate Reaches(d: nat, events: seq<Event>, s: Sys) { PromptRun(Redis, d, events) && Exec(Redis, events) == s }

  lemma Go(d: nat, events: seq<Event>, s: Sys, e: Event, t: Sys) returns (more: seq<Event>)
    requires Reaches(d, events, s) && Prompt(d, s, e) && Step(Redis, s, e) == t
    ensures Reaches(d, more, t)
  {
    hide Step, Prompt;
    more := events + [e];
    assert more[..|events|] == events;
  }

  /** A step that only moves a call on. */
  lemma GoOn(d: nat, events: seq<Event>, s: Sys, call: nat, pc: Pc, next: Pc) returns (more: seq<Event>)
    requires Reaches(d, events, Goto(s, call, pc)) && !pc.SetEntry?
    requires var t := Goto(s, call, pc); Effect(Redis, t, pc, false) == t && Then(Redis, t, pc, false) == Goes(next)
    ensures Reaches(d, more, Goto(s, call, next))
  {
    hide Reaches, Effect, Then;
    assert s.calls[call := pc][call := next] == s.calls[call := next];
    more := Go(d, events, Goto(s, call, pc), Advance(call, false), Goto(s, call, next));
  }

  /** The last millisecond of the first second. */
  const Early: nat := SECOND - 1

  function Made(p: Link, now: nat): Sys { Sys(now, map[p.code := 0], map[], map[], [p], map[], [], []) }

  function Setting(p: Link): Pc { SetEntry(p.code, 0, MAX_CACHE_TTL_SECS, Early, Early) }

  lemma RowRead(d: nat, p: Link) returns (events: seq<Event>)
    ensures Reaches(d, events, Goto(Made(p, Early), 1, CheckRow(p.code, 0, Early)))
  {
    assert Reaches(d, [], Init());
    hide Reaches;
    events := Go(d, [], Init(), Insert(p), Made(p, 0));
    events := Go(d, events, Made(p, 0), Tick(Early), Made(p, Early));
    var s := Made(p, Early);
    events := Go(d, events, s, Start(1, GetEntry(p.code)), Goto(s, 1, GetEntry(p.code)));
    hide Step, NextStep;
    events := GoOn(d, events, s, 1, GetEntry(p.code), GetRow(p.code));
    events := GoOn(d, events, s, 1, GetRow(p.code), CheckRow(p.code, 0, Early));
  }

  /** A resolve has read the row and is about to set the cache. */
  lemma AboutToSet(d: nat, p: Link) returns (events: seq<Event>)
    requires p.expiresAt == Some(MAX_CACHE_TTL_SECS)
    ensures Reaches(d, events, Goto(Made(p, Early), 1, Setting(p)))
  {
    hide Reaches;
    events := RowRead(d, p);
    var s := Made(p, Early);
    assert s.made[0] == p && Seconds(Early) == 0;
    events := GoOn(d, events, s, 1, CheckRow(p.code, 0, Early), ComputeTtl(p.code, 0, Early, Early));
    events := GoOn(d, events, s, 1, ComputeTtl(p.code, 0, Early, Early), Setting(p));
  }

  /** The link was deleted while the resolve was about to set the cache. */
  function Deleted(p: Link, now: nat, endings: seq<Ending>): Sys {
    Sys(now, map[], map[], map[1 := Setting(p)], [p], map[0 := Early], [], endings)
  }

  /** The set arrived after `d`. */
  function Stale(d: nat, p: Link, now: nat, log: seq<Redirect>): Sys {
    var entry := Entry(0, Some(Early + d + SECOND * MAX_CACHE_TTL_SECS));
    var endings := [Erased] + seq(|log|, i requires 0 <= i < |log| => Redirected(log[i].inst));
    Sys(now, map[], map[p.code := entry], map[1 := Record(p.code, 0, FromRow(Early, Early))], [p], map[0 := Early],
        log, endings)
  }

  /** Meanwhile the link is deleted, database and cache; then, `d` after the read, the set arrives. */
  lemma SetAfterDelete(d: nat, p: Link) returns (events: seq<Event>)
    requires p.expiresAt == Some(MAX_CACHE_TTL_SECS)
    ensures Reaches(d, events, Stale(d, p, Early + d, []))
  {
    hide Reaches;
    events := AboutToSet(d, p);
    var s, erase := Goto(Made(p, Early), 1, Setting(p)), Advance(2, false);
    var forget, gone := Goto(Deleted(p, Early, []), 2, DeleteEntry(p.code, true)), Deleted(p, Early, [Erased]);
    events := Go(d, events, s, Start(2, DeleteRow(p.code)), Goto(s, 2, DeleteRow(p.code)));
    events := Go(d, events, Goto(s, 2, DeleteRow(p.code)), erase, forget);
    events := Go(d, events, forget, erase, gone);
    events := Go(d, events, gone, Tick(d), Deleted(p, Early + d, [Erased]));
    events := Go(d, events, Deleted(p, Early + d, [Erased]), Advance(1, false), Stale(d, p, Early + d, []));
  }

  lemma LastSteps(d: nat, p: Link, events: seq<Event>) returns (more: seq<Event>)
    requires var late := Early + d + SECOND * MAX_CACHE_TTL_SECS - 1;
             Reaches(d, events, Goto(Stale(d, p, late, []), 3, GetEntry(p.code)))
    ensures var late := Early + d + SECOND * MAX_CACHE_TTL_SECS - 1;
            Reaches(d, more, Stale(d, p, late, [Redirect(p.code, 0, FromCache(late), late)]))
  {
    hide Reaches;
    var late := Early + d + SECOND * MAX_CACHE_TTL_SECS - 1;
    var s, record := Stale(d, p, late, []), Record(p.code, 0, FromCache(late));
    more := GoOn(d, events, s, 3, GetEntry(p.code), record);
    more := Go(d, more, Goto(s, 3, record), Advance(3, false),
        Stale(d, p, late, [Redirect(p.code, 0, FromCache(late), late)]));
  }

  /** Neither bound can be improved: for every `d` one run redirects in the last millisecond that both allow. */
  lemma BoundsAreTight(d: nat, p: Link) returns (events: seq<Event>)
    requires p.expiresAt == Some(MAX_CACHE_TTL_SECS)
    ensures PromptRun(Redis, d, events)
    ensures var s := Exec(Redis, events);
            && s.made == [p] && |s.log| == 1 && s.log[0].inst == 0 && s.log[0].source.FromCache? && 0 in s.removedAt
            && s.log[0].at == s.log[0].source.gotAt
            && s.log[0].at + 1 == s.removedAt[0] + d + SECOND * MAX_CACHE_TTL_SECS
            && s.log[0].at + 2 == SECOND * (p.expiresAt.value + 1) + d
  {
    hide Exec, PromptRun;
    var late := Early + d + SECOND * MAX_CACHE_TTL_SECS - 1;
    var s := Stale(d, p, late, []);
    events := SetAfterDelete(d, p);
    events := Go(d, events, Stale(d, p, Early + d, []), Tick(SECOND * MAX_CACHE_TTL_SECS - 1), s);
    events := Go(d, events, s, Start(3, GetEntry(p.code)), Goto(s, 3, GetEntry(p.code)));
    events := LastSteps(d, p, events);
  }
}
