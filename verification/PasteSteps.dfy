/** The steps of `PasteRaces` against the operations of `Pastes`: a call that is not interrupted does what the operation
    does. */
module PasteSteps {
  import opened Options
  import opened CacheAside
  import opened PasteRaces
  import Pastes

  /** Which of a call's steps fails, when the operation suffers these faults. */
  function Fails(pc: Pc, f: Pastes.Faults): bool {
    match pc
    case GetEntry(_) => f.miss
    case DropEntry(_) => f.deleteLost
    case GetRow(_) => f.readFails
    case Purge(_) => f.purgeFails
    case PurgeEntry(_) => f.deleteLost
    case Take(_) => f.takeFails
    case SetEntry(_, _, _, _) => f.setLost
    case DeleteRow(_) => f.deleteFails
    case DeleteEntry(_, _) => f.deleteLost
    case _ => false
  }

  /** How many steps a call has still to go. */
  function ToGo(pc: Pc): nat {
    match pc
    case GetEntry(_) => 8
    case CheckEntry(_, _, _) => 7
    case DropEntry(_) => 6
    case GetRow(_) => 5
    case CheckRow(_, _, _) => 4
    case ComputeTtl(_, _, _) => 3
    case SetEntry(_, _, _, _) => 2
    case Purge(_) => 2
    case DeleteRow(_) => 2
    case _ => 1
  }

  /** The call runs to its end while nothing else happens. */
  function Alone(kind: Kind, s: Sys, pc: Pc, f: Pastes.Faults): Sys
    decreases ToGo(pc)
  {
    var t := Effect(kind, s, pc, Fails(pc, f));
    match Then(kind, s, pc, Fails(pc, f))
    case Answers(ending) => Ended(t, ending)
    case Goes(next) => Alone(kind, t, next, f)
  }

  /** What the database and the cache hold, view counts aside. */
  function Blank(p: Pastes.Paste): Pastes.Paste { p.(views := 0) }

  function BlankStore(s: Pastes.Store): Pastes.Store {
    Pastes.Store(map id | id in s.rows :: Blank(s.rows[id]),
                 map id | id in s.entries :: Entry(Blank(s.entries[id].value), s.entries[id].deadline))
  }

  /** The paste an instance stands for; every instance in a safe state is known. */
  function PasteOf(s: Sys, inst: Instance): Pastes.Paste {
    if inst < |s.made| then Blank(s.made[inst]) else Pastes.Paste([], [], None, 0, None, false, 0)
  }

  function Abstract(s: Sys): Pastes.Store {
    Pastes.Store(map id | id in s.rows :: PasteOf(s, s.rows[id]),
                 map id | id in s.entries :: Entry(PasteOf(s, s.entries[id].value), s.entries[id].deadline))
  }

  /** The ending stands for the reply, view counts aside. */
  predicate Means(s: Sys, ending: Ending, reply: Pastes.Reply) {
    match ending
    case Returned(inst) => reply.Served? && PasteOf(s, inst) == Blank(reply.paste)
    case NotThere => reply == Pastes.Failed(Pastes.NotFound)
    case Erased => reply == Pastes.Removed
    case NoBackend => reply == Pastes.Failed(Pastes.Backend)
  }

  /** The call from `s` to `t` did what the operation did: same rows, same cache, same answer. */
  predicate Agrees(s: Sys, t: Sys, o: Pastes.Outcome) {
    && Abstract(t) == BlankStore(o.store)
    && |t.endings| == |s.endings| + 1 && t.endings[..|s.endings|] == s.endings
    && var ending := t.endings[|s.endings|];
       && Means(t, ending, o.reply)
       && if ending.Returned?
          then |t.log| == |s.log| + 1 && t.log[..|s.log|] == s.log && t.log[|s.log|].inst == ending.inst
          else t.log == s.log
  }

  predicate IsBlank(s: Pastes.Store) {
    && (forall id :: id in s.rows ==> s.rows[id].views == 0)
    && (forall id :: id in s.entries ==> s.entries[id].value.views == 0)
  }

  lemma BlankAlready(s: Pastes.Store)
    requires IsBlank(s)
    ensures BlankStore(s) == s
  {
  }

  lemma AbstractIsBlank(s: Sys)
    ensures IsBlank(Abstract(s)) && BlankStore(Abstract(s)) == Abstract(s)
  {
    BlankAlready(Abstract(s));
  }

  lemma AbstractWithoutRow(s: Sys, id: Key)
    ensures Abstract(WithoutRow(s, id)) == Abstract(s).(rows := Abstract(s).rows - {id})
  {
  }

  lemma AbstractForget(s: Sys, id: Key, lost: bool)
    ensures Abstract(ForgetEntry(s, id, lost)) == Abstract(s).(entries := WithoutEntry(Abstract(s).entries, id, lost))
  {
  }

  function Returning(s: Sys, inst: Instance, source: Source): Sys { Ended(Serving(s, inst, source), Returned(inst)) }

  lemma AbstractServing(s: Sys, inst: Instance, source: Source)
    ensures Abstract(Returning(s, inst, source)) == Abstract(s)
  {
  }

  lemma AbstractSet(kind: Kind, s: Sys, id: Key, inst: Instance, ttl: nat, fails: bool)
    ensures Abstract(s.(entries := WithEntry(kind, s.entries, id, inst, ttl, s.now, fails)))
         == Abstract(s).(entries := WithEntry(kind, Abstract(s).entries, id, PasteOf(s, inst), ttl, s.now, fails))
  {
  }

  /** Counting a view is invisible here. */
  lemma BlankCounted(s: Pastes.Store, id: Key, fails: bool)
    ensures BlankStore(s.(rows := Pastes.Counted(s.rows, id, fails))) == BlankStore(s)
  {
  }

  /* ---------- fetch ---------- */

  lemma ServedAlone(s: Sys, t: Sys, inst: Instance, source: Source, o: Pastes.Outcome)
    requires t.log == s.log && t.endings == s.endings && Abstract(t) == BlankStore(o.store)
    requires o.reply.Served? && PasteOf(t, inst) == Blank(o.reply.paste)
    ensures Agrees(s, Returning(t, inst, source), o)
  {
    AbstractServing(t, inst, source);
    assert PasteOf(Returning(t, inst, source), inst) == PasteOf(t, inst);
    hide Abstract, BlankStore, Blank, PasteOf;
  }

  /** A call that changed nothing but the cache and the rows, and fails. */
  lemma FailedAlone(s: Sys, t: Sys, ending: Ending, o: Pastes.Outcome)
    requires t.log == s.log && t.endings == s.endings && Abstract(t) == BlankStore(o.store)
    requires !ending.Returned? && Means(t, ending, o.reply)
    ensures Agrees(s, Ended(t, ending), o)
  {
    assert Abstract(Ended(t, ending)) == Abstract(t);
    hide Abstract, BlankStore;
  }

  /** The purge of an expired row. */
  lemma PurgeAlone(kind: Kind, s: Sys, id: Key, f: Pastes.Faults)
    ensures var a := Abstract(s);
            Agrees(s, Alone(kind, s, Purge(id), f),
                   Pastes.Outcome(Pastes.Store(if f.purgeFails then a.rows else a.rows - {id},
                                               WithoutEntry(a.entries, id, f.deleteLost)),
                                  Pastes.Failed(Pastes.NotFound)))
  {
    var a, t := Abstract(s), if f.purgeFails then s else WithoutRow(s, id);
    var u := ForgetEntry(t, id, f.deleteLost);
    PurgeSteps(kind, s, id, f);
    AbstractIsBlank(s);
    AbstractWithoutRow(s, id);
    AbstractForget(t, id, f.deleteLost);
    hide Abstract, BlankStore, Alone, PasteOf;
    var rows := if f.purgeFails then a.rows else a.rows - {id};
    var o := Pastes.Outcome(Pastes.Store(rows, WithoutEntry(a.entries, id, f.deleteLost)),
                            Pastes.Failed(Pastes.NotFound));
    BlankAlready(o.store);
    FailedAlone(s, u, NotThere, o);
  }

  lemma PurgeSteps(kind: Kind, s: Sys, id: Key, f: Pastes.Faults)
    ensures var t := if f.purgeFails then s else WithoutRow(s, id);
            Alone(kind, s, Purge(id), f) == Ended(ForgetEntry(t, id, f.deleteLost), NotThere)
  {
    hide WithoutRow, ForgetEntry;
    var t := if f.purgeFails then s else WithoutRow(s, id);
    assert Alone(kind, t, PurgeEntry(id), f) == Ended(ForgetEntry(t, id, f.deleteLost), NotThere);
  }

  /** Burning. */
  lemma TakeAlone(kind: Kind, s: Sys, id: Key, f: Pastes.Faults)
    requires id in s.rows
    ensures var a := Abstract(s);
            Agrees(s, Alone(kind, s, Take(id), f),
                   if f.takeFails then Pastes.Outcome(a, Pastes.Failed(Pastes.Backend))
                   else Pastes.Outcome(a.(rows := a.rows - {id}), Pastes.Served(a.rows[id])))
  {
    var a, t := Abstract(s), WithoutRow(s, id);
    assert Alone(kind, s, Take(id), f) ==
      if f.takeFails then Ended(s, NoBackend) else Returning(t, s.rows[id], ByTaking);
    AbstractIsBlank(s);
    AbstractWithoutRow(s, id);
    assert a.rows[id] == PasteOf(s, s.rows[id]) == PasteOf(t, s.rows[id]);
    assert Blank(a.rows[id]) == a.rows[id];
    hide Abstract, BlankStore, Alone, PasteOf;
    if f.takeFails {
      FailedAlone(s, s, NoBackend, Pastes.Outcome(a, Pastes.Failed(Pastes.Backend)));
    } else {
      BlankAlready(a.(rows := a.rows - {id}));
      ServedAlone(s, t, s.rows[id], ByTaking, Pastes.Outcome(a.(rows := a.rows - {id}), Pastes.Served(a.rows[id])));
    }
  }

  /** A row that lives and does not burn is cached and served. */
  lemma SetAlone(kind: Kind, s: Sys, id: Key, f: Pastes.Faults)
    requires SafeRows(s) && id in s.rows && !Expired(s, s.rows[id])
    ensures var a := Abstract(s);
            var paste := a.rows[id];
            var ttl := CacheTtl(paste.expiresAt, Seconds(s.now));
            Agrees(s, Alone(kind, s, ComputeTtl(id, s.rows[id], s.now), f),
                   Pastes.Outcome(Pastes.Store(Pastes.Counted(a.rows, id, f.recordFails),
                                               WithEntry(kind, a.entries, id, paste, ttl, s.now, f.setLost)),
                                  Pastes.Served(paste)))
  {
    var a, inst := Abstract(s), s.rows[id];
    var ttl := CacheTtl(s.made[inst].expiresAt, Seconds(s.now));
    var paste := PasteOf(s, inst);
    var t := s.(entries := WithEntry(kind, s.entries, id, inst, ttl, s.now, f.setLost));
    assert a.rows[id] == paste && Blank(paste) == paste && paste.expiresAt == s.made[inst].expiresAt;
    assert Alone(kind, s, ComputeTtl(id, inst, s.now), f) == Returning(t, inst, FromRow(s.now))
        by { SetSteps(kind, s, id, f); }
    AbstractSet(kind, s, id, inst, ttl, f.setLost);
    AbstractIsBlank(s);
    var b := a.(entries := WithEntry(kind, a.entries, id, paste, ttl, s.now, f.setLost));
    assert PasteOf(t, inst) == paste;
    hide Abstract, Alone, PasteOf, SafeRows, CacheTtl;
    assert IsBlank(b);
    BlankAlready(b);
    BlankCounted(b, id, f.recordFails);
    hide BlankStore, Blank, IsBlank;
    ServedAlone(s, t, inst, FromRow(s.now),
                Pastes.Outcome(b.(rows := Pastes.Counted(b.rows, id, f.recordFails)), Pastes.Served(paste)));
  }

  lemma SetSteps(kind: Kind, s: Sys, id: Key, f: Pastes.Faults)
    requires SafeRows(s) && id in s.rows && !Expired(s, s.rows[id])
    ensures var inst := s.rows[id];
            var ttl := CacheTtl(s.made[inst].expiresAt, Seconds(s.now));
            Alone(kind, s, ComputeTtl(id, inst, s.now), f) ==
            Returning(s.(entries := WithEntry(kind, s.entries, id, inst, ttl, s.now, f.setLost)), inst, FromRow(s.now))
  {
    var inst := s.rows[id];
    var ttl := CacheTtl(s.made[inst].expiresAt, Seconds(s.now));
    StoreSteps(kind, s, id, inst, ttl, f);
    hide WithEntry, SafeRows, CacheTtl, Returning;
    assert Alone(kind, s, ComputeTtl(id, inst, s.now), f) == Alone(kind, s, SetEntry(id, inst, ttl, s.now), f);
  }

  lemma StoreSteps(kind: Kind, s: Sys, id: Key, inst: Instance, ttl: nat, f: Pastes.Faults)
    ensures Alone(kind, s, SetEntry(id, inst, ttl, s.now), f) ==
            Returning(s.(entries := WithEntry(kind, s.entries, id, inst, ttl, s.now, f.setLost)), inst, FromRow(s.now))
  {
    hide WithEntry, Serving, Ended;
    var record := Record(inst, FromRow(s.now));
    var t := s.(entries := WithEntry(kind, s.entries, id, inst, ttl, s.now, f.setLost));
    assert Alone(kind, t, record, f) == Returning(t, inst, FromRow(s.now));
  }

  /** From the read of the row on. */
  lemma FromRowAlone(kind: Kind, s: Sys, id: Key, f: Pastes.Faults)
    requires s.now <= SECOND * I64_MAX && SafeRows(s)
    ensures Agrees(s, Alone(kind, s, GetRow(id), f), Pastes.FromRow(kind, Abstract(s), s.now, id, f))
  {
    AbstractIsBlank(s);
    if f.readFails || id !in s.rows {
      var ending := if f.readFails then NoBackend else NotThere;
      assert Alone(kind, s, GetRow(id), f) == Ended(s, ending);
      FailedAlone(s, s, ending, Pastes.FromRow(kind, Abstract(s), s.now, id, f));
    } else {
      var inst := s.rows[id];
      assert Abstract(s).rows[id] == Blank(s.made[inst]);
      CheckSteps(kind, s, id, f);
      hide Alone, Abstract, BlankStore, IsBlank;
      if Expired(s, inst) {
        PurgeAlone(kind, s, id, f);
      } else if s.made[inst].oneShot {
        TakeAlone(kind, s, id, f);
      } else {
        SetAlone(kind, s, id, f);
      }
    }
  }

  lemma CheckSteps(kind: Kind, s: Sys, id: Key, f: Pastes.Faults)
    requires SafeRows(s) && id in s.rows && !f.readFails
    ensures var inst := s.rows[id];
            Alone(kind, s, GetRow(id), f) ==
            Alone(kind, s, if Expired(s, inst) then Purge(id) else if s.made[inst].oneShot then Take(id)
                           else ComputeTtl(id, inst, s.now), f)
  {
    var inst := s.rows[id];
    var next := if Expired(s, inst) then Purge(id) else if s.made[inst].oneShot then Take(id)
        else ComputeTtl(id, inst, s.now);
    hide Expired;
    assert Alone(kind, s, CheckRow(id, inst, s.now), f) == Alone(kind, s, next, f);
  }

  lemma AbstractLookup(kind: Kind, s: Sys, id: Key, miss: bool)
    ensures Lookup(kind, Abstract(s).entries, id, s.now, miss) ==
            if Found(kind, s, id) && !miss then Some(PasteOf(s, s.entries[id].value)) else None
  {
    hide PasteOf;
  }

  /** The way to the row, if the cache does not answer. */
  lemma MissSteps(kind: Kind, s: Sys, id: Key, f: Pastes.Faults)
    ensures !Found(kind, s, id) || f.miss ==> Alone(kind, s, GetEntry(id), f) == Alone(kind, s, GetRow(id), f)
    ensures Found(kind, s, id) && !f.miss && Expired(s, s.entries[id].value) ==>
              Alone(kind, s, GetEntry(id), f) == Alone(kind, ForgetEntry(s, id, f.deleteLost), GetRow(id), f)
  {
    hide Found, Expired, ForgetEntry;
    if Found(kind, s, id) && !f.miss {
      var inst := EntryOf(kind, s, id);
      assert Alone(kind, s, GetEntry(id), f) == Alone(kind, s, CheckEntry(id, inst, s.now), f);
      if Expired(s, inst) {
        assert Alone(kind, s, CheckEntry(id, inst, s.now), f) == Alone(kind, s, DropEntry(id), f);
      }
    }
  }

  lemma EntryOf(kind: Kind, s: Sys, id: Key) returns (inst: Instance)
    requires Found(kind, s, id)
    ensures id in s.entries && inst == s.entries[id].value
  {
    inst := s.entries[id].value;
  }

  lemma HitSteps(kind: Kind, s: Sys, id: Key, f: Pastes.Faults)
    requires Found(kind, s, id) && !f.miss && !Expired(s, s.entries[id].value)
    ensures Alone(kind, s, GetEntry(id), f) == Returning(s, s.entries[id].value, FromCache(s.now, s.now))
  {
    var inst := s.entries[id].value;
    var record := Record(inst, FromCache(s.now, s.now));
    hide Expired, Serving;
    assert Alone(kind, s, record, f) == Returning(s, inst, FromCache(s.now, s.now));
    assert Alone(kind, s, CheckEntry(id, inst, s.now), f) == Alone(kind, s, record, f);
  }

  /** A fetch that is not interrupted does what `Pastes.DoFetch` does. */
  lemma FetchAlone(kind: Kind, s: Sys, id: Key, f: Pastes.Faults)
    requires s.now <= SECOND * I64_MAX && SafeRows(s) && SafeCache(s) && ValidKey(id)
    ensures Agrees(s, Alone(kind, s, GetEntry(id), f), Pastes.DoFetch(kind, Abstract(s), s.now, id, f))
  {
    AbstractIsBlank(s);
    AbstractLookup(kind, s, id, f.miss);
    MissSteps(kind, s, id, f);
    if Found(kind, s, id) && !f.miss {
      var inst := s.entries[id].value;
      assert PasteOf(s, inst) == Blank(s.made[inst]);
      assert Expired(s, inst) <==> IsExpired(PasteOf(s, inst).expiresAt, Seconds(s.now));
      hide Abstract, ValidKey, PasteOf, BlankStore, SafeRows, SafeCache, Lookup, Found, Blank;
      if Expired(s, inst) {
        var t := ForgetEntry(s, id, f.deleteLost);
        AbstractForget(s, id, f.deleteLost);
        SameRows(s, t);
        FromRowAlone(kind, t, id, f);
      } else {
        HitSteps(kind, s, id, f);
        hide Alone;
        BlankCounted(Abstract(s), id, f.recordFails);
        ServedAlone(s, s, inst, FromCache(s.now, s.now), Pastes.DoFetch(kind, Abstract(s), s.now, id, f));
      }
    } else {
      hide Abstract, ValidKey, Alone, BlankStore;
      FromRowAlone(kind, s, id, f);
    }
  }

  lemma SameRows(s: Sys, t: Sys)
    requires SafeRows(s) && t == s.(entries := t.entries)
    ensures SafeRows(t)
  {
  }

  /** A delete that is not interrupted does what `Pastes.DoDelete` does. */
  lemma DeleteAlone(kind: Kind, s: Sys, id: Key, f: Pastes.Faults)
    requires ValidKey(id)
    ensures Agrees(s, Alone(kind, s, DeleteRow(id), f), Pastes.DoDelete(Abstract(s), id, f))
  {
    var a, t := Abstract(s), WithoutRow(s, id);
    AbstractIsBlank(s);
    AbstractWithoutRow(s, id);
    AbstractForget(t, id, f.deleteLost);
    var erased := id in s.rows;
    assert id in a.rows <==> erased;
    var u, o := ForgetEntry(t, id, f.deleteLost), Pastes.DoDelete(a, id, f);
    DeleteSteps(kind, s, id, f);
    hide Abstract, BlankStore, ValidKey, WithoutRow, ForgetEntry, PasteOf, Alone;
    BlankAlready(Pastes.Store(a.rows - {id}, WithoutEntry(a.entries, id, f.deleteLost)));
    LogStays(s, id, f.deleteLost);
    if f.deleteFails {
      FailedAlone(s, s, NoBackend, o);
    } else {
      FailedAlone(s, u, if erased then Erased else NotThere, o);
    }
  }

  lemma DeleteSteps(kind: Kind, s: Sys, id: Key, f: Pastes.Faults)
    ensures Alone(kind, s, DeleteRow(id), f) ==
            if f.deleteFails then Ended(s, NoBackend)
            else Ended(ForgetEntry(WithoutRow(s, id), id, f.deleteLost), if id in s.rows then Erased else NotThere)
  {
    var t, forget := WithoutRow(s, id), DeleteEntry(id, id in s.rows);
    hide WithoutRow, ForgetEntry, Ended;
    assert Alone(kind, t, forget, f) ==
      Ended(ForgetEntry(t, id, f.deleteLost), if id in s.rows then Erased else NotThere);
  }

  lemma LogStays(s: Sys, id: Key, lost: bool)
    ensures var t := ForgetEntry(WithoutRow(s, id), id, lost); t.log == s.log && t.endings == s.endings
  {
  }

  /* ---------- as part of a run ---------- */

  lemma EffectIgnoresCalls(kind: Kind, s: Sys, calls: map<nat, Pc>, pc: Pc, fails: bool)
    ensures Effect(kind, s.(calls := calls), pc, fails) == Effect(kind, s, pc, fails).(calls := calls)
    ensures Then(kind, s.(calls := calls), pc, fails) == Then(kind, s, pc, fails)
    ensures Effect(kind, s, pc, fails).calls == s.calls
  {
  }

  lemma {:induction false} AloneIgnoresCalls(kind: Kind, s: Sys, calls: map<nat, Pc>, pc: Pc, f: Pastes.Faults)
    ensures Alone(kind, s.(calls := calls), pc, f) == Alone(kind, s, pc, f).(calls := calls)
    ensures Alone(kind, s, pc, f).calls == s.calls
    decreases ToGo(pc)
  {
    hide Effect;
    EffectIgnoresCalls(kind, s, calls, pc, Fails(pc, f));
    if Then(kind, s, pc, Fails(pc, f)).Goes? {
      AloneIgnoresCalls(kind, Effect(kind, s, pc, Fails(pc, f)), calls, Then(kind, s, pc, Fails(pc, f)).pc, f);
    }
  }

  lemma ExecMore(kind: Kind, events: seq<Event>, e: Event)
    ensures Exec(kind, events + [e]) == Step(kind, Exec(kind, events), e)
  {
    hide Step;
    assert (events + [e])[..|events|] == events;
  }

  function WithoutCall(s: Sys, call: nat): Sys { s.(calls := s.calls - {call}) }

  /** Advancing one call and nothing else runs it to its end. */
  lemma {:induction false} RunAlone(kind: Kind, events: seq<Event>, call: nat, f: Pastes.Faults)
      returns (all: seq<Event>)
    requires call in Exec(kind, events).calls
    ensures Exec(kind, all) == var s := Exec(kind, events); WithoutCall(Alone(kind, s, s.calls[call], f), call)
    decreases ToGo(Exec(kind, events).calls[call])
  {
    var s := Exec(kind, events);
    var pc := s.calls[call];
    var fails := Fails(pc, f);
    var t := Effect(kind, s, pc, fails);
    all := events + [Advance(call, fails)];
    ExecMore(kind, events, Advance(call, fails));
    EffectIgnoresCalls(kind, s, s.calls, pc, fails);
    match Then(kind, s, pc, fails)
    case Answers(ending) =>
    case Goes(next) =>
      GetsOn(kind, s, pc, fails);
      AloneIgnoresCalls(kind, t, t.calls[call := next], next, f);
      AloneIgnoresCalls(kind, t, t.calls, next, f);
      hide Exec, Effect, Then;
      assert t.calls[call := next] - {call} == t.calls - {call};
      all := RunAlone(kind, all, call, f);
  }

  lemma GetsOn(kind: Kind, s: Sys, pc: Pc, fails: bool)
    ensures Then(kind, s, pc, fails).Goes? ==> ToGo(Then(kind, s, pc, fails).pc) < ToGo(pc)
  {
  }

  /** In any run, a fetch that is started and left alone answers, and changes database and cache, as `Pastes.DoFetch`
      says of the moment it was started; and likewise a delete. */
  lemma LeftAlone(kind: Kind, events: seq<Event>, call: nat, id: Key, f: Pastes.Faults, deleting: bool)
    returns (all: seq<Event>)
    requires ValidKey(id) && call !in Exec(kind, events).calls && Exec(kind, events).now <= SECOND * I64_MAX
    ensures var s, t := Exec(kind, events), Exec(kind, all);
            && t.calls == s.calls
            && Agrees(s, t, if deleting then Pastes.DoDelete(Abstract(s), id, f)
                            else Pastes.DoFetch(kind, Abstract(s), s.now, id, f))
  {
    var s := Exec(kind, events);
    var e := if deleting then StartDelete(call, id) else StartFetch(call, id);
    var pc := if deleting then DeleteRow(id) else GetEntry(id);
    AlwaysSafe(kind, events);
    ExecMore(kind, events, e);
    hide Exec;
    all := RunAlone(kind, events + [e], call, f);
    AloneIgnoresCalls(kind, s, s.calls[call := pc], pc, f);
    if deleting {
      DeleteAlone(kind, s, id, f);
    } else {
      FetchAlone(kind, s, id, f);
    }
    var t := Alone(kind, s, pc, f);
    hide Alone, Safe, ValidKey;
    assert s.calls[call := pc] - {call} == s.calls;
    AgreesAnyway(s, t, t.(calls := s.calls), if deleting then Pastes.DoDelete(Abstract(s), id, f)
                                             else Pastes.DoFetch(kind, Abstract(s), s.now, id, f));
  }

  lemma AgreesAnyway(s: Sys, t: Sys, u: Sys, o: Pastes.Outcome)
    requires Agrees(s, t, o) && u == t.(calls := u.calls)
    ensures Agrees(s, u, o)
  {
    assert Abstract(u) == Abstract(t);
    hide Abstract, BlankStore;
  }
}
