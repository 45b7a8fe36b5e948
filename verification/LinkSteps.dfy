/** The steps of `LinkRaces` against the operations of `Links`: a call that is not interrupted does what the operation
    does. */
module LinkSteps {
  import opened Options
  import opened CacheAside
  import opened LinkRaces
  import Links

  /** Which of a call's steps fails, when the operation suffers these faults. */
  function Fails(pc: Pc, f: Links.Faults): bool {
    match pc
    case GetEntry(_) => f.miss
    case GetRow(_) => f.readFails
    case Purge(_) => f.purgeFails
    case PurgeEntry(_) => f.deleteLost
    case SetEntry(_, _, _, _, _) => f.setLost
    case ReadRow(_) => f.readFails
    case DropRow(_) => f.purgeFails
    case DeleteRow(_) => f.deleteFails
    case DeleteEntry(_, _) => f.deleteLost
    case _ => false
  }

  /** How many steps a call has still to go. */
  function ToGo(pc: Pc): nat {
    match pc
    case GetEntry(_) => 6
    case GetRow(_) => 5
    case CheckRow(_, _, _) => 4
    case ComputeTtl(_, _, _, _) => 3
    case SetEntry(_, _, _, _, _) => 2
    case Purge(_) => 2
    case ReadRow(_) => 3
    case TestRow(_, _) => 2
    case DeleteRow(_) => 2
    case _ => 1
  }

  /** The call runs to its end while nothing else happens. */
  function Alone(kind: Kind, s: Sys, pc: Pc, f: Links.Faults): Sys
    decreases ToGo(pc)
  {
    var t := Effect(kind, s, pc, Fails(pc, f));
    match Then(kind, s, pc, Fails(pc, f))
    case Answers(ending) => Ended(t, ending)
    case Goes(next) => Alone(kind, t, next, f)
  }

  /** What the database and the cache hold, hit counts aside. */
  function Blank(link: Link): Link { link.(hits := 0) }

  function BlankStore(s: Links.Store): Links.Store { s.(rows := map code | code in s.rows :: Blank(s.rows[code])) }

  /** The link an instance stands for; every instance that occurs is known. */
  function LinkOf(s: Sys, inst: Instance): Link {
    if inst < |s.made| then Blank(s.made[inst]) else Links.Link([], [], 0, 0, None)
  }

  function Abstract(s: Sys): Links.Store {
    Links.Store(map code | code in s.rows :: LinkOf(s, s.rows[code]),
                map code | code in s.entries ::
                  Entry(LinkOf(s, s.entries[code].value).target, s.entries[code].deadline))
  }

  /** The ending stands for the reply, hit counts aside. */
  predicate Means(s: Sys, ending: Ending, reply: Links.Reply) {
    match ending
    case Redirected(inst) => reply == Links.Redirect(LinkOf(s, inst).target)
    case Displayed(inst) => reply.Shown? && LinkOf(s, inst) == Blank(reply.link)
    case NotThere => reply == Links.Failed(Links.NotFound)
    case Erased => reply == Links.Removed
    case NoBackend => reply == Links.Failed(Links.Backend)
  }

  /** The call from `s` to `t` did what the operation did: same rows, same cache, same answer. */
  predicate Agrees(s: Sys, t: Sys, o: Links.Outcome) {
    && Abstract(t) == BlankStore(o.store)
    && |t.endings| == |s.endings| + 1 && t.endings[..|s.endings|] == s.endings
    && var ending := t.endings[|s.endings|];
       && Means(t, ending, o.reply)
       && if ending.Redirected?
          then |t.log| == |s.log| + 1 && t.log[..|s.log|] == s.log && t.log[|s.log|].inst == ending.inst
          else t.log == s.log
  }

  predicate IsBlank(s: Links.Store) { forall code :: code in s.rows ==> s.rows[code].hits == 0 }

  lemma BlankAlready(s: Links.Store)
    requires IsBlank(s)
    ensures BlankStore(s) == s
  {
  }

  lemma AbstractIsBlank(s: Sys)
    ensures IsBlank(Abstract(s)) && BlankStore(Abstract(s)) == Abstract(s)
  {
    BlankAlready(Abstract(s));
  }

  lemma AbstractWithoutRow(s: Sys, code: Key)
    ensures Abstract(WithoutRow(s, code)) == Abstract(s).(rows := Abstract(s).rows - {code})
  {
  }

  function Forgotten(s: Sys, code: Key, lost: bool): Sys { s.(entries := WithoutEntry(s.entries, code, lost)) }

  lemma AbstractForget(s: Sys, code: Key, lost: bool)
    ensures Abstract(Forgotten(s, code, lost)) == Abstract(s).(entries := WithoutEntry(Abstract(s).entries, code, lost))
  {
  }

  function Stored(kind: Kind, s: Sys, code: Key, inst: Instance, ttl: nat, lost: bool): Sys {
    s.(entries := WithEntry(kind, s.entries, code, inst, ttl, s.now, lost))
  }

  lemma AbstractSet(kind: Kind, s: Sys, code: Key, inst: Instance, ttl: nat, lost: bool)
    ensures var a, target := Abstract(s), LinkOf(s, inst).target;
            Abstract(Stored(kind, s, code, inst, ttl, lost))
            == a.(entries := WithEntry(kind, a.entries, code, target, ttl, s.now, lost))
  {
  }

  /** Counting a hit is invisible here. */
  lemma BlankCounted(s: Links.Store, code: Key, fails: bool)
    ensures BlankStore(s.(rows := Links.Counted(s.rows, code, fails))) == BlankStore(s)
  {
  }

  function Redirecting(s: Sys, code: Key, inst: Instance, source: Source): Sys {
    Ended(s.(log := s.log + [Redirect(code, inst, source, s.now)]), Redirected(inst))
  }

  lemma RedirectedAlone(s: Sys, t: Sys, code: Key, inst: Instance, source: Source, o: Links.Outcome)
    requires t.log == s.log && t.endings == s.endings && Abstract(t) == BlankStore(o.store)
    requires o.reply == Links.Redirect(LinkOf(t, inst).target)
    ensures Agrees(s, Redirecting(t, code, inst, source), o)
  {
    assert Abstract(Redirecting(t, code, inst, source)) == Abstract(t);
    assert LinkOf(Redirecting(t, code, inst, source), inst) == LinkOf(t, inst);
    hide Abstract, BlankStore, LinkOf;
  }

  /** A call that changed nothing but the cache and the rows. */
  lemma OtherAlone(s: Sys, t: Sys, ending: Ending, o: Links.Outcome)
    requires t.log == s.log && t.endings == s.endings && Abstract(t) == BlankStore(o.store)
    requires !ending.Redirected? && Means(t, ending, o.reply)
    ensures Agrees(s, Ended(t, ending), o)
  {
    assert Abstract(Ended(t, ending)) == Abstract(t);
    assert Means(Ended(t, ending), ending, o.reply);
    hide Abstract, BlankStore, Means;
  }

  /* ---------- resolve ---------- */

  /** The purge of an expired row. */
  lemma PurgeAlone(kind: Kind, s: Sys, code: Key, f: Links.Faults)
    ensures var a := Abstract(s);
            Agrees(s, Alone(kind, s, Purge(code), f),
                   Links.Outcome(Links.Store(if f.purgeFails then a.rows else a.rows - {code},
                                             WithoutEntry(a.entries, code, f.deleteLost)),
                                 Links.Failed(Links.NotFound)))
  {
    var a, t := Abstract(s), if f.purgeFails then s else WithoutRow(s, code);
    PurgeSteps(kind, s, code, f);
    AbstractIsBlank(s);
    AbstractWithoutRow(s, code);
    AbstractForget(t, code, f.deleteLost);
    hide Abstract, BlankStore, Alone, LinkOf;
    var rows := if f.purgeFails then a.rows else a.rows - {code};
    var o := Links.Outcome(Links.Store(rows, WithoutEntry(a.entries, code, f.deleteLost)),
                           Links.Failed(Links.NotFound));
    BlankAlready(o.store);
    OtherAlone(s, Forgotten(t, code, f.deleteLost), NotThere, o);
  }

  lemma PurgeSteps(kind: Kind, s: Sys, code: Key, f: Links.Faults)
    ensures var t := if f.purgeFails then s else WithoutRow(s, code);
            Alone(kind, s, Purge(code), f) == Ended(Forgotten(t, code, f.deleteLost), NotThere)
  {
    hide WithoutRow, WithoutEntry;
    var t := if f.purgeFails then s else WithoutRow(s, code);
    assert Alone(kind, t, PurgeEntry(code), f) == Ended(Forgotten(t, code, f.deleteLost), NotThere);
  }

  /** A row that lives is cached, and its target redirected to. */
  lemma SetAlone(kind: Kind, s: Sys, code: Key, f: Links.Faults)
    requires code in s.rows && !Expired(s, s.rows[code])
    ensures var a := Abstract(s);
            var link := a.rows[code];
            var ttl := CacheTtl(link.expiresAt, Seconds(s.now));
            Agrees(s, Alone(kind, s, ComputeTtl(code, s.rows[code], s.now, s.now), f),
                   Links.Outcome(Links.Store(Links.Counted(a.rows, code, f.recordFails),
                                             WithEntry(kind, a.entries, code, link.target, ttl, s.now, f.setLost)),
                                 Links.Redirect(link.target)))
  {
    var a, inst := Abstract(s), s.rows[code];
    var link, ttl := LinkOf(s, inst), CacheTtl(Expiry(s, inst), Seconds(s.now));
    var t := Stored(kind, s, code, inst, ttl, f.setLost);
    assert a.rows[code] == link && link.expiresAt == Expiry(s, inst) && LinkOf(t, inst) == link;
    SetSteps(kind, s, code, f);
    AbstractSet(kind, s, code, inst, ttl, f.setLost);
    AbstractIsBlank(s);
    var b := a.(entries := WithEntry(kind, a.entries, code, link.target, ttl, s.now, f.setLost));
    assert IsBlank(b);
    hide Abstract, Alone, LinkOf, CacheTtl;
    BlankAlready(b);
    BlankCounted(b, code, f.recordFails);
    hide BlankStore, IsBlank;
    RedirectedAlone(s, t, code, inst, FromRow(s.now, s.now),
                    Links.Outcome(b.(rows := Links.Counted(b.rows, code, f.recordFails)), Links.Redirect(link.target)));
  }

  lemma SetSteps(kind: Kind, s: Sys, code: Key, f: Links.Faults)
    requires code in s.rows && !Expired(s, s.rows[code])
    ensures var inst := s.rows[code];
            var ttl := CacheTtl(Expiry(s, inst), Seconds(s.now));
            Alone(kind, s, ComputeTtl(code, inst, s.now, s.now), f) ==
            Redirecting(Stored(kind, s, code, inst, ttl, f.setLost), code, inst, FromRow(s.now, s.now))
  {
    var inst := s.rows[code];
    var ttl := CacheTtl(Expiry(s, inst), Seconds(s.now));
    StoreSteps(kind, s, code, inst, ttl, f);
    hide Stored, CacheTtl, Redirecting, Expiry;
    assert Alone(kind, s, ComputeTtl(code, inst, s.now, s.now), f)
        == Alone(kind, s, SetEntry(code, inst, ttl, s.now, s.now), f);
  }

  lemma StoreSteps(kind: Kind, s: Sys, code: Key, inst: Instance, ttl: nat, f: Links.Faults)
    ensures Alone(kind, s, SetEntry(code, inst, ttl, s.now, s.now), f) ==
            Redirecting(Stored(kind, s, code, inst, ttl, f.setLost), code, inst, FromRow(s.now, s.now))
  {
    hide WithEntry, Ended;
    var t, source := Stored(kind, s, code, inst, ttl, f.setLost), FromRow(s.now, s.now);
    assert Alone(kind, t, Record(code, inst, source), f) == Redirecting(t, code, inst, source);
  }

  /** What a resolve does when the cache does not answer. */
  function FromRowOutcome(kind: Kind, s: Links.Store, at: Instant, code: Key, f: Links.Faults): Links.Outcome
    requires ValidKey(code)
  {
    Links.DoResolve(kind, s, at, code, f.(miss := true))
  }

  lemma FromRowAlone(kind: Kind, s: Sys, code: Key, f: Links.Faults)
    requires s.now <= SECOND * I64_MAX && ValidKey(code)
    ensures Agrees(s, Alone(kind, s, GetRow(code), f), FromRowOutcome(kind, Abstract(s), s.now, code, f))
  {
    var o := FromRowOutcome(kind, Abstract(s), s.now, code, f);
    hide ValidKey;
    AbstractIsBlank(s);
    if f.readFails || code !in s.rows {
      var ending := if f.readFails then NoBackend else NotThere;
      assert Alone(kind, s, GetRow(code), f) == Ended(s, ending);
      OtherAlone(s, s, ending, o);
    } else {
      var inst := s.rows[code];
      assert Abstract(s).rows[code] == LinkOf(s, inst) && LinkOf(s, inst).expiresAt == Expiry(s, inst);
      CheckSteps(kind, s, code, f);
      hide Alone, Abstract, BlankStore, IsBlank;
      if Expired(s, inst) {
        PurgeAlone(kind, s, code, f);
      } else {
        SetAlone(kind, s, code, f);
      }
    }
  }

  lemma CheckSteps(kind: Kind, s: Sys, code: Key, f: Links.Faults)
    requires code in s.rows && !f.readFails
    ensures var inst := s.rows[code];
            Alone(kind, s, GetRow(code), f) ==
            Alone(kind, s, if Expired(s, inst) then Purge(code) else ComputeTtl(code, inst, s.now, s.now), f)
  {
    var inst := s.rows[code];
    hide Expired;
    assert Alone(kind, s, CheckRow(code, inst, s.now), f)
        == Alone(kind, s, if Expired(s, inst) then Purge(code) else ComputeTtl(code, inst, s.now, s.now), f);
  }

  lemma AbstractLookup(kind: Kind, s: Sys, code: Key, miss: bool)
    ensures Lookup(kind, Abstract(s).entries, code, s.now, miss) ==
            if Found(kind, s, code) && !miss then Some(LinkOf(s, s.entries[code].value).target) else None
  {
    hide LinkOf;
  }

  lemma LookSteps(kind: Kind, s: Sys, code: Key, f: Links.Faults)
    ensures Alone(kind, s, GetEntry(code), f) ==
            if Found(kind, s, code) && !f.miss
            then Redirecting(s, code, s.entries[code].value, FromCache(s.now))
            else Alone(kind, s, GetRow(code), f)
  {
    if Found(kind, s, code) && !f.miss {
      var inst := s.entries[code].value;
      hide Ended;
      assert Alone(kind, s, Record(code, inst, FromCache(s.now)), f) == Redirecting(s, code, inst, FromCache(s.now));
    }
  }

  /** A resolve that is not interrupted does what `Links.DoResolve` does. */
  lemma ResolveAlone(kind: Kind, s: Sys, code: Key, f: Links.Faults)
    requires s.now <= SECOND * I64_MAX && ValidKey(code)
    ensures Agrees(s, Alone(kind, s, GetEntry(code), f), Links.DoResolve(kind, Abstract(s), s.now, code, f))
  {
    AbstractLookup(kind, s, code, f.miss);
    LookSteps(kind, s, code, f);
    AbstractIsBlank(s);
    if Found(kind, s, code) && !f.miss {
      var inst := s.entries[code].value;
      hide Abstract, ValidKey, LinkOf, BlankStore, Lookup, Found, Alone;
      BlankCounted(Abstract(s), code, f.recordFails);
      RedirectedAlone(s, s, code, inst, FromCache(s.now), Links.DoResolve(kind, Abstract(s), s.now, code, f));
    } else {
      hide Abstract, ValidKey, Alone, BlankStore;
      FromRowAlone(kind, s, code, f);
    }
  }

  /* ---------- get and delete ---------- */

  lemma ReadSteps(kind: Kind, s: Sys, code: Key, f: Links.Faults)
    ensures Alone(kind, s, ReadRow(code), f) ==
            if f.readFails then Ended(s, NoBackend)
            else if code !in s.rows then Ended(s, NotThere)
            else if Expired(s, s.rows[code])
            then Ended(if f.purgeFails then s else WithoutRow(s, code), NotThere)
            else Ended(s, Displayed(s.rows[code]))
  {
    hide Expired, WithoutRow, Ended;
    if !f.readFails && code in s.rows {
      var inst := s.rows[code];
      assert Alone(kind, s, DropRow(code), f) == Ended(if f.purgeFails then s else WithoutRow(s, code), NotThere);
      assert Alone(kind, s, TestRow(code, inst), f) ==
        if Expired(s, inst) then Alone(kind, s, DropRow(code), f) else Ended(s, Displayed(inst));
    }
  }

  /** A get that is not interrupted does what `Links.DoGet` does. */
  lemma GetAlone(kind: Kind, s: Sys, code: Key, f: Links.Faults)
    requires s.now <= SECOND * I64_MAX && ValidKey(code)
    ensures Agrees(s, Alone(kind, s, ReadRow(code), f), Links.DoGet(Abstract(s), s.now, code, f))
  {
    var a, t, o := Abstract(s), WithoutRow(s, code), Links.DoGet(Abstract(s), s.now, code, f);
    ReadSteps(kind, s, code, f);
    AbstractIsBlank(s);
    AbstractWithoutRow(s, code);
    assert code in a.rows <==> code in s.rows;
    assert code in s.rows ==>
        a.rows[code] == LinkOf(s, s.rows[code]) && a.rows[code].expiresAt == Expiry(s, s.rows[code]);
    hide Abstract, ValidKey, Alone, BlankStore, LinkOf, WithoutRow;
    BlankAlready(a.(rows := a.rows - {code}));
    if f.readFails {
      OtherAlone(s, s, NoBackend, o);
    } else if code !in s.rows {
      OtherAlone(s, s, NotThere, o);
    } else if Expired(s, s.rows[code]) {
      RowsOnly(s, code);
      OtherAlone(s, if f.purgeFails then s else t, NotThere, o);
    } else {
      OtherAlone(s, s, Displayed(s.rows[code]), o);
    }
  }

  lemma RowsOnly(s: Sys, code: Key)
    ensures WithoutRow(s, code).log == s.log && WithoutRow(s, code).endings == s.endings
  {
  }

  /** A delete that is not interrupted does what `Links.DoDelete` does. */
  lemma DeleteAlone(kind: Kind, s: Sys, code: Key, f: Links.Faults)
    requires ValidKey(code)
    ensures Agrees(s, Alone(kind, s, DeleteRow(code), f), Links.DoDelete(Abstract(s), code, f))
  {
    var a, t := Abstract(s), WithoutRow(s, code);
    AbstractIsBlank(s);
    AbstractWithoutRow(s, code);
    AbstractForget(t, code, f.deleteLost);
    RowsOnly(s, code);
    assert code in a.rows <==> code in s.rows;
    var u, o := Forgotten(t, code, f.deleteLost), Links.DoDelete(a, code, f);
    DeleteSteps(kind, s, code, f);
    hide Abstract, BlankStore, ValidKey, WithoutRow, LinkOf, Alone;
    BlankAlready(Links.Store(a.rows - {code}, WithoutEntry(a.entries, code, f.deleteLost)));
    if f.deleteFails {
      OtherAlone(s, s, NoBackend, o);
    } else {
      OtherAlone(s, u, if code in s.rows then Erased else NotThere, o);
    }
  }

  lemma DeleteSteps(kind: Kind, s: Sys, code: Key, f: Links.Faults)
    ensures Alone(kind, s, DeleteRow(code), f) ==
            if f.deleteFails then Ended(s, NoBackend)
            else Ended(Forgotten(WithoutRow(s, code), code, f.deleteLost), if code in s.rows then Erased else NotThere)
  {
    var t, forget := WithoutRow(s, code), DeleteEntry(code, code in s.rows);
    hide WithoutRow, WithoutEntry, Ended;
    assert Alone(kind, t, forget, f) ==
      Ended(Forgotten(t, code, f.deleteLost), if code in s.rows then Erased else NotThere);
  }

  /* ---------- as part of a run ---------- */

  lemma EffectIgnoresCalls(kind: Kind, s: Sys, calls: map<nat, Pc>, pc: Pc, fails: bool)
    ensures Effect(kind, s.(calls := calls), pc, fails) == Effect(kind, s, pc, fails).(calls := calls)
    ensures Then(kind, s.(calls := calls), pc, fails) == Then(kind, s, pc, fails)
    ensures Effect(kind, s, pc, fails).calls == s.calls
  {
  }

  lemma {:induction false} AloneIgnoresCalls(kind: Kind, s: Sys, calls: map<nat, Pc>, pc: Pc, f: Links.Faults)
    ensures Alone(kind, s.(calls := calls), pc, f) == Alone(kind, s, pc, f).(calls := calls)
    ensures Alone(kind, s, pc, f).calls == s.calls
    decreases ToGo(pc)
  {
    hide Effect;
    EffectIgnoresCalls(kind, s, calls, pc, Fails(pc, f));
    if Then(kind, s, pc, Fails(pc, f)).Goes? {
      AloneIgnoresCalls(kind, Effect(kind, s, pc, Fails(pc, f)), calls, Then(kind, s, pc, Fails(pc, f)).pc, f);
    }
  }

  lemma ExecMore(kind: Kind, events: seq<Event>, e: Event)
    ensures Exec(kind, events + [e]) == Step(kind, Exec(kind, events), e)
  {
    hide Step;
    assert (events + [e])[..|events|] == events;
  }

  function WithoutCall(s: Sys, call: nat): Sys { s.(calls := s.calls - {call}) }

  /** Advancing one call and nothing else runs it to its end. */
  lemma {:induction false} RunAlone(kind: Kind, events: seq<Event>, call: nat, f: Links.Faults)
      returns (all: seq<Event>)
    requires call in Exec(kind, events).calls
    ensures Exec(kind, all) == var s := Exec(kind, events); WithoutCall(Alone(kind, s, s.calls[call], f), call)
    decreases ToGo(Exec(kind, events).calls[call])
  {
    var s := Exec(kind, events);
    var pc := s.calls[call];
    var fails := Fails(pc, f);
    var t := Effect(kind, s, pc, fails);
    all := events + [Advance(call, fails)];
    ExecMore(kind, events, Advance(call, fails));
    EffectIgnoresCalls(kind, s, s.calls, pc, fails);
    match Then(kind, s, pc, fails)
    case Answers(ending) =>
    case Goes(next) =>
      GetsOn(kind, s, pc, fails);
      AloneIgnoresCalls(kind, t, t.calls[call := next], next, f);
      AloneIgnoresCalls(kind, t, t.calls, next, f);
      hide Exec, Effect, Then;
      assert t.calls[call := next] - {call} == t.calls - {call};
      all := RunAlone(kind, all, call, f);
  }

  lemma GetsOn(kind: Kind, s: Sys, pc: Pc, fails: bool)
    ensures Then(kind, s, pc, fails).Goes? ==> ToGo(Then(kind, s, pc, fails).pc) < ToGo(pc)
  {
  }

  /** What the atomic operation does that begins with this step. */
  function Operation(kind: Kind, s: Links.Store, at: Instant, pc: Pc, f: Links.Faults): Links.Outcome
    requires FirstStep(pc)
  {
    match pc
    case GetEntry(code) => Links.DoResolve(kind, s, at, code, f)
    case ReadRow(code) => Links.DoGet(s, at, code, f)
    case DeleteRow(code) => Links.DoDelete(s, code, f)
  }

  /** In any run, a call that is started and left alone answers, and changes database and cache, as the operation does
      at the moment it was started. */
  lemma LeftAlone(kind: Kind, events: seq<Event>, call: nat, pc: Pc, f: Links.Faults) returns (all: seq<Event>)
    requires FirstStep(pc) && ValidKey(pc.code)
    requires call !in Exec(kind, events).calls && Exec(kind, events).now <= SECOND * I64_MAX
    ensures var s, t := Exec(kind, events), Exec(kind, all);
            t.calls == s.calls && Agrees(s, t, Operation(kind, Abstract(s), s.now, pc, f))
  {
    var s := Exec(kind, events);
    ExecMore(kind, events, Start(call, pc));
    hide Exec, ValidKey;
    all := RunAlone(kind, events + [Start(call, pc)], call, f);
    AloneIgnoresCalls(kind, s, s.calls[call := pc], pc, f);
    match pc {
      case GetEntry(code) => ResolveAlone(kind, s, code, f);
      case ReadRow(code) => GetAlone(kind, s, code, f);
      case DeleteRow(code) => DeleteAlone(kind, s, code, f);
    }
    var t := Alone(kind, s, pc, f);
    hide Alone;
    assert s.calls[call := pc] - {call} == s.calls;
    AgreesAnyway(s, t, t.(calls := s.calls), Operation(kind, Abstract(s), s.now, pc, f));
  }

  lemma AgreesAnyway(s: Sys, t: Sys, u: Sys, o: Links.Outcome)
    requires Agrees(s, t, o) && u == t.(calls := u.calls)
    ensures Agrees(s, u, o)
  {
    assert Abstract(u) == Abstract(t);
    hide Abstract, BlankStore;
  }
}
