/** The link service of url-shortener/src/application/mod.rs over its repository and its cache. */
module Links {
  import opened Options
  import opened Bytes
  import opened CacheAside

  datatype Link = Link(code: Key, target: bytes, createdAt: Clock, hits: nat, expiresAt: Option<int>)
  type Rows = map<Key, Link>

  datatype ValidationError = CodeLength | CodeCharset | UrlTooLong | UrlInvalid | UrlScheme
  datatype ServiceError = Invalid(reason: ValidationError) | NotFound | Conflict | Blocked | Backend

  datatype Reply =
    | Created(link: Link) | Redirect(target: bytes) | Shown(link: Link) | Removed | Failed(error: ServiceError)

  /** What `TargetUrl::parse` and `host` make of the submitted text. */
  datatype Url = Rejected(reason: ValidationError) | Target(text: bytes, host: Option<bytes>)

  /** What the backends do to one operation: which repository calls fail, and what the cache loses. */
  datatype Faults = Faults(insertFails: set<nat>, readFails: bool, purgeFails: bool, deleteFails: bool,
                           recordFails: bool, miss: bool, setLost: bool, deleteLost: bool)

  function CodeError(raw: bytes): Option<ValidationError> {
    if |raw| < 1 || |raw| > 32 then Some(CodeLength) else if !ValidKey(raw) then Some(CodeCharset) else None
  }

  predicate EndsWith(s: bytes, suffix: bytes) { |suffix| <= |s| && s[|s| - |suffix|..] == suffix }

  /** `is_blocked`. */
  predicate IsBlocked(blocked: seq<bytes>, host: Option<bytes>) {
    var dot: bytes := ".";
    host.Some? && exists i :: 0 <= i < |blocked| && (host.value == blocked[i] || EndsWith(host.value, dot + blocked[i]))
  }

  /** The links and the cached targets. */
  datatype Store = Store(rows: Rows, entries: Entries<bytes>)
  datatype Outcome = Outcome(store: Store, reply: Reply)

  /* ---------- one operation as a function of the store ---------- */

  /** A link that was placed becomes a row. */
  function Put(s: Store, link: Link, p: Placement): Outcome {
    match p
    case Placed(key) =>
      var made := link.(code := key);
      Outcome(s.(rows := s.rows[key := made]), Created(made))
    case NoneFree => Outcome(s, Failed(Conflict))
    case BackendDown => Outcome(s, Failed(Backend))
  }

  function DoCreate(blocked: seq<bytes>, s: Store, at: Instant, url: Url, alias: Option<bytes>, ttl: Option<u64>,
                    draws: Draws, faults: Faults): Outcome {
    if url.Rejected? then Outcome(s, Failed(Invalid(url.reason)))
    else if IsBlocked(blocked, url.host) then Outcome(s, Failed(Blocked))
    else if alias.Some? && CodeError(alias.value).Some? then Outcome(s, Failed(Invalid(CodeError(alias.value).value)))
    else
      var now, candidates := Seconds(at), if alias.Some? then [alias.value] else draws;
      Put(s, Link([], url.text, now, 0, ExpiryOf(now, ttl)), Place(s.rows.Keys, candidates, 0, faults.insertFails))
  }

  /** `increment_hits`: a missing row is left alone. */
  function Counted(rows: Rows, code: Key, fails: bool): Rows {
    if fails || code !in rows then rows else rows[code := rows[code].(hits := rows[code].hits + 1)]
  }

  function DoResolve(kind: Kind, s: Store, at: Instant, code: bytes, faults: Faults): Outcome {
    var now, cached := Seconds(at), Lookup(kind, s.entries, code, at, faults.miss);
    if !ValidKey(code) then Outcome(s, Failed(NotFound))
    else if cached.Some? then Outcome(s.(rows := Counted(s.rows, code, faults.recordFails)), Redirect(cached.value))
    else if faults.readFails then Outcome(s, Failed(Backend))
    else if code !in s.rows then Outcome(s, Failed(NotFound))
    else
      var link := s.rows[code];
      if IsExpired(link.expiresAt, now) then
        Outcome(Store(if faults.purgeFails then s.rows else s.rows - {code},
                      WithoutEntry(s.entries, code, faults.deleteLost)),
                Failed(NotFound))
      else
        var ttl := CacheTtl(link.expiresAt, now);
        Outcome(Store(Counted(s.rows, code, faults.recordFails),
                      if ttl > 0 then WithEntry(kind, s.entries, code, link.target, ttl, at, faults.setLost)
                      else s.entries),
                Redirect(link.target))
  }

  function DoGet(s: Store, at: Instant, code: bytes, faults: Faults): Outcome {
    if !ValidKey(code) then Outcome(s, Failed(NotFound))
    else if faults.readFails then Outcome(s, Failed(Backend))
    else if code !in s.rows then Outcome(s, Failed(NotFound))
    else if IsExpired(s.rows[code].expiresAt, Seconds(at)) then
      Outcome(s.(rows := if faults.purgeFails then s.rows else s.rows - {code}), Failed(NotFound))
    else Outcome(s, Shown(s.rows[code]))
  }

  function DoDelete(s: Store, code: bytes, faults: Faults): Outcome {
    if !ValidKey(code) then Outcome(s, Failed(NotFound))
    else if faults.deleteFails then Outcome(s, Failed(Backend))
    else
      Outcome(Store(s.rows - {code}, WithoutEntry(s.entries, code, faults.deleteLost)),
              if code in s.rows then Removed else Failed(NotFound))
  }

  /* ---------- the service ---------- */

  /** The actor of url-shortener/src/infrastructure/memory.rs, one command at a time. */
  class LinkRepository {
    var links: Rows

    constructor ()
      ensures links == map[]
    {
      links := map[];
    }

    method Insert(link: Link) returns (inserted: bool)
      modifies this
      ensures inserted == (link.code !in old(links))
      ensures links == if inserted then old(links)[link.code := link] else old(links)
    {
      inserted := link.code !in links;
      if inserted {
        links := links[link.code := link];
      }
    }

    method Get(code: Key) returns (link: Option<Link>)
      ensures link == if code in links then Some(links[code]) else None
    {
      return if code in links then Some(links[code]) else None;
    }

    method IncrementBy(code: Key, n: nat) returns (updated: bool)
      modifies this
      ensures updated == (code in old(links))
      ensures links == if updated then old(links)[code := old(links)[code].(hits := old(links)[code].hits + n)]
                else old(links)
    {
      updated := code in links;
      if updated {
        var link := links[code];
        links := links[code := link.(hits := link.hits + n)];
      }
    }

    method Delete(code: Key) returns (removed: bool)
      modifies this
      ensures removed == (code in old(links)) && links == old(links) - {code}
    {
      removed := code in links;
      links := links - {code};
    }
  }

  class LinkService {
    const repo: LinkRepository
    const cache: Cache<bytes>
    const blockedHosts: seq<bytes>

    constructor (repo: LinkRepository, cache: Cache<bytes>, blockedHosts: seq<bytes>)
      ensures this.repo == repo && this.cache == cache && this.blockedHosts == blockedHosts
    {
      this.repo, this.cache, this.blockedHosts := repo, cache, blockedHosts;
    }

    ghost function Contents(): Store
      reads repo, cache
    {
      Store(repo.links, cache.entries)
    }

    method Create(at: Instant, url: Url, alias: Option<bytes>, ttl: Option<u64>, draws: Draws, faults: Faults)
      returns (reply: Reply)
      modifies repo
      ensures Outcome(Contents(), reply) == DoCreate(blockedHosts, old(Contents()), at, url, alias, ttl, draws, faults)
    {
      if url.Rejected? {
        return Failed(Invalid(url.reason));
      }
      if IsBlocked(blockedHosts, url.host) {
        return Failed(Blocked);
      }
      var now := Seconds(at);
      var expiresAt := ExpiryOf(now, ttl);
      if alias.Some? {
        if CodeError(alias.value).Some? {
          return Failed(Invalid(CodeError(alias.value).value));
        }
        assert Place(repo.links.Keys, [alias.value], 1, faults.insertFails) == NoneFree;
        if 0 in faults.insertFails {
          return Failed(Backend);
        }
        var link := Link(alias.value, url.text, now, 0, expiresAt);
        var inserted := repo.Insert(link);
        return if inserted then Created(link) else Failed(Conflict);
      }
      ghost var s := Contents();
      for k := 0 to MAX_GENERATION_ATTEMPTS
        invariant Contents() == s
        invariant Place(s.rows.Keys, draws, k, faults.insertFails) == Place(s.rows.Keys, draws, 0, faults.insertFails)
      {
        if k in faults.insertFails {
          return Failed(Backend);
        }
        var link := Link(draws[k], url.text, now, 0, expiresAt);
        var inserted := repo.Insert(link);
        if inserted {
          return Created(link);
        }
      }
      return Failed(Conflict);
    }

    method Resolve(at: Instant, code: bytes, faults: Faults) returns (reply: Reply)
      modifies repo, cache
      ensures Outcome(Contents(), reply) == DoResolve(cache.kind, old(Contents()), at, code, faults)
    {
      if !ValidKey(code) {
        return Failed(NotFound);
      }
      var cached := cache.Get(code, at, faults.miss);
      if cached.Some? {
        Record(code, faults);
        return Redirect(cached.value);
      }
      if faults.readFails {
        return Failed(Backend);
      }
      var row := repo.Get(code);
      if row.None? {
        return Failed(NotFound);
      }
      var now, link := Seconds(at), row.value;
      if IsExpired(link.expiresAt, now) {
        if !faults.purgeFails {
          var _ := repo.Delete(code);
        }
        cache.Delete(code, faults.deleteLost);
        return Failed(NotFound);
      }
      var ttl := CacheTtl(link.expiresAt, now);
      if ttl > 0 {
        cache.Set(code, link.target, ttl, at, faults.setLost);
      }
      Record(code, faults);
      return Redirect(link.target);
    }

    /** `ImmediateHitRecorder::record`. */
    method Record(code: Key, faults: Faults)
      modifies repo
      ensures repo.links == Counted(old(repo.links), code, faults.recordFails)
    {
      if !faults.recordFails {
        var _ := repo.IncrementBy(code, 1);
      }
    }

    method Get(at: Instant, code: bytes, faults: Faults) returns (reply: Reply)
      modifies repo
      ensures Outcome(Contents(), reply) == DoGet(old(Contents()), at, code, faults)
    {
      if !ValidKey(code) {
        return Failed(NotFound);
      }
      if faults.readFails {
        return Failed(Backend);
      }
      var row := repo.Get(code);
      if row.None? {
        return Failed(NotFound);
      }
      if IsExpired(row.value.expiresAt, Seconds(at)) {
        if !faults.purgeFails {
          var _ := repo.Delete(code);
        }
        return Failed(NotFound);
      }
      return Shown(row.value);
    }

    method Delete(code: bytes, faults: Faults) returns (reply: Reply)
      modifies repo, cache
      ensures Outcome(Contents(), reply) == DoDelete(old(Contents()), code, faults)
    {
      if !ValidKey(code) {
        return Failed(NotFound);
      }
      if faults.deleteFails {
        return Failed(Backend);
      }
      var removed := repo.Delete(code);
      cache.Delete(code, faults.deleteLost);
      return if removed then Removed else Failed(NotFound);
    }
  }

  /* ---------- histories ---------- */

  datatype Op =
    | Create(url: Url, alias: Option<bytes>, ttl: Option<u64>, draws: Draws)
    | Resolve(code: bytes) | Get(code: bytes) | Delete(code: bytes)

  datatype Event = Event(at: Instant, op: Op, faults: Faults)

  function Step(kind: Kind, blocked: seq<bytes>, s: Store, e: Event): Outcome {
    match e.op
    case Create(url, alias, ttl, draws) => DoCreate(blocked, s, e.at, url, alias, ttl, draws, e.faults)
    case Resolve(code) => DoResolve(kind, s, e.at, code, e.faults)
    case Get(code) => DoGet(s, e.at, code, e.faults)
    case Delete(code) => DoDelete(s, code, e.faults)
  }

  datatype History = History(store: Store, replies: seq<Reply>)

  /** Every operation in turn, from an empty repository and an empty cache. */
  function Exec(kind: Kind, blocked: seq<bytes>, events: seq<Event>): History {
    if events == [] then History(Store(map[], map[]), [])
    else
      var h := Exec(kind, blocked, events[..|events| - 1]);
      var o := Step(kind, blocked, h.store, events[|events| - 1]);
      History(o.store, h.replies + [o.reply])
  }

  /** What may happen in a history: links with a time to live, cache invalidations that do not arrive, and operations
      between two whole seconds. */
  datatype Policy = Policy(ttls: bool, lostDeletes: bool, subSeconds: bool)

  /** The clock does not run backwards, redirects find the database up, and the policy is kept. */
  predicate Admissible(policy: Policy, events: seq<Event>) {
    && (forall i, j :: 0 <= i <= j < |events| ==> events[i].at <= events[j].at)
    && (forall i :: 0 <= i < |events| ==> Permitted(policy, events[i]))
  }

  predicate Permitted(policy: Policy, e: Event) {
    && (e.op.Create? && e.op.ttl.Some? ==> policy.ttls)
    && (e.faults.deleteLost ==> policy.lostDeletes)
    && (e.at != SECOND * Seconds(e.at) ==> policy.subSeconds)
    && (e.op.Resolve? ==> !e.faults.readFails)
  }

  /** Clients and the database cannot tell the cache from no cache at all. */
  predicate Invisible(kind: Kind, blocked: seq<bytes>, events: seq<Event>) {
    var h, plain := Exec(kind, blocked, events), Exec(NoOp, blocked, events);
    h.replies == plain.replies && h.store.rows == plain.store.rows
  }

  /* ---------- the cache is invisible ---------- */

  /** Every live entry stands for a row with the same target, and dies no later than the row. */
  predicate Coherent(kind: Kind, s: Store, at: nat) {
    && (kind.NoOp? ==> s.entries == map[])
    && (forall c :: c in s.entries && Live(kind, s.entries[c], at) ==>
          && c in s.rows && s.rows[c].target == s.entries[c].value
          && Outlives(kind, s.rows[c].expiresAt, s.entries[c].deadline))
  }

  predicate Outlives(kind: Kind, expiresAt: Option<int>, deadline: Option<nat>) {
    expiresAt.None? || (kind.Redis? && deadline.Some? && deadline.value <= SECOND * expiresAt.value)
  }

  /** Without times to live no row expires. */
  predicate Lasting(policy: Policy, s: Store) { !policy.ttls ==> forall c :: c in s.rows ==> s.rows[c].expiresAt.None? }

  /** When the cache may be trusted: invalidations arrive, and no row expires or entries live and die by the second
      too. */
  predicate Trustworthy(kind: Kind, policy: Policy) {
    kind.NoOp? || (!policy.lostDeletes && (!policy.ttls || (kind.Redis? && !policy.subSeconds)))
  }

  /** An insert leaves the rows that were there and the cache, and adds at most one row, under a free code. */
  predicate AddsAtMost(s: Store, o: Outcome, now: Clock, ttl: Option<u64>) {
    && o.store.entries == s.entries
    && match o.reply
       case Created(link) =>
         && link.code !in s.rows && link.expiresAt == ExpiryOf(now, ttl) && link.hits == 0
         && o.store.rows == s.rows[link.code := link]
       case Failed(_) => o.store.rows == s.rows
       case _ => false
  }

  lemma CreateAdds(blocked: seq<bytes>, s: Store, at: Instant, url: Url, alias: Option<bytes>, ttl: Option<u64>,
                   draws: Draws, faults: Faults)
    ensures AddsAtMost(s, DoCreate(blocked, s, at, url, alias, ttl, draws, faults), Seconds(at), ttl)
  {
    hide Place, IsBlocked, CodeError, ExpiryOf, Seconds;
  }

  /** Creating a link looks at the rows alone. */
  lemma CreateAlike(blocked: seq<bytes>, s: Store, t: Store, e: Event)
    requires s.rows == t.rows && e.op.Create?
    ensures var a, b := Step(NoOp, blocked, s, e), Step(NoOp, blocked, t, e);
            a.reply == b.reply && a.store.rows == b.store.rows
  {
    hide Place, IsBlocked, CodeError, ExpiryOf;
  }

  lemma CreateKeeps(kind: Kind, policy: Policy, blocked: seq<bytes>, s: Store, e: Event)
    requires e.op.Create? && Permitted(policy, e) && Coherent(kind, s, e.at) && Lasting(policy, s)
    ensures Coherent(kind, Step(kind, blocked, s, e).store, e.at) && Lasting(policy, Step(kind, blocked, s, e).store)
  {
    CreateAdds(blocked, s, e.at, e.op.url, e.op.alias, e.op.ttl, e.op.draws, e.faults);
    hide DoCreate;
  }

  /** Counting a hit changes no target and no expiry. */
  lemma CountedKeeps(kind: Kind, policy: Policy, s: Store, at: Instant, code: Key, fails: bool)
    requires Coherent(kind, s, at) && Lasting(policy, s)
    ensures var t := s.(rows := Counted(s.rows, code, fails)); Coherent(kind, t, at) && Lasting(policy, t)
  {
  }

  lemma ResolveKeeps(kind: Kind, policy: Policy, s: Store, at: Instant, code: bytes, faults: Faults)
    requires Trustworthy(kind, policy) && (faults.deleteLost ==> policy.lostDeletes)
    requires at != SECOND * Seconds(at) ==> policy.subSeconds
    requires Coherent(kind, s, at) && Lasting(policy, s)
    ensures var t := DoResolve(kind, s, at, code, faults).store; Coherent(kind, t, at) && Lasting(policy, t)
  {
    CountedKeeps(kind, policy, s, at, code, faults.recordFails);
    hide ValidKey, Seconds;
    if code in s.rows && !IsExpired(s.rows[code].expiresAt, Seconds(at)) {
      hide Coherent, Lasting, Trustworthy, DeadlineOf;
      var counted := s.(rows := Counted(s.rows, code, faults.recordFails));
      SetKeeps(kind, policy, counted, at, code, s.rows[code].target, faults.setLost);
    }
  }

  lemma SetKeeps(kind: Kind, policy: Policy, s: Store, at: Instant, code: Key, target: bytes, lost: bool)
    requires Trustworthy(kind, policy) && Coherent(kind, s, at) && Lasting(policy, s)
    requires at != SECOND * Seconds(at) ==> policy.subSeconds
    requires code in s.rows && s.rows[code].target == target && !IsExpired(s.rows[code].expiresAt, Seconds(at))
    ensures var ttl := CacheTtl(s.rows[code].expiresAt, Seconds(at));
            var t := s.(entries := WithEntry(kind, s.entries, code, target, ttl, at, lost));
            Coherent(kind, t, at) && Lasting(policy, t)
  {
    hide Seconds;
  }

  lemma StepKeeps(kind: Kind, policy: Policy, blocked: seq<bytes>, s: Store, e: Event)
    requires Trustworthy(kind, policy) && Permitted(policy, e) && Coherent(kind, s, e.at) && Lasting(policy, s)
    ensures Coherent(kind, Step(kind, blocked, s, e).store, e.at) && Lasting(policy, Step(kind, blocked, s, e).store)
  {
    hide ValidKey, DoCreate, DoResolve;
    match e.op
    case Create(_, _, _, _) => CreateKeeps(kind, policy, blocked, s, e);
    case Resolve(code) => ResolveKeeps(kind, policy, s, e.at, code, e.faults);
    case _ =>
  }

  /** A step answers and changes the rows as it would without a cache. */
  lemma StepAlike(kind: Kind, policy: Policy, blocked: seq<bytes>, s: Store, plain: Store, e: Event)
    requires Permitted(policy, e) && Coherent(kind, s, e.at) && s.rows == plain.rows
    ensures var a, b := Step(kind, blocked, s, e), Step(NoOp, blocked, plain, e);
            a.reply == b.reply && a.store.rows == b.store.rows
  {
    hide ValidKey, DoCreate, DoResolve;
    match e.op
    case Create(_, _, _, _) => CreateAlike(blocked, s, plain, e);
    case Resolve(code) => ResolveAlike(kind, s, plain, e.at, code, e.faults);
    case _ =>
  }

  lemma ResolveAlike(kind: Kind, s: Store, plain: Store, at: Instant, code: bytes, faults: Faults)
    requires Coherent(kind, s, at) && s.rows == plain.rows && !faults.readFails
    ensures var a, b := DoResolve(kind, s, at, code, faults), DoResolve(NoOp, plain, at, code, faults);
            a.reply == b.reply && a.store.rows == b.store.rows
  {
    hide ValidKey, Counted, WithEntry, WithoutEntry, Seconds;
  }

  lemma CoherentLater(kind: Kind, s: Store, at: nat, later: nat)
    requires at <= later && Coherent(kind, s, at)
    ensures Coherent(kind, s, later)
  {
  }

  lemma {:induction false} TrustedCacheInvisible(kind: Kind, policy: Policy, blocked: seq<bytes>, events: seq<Event>)
    requires Trustworthy(kind, policy) && Admissible(policy, events)
    ensures Invisible(kind, blocked, events)
    ensures Lasting(policy, Exec(kind, blocked, events).store)
    ensures Coherent(kind, Exec(kind, blocked, events).store, if events == [] then 0 else events[|events| - 1].at)
    decreases |events|
  {
    hide Coherent, Lasting, Step, Permitted;
    if events == [] {
      EmptyCoherent(kind, policy);
    } else {
      var n := |events| - 1;
      var before, e := events[..n], events[n];
      TrustedCacheInvisible(kind, policy, blocked, before);
      var s := Exec(kind, blocked, before).store;
      CoherentLater(kind, s, if n == 0 then 0 else before[n - 1].at, e.at);
      StepKeeps(kind, policy, blocked, s, e);
      StepAlike(kind, policy, blocked, s, Exec(NoOp, blocked, before).store, e);
    }
  }

  lemma EmptyCoherent(kind: Kind, policy: Policy)
    ensures Coherent(kind, Store(map[], map[]), 0) && Lasting(policy, Store(map[], map[]))
  {
  }

  /* ---------- and when it is not ---------- */

  function Code(): Key { "a" }
  function Text(): bytes { "b" }
  function NoFaults(): Faults { Faults({}, false, false, false, false, false, false, false) }

  function Make(ttl: Option<u64>): Event {
    Event(0, Create(Target(Text(), None), Some(Code()), ttl, [[], [], [], [], []]), NoFaults())
  }

  function Visit(at: Instant): Event { Event(at, Resolve(Code()), NoFaults()) }

  /** An invalidation that does not arrive. */
  function DeleteLost(): Event { Event(0, Delete(Code()), NoFaults().(deleteLost := true)) }

  lemma ExecOne(kind: Kind, blocked: seq<bytes>, events: seq<Event>, e: Event)
    ensures var h := Exec(kind, blocked, events);
            var o := Step(kind, blocked, h.store, e);
            Exec(kind, blocked, events + [e]) == History(o.store, h.replies + [o.reply])
  {
    hide Step;
    assert (events + [e])[..|events|] == events;
  }

  /** A link that was made and visited once, within its first second. */
  lemma Visited(kind: Kind, blocked: seq<bytes>, ttl: Option<u64>, at: Instant)
    requires at < SECOND && (ttl.Some? ==> 0 < ttl.value <= MAX_CACHE_TTL_SECS)
    ensures var s := Exec(kind, blocked, [Make(ttl), Visit(at)]).store;
            && s.rows == map[Code() := Link(Code(), Text(), 0, 1, ttl)]
            && s.entries == if kind.NoOp? then map[]
                            else map[Code() := Entry(Text(), Some(at + SECOND * Or(ttl, MAX_CACHE_TTL_SECS)))]
  {
    assert [] + [Make(ttl)] == [Make(ttl)] && [Make(ttl)] + [Visit(at)] == [Make(ttl), Visit(at)];
    assert Seconds(0) == 0 && Seconds(at) == 0;
    ExecOne(kind, blocked, [], Make(ttl));
    ExecOne(kind, blocked, [Make(ttl)], Visit(at));
    hide Exec, Code, Text, Seconds;
    assert ValidKey(Code()) by { CodeIsValid(); }
  }

  lemma CodeIsValid()
    ensures ValidKey(Code())
  {
  }

  lemma TwoMore(kind: Kind, blocked: seq<bytes>, a: Event, b: Event, c: Event, d: Event)
    ensures var h := Exec(kind, blocked, [a, b]);
            var o := Step(kind, blocked, h.store, c);
            var q := Step(kind, blocked, o.store, d);
            Exec(kind, blocked, [a, b, c]).replies == h.replies + [o.reply] &&
            Exec(kind, blocked, [a, b, c, d]).replies == h.replies + [o.reply] + [q.reply]
  {
    hide Step, Exec;
    assert [a, b] + [c] == [a, b, c] && [a, b, c] + [d] == [a, b, c, d];
    ExecOne(kind, blocked, [a, b], c);
    ExecOne(kind, blocked, [a, b, c], d);
  }

  /** A deleted link whose invalidation was lost still redirects. */
  lemma LostDeleteShows(kind: Kind, blocked: seq<bytes>)
    requires !kind.NoOp?
    ensures !Invisible(kind, blocked, [Make(None), Visit(0), DeleteLost(), Visit(0)])
  {
    forall k: Kind { Visited(k, blocked, None, 0); }
    forall k: Kind { TwoMore(k, blocked, Make(None), Visit(0), DeleteLost(), Visit(0)); }
    CodeIsValid();
    hide Exec, Code, Text;
    var last := [Make(None), Visit(0), DeleteLost(), Visit(0)];
    var cached, plain := Exec(kind, blocked, last).replies, Exec(NoOp, blocked, last).replies;
    assert cached[|cached| - 1] == Redirect(Text()) && plain[|plain| - 1] == Failed(NotFound);
  }

  /** A link that lasts ten seconds, visited once within its first second and once more, later. */
  function Late(first: Instant, second: Instant): seq<Event> { [Make(Some(10)), Visit(first), Visit(second)] }

  /** An entry that is still live in the eleventh second redirects past the expiry. */
  lemma LiveEntryShows(kind: Kind, blocked: seq<bytes>, first: Instant, second: Instant)
    requires first < SECOND && Seconds(second) == 10
    requires kind.InMemory? || (kind.Redis? && second < first + 10 * SECOND)
    ensures !Invisible(kind, blocked, Late(first, second))
  {
    forall k: Kind { Visited(k, blocked, Some(10), first); }
    forall k: Kind { TwoMore(k, blocked, Make(Some(10)), Visit(first), Visit(second), Visit(second)); }
    CodeIsValid();
    hide Exec, Code, Text, Seconds;
    var events := Late(first, second);
    var cached, plain := Exec(kind, blocked, events).replies, Exec(NoOp, blocked, events).replies;
    assert cached[|cached| - 1] == Redirect(Text()) && plain[|plain| - 1] == Failed(NotFound);
  }

  /** A cache that ignores the time to live redirects past the expiry. */
  lemma OutlivedEntryShows(blocked: seq<bytes>)
    ensures !Invisible(InMemory, blocked, Late(0, 10 * SECOND))
  {
    LiveEntryShows(InMemory, blocked, 0, 10 * SECOND);
  }

  /** So does one that honours it, if it was set between two whole seconds: the expiry is in whole seconds, but the
      entry's time runs from the instant of the set. */
  lemma SubSecondShows(blocked: seq<bytes>)
    ensures !Invisible(Redis, blocked, Late(SECOND - 1, 11 * SECOND - 2))
  {
    LiveEntryShows(Redis, blocked, SECOND - 1, 11 * SECOND - 2);
  }

  /** Main theorem: on every admissible history all replies and all rows, hit counts included, are those of the
      service without a cache, exactly when there is no cache, or invalidations arrive and either no link has a time
      to live, or the cache honours it and all happens on whole seconds. */
  lemma CacheInvisible(kind: Kind, policy: Policy, blocked: seq<bytes>)
    ensures (forall events :: Admissible(policy, events) ==> Invisible(kind, blocked, events))
              <==> Trustworthy(kind, policy)
  {
    hide Invisible;
    if Trustworthy(kind, policy) {
      forall events | Admissible(policy, events) ensures Invisible(kind, blocked, events) {
        TrustedCacheInvisible(kind, policy, blocked, events);
      }
    } else if policy.lostDeletes {
      LostDeleteShows(kind, blocked);
      assert Admissible(policy, [Make(None), Visit(0), DeleteLost(), Visit(0)]);
    } else if kind.InMemory? {
      OutlivedEntryShows(blocked);
      assert Admissible(policy, Late(0, 10 * SECOND));
    } else {
      SubSecondShows(blocked);
      assert Admissible(policy, Late(SECOND - 1, 11 * SECOND - 2));
    }
  }

  /* ---------- how late a redirect can be ---------- */

  /** A target that was promised under a code, and until when. */
  datatype Promise = Promise(target: bytes, expiresAt: Option<int>)

  /** The links made under `code` since it was last deleted. */
  function Promised(kind: Kind, blocked: seq<bytes>, events: seq<Event>, code: Key): set<Promise> {
    if events == [] then {}
    else
      var n := |events| - 1;
      var before, e := events[..n], events[n];
      var r := Step(kind, blocked, Exec(kind, blocked, before).store, e).reply;
      if e.op == Delete(code) && ValidKey(code) && !e.faults.deleteFails then {}
      else if r.Created? && r.link.code == code then
        Promised(kind, blocked, before, code) + {Promise(r.link.target, r.link.expiresAt)}
      else Promised(kind, blocked, before, code)
  }

  /** The promise covers an entry, but for less than the last second of it. */
  predicate Covers(p: Promise, value: bytes, deadline: Option<nat>) {
    && p.target == value
    && (p.expiresAt.Some? ==> deadline.Some? && deadline.value < SECOND * (p.expiresAt.value + 1))
  }

  /** The row of `code` and its cached target both go back to promises that stand. */
  predicate Backed(s: Store, code: Key, promises: set<Promise>) {
    && (code in s.rows ==> Promise(s.rows[code].target, s.rows[code].expiresAt) in promises)
    && (code in s.entries ==> exists p :: p in promises && Covers(p, s.entries[code].value, s.entries[code].deadline))
  }

  lemma ResolveBacked(s: Store, at: Instant, asked: bytes, faults: Faults, code: Key, promises: set<Promise>)
    requires Backed(s, code, promises) && !faults.deleteLost
    ensures Backed(DoResolve(Redis, s, at, asked, faults).store, code, promises)
  {
    hide ValidKey;
    if asked == code && code in s.rows && !IsExpired(s.rows[code].expiresAt, Seconds(at)) {
      var p := Promise(s.rows[code].target, s.rows[code].expiresAt);
      SetCovered(p, at);
      hide CacheTtl, DeadlineOf, Seconds;
    }
  }

  /** The time to live is what is left in whole seconds; up to a second less may really be left. */
  lemma SetCovered(p: Promise, at: Instant)
    requires !IsExpired(p.expiresAt, Seconds(at))
    ensures CacheTtl(p.expiresAt, Seconds(at)) > 0
    ensures Covers(p, p.target, DeadlineOf(at, CacheTtl(p.expiresAt, Seconds(at))))
  {
    hide Seconds;
  }

  lemma StepBacked(blocked: seq<bytes>, s: Store, e: Event, code: Key, promises: set<Promise>)
    requires Backed(s, code, promises) && !e.faults.deleteLost
    ensures var o := Step(Redis, blocked, s, e);
            Backed(o.store, code,
                   if e.op == Delete(code) && ValidKey(code) && !e.faults.deleteFails then {}
                   else if o.reply.Created? && o.reply.link.code == code
                   then promises + {Promise(o.reply.link.target, o.reply.link.expiresAt)} else promises)
  {
    match e.op
    case Create(url, alias, ttl, draws) =>
      CreateAdds(blocked, s, e.at, url, alias, ttl, draws, e.faults);
      hide DoCreate, Covers;
    case Resolve(asked) => ResolveBacked(s, e.at, asked, e.faults, code, promises);
    case Get(asked) => hide ValidKey, Covers;
    case Delete(asked) =>
      hide Covers;
      DeleteBacked(s, asked, e.faults, code, promises);
  }

  lemma DeleteBacked(s: Store, asked: bytes, faults: Faults, code: Key, promises: set<Promise>)
    requires Backed(s, code, promises) && !faults.deleteLost
    ensures Backed(DoDelete(s, asked, faults).store, code,
                   if asked == code && ValidKey(code) && !faults.deleteFails then {} else promises)
  {
    hide ValidKey, Covers;
  }

  lemma {:induction false} AlwaysBacked(blocked: seq<bytes>, events: seq<Event>, code: Key)
    requires forall i :: 0 <= i < |events| ==> !events[i].faults.deleteLost
    ensures Backed(Exec(Redis, blocked, events).store, code, Promised(Redis, blocked, events, code))
    decreases |events|
  {
    hide Step, Backed, ValidKey;
    if events == [] {
      assert Backed(Store(map[], map[]), code, {}) by { NothingBacked(code); }
    } else {
      var n := |events| - 1;
      AlwaysBacked(blocked, events[..n], code);
      var s, promises := Exec(Redis, blocked, events[..n]).store, Promised(Redis, blocked, events[..n], code);
      StepBacked(blocked, s, events[n], code, promises);
    }
  }

  lemma NothingBacked(code: Key)
    ensures Backed(Store(map[], map[]), code, {})
  {
  }

  /** At any resolution of the clock: with a cache that honours the time to live and invalidations that arrive, a
      request redirects only to a target that was promised under its code since the code was last deleted, and less
      than a second after that promise ran out. A code that was deleted and not made again does not redirect at
      all. */
  lemma RedirectsNotLate(blocked: seq<bytes>, events: seq<Event>, e: Event, t: bytes)
    requires forall i :: 0 <= i < |events| ==> !events[i].faults.deleteLost
    requires e.op.Resolve? && Step(Redis, blocked, Exec(Redis, blocked, events).store, e).reply == Redirect(t)
    ensures exists p :: p in Promised(Redis, blocked, events, e.op.code) && p.target == t
                        && (p.expiresAt.Some? ==> e.at + 1 < SECOND * (p.expiresAt.value + 1))
  {
    var s, code := Exec(Redis, blocked, events).store, e.op.code;
    AlwaysBacked(blocked, events, code);
    var promises := Promised(Redis, blocked, events, code);
    hide Exec, Promised, ValidKey;
    BackedNotLate(s, e.at, code, e.faults, t, promises);
  }

  lemma BackedNotLate(s: Store, at: Instant, code: Key, faults: Faults, t: bytes, promises: set<Promise>)
    requires Backed(s, code, promises) && DoResolve(Redis, s, at, code, faults).reply == Redirect(t)
    ensures exists p :: p in promises && p.target == t
              && (p.expiresAt.Some? ==> at + 1 < SECOND * (p.expiresAt.value + 1))
  {
    hide ValidKey, Seconds;
    if Lookup(Redis, s.entries, code, at, faults.miss).Some? {
      var p :| p in promises && Covers(p, s.entries[code].value, s.entries[code].deadline);
      assert p in promises && p.target == t;
    } else {
      var p := Promise(s.rows[code].target, s.rows[code].expiresAt);
      assert p in promises && p.target == t;
    }
  }

  /** The second is exact: a redirect comes one millisecond before it is over. */
  lemma LastMoment(blocked: seq<bytes>)
    ensures var events, e := [Make(Some(10)), Visit(SECOND - 1)], Visit(11 * SECOND - 2);
            && Step(Redis, blocked, Exec(Redis, blocked, events).store, e).reply == Redirect(Text())
            && Promised(Redis, blocked, events, Code()) == {Promise(Text(), Some(10))}
            && e.at + 2 == SECOND * (10 + 1)
  {
    Visited(Redis, blocked, Some(10), SECOND - 1);
    CodeIsValid();
    hide Code, Text;
    var events := [Make(Some(10)), Visit(SECOND - 1)];
    assert events[..1] == [Make(Some(10))] && events[..1][..0] == [];
    assert Exec(Redis, blocked, []) == History(Store(map[], map[]), []);
    assert Promised(Redis, blocked, [Make(Some(10))], Code()) == {Promise(Text(), Some(10))};
  }

  /* ---------- what a redirect means ---------- */

  /** A request redirects to `t` exactly when the code is well-formed and its row is alive with target `t`; it counts
      one hit on that row and changes no other. */
  lemma RedirectsToLiveRow(kind: Kind, policy: Policy, blocked: seq<bytes>, events: seq<Event>, e: Event, t: bytes)
    requires Trustworthy(kind, policy) && e.op.Resolve? && Admissible(policy, events + [e])
    ensures var s := Exec(kind, blocked, events).store;
            var o, c := Step(kind, blocked, s, e), e.op.code;
            && (o.reply == Redirect(t) <==>
                  ValidKey(c) && c in s.rows && !IsExpired(s.rows[c].expiresAt, Seconds(e.at)) && s.rows[c].target == t)
            && (o.reply == Redirect(t) ==> o.store.rows == Counted(s.rows, c, e.faults.recordFails))
  {
    var s := Exec(kind, blocked, events).store;
    assert (events + [e])[..|events|] == events && (events + [e])[|events|] == e;
    assert Admissible(policy, events) by {
      assert forall i :: 0 <= i < |events| ==> events[i] == (events + [e])[i];
    }
    assert Permitted(policy, e);
    TrustedCacheInvisible(kind, policy, blocked, events);
    if events != [] {
      assert events[|events| - 1] == (events + [e])[|events| - 1];
    }
    CoherentLater(kind, s, if events == [] then 0 else events[|events| - 1].at, e.at);
    hide Exec, ValidKey, Admissible;
    StepAlike(kind, policy, blocked, s, s, e);
  }

  /** The rows that have not expired. */
  function LiveRows(rows: Rows, at: Instant): Rows {
    map c | c in rows && !IsExpired(rows[c].expiresAt, Seconds(at)) :: rows[c]
  }

  /** Lazy purging is invisible to lookups: they answer from the live rows alone and change live rows alone, so that an
      expired row that was purged and one that was not cannot be told apart. */
  lemma LookupsSeeLiveRows(blocked: seq<bytes>, s: Store, t: Store, e: Event)
    requires (e.op.Resolve? || e.op.Get?) && LiveRows(s.rows, e.at) == LiveRows(t.rows, e.at)
    ensures var a, b := Step(NoOp, blocked, s, e), Step(NoOp, blocked, t, e);
            a.reply == b.reply && LiveRows(a.store.rows, e.at) == LiveRows(b.store.rows, e.at)
  {
    var c := e.op.code;
    assert c in LiveRows(s.rows, e.at) <==> c in LiveRows(t.rows, e.at);
    assert c in LiveRows(s.rows, e.at) ==> s.rows[c] == LiveRows(s.rows, e.at)[c] == t.rows[c];
    LiveAfterLookup(blocked, s, e);
    LiveAfterLookup(blocked, t, e);
    hide ValidKey, LiveRows, Counted;
  }

  /** A lookup counts a hit on a live row, or leaves all live rows alone. */
  lemma LiveAfterLookup(blocked: seq<bytes>, s: Store, e: Event)
    requires e.op.Resolve? || e.op.Get?
    ensures var o, live := Step(NoOp, blocked, s, e), LiveRows(s.rows, e.at);
            LiveRows(o.store.rows, e.at)
            == if o.reply.Redirect? then Counted(live, e.op.code, e.faults.recordFails) else live
  {
    hide ValidKey;
  }

  /** No link is made under `code`. */
  predicate NotMade(kind: Kind, blocked: seq<bytes>, s: Store, e: Event, code: Key) {
    var r := Step(kind, blocked, s, e).reply;
    r.Created? ==> r.link.code != code
  }

  /** A link that is gone, deleted or purged, stays gone until it is made again: meanwhile no history of operations
      redirects to it or shows it. */
  lemma {:induction false} GoneStaysGone(kind: Kind, policy: Policy, blocked: seq<bytes>, events: seq<Event>,
                                         n: nat, code: Key)
    requires Trustworthy(kind, policy) && Admissible(policy, events) && n <= |events|
    requires code !in Exec(kind, blocked, events[..n]).store.rows
    requires forall i :: n <= i < |events| ==>
               NotMade(kind, blocked, Exec(kind, blocked, events[..i]).store, events[i], code)
    ensures code !in Exec(kind, blocked, events).store.rows
    ensures n < |events| && events[|events| - 1].op in {Resolve(code), Get(code)} ==>
              var r := Exec(kind, blocked, events).replies; r != [] && r[|r| - 1].Failed?
    decreases |events|
  {
    hide Exec, Permitted, NotMade;
    if n == |events| {
      assert events[..n] == events;
    } else {
      var before := events[..|events| - 1];
      assert before[..n] == events[..n];
      forall i | n <= i < |before|
        ensures NotMade(kind, blocked, Exec(kind, blocked, before[..i]).store, before[i], code)
      {
        assert before[..i] == events[..i];
      }
      GoneStaysGone(kind, policy, blocked, before, n, code);
      AbsentNext(kind, policy, blocked, events, code);
    }
  }

  lemma AbsentNext(kind: Kind, policy: Policy, blocked: seq<bytes>, events: seq<Event>, code: Key)
    requires Trustworthy(kind, policy) && Admissible(policy, events) && events != []
    requires var s := Exec(kind, blocked, events[..|events| - 1]).store;
             code !in s.rows && NotMade(kind, blocked, s, events[|events| - 1], code)
    ensures var h, e := Exec(kind, blocked, events), events[|events| - 1];
            && code !in h.store.rows
            && (e.op in {Resolve(code), Get(code)} ==> h.replies != [] && h.replies[|h.replies| - 1].Failed?)
  {
    hide Step, Permitted, Coherent, NotMade;
    var m := |events| - 1;
    var before := events[..m];
    TrustedCacheInvisible(kind, policy, blocked, before);
    CoherentLater(kind, Exec(kind, blocked, before).store, if m == 0 then 0 else before[m - 1].at, events[m].at);
    AbsentStep(kind, blocked, Exec(kind, blocked, before).store, events[m], code);
  }

  lemma AbsentStep(kind: Kind, blocked: seq<bytes>, s: Store, e: Event, code: Key)
    requires Coherent(kind, s, e.at) && code !in s.rows && NotMade(kind, blocked, s, e, code)
    ensures var o := Step(kind, blocked, s, e);
            code !in o.store.rows && (e.op in {Resolve(code), Get(code)} ==> o.reply.Failed?)
  {
    hide ValidKey, Place, IsBlocked, CodeError, ExpiryOf;
  }

  /** Redirects of `code` counted since its row was last made. */
  function Redirects(kind: Kind, blocked: seq<bytes>, events: seq<Event>, code: Key): nat {
    if events == [] then 0
    else
      var n := |events| - 1;
      var before, e := events[..n], events[n];
      var o := Step(kind, blocked, Exec(kind, blocked, before).store, e);
      if o.reply.Created? && o.reply.link.code == code then 0
      else if e.op == Resolve(code) && o.reply.Redirect? && !e.faults.recordFails then
        Redirects(kind, blocked, before, code) + 1
      else Redirects(kind, blocked, before, code)
  }

  lemma StepCounts(kind: Kind, blocked: seq<bytes>, s: Store, e: Event, code: Key)
    ensures var o := Step(kind, blocked, s, e);
            code in o.store.rows ==>
              if o.reply.Created? && o.reply.link.code == code then o.store.rows[code].hits == 0
              else code in s.rows && o.store.rows[code].hits == s.rows[code].hits +
                     if e.op == Resolve(code) && o.reply.Redirect? && !e.faults.recordFails then 1 else 0
  {
    hide ValidKey, DoCreate;
    match e.op
    case Create(url, alias, ttl, draws) => CreateAdds(blocked, s, e.at, url, alias, ttl, draws, e.faults);
    case _ =>
  }

  /** With immediate recording, a row's hit count is the number of redirects it served, whatever the cache does. */
  lemma {:induction false} HitsAreRedirects(kind: Kind, blocked: seq<bytes>, events: seq<Event>, code: Key)
    requires code in Exec(kind, blocked, events).store.rows
    ensures Exec(kind, blocked, events).store.rows[code].hits == Redirects(kind, blocked, events, code)
    decreases |events|
  {
    hide Step;
    if events != [] {
      var n := |events| - 1;
      var s := Exec(kind, blocked, events[..n]).store;
      StepCounts(kind, blocked, s, events[n], code);
      if code in s.rows {
        HitsAreRedirects(kind, blocked, events[..n], code);
      }
    }
  }

  /* ---------- what an operation does, in plain words ---------- */

  /** A code that `ShortCode::parse` accepts. */
  predicate WellFormed(code: bytes) {
    1 <= |code| <= 32 && forall i :: 0 <= i < |code| ==>
      '0' <= code[i] <= '9' || 'A' <= code[i] <= 'Z' || 'a' <= code[i] <= 'z'
  }

  /** The host is on the list, or below a host that is. */
  ghost predicate OnList(blocked: seq<bytes>, host: bytes) {
    exists i, sub: bytes :: 0 <= i < |blocked| && Below(host, sub, blocked[i])
  }

  predicate Below(host: bytes, sub: bytes, b: bytes) { host == b || host == sub + ['.'] + b }

  lemma BlockedMeans(blocked: seq<bytes>, host: Option<bytes>)
    ensures IsBlocked(blocked, host) <==> host.Some? && OnList(blocked, host.value)
  {
    var dot: bytes := ".";
    if host.Some? {
      var h := host.value;
      forall i | 0 <= i < |blocked| && EndsWith(h, dot + blocked[i]) ensures OnList(blocked, h) {
        var sub := h[..|h| - |dot + blocked[i]|];
        assert h == sub + (dot + blocked[i]) == sub + ['.'] + blocked[i];
        assert Below(h, sub, blocked[i]);
      }
      forall i | 0 <= i < |blocked| && h == blocked[i] ensures OnList(blocked, h) {
        assert Below(h, [], blocked[i]);
      }
      if OnList(blocked, h) {
        var i, sub: bytes :| 0 <= i < |blocked| && Below(h, sub, blocked[i]);
        assert h != blocked[i] ==> h[|h| - |dot + blocked[i]|..] == dot + blocked[i];
      }
    }
  }

  lemma CodeMeans(raw: bytes)
    ensures ValidKey(raw) <==> WellFormed(raw)
    ensures CodeError(raw) ==
            if WellFormed(raw) then None else if 1 <= |raw| <= 32 then Some(CodeCharset) else Some(CodeLength)
  {
  }

  /** The codes a create may try: its alias and nothing else, or else the five that are drawn. */
  function Tries(e: Event): seq<Key>
    requires e.op.Create?
  {
    if e.op.alias.Some? then [e.op.alias.value] else e.op.draws
  }

  /** What was asked for is what is stored, under the first code to try that is free; anything else stores nothing and
      says why, the checks coming in this order: the URL, the block list, the alias, the database. */
  lemma CreateMeans(kind: Kind, blocked: seq<bytes>, s: Store, e: Event)
    requires e.op.Create?
    ensures var o, op, fails := Step(kind, blocked, s, e), e.op, e.faults.insertFails;
            && o.store.entries == s.entries
            && if op.url.Rejected? then o == Outcome(s, Failed(Invalid(op.url.reason)))
               else if op.url.host.Some? && OnList(blocked, op.url.host.value) then o == Outcome(s, Failed(Blocked))
               else if op.alias.Some? && !WellFormed(op.alias.value) then
                 o == Outcome(s, Failed(Invalid(if 1 <= |op.alias.value| <= 32 then CodeCharset else CodeLength)))
               else
                 match o.reply
                 case Created(link) =>
                   && link.target == op.url.text && link.hits == 0 && link.expiresAt == ExpiryOf(link.createdAt, op.ttl)
                   && SECOND * link.createdAt <= e.at < SECOND * (link.createdAt + 1)
                   && link.code !in s.rows && o.store.rows == s.rows[link.code := link]
                   && exists i: nat :: i < |Tries(e)| && i !in fails && Tries(e)[i] == link.code
                                       && TriedInVain(s.rows.Keys, Tries(e), 0, i, fails)
                 case Failed(Conflict) => o.store == s && TriedInVain(s.rows.Keys, Tries(e), 0, |Tries(e)|, fails)
                 case Failed(Backend) =>
                   && o.store == s
                   && exists i: nat :: i < |Tries(e)| && i in fails && TriedInVain(s.rows.Keys, Tries(e), 0, i, fails)
                 case _ => false
    ensures |e.op.draws| == 5
  {
    BlockedMeans(blocked, if e.op.url.Rejected? then None else e.op.url.host);
    if e.op.alias.Some? {
      CodeMeans(e.op.alias.value);
    }
    hide Place, ExpiryOf, TriedInVain, IsBlocked, CodeError, OnList, WellFormed, ValidKey;
  }

  /** An alias is taken verbatim or not at all: with no failing call and nothing else amiss, the link gets its alias, or
      there is a conflict and nothing is stored, exactly if the alias is in use. */
  lemma AliasMeans(kind: Kind, blocked: seq<bytes>, s: Store, e: Event)
    requires e.op.Create? && e.op.alias.Some? && e.op.url.Target? && WellFormed(e.op.alias.value)
    requires !(e.op.url.host.Some? && OnList(blocked, e.op.url.host.value)) && e.faults.insertFails == {}
    ensures var o, alias := Step(kind, blocked, s, e), e.op.alias.value;
            if alias in s.rows then o == Outcome(s, Failed(Conflict))
            else o.reply.Created? && o.reply.link.code == alias && o.store.rows == s.rows[alias := o.reply.link]
  {
    CreateMeans(kind, blocked, s, e);
    var tries := Tries(e);
    assert tries == [e.op.alias.value];
    assert TriedInVain(s.rows.Keys, tries, 0, 1, {}) ==> tries[0] in s.rows;
    hide Step, OnList, WellFormed;
  }

  /** A link just made redirects to what was submitted in the same second, if it has not expired. */
  lemma MadeThenVisited(kind: Kind, policy: Policy, blocked: seq<bytes>, events: seq<Event>, e: Event, visit: Event)
    requires Trustworthy(kind, policy) && Admissible(policy, events + [e] + [visit]) && e.op.Create?
    requires var o := Step(kind, blocked, Exec(kind, blocked, events).store, e);
             o.reply.Created? && visit.op == Resolve(o.reply.link.code) && ValidKey(o.reply.link.code)
             && !IsExpired(o.reply.link.expiresAt, Seconds(visit.at))
    ensures var s := Exec(kind, blocked, events + [e]).store;
            Step(kind, blocked, s, visit).reply == Redirect(e.op.url.text)
  {
    hide Step, Admissible, Exec, ValidKey, IsExpired;
    CreateMeans(kind, blocked, Exec(kind, blocked, events).store, e);
    ExecOne(kind, blocked, events, e);
    RedirectsToLiveRow(kind, policy, blocked, events + [e], visit, e.op.url.text);
    hide OnList, WellFormed, TriedInVain;
  }

  /** The row has not expired, to the millisecond. */
  predicate Alive(link: Link, at: Instant) { link.expiresAt.Some? ==> at < SECOND * link.expiresAt.value }

  lemma AliveMeans(link: Link, at: Instant)
    ensures Alive(link, at) <==> !IsExpired(link.expiresAt, Seconds(at))
  {
    hide Seconds;
  }

  /** The rows after a lookup of `c` found nothing alive there. */
  function Purged(rows: Rows, c: Key, fails: bool): Rows { if WellFormed(c) && !fails then rows - {c} else rows }

  /** With a trustworthy cache a request to a code does this, whatever the cache holds: if there is a row and it is
      alive, it redirects to its target and counts one hit; else nothing is found, and an expired row goes. */
  lemma ResolveMeans(kind: Kind, policy: Policy, blocked: seq<bytes>, events: seq<Event>, e: Event)
    requires Trustworthy(kind, policy) && e.op.Resolve? && Admissible(policy, events + [e])
    ensures var s, c := Exec(kind, blocked, events).store, e.op.code;
            var o := Step(kind, blocked, s, e);
            if WellFormed(c) && c in s.rows && Alive(s.rows[c], e.at) then
              && o.reply == Redirect(s.rows[c].target)
              && o.store.rows == if e.faults.recordFails then s.rows
                                 else s.rows[c := s.rows[c].(hits := s.rows[c].hits + 1)]
            else o.reply == Failed(NotFound) && o.store.rows == Purged(s.rows, c, e.faults.purgeFails)
  {
    var s, c := Exec(kind, blocked, events).store, e.op.code;
    assert (events + [e])[..|events|] == events && (events + [e])[|events|] == e;
    assert Permitted(policy, e);
    if c in s.rows {
      RedirectsToLiveRow(kind, policy, blocked, events, e, s.rows[c].target);
      AliveMeans(s.rows[c], e.at);
    }
    CoherentAt(kind, policy, blocked, events, e);
    CodeMeans(c);
    hide Exec, Admissible, ValidKey, WellFormed, IsExpired, Alive, Trustworthy, Permitted;
    ResolveAlike(kind, s, s, e.at, c, e.faults);
    NotFoundMeans(s, e.at, c, e.faults);
  }

  lemma CoherentAt(kind: Kind, policy: Policy, blocked: seq<bytes>, events: seq<Event>, e: Event)
    requires Trustworthy(kind, policy) && Admissible(policy, events + [e])
    ensures Coherent(kind, Exec(kind, blocked, events).store, e.at) && Permitted(policy, e)
  {
    assert (events + [e])[..|events|] == events && (events + [e])[|events|] == e;
    assert Admissible(policy, events) by {
      assert forall i :: 0 <= i < |events| ==> events[i] == (events + [e])[i];
    }
    TrustedCacheInvisible(kind, policy, blocked, events);
    if events != [] {
      assert events[|events| - 1] == (events + [e])[|events| - 1];
    }
    CoherentLater(kind, Exec(kind, blocked, events).store, if events == [] then 0 else events[|events| - 1].at, e.at);
  }

  lemma NotFoundMeans(s: Store, at: Instant, c: bytes, faults: Faults)
    requires !faults.readFails
    ensures var o, found := DoResolve(NoOp, s, at, c, faults),
                ValidKey(c) && c in s.rows && !IsExpired(s.rows[c].expiresAt, Seconds(at));
            !found ==> o.reply == Failed(NotFound) && o.store.rows == Purged(s.rows, c, faults.purgeFails)
  {
    CodeMeans(c);
    hide ValidKey, WellFormed;
  }

  /** With the database down a cached target still redirects, and nothing else does. */
  lemma DatabaseDown(kind: Kind, blocked: seq<bytes>, s: Store, e: Event)
    requires e.op.Resolve? && e.faults.readFails && WellFormed(e.op.code)
    ensures var o, c := Step(kind, blocked, s, e), e.op.code;
            && o.store.entries == s.entries
            && if !kind.NoOp? && !e.faults.miss && c in s.entries && Live(kind, s.entries[c], e.at)
               then o.reply == Redirect(s.entries[c].value) && o.store.rows == Counted(s.rows, c, e.faults.recordFails)
               else o == Outcome(s, Failed(Backend))
  {
    CodeMeans(e.op.code);
    hide ValidKey, WellFormed;
  }

  /** Metadata comes from the database alone, and an expired row goes, but not from the cache. */
  lemma GetMeans(kind: Kind, blocked: seq<bytes>, s: Store, e: Event)
    requires e.op.Get?
    ensures var o, c := Step(kind, blocked, s, e), e.op.code;
            && o.store.entries == s.entries
            && if WellFormed(c) && e.faults.readFails then o == Outcome(s, Failed(Backend))
               else if WellFormed(c) && c in s.rows && Alive(s.rows[c], e.at) then o == Outcome(s, Shown(s.rows[c]))
               else o.reply == Failed(NotFound) && o.store.rows == Purged(s.rows, c, e.faults.purgeFails)
  {
    CodeMeans(e.op.code);
    if e.op.code in s.rows {
      AliveMeans(s.rows[e.op.code], e.at);
    }
    hide ValidKey, WellFormed, Alive, IsExpired;
  }

  /** A delete that the database takes leaves neither row nor, unless the invalidation is lost, cached target, and says
      whether there was a row, expired or not. */
  lemma DeleteMeans(kind: Kind, blocked: seq<bytes>, s: Store, e: Event)
    requires e.op.Delete?
    ensures var o, c := Step(kind, blocked, s, e), e.op.code;
            if !WellFormed(c) then o == Outcome(s, Failed(NotFound))
            else if e.faults.deleteFails then o == Outcome(s, Failed(Backend))
            else
              && o.store.rows == s.rows - {c}
              && o.store.entries == (if e.faults.deleteLost then s.entries else s.entries - {c})
              && o.reply == if c in s.rows then Removed else Failed(NotFound)
  {
    CodeMeans(e.op.code);
    hide ValidKey, WellFormed;
  }
}
