/** The paste service of pastebin-service/src/application/mod.rs over its repository and its cache. */
module Pastes {
  import opened Options
  import opened Bytes
  import opened CacheAside

  const MAX_CONTENT_BYTES: nat := 1_000_000

  datatype Paste = Paste(id: Key, content: bytes, syntax: Option<bytes>, createdAt: Clock, expiresAt: Option<int>,
                         oneShot: bool, views: nat)
  type Rows = map<Key, Paste>

  datatype ValidationError = ContentEmpty | ContentTooLarge
  datatype ServiceError = Invalid(reason: ValidationError) | NotFound | Conflict | Backend
  datatype Reply = Created(paste: Paste) | Served(paste: Paste) | Removed | Failed(error: ServiceError)

  /** What the backends do to one operation: which repository calls fail, and what the cache loses. */
  datatype Faults = Faults(insertFails: set<nat>, readFails: bool, purgeFails: bool, takeFails: bool, deleteFails: bool,
                           recordFails: bool, miss: bool, setLost: bool, deleteLost: bool)

  /** The pastes and the cached snapshots. */
  datatype Store = Store(rows: Rows, entries: Entries<Paste>)
  datatype Outcome = Outcome(store: Store, reply: Reply)

  /* ---------- one operation as a function of the store ---------- */

  function Put(s: Store, paste: Paste, p: Placement): Outcome {
    match p
    case Placed(key) =>
      var made := paste.(id := key);
      Outcome(s.(rows := s.rows[key := made]), Created(made))
    case NoneFree => Outcome(s, Failed(Conflict))
    case BackendDown => Outcome(s, Failed(Backend))
  }

  function DoCreate(s: Store, at: Instant, content: bytes, syntax: Option<bytes>, ttl: Option<u64>, oneShot: bool,
                    draws: Draws, faults: Faults): Outcome {
    if content == [] then Outcome(s, Failed(Invalid(ContentEmpty)))
    else if |content| > MAX_CONTENT_BYTES then Outcome(s, Failed(Invalid(ContentTooLarge)))
    else
      Put(s, Paste([], content, syntax, Seconds(at), ExpiryOf(Seconds(at), ttl), oneShot, 0),
          Place(s.rows.Keys, draws, 0, faults.insertFails))
  }

  /** `increment_views`: a missing row is left alone. */
  function Counted(rows: Rows, id: Key, fails: bool): Rows {
    if fails || id !in rows then rows else rows[id := rows[id].(views := rows[id].views + 1)]
  }

  /** A snapshot that is in the cache and has not expired by its own account. */
  function Fresh(kind: Kind, s: Store, at: Instant, id: bytes, miss: bool): Option<Paste> {
    var cached := Lookup(kind, s.entries, id, at, miss);
    if cached.Some? && !IsExpired(cached.value.expiresAt, Seconds(at)) then cached else None
  }

  /** An expired snapshot is dropped on the way. */
  function Dropped(kind: Kind, s: Store, at: Instant, id: bytes, faults: Faults): Store {
    var cached := Lookup(kind, s.entries, id, at, faults.miss);
    if cached.Some? && IsExpired(cached.value.expiresAt, Seconds(at)) then
      s.(entries := WithoutEntry(s.entries, id, faults.deleteLost))
    else s
  }

  /** What follows when no fresh snapshot was found. */
  function FromRow(kind: Kind, s: Store, at: Instant, id: bytes, faults: Faults): Outcome {
    if faults.readFails then Outcome(s, Failed(Backend))
    else if id !in s.rows then Outcome(s, Failed(NotFound))
    else
      var paste := s.rows[id];
      if IsExpired(paste.expiresAt, Seconds(at)) then
        Outcome(Store(if faults.purgeFails then s.rows else s.rows - {id},
                      WithoutEntry(s.entries, id, faults.deleteLost)),
                Failed(NotFound))
      else if paste.oneShot then
        if faults.takeFails then Outcome(s, Failed(Backend)) else Outcome(s.(rows := s.rows - {id}), Served(paste))
      else
        var ttl := CacheTtl(paste.expiresAt, Seconds(at));
        Outcome(Store(Counted(s.rows, id, faults.recordFails),
                      if ttl > 0 then WithEntry(kind, s.entries, id, paste, ttl, at, faults.setLost) else s.entries),
                Served(paste))
  }

  function DoFetch(kind: Kind, s: Store, at: Instant, id: bytes, faults: Faults): Outcome {
    var hit := Fresh(kind, s, at, id, faults.miss);
    if !ValidKey(id) then Outcome(s, Failed(NotFound))
    else if hit.Some? then Outcome(s.(rows := Counted(s.rows, id, faults.recordFails)), Served(hit.value))
    else FromRow(kind, Dropped(kind, s, at, id, faults), at, id, faults)
  }

  function DoDelete(s: Store, id: bytes, faults: Faults): Outcome {
    if !ValidKey(id) then Outcome(s, Failed(NotFound))
    else if faults.deleteFails then Outcome(s, Failed(Backend))
    else
      Outcome(Store(s.rows - {id}, WithoutEntry(s.entries, id, faults.deleteLost)),
              if id in s.rows then Removed else Failed(NotFound))
  }

  /* ---------- the service ---------- */

  /** The actor of pastebin-service/src/infrastructure/memory.rs, one command at a time. */
  class PasteRepository {
    var pastes: Rows

    constructor ()
      ensures pastes == map[]
    {
      pastes := map[];
    }

    method Insert(paste: Paste) returns (inserted: bool)
      modifies this
      ensures inserted == (paste.id !in old(pastes))
      ensures pastes == if inserted then old(pastes)[paste.id := paste] else old(pastes)
    {
      inserted := paste.id !in pastes;
      if inserted {
        pastes := pastes[paste.id := paste];
      }
    }

    method Get(id: Key) returns (paste: Option<Paste>)
      ensures paste == if id in pastes then Some(pastes[id]) else None
    {
      return if id in pastes then Some(pastes[id]) else None;
    }

    /** Remove and return in one command. */
    method Take(id: Key) returns (paste: Option<Paste>)
      modifies this
      ensures paste == if id in old(pastes) then Some(old(pastes)[id]) else None
      ensures pastes == old(pastes) - {id}
    {
      paste := if id in pastes then Some(pastes[id]) else None;
      pastes := pastes - {id};
    }

    method IncrementBy(id: Key, n: nat) returns (updated: bool)
      modifies this
      ensures updated == (id in old(pastes))
      ensures pastes == if updated then old(pastes)[id := old(pastes)[id].(views := old(pastes)[id].views + n)]
                else old(pastes)
    {
      updated := id in pastes;
      if updated {
        var paste := pastes[id];
        pastes := pastes[id := paste.(views := paste.views + n)];
      }
    }

    method Delete(id: Key) returns (removed: bool)
      modifies this
      ensures removed == (id in old(pastes)) && pastes == old(pastes) - {id}
    {
      removed := id in pastes;
      pastes := pastes - {id};
    }
  }

  class PasteService {
    const repo: PasteRepository
    const cache: Cache<Paste>

    constructor (repo: PasteRepository, cache: Cache<Paste>)
      ensures this.repo == repo && this.cache == cache
    {
      this.repo, this.cache := repo, cache;
    }

    ghost function Contents(): Store
      reads repo, cache
    {
      Store(repo.pastes, cache.entries)
    }

    method Create(at: Instant, content: bytes, syntax: Option<bytes>, ttl: Option<u64>, oneShot: bool, draws: Draws,
        faults: Faults)
      returns (reply: Reply)
      modifies repo
      ensures Outcome(Contents(), reply) == DoCreate(old(Contents()), at, content, syntax, ttl, oneShot, draws, faults)
    {
      if content == [] {
        return Failed(Invalid(ContentEmpty));
      }
      if |content| > MAX_CONTENT_BYTES {
        return Failed(Invalid(ContentTooLarge));
      }
      var expiresAt := ExpiryOf(Seconds(at), ttl);
      ghost var s := Contents();
      for k := 0 to MAX_GENERATION_ATTEMPTS
        invariant Contents() == s
        invariant Place(s.rows.Keys, draws, k, faults.insertFails) == Place(s.rows.Keys, draws, 0, faults.insertFails)
      {
        if k in faults.insertFails {
          return Failed(Backend);
        }
        var paste := Paste(draws[k], content, syntax, Seconds(at), expiresAt, oneShot, 0);
        var inserted := repo.Insert(paste);
        if inserted {
          return Created(paste);
        }
      }
      return Failed(Conflict);
    }

    /** `ImmediateViewRecorder::record`. */
    method Record(id: Key, faults: Faults)
      modifies repo
      ensures repo.pastes == Counted(old(repo.pastes), id, faults.recordFails)
    {
      if !faults.recordFails {
        var _ := repo.IncrementBy(id, 1);
      }
    }

    method Fetch(at: Instant, id: bytes, faults: Faults) returns (reply: Reply)
      modifies repo, cache
      ensures Outcome(Contents(), reply) == DoFetch(cache.kind, old(Contents()), at, id, faults)
    {
      hide ValidKey;
      if !ValidKey(id) {
        return Failed(NotFound);
      }
      var cached := cache.Get(id, at, faults.miss);
      if cached.Some? {
        if IsExpired(cached.value.expiresAt, Seconds(at)) {
          cache.Delete(id, faults.deleteLost);
        } else {
          Record(id, faults);
          return Served(cached.value);
        }
      }
      if faults.readFails {
        return Failed(Backend);
      }
      var row := repo.Get(id);
      if row.None? {
        return Failed(NotFound);
      }
      var paste := row.value;
      if IsExpired(paste.expiresAt, Seconds(at)) {
        if !faults.purgeFails {
          var _ := repo.Delete(id);
        }
        cache.Delete(id, faults.deleteLost);
        return Failed(NotFound);
      }
      if paste.oneShot {
        if faults.takeFails {
          return Failed(Backend);
        }
        var taken := repo.Take(id);
        return if taken.Some? then Served(taken.value) else Failed(NotFound);
      }
      var ttl := CacheTtl(paste.expiresAt, Seconds(at));
      if ttl > 0 {
        cache.Set(id, paste, ttl, at, faults.setLost);
      }
      Record(id, faults);
      return Served(paste);
    }

    method Delete(id: bytes, faults: Faults) returns (reply: Reply)
      modifies repo, cache
      ensures Outcome(Contents(), reply) == DoDelete(old(Contents()), id, faults)
    {
      if !ValidKey(id) {
        return Failed(NotFound);
      }
      if faults.deleteFails {
        return Failed(Backend);
      }
      var removed := repo.Delete(id);
      cache.Delete(id, faults.deleteLost);
      return if removed then Removed else Failed(NotFound);
    }
  }

  /* ---------- histories ---------- */

  datatype Op =
    | Create(content: bytes, syntax: Option<bytes>, ttl: Option<u64>, oneShot: bool, draws: Draws)
    | Fetch(id: bytes) | Delete(id: bytes)

  datatype Event = Event(at: Instant, op: Op, faults: Faults)

  function Step(kind: Kind, s: Store, e: Event): Outcome {
    match e.op
    case Create(content, syntax, ttl, oneShot, draws) =>
      DoCreate(s, e.at, content, syntax, ttl, oneShot, draws, e.faults)
    case Fetch(id) => DoFetch(kind, s, e.at, id, e.faults)
    case Delete(id) => DoDelete(s, id, e.faults)
  }

  datatype History = History(store: Store, replies: seq<Reply>)

  /** Every operation in turn, from an empty repository and an empty cache. */
  function Exec(kind: Kind, events: seq<Event>): (h: History)
    ensures |h.replies| == |events|
  {
    if events == [] then History(Store(map[], map[]), [])
    else
      var h := Exec(kind, events[..|events| - 1]);
      var o := Step(kind, h.store, events[|events| - 1]);
      History(o.store, h.replies + [o.reply])
  }

  /** Fetches find the database up, and invalidations arrive unless they may be lost. The clock is arbitrary. */
  predicate Permitted(lostDeletes: bool, e: Event) {
    (e.op.Fetch? ==> !e.faults.readFails) && (e.faults.deleteLost ==> lostDeletes)
  }

  predicate Admissible(lostDeletes: bool, events: seq<Event>) {
    forall i :: 0 <= i < |events| ==> Permitted(lostDeletes, events[i])
  }

  /** A snapshot of a paste differs from it in the view count alone, and never runs ahead of it. */
  predicate SnapshotOf(snapshot: Paste, paste: Paste) {
    snapshot == paste.(views := snapshot.views) && snapshot.views <= paste.views
  }

  predicate SameUpToViews(cached: Reply, plain: Reply) {
    cached == plain || (cached.Served? && plain.Served? && SnapshotOf(cached.paste, plain.paste))
  }

  /** Clients see the same up to the view counts, and the database is the same. */
  predicate NearlyInvisible(kind: Kind, events: seq<Event>) {
    var h, plain := Exec(kind, events), Exec(NoOp, events);
    && |h.replies| == |plain.replies| && h.store.rows == plain.store.rows
    && forall i :: 0 <= i < |h.replies| ==> SameUpToViews(h.replies[i], plain.replies[i])
  }

  /** Whatever is cached is a snapshot of its row, and is not burn-after-read. */
  predicate Coherent(kind: Kind, s: Store) {
    && (kind.NoOp? ==> s.entries == map[])
    && forall id :: id in s.entries ==>
         id in s.rows && SnapshotOf(s.entries[id].value, s.rows[id]) && !s.rows[id].oneShot
  }

  predicate Trustworthy(kind: Kind, lostDeletes: bool) { kind.NoOp? || !lostDeletes }

  lemma CreateKeeps(kind: Kind, s: Store, t: Store, e: Event)
    requires e.op.Create? && Coherent(kind, s) && s.rows == t.rows
    ensures Coherent(kind, Step(kind, s, e).store)
    ensures var a, b := Step(kind, s, e), Step(NoOp, t, e); a.reply == b.reply && a.store.rows == b.store.rows
  {
    hide Place, ExpiryOf;
  }

  lemma CountedKeeps(kind: Kind, s: Store, id: Key, fails: bool)
    requires Coherent(kind, s)
    ensures Coherent(kind, s.(rows := Counted(s.rows, id, fails)))
  {
  }

  lemma FromRowKeeps(kind: Kind, s: Store, at: Instant, id: bytes, faults: Faults)
    requires Coherent(kind, s) && (kind.NoOp? || !faults.deleteLost)
    ensures Coherent(kind, FromRow(kind, s, at, id, faults).store)
  {
    if id in s.rows && !IsExpired(s.rows[id].expiresAt, Seconds(at)) && !s.rows[id].oneShot {
      hide CacheTtl, IsExpired;
      var ttl := CacheTtl(s.rows[id].expiresAt, Seconds(at));
      var t := s.(entries := WithEntry(kind, s.entries, id, s.rows[id], ttl, at, faults.setLost));
      assert Coherent(kind, t);
      CountedKeeps(kind, s, id, faults.recordFails);
      CountedKeeps(kind, t, id, faults.recordFails);
    }
  }

  lemma FetchKeeps(kind: Kind, s: Store, at: Instant, id: bytes, faults: Faults)
    requires Coherent(kind, s) && (kind.NoOp? || !faults.deleteLost)
    ensures Coherent(kind, DoFetch(kind, s, at, id, faults).store)
  {
    CountedKeeps(kind, s, id, faults.recordFails);
    FromRowKeeps(kind, Dropped(kind, s, at, id, faults), at, id, faults);
    hide FromRow, ValidKey, SnapshotOf;
  }

  /** Reading the row answers the same with and without a cache. */
  lemma FromRowAlike(kind: Kind, s: Store, t: Store, at: Instant, id: bytes, faults: Faults)
    requires s.rows == t.rows
    ensures var a, b := FromRow(kind, s, at, id, faults), FromRow(NoOp, t, at, id, faults);
            a.reply == b.reply && a.store.rows == b.store.rows
  {
    hide Counted, WithEntry, WithoutEntry;
  }

  lemma FetchAlike(kind: Kind, s: Store, t: Store, at: Instant, id: bytes, faults: Faults)
    requires Coherent(kind, s) && s.rows == t.rows && !faults.readFails
    ensures var a, b := DoFetch(kind, s, at, id, faults), DoFetch(NoOp, t, at, id, faults);
            SameUpToViews(a.reply, b.reply) && a.store.rows == b.store.rows
  {
    FromRowAlike(kind, Dropped(kind, s, at, id, faults), t, at, id, faults);
    hide ValidKey, Counted, WithEntry, WithoutEntry;
    if Fresh(kind, s, at, id, faults.miss).None? {
      hide FromRow;
    }
  }

  lemma {:induction false} TrustedCacheNearlyInvisible(kind: Kind, lostDeletes: bool, events: seq<Event>)
    requires Trustworthy(kind, lostDeletes) && Admissible(lostDeletes, events)
    ensures NearlyInvisible(kind, events) && Coherent(kind, Exec(kind, events).store)
    decreases |events|
  {
    hide Coherent, DoFetch, DoCreate, SameUpToViews;
    if events == [] {
      EmptyCoherent(kind);
    } else {
      var n := |events| - 1;
      var before, e := events[..n], events[n];
      TrustedCacheNearlyInvisible(kind, lostDeletes, before);
      var s, t := Exec(kind, before).store, Exec(NoOp, before).store;
      StepAlike(kind, lostDeletes, s, t, e);
    }
  }

  lemma StepAlike(kind: Kind, lostDeletes: bool, s: Store, t: Store, e: Event)
    requires Trustworthy(kind, lostDeletes) && Permitted(lostDeletes, e) && Coherent(kind, s) && s.rows == t.rows
    ensures var a, b := Step(kind, s, e), Step(NoOp, t, e);
            SameUpToViews(a.reply, b.reply) && a.store.rows == b.store.rows && Coherent(kind, a.store)
  {
    hide ValidKey, DoCreate, DoFetch;
    match e.op
    case Create(_, _, _, _, _) => CreateKeeps(kind, s, t, e);
    case Fetch(id) =>
      FetchKeeps(kind, s, e.at, id, e.faults);
      FetchAlike(kind, s, t, e.at, id, e.faults);
    case Delete(id) =>
  }

  lemma EmptyCoherent(kind: Kind)
    ensures Coherent(kind, Store(map[], map[]))
  {
  }

  /* ---------- and when it is not ---------- */

  function Id(): Key { "a" }
  function Text(): bytes { "b" }
  function NoFaults(): Faults { Faults({}, false, false, false, false, false, false, false, false) }

  function Make(): Event { Event(0, Create(Text(), None, None, false, [Id(), Id(), Id(), Id(), Id()]), NoFaults()) }
  function Visit(): Event { Event(0, Fetch(Id()), NoFaults()) }

  /** An invalidation that does not arrive. */
  function DeleteLost(): Event { Event(0, Delete(Id()), NoFaults().(deleteLost := true)) }

  lemma ExecOne(kind: Kind, events: seq<Event>, e: Event)
    ensures var h := Exec(kind, events);
            var o := Step(kind, h.store, e);
            Exec(kind, events + [e]) == History(o.store, h.replies + [o.reply])
  {
    hide Step;
    assert (events + [e])[..|events|] == events;
  }

  lemma WordsAreValid()
    ensures ValidKey(Id()) && 0 < |Text()| <= MAX_CONTENT_BYTES
  {
  }

  /** A paste that was made and fetched once. */
  lemma Visited(kind: Kind)
    ensures var s, paste := Exec(kind, [Make(), Visit()]).store, Paste(Id(), Text(), None, 0, None, false, 0);
            && s.rows == map[Id() := paste.(views := 1)]
            && s.entries == if kind.NoOp? then map[] else map[Id() := Entry(paste, Some(SECOND * MAX_CACHE_TTL_SECS))]
  {
    assert [] + [Make()] == [Make()] && [Make()] + [Visit()] == [Make(), Visit()];
    ExecOne(kind, [], Make());
    ExecOne(kind, [Make()], Visit());
    WordsAreValid();
    hide Exec, Id, Text;
  }

  function Undead(): seq<Event> { [Make(), Visit()] + [DeleteLost()] + [Visit()] }

  /** A deleted paste whose invalidation was lost is still served. */
  lemma UndeadShows(kind: Kind)
    requires !kind.NoOp?
    ensures !NearlyInvisible(kind, Undead())
  {
    forall k: Kind { Visited(k); }
    forall k: Kind { ExecOne(k, [Make(), Visit()], DeleteLost()); }
    forall k: Kind { ExecOne(k, [Make(), Visit()] + [DeleteLost()], Visit()); }
    WordsAreValid();
    hide Exec, Id, Text;
    var cached, plain := Exec(kind, Undead()).replies, Exec(NoOp, Undead()).replies;
    assert cached[|cached| - 1].Served? && plain[|plain| - 1] == Failed(NotFound);
  }

  /** Main theorem: up to view counts, which are never ahead, every history looks the same with and without the cache,
      and the database is the same, exactly when there is no cache or invalidations arrive. It does not matter whether
      the cache honours the time to live: a snapshot carries its own expiry. */
  lemma CacheNearlyInvisible(kind: Kind, lostDeletes: bool)
    ensures (forall events :: Admissible(lostDeletes, events) ==> NearlyInvisible(kind, events))
              <==> Trustworthy(kind, lostDeletes)
  {
    hide NearlyInvisible;
    if Trustworthy(kind, lostDeletes) {
      forall events | Admissible(lostDeletes, events) ensures NearlyInvisible(kind, events) {
        TrustedCacheNearlyInvisible(kind, lostDeletes, events);
      }
    } else {
      UndeadShows(kind);
      assert Admissible(lostDeletes, Undead());
    }
  }

  /** A fetch is served exactly when the id is well-formed and its row is alive (and can be taken, if it burns); what it
      gets is a snapshot of that row, whose view count is not ahead. The row goes if it burns, else it counts a view. */
  lemma ServesLiveRow(kind: Kind, lostDeletes: bool, events: seq<Event>, e: Event)
    requires Trustworthy(kind, lostDeletes) && e.op.Fetch? && Admissible(lostDeletes, events)
               && Permitted(lostDeletes, e)
    ensures var s := Exec(kind, events).store;
            var o, id := Step(kind, s, e), e.op.id;
            && (o.reply.Served? <==>
                  && ValidKey(id) && id in s.rows && !IsExpired(s.rows[id].expiresAt, Seconds(e.at))
                  && (s.rows[id].oneShot ==> !e.faults.takeFails))
            && (o.reply.Served? ==>
                  && SnapshotOf(o.reply.paste, s.rows[id])
                  && o.store.rows == if s.rows[id].oneShot then s.rows - {id}
                      else Counted(s.rows, id, e.faults.recordFails))
  {
    var s := Exec(kind, events).store;
    TrustedCacheNearlyInvisible(kind, lostDeletes, events);
    hide Exec, ValidKey, Counted, WithEntry, WithoutEntry;
    FetchAlike(kind, s, s, e.at, e.op.id, e.faults);
    assert DoFetch(NoOp, s, e.at, e.op.id, e.faults) ==
      if !ValidKey(e.op.id) then Outcome(s, Failed(NotFound)) else FromRow(NoOp, s, e.at, e.op.id, e.faults);
    hide DoFetch;
  }

  /** No paste is made under `id`. */
  predicate NotMade(kind: Kind, s: Store, e: Event, id: Key) {
    var r := Step(kind, s, e).reply;
    r.Created? ==> r.paste.id != id
  }

  /** A paste that is gone, burned, deleted or purged, stays gone until its id is given out again: meanwhile no
      history of operations serves it. */
  lemma {:induction false} GoneStaysGone(kind: Kind, lostDeletes: bool, events: seq<Event>, n: nat, id: Key)
    requires Trustworthy(kind, lostDeletes) && Admissible(lostDeletes, events) && n <= |events|
    requires id !in Exec(kind, events[..n]).store.rows
    requires forall i :: n <= i < |events| ==> NotMade(kind, Exec(kind, events[..i]).store, events[i], id)
    ensures id !in Exec(kind, events).store.rows
    ensures n < |events| && events[|events| - 1].op == Fetch(id) ==>
              var r := Exec(kind, events).replies; r != [] && r[|r| - 1].Failed?
    decreases |events|
  {
    hide Step, Permitted;
    if n == |events| {
      assert events[..n] == events;
    } else {
      var m := |events| - 1;
      var before := events[..m];
      assert before[..n] == events[..n];
      forall i | n <= i < m ensures NotMade(kind, Exec(kind, before[..i]).store, before[i], id) {
        assert before[..i] == events[..i];
      }
      GoneStaysGone(kind, lostDeletes, before, n, id);
      TrustedCacheNearlyInvisible(kind, lostDeletes, before);
      AbsentStep(kind, Exec(kind, before).store, events[m], id);
    }
  }

  lemma AbsentStep(kind: Kind, s: Store, e: Event, id: Key)
    requires Coherent(kind, s) && id !in s.rows && NotMade(kind, s, e, id)
    ensures var o := Step(kind, s, e); id !in o.store.rows && (e.op == Fetch(id) ==> o.reply.Failed?)
  {
    hide ValidKey, Place, ExpiryOf, SnapshotOf;
  }

  /** Whatever the backends do, nothing burn-after-read is ever cached, and serving such a paste removes its row. */
  lemma {:induction false} BurnedPastesLeaveNothing(kind: Kind, events: seq<Event>)
    ensures forall id :: id in Exec(kind, events).store.entries ==> !Exec(kind, events).store.entries[id].value.oneShot
    ensures events != [] && events[|events| - 1].op.Fetch? ==>
              var r := Exec(kind, events).replies;
              r != [] && (r[|r| - 1].Served? && r[|r| - 1].paste.oneShot ==>
                            events[|events| - 1].op.id !in Exec(kind, events).store.rows)
    decreases |events|
  {
    hide DoCreate;
    if events != [] {
      var n := |events| - 1;
      BurnedPastesLeaveNothing(kind, events[..n]);
      StepNeverCachesOneShot(kind, Exec(kind, events[..n]).store, events[n]);
      hide Step;
    }
  }

  lemma StepNeverCachesOneShot(kind: Kind, s: Store, e: Event)
    requires forall id :: id in s.entries ==> !s.entries[id].value.oneShot
    ensures var o := Step(kind, s, e);
            && (forall id :: id in o.store.entries ==> !o.store.entries[id].value.oneShot)
            && (e.op.Fetch? && o.reply.Served? && o.reply.paste.oneShot ==> e.op.id !in o.store.rows)
  {
    hide ValidKey, Place, ExpiryOf, CacheTtl, IsExpired;
  }

  /* ---------- what a create stores ---------- */

  /** What was asked for is what is stored, under the first drawn id that is free; anything else stores nothing and says
      why: an empty or too large content, five ids taken, or a failing database. */
  lemma CreateMeans(kind: Kind, s: Store, e: Event)
    requires e.op.Create?
    ensures var o, ok := Step(kind, s, e), 0 < |e.op.content| <= 1_000_000;
            && o.store.entries == s.entries
            && match o.reply
               case Created(paste) =>
                 && ok && paste.content == e.op.content && paste.syntax == e.op.syntax && paste.oneShot == e.op.oneShot
                 && paste.views == 0 && SECOND * paste.createdAt <= e.at < SECOND * (paste.createdAt + 1)
                 && paste.expiresAt == ExpiryOf(paste.createdAt, e.op.ttl)
                 && paste.id !in s.rows && o.store.rows == s.rows[paste.id := paste]
                 && exists i: nat :: i < 5 && i !in e.faults.insertFails && e.op.draws[i] == paste.id
                                     && TriedInVain(s.rows.Keys, e.op.draws, 0, i, e.faults.insertFails)
               case Failed(Invalid(ContentEmpty)) => e.op.content == [] && o.store == s
               case Failed(Invalid(ContentTooLarge)) => |e.op.content| > 1_000_000 && o.store == s
               case Failed(Conflict) =>
                 ok && o.store == s && TriedInVain(s.rows.Keys, e.op.draws, 0, 5, e.faults.insertFails)
               case Failed(Backend) =>
                 && ok && o.store == s
                 && exists i: nat :: i < 5 && i in e.faults.insertFails
                                     && TriedInVain(s.rows.Keys, e.op.draws, 0, i, e.faults.insertFails)
               case _ => false
  {
    hide Place, ExpiryOf, TriedInVain;
  }

  /* ---------- what a fetch and a delete do, in plain words ---------- */

  /** The row has not expired, to the millisecond. */
  predicate Alive(paste: Paste, at: Instant) { paste.expiresAt.Some? ==> at < SECOND * paste.expiresAt.value }

  lemma AliveMeans(paste: Paste, at: Instant)
    ensures Alive(paste, at) <==> !IsExpired(paste.expiresAt, Seconds(at))
  {
    hide Seconds;
  }

  /** With invalidations that arrive a fetch does this, whatever the cache holds: a live row is served, and counts a
      view or burns; an expired one goes, from the cache too, and nothing is found. */
  lemma FetchMeans(kind: Kind, lostDeletes: bool, events: seq<Event>, e: Event)
    requires Trustworthy(kind, lostDeletes) && e.op.Fetch? && Admissible(lostDeletes, events)
               && Permitted(lostDeletes, e) && ValidKey(e.op.id)
    ensures var s, id := Exec(kind, events).store, e.op.id;
            var o := Step(kind, s, e);
            if id !in s.rows then o.reply == Failed(NotFound) && o.store.rows == s.rows
            else if !Alive(s.rows[id], e.at) then
              && o.reply == Failed(NotFound)
              && o.store.rows == (if e.faults.purgeFails then s.rows else s.rows - {id})
              && (id in o.store.entries ==> e.faults.deleteLost)
            else if s.rows[id].oneShot && e.faults.takeFails then o.reply == Failed(Backend) && o.store.rows == s.rows
            else
              && o.reply.Served? && SnapshotOf(o.reply.paste, s.rows[id])
              && o.store.rows == if s.rows[id].oneShot then s.rows - {id}
                                 else if e.faults.recordFails then s.rows
                                 else s.rows[id := s.rows[id].(views := s.rows[id].views + 1)]
  {
    var s, id := Exec(kind, events).store, e.op.id;
    ServesLiveRow(kind, lostDeletes, events, e);
    TrustedCacheNearlyInvisible(kind, lostDeletes, events);
    if id in s.rows {
      AliveMeans(s.rows[id], e.at);
    }
    hide Exec, ValidKey, Alive, Trustworthy, Admissible, IsExpired;
    FetchAlike(kind, s, s, e.at, id, e.faults);
    NotServedMeans(kind, s, e.at, id, e.faults);
  }

  lemma NotServedMeans(kind: Kind, s: Store, at: Instant, id: bytes, faults: Faults)
    requires Coherent(kind, s) && !faults.readFails && ValidKey(id)
    ensures var o, plain := DoFetch(kind, s, at, id, faults), DoFetch(NoOp, s, at, id, faults);
            && (id !in s.rows ==> plain.reply == Failed(NotFound) && plain.store.rows == s.rows)
            && (id in s.rows && IsExpired(s.rows[id].expiresAt, Seconds(at)) ==>
                  && plain.reply == Failed(NotFound)
                  && plain.store.rows == (if faults.purgeFails then s.rows else s.rows - {id})
                  && (id in o.store.entries ==> faults.deleteLost))
            && (id in s.rows && !IsExpired(s.rows[id].expiresAt, Seconds(at)) && s.rows[id].oneShot && faults.takeFails
                ==> plain.reply == Failed(Backend) && plain.store.rows == s.rows)
  {
    hide ValidKey, IsExpired, Seconds, WithEntry, Counted;
  }

  /** With the database down a snapshot that has not expired is still served, and nothing else is. */
  lemma DatabaseDown(kind: Kind, s: Store, e: Event)
    requires e.op.Fetch? && ValidKey(e.op.id) && e.faults.readFails
    ensures var o, id := Step(kind, s, e), e.op.id;
            if !kind.NoOp? && !e.faults.miss && id in s.entries && Live(kind, s.entries[id], e.at)
               && Alive(s.entries[id].value, e.at)
            then
              && o.reply == Served(s.entries[id].value) && o.store.entries == s.entries
              && o.store.rows == Counted(s.rows, id, e.faults.recordFails)
            else o.reply == Failed(Backend) && o.store.rows == s.rows
  {
    if e.op.id in s.entries {
      AliveMeans(s.entries[e.op.id].value, e.at);
    }
    hide ValidKey, IsExpired, Seconds, Counted, Alive;
  }

  /** Even where invalidations get lost: a fetch that sees the cache leaves no expired snapshot of its id there. */
  lemma FetchDropsExpired(kind: Kind, s: Store, e: Event)
    requires e.op.Fetch? && ValidKey(e.op.id) && !kind.NoOp? && !e.faults.miss && !e.faults.deleteLost
    ensures var entries, id := Step(kind, s, e).store.entries, e.op.id;
            id in entries && Live(kind, entries[id], e.at) ==> !IsExpired(entries[id].value.expiresAt, Seconds(e.at))
  {
    hide ValidKey, IsExpired, Seconds, Counted;
  }

  /** A delete that the database takes leaves neither row nor, unless the invalidation is lost, snapshot, and says
      whether there was a row, expired or not. */
  lemma DeleteMeans(kind: Kind, s: Store, e: Event)
    requires e.op.Delete?
    ensures var o, id := Step(kind, s, e), e.op.id;
            if !ValidKey(id) then o == Outcome(s, Failed(NotFound))
            else if e.faults.deleteFails then o == Outcome(s, Failed(Backend))
            else
              && o.store.rows == s.rows - {id}
              && o.store.entries == (if e.faults.deleteLost then s.entries else s.entries - {id})
              && o.reply == if id in s.rows then Removed else Failed(NotFound)
  {
    hide ValidKey;
  }

  /** Fetches of `id` served and counted since its row was last made. */
  function Serves(kind: Kind, events: seq<Event>, id: Key): nat {
    if events == [] then 0
    else
      var n := |events| - 1;
      var before, e := events[..n], events[n];
      var o := Step(kind, Exec(kind, before).store, e);
      if o.reply.Created? && o.reply.paste.id == id then 0
      else if e.op == Fetch(id) && o.reply.Served? && !e.faults.recordFails then Serves(kind, before, id) + 1
      else Serves(kind, before, id)
  }

  /** With immediate recording the views of a row are the fetches it served, whatever the cache does. */
  lemma {:induction false} ViewsAreServes(kind: Kind, events: seq<Event>, id: Key)
    requires id in Exec(kind, events).store.rows
    ensures Exec(kind, events).store.rows[id].views == Serves(kind, events, id)
    decreases |events|
  {
    hide Step;
    if events != [] {
      var n := |events| - 1;
      var s := Exec(kind, events[..n]).store;
      StepViews(kind, s, events[n], id);
      if id in s.rows {
        ViewsAreServes(kind, events[..n], id);
      }
    }
  }

  lemma StepViews(kind: Kind, s: Store, e: Event, id: Key)
    ensures var o := Step(kind, s, e);
            id in o.store.rows ==>
              if o.reply.Created? && o.reply.paste.id == id then o.store.rows[id].views == 0
              else id in s.rows && o.store.rows[id].views == s.rows[id].views +
                     if e.op == Fetch(id) && o.reply.Served? && !e.faults.recordFails then 1 else 0
  {
    match e.op
    case Create(_, _, _, _, _) =>
      CreateMeans(kind, s, e);
      hide DoCreate, TriedInVain;
    case Fetch(asked) =>
      var t := Dropped(kind, s, e.at, asked, e.faults);
      FromRowViews(kind, t, e.at, asked, e.faults, id);
      hide FromRow, ValidKey, IsExpired, Seconds;
    case Delete(_) => hide ValidKey;
  }

  lemma FromRowViews(kind: Kind, s: Store, at: Instant, asked: bytes, faults: Faults, id: Key)
    ensures var o := FromRow(kind, s, at, asked, faults);
            && !o.reply.Created?
            && (id in o.store.rows ==>
                  id in s.rows && o.store.rows[id].views == s.rows[id].views +
                    if asked == id && o.reply.Served? && !faults.recordFails then 1 else 0)
  {
    hide CacheTtl, IsExpired, Seconds, WithEntry, WithoutEntry;
  }

  /* ---------- a burn-after-read paste over its life ---------- */

  /** Every invalidation arrives. */
  predicate NothingLost(events: seq<Event>) { forall i :: 0 <= i < |events| ==> !events[i].faults.deleteLost }

  lemma {:induction false} AlwaysCoherent(kind: Kind, events: seq<Event>)
    requires NothingLost(events)
    ensures Coherent(kind, Exec(kind, events).store)
    decreases |events|
  {
    hide Coherent, DoFetch, DoCreate, DoDelete;
    if events == [] {
      EmptyCoherent(kind);
    } else {
      var s, e := Exec(kind, events[..|events| - 1]).store, events[|events| - 1];
      AlwaysCoherent(kind, events[..|events| - 1]);
      match e.op
      case Create(_, _, _, _, _) => CreateKeeps(kind, s, s, e);
      case Fetch(id) => FetchKeeps(kind, s, e.at, id, e.faults);
      case Delete(id) => DeleteKeeps(kind, s, id, e.faults);
    }
  }

  lemma DeleteKeeps(kind: Kind, s: Store, id: bytes, faults: Faults)
    requires Coherent(kind, s) && !faults.deleteLost
    ensures Coherent(kind, DoDelete(s, id, faults).store)
  {
    hide ValidKey, SnapshotOf;
  }

  lemma {:induction false} ReplyAt(kind: Kind, events: seq<Event>, i: nat)
    requires i < |events|
    ensures Exec(kind, events).replies[i] == ReplyTo(kind, events, i)
    decreases |events|
  {
    hide Step;
    var n := |events| - 1;
    if i < n {
      ReplyAt(kind, events[..n], i);
      assert events[..n][..i] == events[..i];
    }
  }

  lemma ExecUpTo(kind: Kind, events: seq<Event>, i: nat)
    requires i < |events|
    ensures Exec(kind, events[..i + 1]).store == Step(kind, Exec(kind, events[..i]).store, events[i]).store
  {
    hide Step;
    assert events[..i + 1][..i] == events[..i];
  }

  /** What can become of a burn-after-read row in one step. */
  lemma StepOneShot(kind: Kind, s: Store, e: Event, id: Key)
    requires Coherent(kind, s) && id in s.rows && s.rows[id].oneShot && ValidKey(id)
    ensures var o, paste := Step(kind, s, e), s.rows[id];
            if e.op == Fetch(id) then
              if e.faults.readFails || (!IsExpired(paste.expiresAt, Seconds(e.at)) && e.faults.takeFails)
              then o == Outcome(s, Failed(Backend))
              else if IsExpired(paste.expiresAt, Seconds(e.at)) then o.reply == Failed(NotFound)
              else o.reply == Served(paste) && o.store.rows == s.rows - {id}
            else id in o.store.rows ==> o.store.rows[id] == paste
    ensures id in Step(kind, s, e).store.rows ==> Step(kind, s, e).store.rows[id] == s.rows[id]
    ensures e.op != Fetch(id) && e.op != Delete(id) ==> id in Step(kind, s, e).store.rows
  {
    hide ValidKey, Place, ExpiryOf, CacheTtl, IsExpired, SnapshotOf, Seconds;
  }

  /** The reply to event `i`. */
  function ReplyTo(kind: Kind, events: seq<Event>, i: nat): Reply
    requires i < |events|
  {
    Step(kind, Exec(kind, events[..i]).store, events[i]).reply
  }

  /** Event `m` made `paste`, burn-after-read, and no later event gave its id out again. */
  predicate Burns(kind: Kind, events: seq<Event>, m: nat, paste: Paste) {
    && m < |events| && events[m].op.Create? && events[m].op.oneShot && ReplyTo(kind, events, m) == Created(paste)
    && ValidKey(paste.id)
    && forall i :: m < i < |events| && ReplyTo(kind, events, i).Created? ==>
         ReplyTo(kind, events, i).paste.id != paste.id
  }

  /** Neither a delete of the id nor a fetch of it that the database answered. */
  predicate Spares(id: Key, op: Op, reply: Reply) { op != Delete(id) && (op == Fetch(id) ==> reply == Failed(Backend)) }

  /** From then on its row is that paste, or gone; and once it is gone it stays so. */
  lemma {:induction false} RowOrGone(kind: Kind, events: seq<Event>, m: nat, n: nat, paste: Paste)
    requires NothingLost(events) && Burns(kind, events, m, paste) && m < n <= |events|
    ensures var rows := Exec(kind, events[..n]).store.rows;
            paste.oneShot && paste.id !in Exec(kind, events[..m]).store.rows
            && (paste.id in rows ==> rows[paste.id] == paste)
    ensures forall k :: m < k <= n && paste.id !in Exec(kind, events[..k]).store.rows ==>
              paste.id !in Exec(kind, events[..n]).store.rows
    ensures (forall i :: m < i < n ==> Spares(paste.id, events[i].op, ReplyTo(kind, events, i))) ==>
              paste.id in Exec(kind, events[..n]).store.rows
    decreases n
  {
    hide Step, Exec, ValidKey;
    var s, e := Exec(kind, events[..n - 1]).store, events[n - 1];
    ExecUpTo(kind, events, n - 1);
    CreateMeans(kind, Exec(kind, events[..m]).store, events[m]);
    if n - 1 > m {
      RowOrGone(kind, events, m, n - 1, paste);
      AlwaysCoherent(kind, events[..n - 1]);
      assert ReplyTo(kind, events, n - 1) == Step(kind, s, e).reply;
      RowStep(kind, s, e, paste);
      forall k | m < k <= n && paste.id !in Exec(kind, events[..k]).store.rows
        ensures paste.id !in Exec(kind, events[..n]).store.rows
      {
        if k < n {
          assert paste.id !in s.rows;
        }
      }
    }
  }

  lemma RowStep(kind: Kind, s: Store, e: Event, paste: Paste)
    requires Coherent(kind, s) && paste.oneShot && ValidKey(paste.id)
    requires paste.id in s.rows ==> s.rows[paste.id] == paste
    requires var r := Step(kind, s, e).reply; r.Created? ==> r.paste.id != paste.id
    ensures var rows, id := Step(kind, s, e).store.rows, paste.id;
            && (id !in s.rows ==> id !in rows) && (id in rows ==> rows[id] == paste)
            && (id in s.rows && Spares(id, e.op, Step(kind, s, e).reply) ==> id in rows)
  {
    hide Step, Coherent, ValidKey;
    if paste.id in s.rows {
      StepOneShot(kind, s, e, paste.id);
    } else {
      AbsentStep(kind, s, e, paste.id);
    }
  }

  /** Burn after reading, over every history in which invalidations arrive, with any clock and any other failures: of
      the fetches since the paste was made at most one is served. */
  lemma BurnsOnce(kind: Kind, events: seq<Event>, m: nat, j: nat, k: nat, paste: Paste)
    requires NothingLost(events) && Burns(kind, events, m, paste) && m < j < k < |events|
    requires events[j].op == Fetch(paste.id) && events[k].op == Fetch(paste.id)
    ensures Exec(kind, events).replies[j].Served? ==> !Exec(kind, events).replies[k].Served?
  {
    hide Step, Exec, ValidKey, Coherent;
    ReplyAt(kind, events, j);
    ReplyAt(kind, events, k);
    RowOrGone(kind, events, m, j, paste);
    RowOrGone(kind, events, m, k, paste);
    AlwaysCoherent(kind, events[..j]);
    AlwaysCoherent(kind, events[..k]);
    ExecUpTo(kind, events, j);
    ServedBurns(kind, Exec(kind, events[..j]).store, events[j], paste);
    ServedBurns(kind, Exec(kind, events[..k]).store, events[k], paste);
  }

  lemma ServedBurns(kind: Kind, s: Store, e: Event, paste: Paste)
    requires Coherent(kind, s) && paste.oneShot && ValidKey(paste.id) && e.op == Fetch(paste.id)
    requires paste.id in s.rows ==> s.rows[paste.id] == paste
    ensures var o := Step(kind, s, e); o.reply.Served? ==> paste.id in s.rows && paste.id !in o.store.rows
  {
    hide Step, Coherent, ValidKey;
    if paste.id in s.rows {
      StepOneShot(kind, s, e, paste.id);
    } else {
      assert NotMade(kind, s, e, paste.id) by { FetchMakesNothing(kind, s, e); }
      AbsentStep(kind, s, e, paste.id);
    }
  }

  lemma FetchMakesNothing(kind: Kind, s: Store, e: Event)
    requires e.op.Fetch?
    ensures !Step(kind, s, e).reply.Created?
  {
    hide ValidKey;
  }

  /** And one is served: the first fetch that the database answers, unless the paste was deleted or has expired, gets
      exactly what was submitted. */
  lemma FirstFetchServes(kind: Kind, events: seq<Event>, m: nat, j: nat, paste: Paste)
    requires NothingLost(events) && Burns(kind, events, m, paste) && m < j < |events|
    requires events[j].op == Fetch(paste.id) && !events[j].faults.readFails && !events[j].faults.takeFails
    requires !IsExpired(paste.expiresAt, Seconds(events[j].at))
    requires forall i :: m < i < j ==> Spares(paste.id, events[i].op, ReplyTo(kind, events, i))
    ensures Exec(kind, events).replies[j] == Served(paste)
    ensures paste.content == events[m].op.content && paste.syntax == events[m].op.syntax && paste.views == 0
    ensures paste.expiresAt == ExpiryOf(Seconds(events[m].at), events[m].op.ttl)
  {
    hide Step, Exec, ValidKey, Coherent, IsExpired, ExpiryOf;
    ReplyAt(kind, events, j);
    RowOrGone(kind, events, m, j, paste);
    AlwaysCoherent(kind, events[..j]);
    CreateMeans(kind, Exec(kind, events[..m]).store, events[m]);
    StepOneShot(kind, Exec(kind, events[..j]).store, events[j], paste.id);
  }
}
