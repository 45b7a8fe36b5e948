/** The cache port and the expiry arithmetic that the link service and the paste service share. */
module CacheAside {
  import opened Options
  import opened Bytes

  type Key = bytes

  const U64_MAX: nat := 0xFFFF_FFFF_FFFF_FFFF
  const I64_MAX: int := 0x7FFF_FFFF_FFFF_FFFF
  const I64_MIN: int := -I64_MAX - 1
  const MAX_CACHE_TTL_SECS: nat := 300
  const MAX_GENERATION_ATTEMPTS: nat := 5

  type u64 = n: nat | n <= U64_MAX

  const SECOND: nat := 1000

  /** A point in time, in milliseconds since the epoch, and `now_unix`, the whole seconds that have passed then.
      Caches live by the former, links and pastes by the latter. */
  type Instant = t: nat | t <= SECOND * I64_MAX
  type Clock = t: nat | t <= I64_MAX

  function Seconds(at: nat): (s: nat)
    ensures SECOND * s <= at < SECOND * s + SECOND
  {
    at / SECOND
  }

  /** `n as i64` reinterprets the bits. */
  function AsI64(n: u64): int { if n <= I64_MAX then n else n - U64_MAX - 1 }

  function SaturatingAdd(a: int, b: int): int {
    if a + b > I64_MAX then I64_MAX else if a + b < I64_MIN then I64_MIN else a + b
  }

  function ExpiryOf(createdAt: Clock, ttl: Option<u64>): Option<int> {
    match ttl
    case None => None
    case Some(secs) => Some(SaturatingAdd(createdAt, AsI64(secs)))
  }

  /** `is_expired` of a link or a paste. */
  predicate IsExpired(expiresAt: Option<int>, now: int) { expiresAt.Some? && now >= expiresAt.value }

  /** A time to live of zero seconds, or one that wraps in `i64`, expires at once; every other lasts exactly as long as
      asked, up to the end of the clock. */
  lemma LifeSpan(createdAt: Clock, secs: u64, now: Clock)
    requires createdAt <= now
    ensures IsExpired(ExpiryOf(createdAt, Some(secs)), now) <==>
              secs > 0x7FFF_FFFF_FFFF_FFFF || now - createdAt >= secs || now == 0x7FFF_FFFF_FFFF_FFFF
  {
  }

  /** `cache_ttl_secs`. */
  function CacheTtl(expiresAt: Option<int>, now: int): (ttl: nat)
    ensures ttl <= MAX_CACHE_TTL_SECS && (ttl == 0 <==> IsExpired(expiresAt, now))
    ensures ttl > 0 && expiresAt.Some? ==> now + ttl <= expiresAt.value
  {
    match expiresAt
    case None => MAX_CACHE_TTL_SECS
    case Some(exp) =>
      if exp - now <= 0 then 0 else if exp - now <= MAX_CACHE_TTL_SECS then exp - now else MAX_CACHE_TTL_SECS
  }

  /** `ShortCode::parse` and `PasteId::parse` accept the same strings. */
  predicate IsAlphanumeric(b: byte) { '0' <= b <= '9' || 'A' <= b <= 'Z' || 'a' <= b <= 'z' }

  predicate ValidKey(s: bytes) { 1 <= |s| <= 32 && forall i :: 0 <= i < |s| ==> IsAlphanumeric(s[i]) }

  /** The keys the generator would draw, one for each attempt. */
  type Draws = s: seq<Key> | |s| == MAX_GENERATION_ATTEMPTS witness [[], [], [], [], []]

  /** Where an insert with retries ends up. */
  datatype Placement = Placed(key: Key) | NoneFree | BackendDown

  /** The first `i` candidates, from `k` on, were tried and found taken. */
  predicate TriedInVain(taken: set<Key>, candidates: seq<Key>, k: nat, i: nat, fails: set<nat>) {
    k <= i <= |candidates| && forall j :: k <= j < i ==> candidates[j] in taken && j !in fails
  }

  /** Insert under the first candidate from `k` on that is free, unless a call to the backend fails first. */
  function Place(taken: set<Key>, candidates: seq<Key>, k: nat, fails: set<nat>): (p: Placement)
    requires k <= |candidates|
    ensures p.Placed? ==> p.key !in taken
                          && exists i: nat :: TriedInVain(taken, candidates, k, i, fails) && i < |candidates|
                                                       && i !in fails && candidates[i] == p.key
    ensures p.NoneFree? ==> TriedInVain(taken, candidates, k, |candidates|, fails)
    ensures p.BackendDown? ==>
              exists i: nat :: TriedInVain(taken, candidates, k, i, fails) && i < |candidates| && i in fails
    decreases |candidates| - k
  {
    if k == |candidates| then NoneFree
    else if k in fails then assert TriedInVain(taken, candidates, k, k, fails); BackendDown
    else if candidates[k] in taken then
      var p := Place(taken, candidates, k + 1, fails);
      assert forall i: nat :: TriedInVain(taken, candidates, k + 1, i, fails) ==>
          TriedInVain(taken, candidates, k, i, fails);
      p
    else assert TriedInVain(taken, candidates, k, k, fails); Placed(candidates[k])
  }

  /* ---------- the cache port ---------- */

  /** `NoOpCache`, `InMemoryCache` (which ignores the time to live) and `RedisCache` (which honours it). */
  datatype Kind = NoOp | InMemory | Redis

  /** An entry without a deadline stays for good. */
  datatype Entry<+T> = Entry(value: T, deadline: Option<nat>)
  type Entries<+T> = map<Key, Entry<T>>

  predicate Live<T>(kind: Kind, e: Entry<T>, at: nat) { kind.InMemory? || e.deadline.None? || at < e.deadline.value }

  /** A time to live is in seconds and runs from the very instant of the set; zero means none. */
  function DeadlineOf(at: nat, ttl: nat): Option<nat> { if ttl > 0 then Some(at + SECOND * ttl) else None }

  /** A get may miss for any reason. */
  function Lookup<T>(kind: Kind, m: Entries<T>, key: Key, at: nat, miss: bool): Option<T> {
    if kind.NoOp? || miss || key !in m || !Live(kind, m[key], at) then None else Some(m[key].value)
  }

  function WithEntry<T>(kind: Kind, m: Entries<T>, key: Key, value: T, ttl: nat, at: nat, lost: bool): Entries<T> {
    if kind.NoOp? || lost then m else m[key := Entry(value, DeadlineOf(at, ttl))]
  }

  function WithoutEntry<T>(m: Entries<T>, key: Key, lost: bool): Entries<T> {
    if lost then m else m - {key}
  }

  class Cache<T> {
    const kind: Kind
    var entries: Entries<T>

    constructor (kind: Kind)
      ensures this.kind == kind && entries == map[]
    {
      this.kind, entries := kind, map[];
    }

    method Get(key: Key, at: nat, miss: bool) returns (r: Option<T>)
      ensures r == Lookup(kind, entries, key, at, miss)
    {
      if kind.NoOp? || miss || key !in entries {
        return None;
      }
      var e := entries[key];
      return if kind.InMemory? || e.deadline.None? || at < e.deadline.value then Some(e.value) else None;
    }

    method Set(key: Key, value: T, ttl: nat, at: nat, lost: bool)
      modifies this
      ensures entries == WithEntry(kind, old(entries), key, value, ttl, at, lost)
    {
      if kind.NoOp? || lost {
        return;
      }
      var deadline := None;
      if ttl > 0 {
        deadline := Some(at + SECOND * ttl);
      }
      entries := entries[key := Entry(value, deadline)];
    }

    method Delete(key: Key, lost: bool)
      modifies this
      ensures entries == WithoutEntry(old(entries), key, lost)
    {
      if !lost {
        entries := entries - {key};
      }
    }
  }
}
