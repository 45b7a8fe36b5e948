# Verified models of the three services

This project models the stateful cores of three small Rust services and of one browser client, and proves what they keep
over every run:

- **tcp-actor-server**: a hand-written HTTP/1.1 server. `Bytes`, `Text`, `Http` and `Messages` hold the parser and the printer;
  `Connection` is one connection as a state machine over the outcomes of its reads; `ConnectionLoop` is the same connection
  with the program's own loops and mutable buffer, proved equal to the machine; `Requests` and `Responses` are what a client
  prints and reads back; `Registry` is the actor that counts connections; `Server` interleaves the accept loop, the permits,
  the connections, the registry and the drain.
- **url-shortener**: `RateLimit` is the token bucket with its idle sweeper, `Links` the link service over a repository and a
  cache with atomic operations, `LinkRaces` the same calls cut at every await and interleaved, `LinkSteps` the connection
  between the two; `Batcher` and `BatcherRuns` are the hit batcher, alone and among its callers.
- **pastebin-service**: `Pastes` is the paste service with atomic operations, `PasteRaces` the same calls cut at every await
  and interleaved, `PasteSteps` the connection between the two. `CacheAside` is what both services share.
- **the browser client**: `ShareLink` is its base64url code and the `#id.key` fragment.

Where the program updates state in place the model is a class whose methods are proved against functions on values, or a
method with the program's loop; the theorems are lemmas about those functions, over every input, run or schedule. `Exec`,
`Run` and `Account` fold a list of events from the initial state, so "for every list" means "in every reachable state".

## Where the code and its documentation differ

The model follows the code. The lemmas named here state the difference exactly.

- tcp-actor-server/README.md:100 calls `REQUEST_TIMEOUT_SECS` a per-read timeout. The code bounds the whole request: once
  armed, its deadline does not move (`Connection.DeadlineNeverMoves`).
- url-shortener/src/rate_limit.rs:17-19 calls eviction behaviour-preserving. Stamps are taken before the lock: when they
  lag the order of the lock by up to D, it is so exactly when 600 seconds less D refill the whole burst
  (`RateLimit.EvictionPreserves`).
- tcp-actor-server/src/server.rs:126-128 says that draining waits for every connection. The permit count is clamped to
  `u32`, so it does exactly when `max_connections` is at most `u32::MAX` (`Server.DrainMeansQuiet`).
- url-shortener/src/application/mod.rs:159-160 says that a cached entry is a live target. That needs invalidations that
  arrive, and either no times to live at all, or a cache that honours them and operations on whole seconds
  (`Links.CacheInvisible`). Between whole seconds even Redis redirects after the expiry, because the expiry is in whole
  seconds but the entry's time runs from the instant of the set; it does so for less than a second
  (`Links.SubSecondShows`, `Links.RedirectsNotLate`, `Links.LastMoment`). When calls interleave, a set that arrives late
  adds its own delay, and a deleted link may redirect for that delay and 300 seconds more (`LinkRaces.BoundedRedirects`,
  `LinkRaces.BoundsAreTight`).
- Every refusal, 431, 501, 400, 408 and 413 alike, is sent with a text after its head, which a client that follows RFC 9112,
  section 6.3, does not expect after a HEAD request. The inputs that leave such a text unread are exactly those of
  `Responses.RefusesHead`: a HEAD request whose head is refused on sight (such as `Requests.LongHeadIsRefused`), or cut
  short or late (`Requests.PartialHeadIsRefused`), or whose body is announced too large (`Requests.BigHeadIsRefused`) or
  does not come in time (`Requests.SlowHeadIsRefused`). Whether a request is a HEAD request is the sender's own knowledge
  there: its bytes begin with `HEAD` and a space, whether or not the server parses them (`Connection.AsksParsed` for those
  that it does).
- Skipping empty header lines (tcp-actor-server/src/http.rs:81-83) is dead code (`Http.HeaderLinesNonEmpty`).
- A deleted paste can still be served from the cache, for as long as the bound of `PasteRaces.BoundedStaleness` allows and no
  longer (`PasteRaces.StalenessIsTight`).
- A hit that is still on its way when its link is deleted is credited to the next link of the same code
  (`BatcherRuns.RemadeRowInheritsHits`). A row is exact if and only if no hit of its code was on its way when it was made
  (`BatcherRuns.BatchedAgainstImmediate`), which a flush after the last such hit ensures (`BatcherRuns.MadeAfterFlush`).

## Model

| member | source | states |
|---|---|---|
| Bytes.Find | tcp-actor-server/src/http.rs:143-150 | the index returned is a match and no earlier index is; none is returned only when there is no match at all |
| Bytes.JoinSplit | tcp-actor-server/src/http.rs:58-58 | joining the parts of a split gives the text back |
| Bytes.SplitJoin | tcp-actor-server/src/http.rs:58-62 | splitting joined parts gives the parts back when none contains the separator's first byte |
| Bytes.ParseDecimal | tcp-actor-server/src/http.rs:88-90 | every `usize` printed in decimal parses back to itself |
| Text.ValidMeans | tcp-actor-server/src/http.rs:57-57 | a head is taken for text exactly if it is the UTF-8 encoding of a sequence of scalar values, as RFC 3629 defines it |
| Text.SpaceMeans | tcp-actor-server/src/http.rs:85-86 | exactly the characters with the Unicode property `White_Space` are white space |
| Text.TrimMeans | tcp-actor-server/src/http.rs:85-86 | trimming takes white space from both ends and all of it |
| Text.LowerMeans | tcp-actor-server/src/http.rs:85-97 | two names or values compare equal exactly if they differ in the case of ASCII letters alone |
| Text.NumberMeans | tcp-actor-server/src/http.rs:89-89 | a length is digits, perhaps after one plus, with a value that fits 64 bits, and nothing else is |
| Http.ParseHead | tcp-actor-server/src/http.rs:41-56 | a parsed head ends at the first CRLFCRLF and within 8192 bytes; `Incomplete` occurs exactly with at most 8192 bytes and no CRLFCRLF, `HeadTooLarge` exactly beyond them |
| Http.ParseHeadLoop | tcp-actor-server/src/http.rs:41-114 | the parser with its loop and its two mutable locals computes the specified parse on every buffer |
| Http.PrefixStable | tcp-actor-server/src/http.rs:41-114 | any answer but `Incomplete` stays the same whatever bytes follow |
| Http.HeaderLinesNonEmpty | tcp-actor-server/src/http.rs:80-83 | no header line of a complete head is empty |
| Http.FirstErrorWins | tcp-actor-server/src/http.rs:80-103 | the header loop fails exactly when some line is at fault, with the error of the first such line |
| Http.LastFieldWins | tcp-actor-server/src/http.rs:87-101 | the last recognised `Content-Length` and the last recognised `Connection` line decide, else the defaults |
| Http.HeadMeaning | tcp-actor-server/src/http.rs:56-113 | on every buffer: which heads parse, to which method, path, length and persistence, `HTTP/1.1` being the only version that persists by default; and for the others which error comes first |
| Connection.FramingIsChunkIndependent | tcp-actor-server/src/server.rs:159-250 | on every script of reads, whatever their cuts, their timing and what stopped them: the requests, the replies and how the connection closed, or that it still waits, are those of one recursive reading of the bytes and the stop |
| Connection.StopMeans | tcp-actor-server/src/server.rs:319-333 | reads that bring bytes add up to the stream; a read of zero bytes is its end |
| Connection.AdvanceMore | tcp-actor-server/src/server.rs:159-250 | advancing, then receiving more and advancing again, comes to receiving everything first |
| Connection.TurnMore | tcp-actor-server/src/server.rs:165-246 | a step that was possible stays possible, with the same effect, when more bytes are buffered |
| Connection.AsksParsed | tcp-actor-server/src/http.rs:60-73 | a request whose head parses is a HEAD request to the server if and only if it is one to the client that sent it |
| Connection.AsksStable | tcp-actor-server/src/server.rs:167-188 | what a request is to its sender does not change with the bytes that follow, once its head has an answer |
| Connection.DeadlineAndReads | tcp-actor-server/src/server.rs:160-233 | on every run, errors, timeouts and shutdown included: each completed request was complete within `request_timeout` of its start and took at most 8192 plus max(1, `max_body_bytes`) reads; the deadline is armed exactly while a request is in progress |
| Connection.DeadlineNeverMoves | tcp-actor-server/src/server.rs:160-225 | while one request is being read its deadline stays what it was |
| Connection.BufferBound | tcp-actor-server/src/server.rs:165-246 | the buffer, next chunk included, holds at most `max_body_bytes` plus 16384 bytes; the end of an awaited request fits `usize` |
| Connection.Turn | tcp-actor-server/src/server.rs:165-246 | every step without a read drains the buffer or moves the request on, so the loop between two reads ends |
| ConnectionLoop.Handler.Handle | tcp-actor-server/src/server.rs:145-251 | the loops over the mutable buffer reach, on every script of reads, exactly the state of the machine: phase, buffer, deadline, clock, requests and replies |
| ConnectionLoop.Handler.AwaitHead | tcp-actor-server/src/server.rs:164-215 | the inner loop leaves with a parsed head at the front of the buffer, or with the state in which the machine closed or waits |
| ConnectionLoop.Handler.ReadMore | tcp-actor-server/src/server.rs:189-214 | one read, idle or under the deadline, with each of its outcomes, is one step of the machine |
| ConnectionLoop.Handler.AwaitBody | tcp-actor-server/src/server.rs:222-233 | the loop leaves with the whole body buffered, or with the state in which the machine closed or waits |
| ConnectionLoop.Handler.ServeRequest | tcp-actor-server/src/server.rs:235-249 | routing, responding, draining and the decision to keep the connection are the serving step of the machine, which `Responses.ClientReads` says in terms of the request and the flag |
| ConnectionLoop.Handler.Read | tcp-actor-server/src/server.rs:291-333 | a read appends exactly the bytes that arrived and reports the outcome |
| Responses.ReadBack | tcp-actor-server/src/http.rs:119-141 | a client reads a printed response back field by field, and what follows it is untouched |
| Responses.ReadAllBack | tcp-actor-server/src/http.rs:119-141 | the concatenation of orderly responses decodes to exactly those responses, in order |
| Messages.ResponseFormat | tcp-actor-server/src/http.rs:126-140 | a response is printed byte for byte in the format of the source |
| Responses.RunOut | tcp-actor-server/src/server.rs:235-258 | on every run only the last reply says `connection: close`, and nothing is written after it |
| Responses.ResponsesDecode | tcp-actor-server/src/server.rs:159-258 | on every run a client that knows no more than what it sent, request by request, recovers exactly the responses written; bytes are left over if and only if the bytes received and how the reads stopped make the server refuse a HEAD request, parsed or not |
| Responses.TextFromInput | tcp-actor-server/src/server.rs:165-258 | on every script of reads a request is refused, for this reason and as a HEAD request or not, exactly when the bytes received and the way the reads stopped say so |
| Responses.FlagsFromInput | tcp-actor-server/src/server.rs:165-258 | on every script of reads each reply goes to the request at its place in the stream, under what its sender meant that request to be |
| Responses.ClientReads | tcp-actor-server/src/server.rs:159-276 | on every run, from the client's side: one message for each request answered, with the status, reason, text, length and persistence that its method, path, `Connection` and the shutdown flag call for; one more for a request refused, with 431, 501, 400, 408 or 413 as the input says; and the connection ends of itself if and only if the last request asked for it or was served under shutdown, and no earlier one did |
| Responses.ConverseServed | tcp-actor-server/src/server.rs:235-249 | the same of the reading of a stream, request by request |
| Responses.HeadMirrorsGet | tcp-actor-server/src/http.rs:116-118 | a HEAD request gets what GET would get, length included, without the body; exactly the three known paths are found |
| Requests.ParsePrinted | tcp-actor-server/src/http.rs:41-114 | every head that a client can print within the limit parses back to itself, whatever follows |
| Requests.PipelineIsServed | tcp-actor-server/src/server.rs:159-250 | pipelined requests with bodies are all seen, in order, each with its own length, and each gets its own answer, whatever follows them |
| Requests.EndToEnd | tcp-actor-server/src/server.rs:145-251 | print requests, cut the stream anywhere, let the server run, read its output: the requests arrive and their answers come back in order, each as it should be, and nothing else |
| Requests.LastRequest | tcp-actor-server/src/server.rs:237-249 | persistent requests, then one sent with `connection: close` or served once the flag is set, then any bytes: exactly those requests are served, every reply but the last says keep-alive and the last says close, and the connection closes by itself |
| Requests.HeadIsWhole | tcp-actor-server/src/http.rs:41-51 | no proper part of a printed head is taken for a head |
| Requests.CutRequest | tcp-actor-server/src/server.rs:196-233 | a printed request of which only part arrives is never served: 408 at its deadline, 400 if the peer closes within the head, else nothing is written |
| Requests.BigHeadIsRefused | tcp-actor-server/src/server.rs:218-221 | a HEAD request with too large a body is refused for it |
| Requests.SlowHeadIsRefused | tcp-actor-server/src/server.rs:224-230 | a HEAD request whose body does not come before the deadline is refused |
| Requests.PartialHeadIsRefused | tcp-actor-server/src/server.rs:196-211 | a HEAD request whose head is cut off by the timer or the peer is refused |
| Requests.LongHeadIsRefused | tcp-actor-server/src/server.rs:168-174 | every HEAD request for a path of more than 8192 bytes is refused at once |
| Requests.TotalFits | tcp-actor-server/src/server.rs:218-222 | `head_len + content_length` never overflows on any input if and only if `max_body_bytes` is at most `usize::MAX - 8192` |
| Registry.Actor.Guard | tcp-actor-server/src/registry.rs:42-48 | registering enqueues one command behind all others |
| Registry.Actor.Drop | tcp-actor-server/src/registry.rs:66-70 | dropping the guard enqueues the deregistration behind all others |
| Registry.Actor.ProcessOne | tcp-actor-server/src/registry.rs:75-86 | one turn of the actor takes the front command and answers a count with the size of its map |
| Registry.Actor.Drain | tcp-actor-server/src/registry.rs:73-88 | every queued count is answered with the size of the set at its own place in the queue, and the set ends where the whole queue leads |
| Registry.ReplayFront | tcp-actor-server/src/registry.rs:73-88 | processing the front first, or the whole queue at once, comes to the same |
| Server.PermitConservation | tcp-actor-server/src/server.rs:82-139 | in every reachable state free permits, the accept loop's, the connections' and the drain's add up to `max_connections` |
| Server.DrainMeansQuiet | tcp-actor-server/src/server.rs:126-139 | a drain that succeeds means no live connection then or later, on every schedule, if and only if `max_connections` is at most `u32::MAX` |
| Server.EarlyDrain | tcp-actor-server/src/server.rs:129-129 | with a larger limit a schedule exists on which the drain succeeds beside a live connection |
| Server.AtMostOneMore | tcp-actor-server/src/server.rs:91-118 | once the flag is set at most one more connection is accepted, on every schedule |
| Server.EndsWhenTold | tcp-actor-server/src/server.rs:91-107 | the accept loop ends only after shutdown was asked for |
| Server.DrainCompletes | tcp-actor-server/src/server.rs:126-139 | a drain that finds no connection left can take every permit it asks for and return, with all permits free again |
| Server.CountsLinearizable | tcp-actor-server/src/registry.rs:51-88 | on every schedule, panics included, each reply was asked for by one event of it and equals the number of guards alive just before that event; it lies between 1 and `max_connections` |
| Server.AskedWhen | tcp-actor-server/src/registry.rs:51-57 | the event that asked for a given count |
| Server.Follow | tcp-actor-server/src/registry.rs:42-88 | the actor object follows each event as the state does |
| Server.Play | tcp-actor-server/src/registry.rs:34-88 | driven by any schedule, the actor object ends with the queue, the set and the replies that the state has |
| Server.NothingLeaks | tcp-actor-server/src/registry.rs:60-70 | once the actor has caught up its set is exactly the set of live guards |
| RateLimit.RateLimiter.Check | url-shortener/src/rate_limit.rs:60-79 | the in-place update of the bucket is the specified one and changes no other bucket |
| RateLimit.RateLimiter.Sweep | url-shortener/src/rate_limit.rs:92-94 | one pass keeps exactly the buckets used within 600 seconds, unchanged |
| RateLimit.BucketIsTight | url-shortener/src/rate_limit.rs:60-79 | the bucket of an address always holds the least slack over all its requests so far |
| RateLimit.AdmissionRule | url-shortener/src/rate_limit.rs:60-80 | for stamps in any order, a request is let through if and only if, counting from each earlier or equal request of its address, what was let through stays within burst plus refill |
| RateLimit.AdmissionByClock | url-shortener/src/rate_limit.rs:60-80 | for stamps in order the same rule in wall-clock time |
| RateLimit.WindowBound | url-shortener/src/rate_limit.rs:3-5 | every window of length T lets through at most burst plus `rps` times T requests of an address |
| RateLimit.BurstAndRate | url-shortener/src/rate_limit.rs:39-56 | the same bound in the numbers the limiter was made with: `burst`, or `rps` if it is zero, plus T times `rps` |
| RateLimit.BurstAtOnce | url-shortener/src/rate_limit.rs:39-80 | at one instant a new limiter lets through exactly the first `burst` requests of an address, or `rps` if `burst` is zero |
| RateLimit.SweptRunsAlike | url-shortener/src/rate_limit.rs:82-96 | with sweeps at arbitrary times, all answers to all addresses are those of a limiter that never sweeps, if 600 seconds less the lag of the stamps refill the burst |
| RateLimit.OverdrawDiffers | url-shortener/src/rate_limit.rs:17-20 | when the burst exceeds what 600 seconds less the lag refill, a run exists on which a sweep changes an answer |
| RateLimit.EvictionPreserves | url-shortener/src/rate_limit.rs:17-20 | for every lag D, eviction preserves behaviour on every run whose stamps lag the order of the lock by at most D if and only if the burst is at most `rps` times 600 seconds less D |
| RateLimit.Disabled | url-shortener/src/rate_limit.rs:61-63 | with `rps` zero everything is let through and nothing is stored |
| CacheAside.LifeSpan | url-shortener/src/application/mod.rs:130-131 | a link expires at once exactly when its time to live is zero or wraps in `i64`, else after exactly that long, up to the end of the clock |
| CacheAside.CacheTtl | url-shortener/src/application/mod.rs:226-238 | the cache time is at most 300 seconds, never beyond the expiry, and zero exactly for an expired row |
| CacheAside.Place | url-shortener/src/application/mod.rs:140-151 | the retry loop places a row under the first free candidate, gives up exactly when all are taken, and reports a failure of the backend exactly when a call fails before |
| CacheAside.Cache.Get | url-shortener/src/cache.rs:149-159 | a get yields what was last set if, for this kind of cache, its deadline has not passed to the millisecond, or misses |
| CacheAside.Cache.Set | url-shortener/src/cache.rs:161-172 | a set replaces one entry and leaves the others, or is lost; the time to live runs from the instant of the set, and zero means none |
| CacheAside.Cache.Delete | url-shortener/src/cache.rs:174-181 | a delete removes one entry and leaves the others, or is lost |
| Links.LinkRepository.Insert | url-shortener/src/infrastructure/memory.rs:95-105 | inserts under a free code and reports a taken one, changing nothing then |
| Links.LinkRepository.Get | url-shortener/src/infrastructure/memory.rs:106-108 | returns the row of that code if there is one |
| Links.LinkRepository.IncrementBy | url-shortener/src/infrastructure/memory.rs:109-118 | adds to the hits of an existing row and to nothing else |
| Links.LinkRepository.Delete | url-shortener/src/infrastructure/memory.rs:119-121 | removes exactly that row and reports whether it was there |
| Links.LinkService.Create | url-shortener/src/application/mod.rs:120-152 | validation, block list, alias or retry loop leave repository and cache as specified, with the specified reply |
| Links.LinkService.Resolve | url-shortener/src/application/mod.rs:156-183 | cache, database, purge, set and hit leave repository and cache as specified, with the specified reply |
| Links.LinkService.Get | url-shortener/src/application/mod.rs:186-194 | metadata, or the purge of an expired row without touching the cache |
| Links.LinkService.Delete | url-shortener/src/application/mod.rs:203-212 | database first, then the invalidation regardless |
| Links.StepKeeps | url-shortener/src/application/mod.rs:120-212 | every operation keeps each live entry backed by a row with the same target that lives at least as long |
| Links.TrustedCacheInvisible | url-shortener/src/application/mod.rs:120-238 | for every admissible history with a trustworthy cache and a clock that does not run backwards, replies and rows equal those without a cache, whatever the cache misses or loses |
| Links.CacheInvisible | url-shortener/src/application/mod.rs:120-238 | that holds on all admissible histories if and only if there is no cache, or invalidations arrive and either no link has a time to live or the cache honours it and all happens on whole seconds |
| Links.LostDeleteShows | url-shortener/src/cache.rs:174-181 | a lost invalidation lets a deleted link redirect |
| Links.OutlivedEntryShows | url-shortener/src/cache.rs:116-123 | a cache that ignores the time to live redirects past the expiry |
| Links.SubSecondShows | url-shortener/src/application/mod.rs:217-238 | an entry set between two whole seconds redirects past the expiry, in Redis too |
| Links.RedirectsNotLate | url-shortener/src/application/mod.rs:156-183 | at any resolution of the clock, with invalidations that arrive, Redis redirects only to a target made under the code since its last deletion, and less than a second after that link expired |
| Links.LastMoment | url-shortener/src/application/mod.rs:226-238 | that bound is met to the millisecond |
| Links.RedirectsToLiveRow | url-shortener/src/application/mod.rs:156-183 | with a trustworthy cache, a code redirects to a target if and only if its row is alive with that target; one hit is counted and no other row changes |
| Links.LookupsSeeLiveRows | url-shortener/src/application/mod.rs:166-194 | lazy purging is invisible to lookups: they answer from, and change, live rows alone |
| Links.GoneStaysGone | url-shortener/src/application/mod.rs:156-212 | once a link is gone no later lookup redirects to it or shows it until it is made again, over every history and with every trustworthy cache |
| Links.HitsAreRedirects | url-shortener/src/hits.rs:66-72 | with immediate recording the hits of a row are the redirects it served since it was made, on every history and with any cache |
| Links.CreateMeans | url-shortener/src/application/mod.rs:118-152 | a create stores the submitted target, the second of the call, the expiry of the submitted time to live and no hits, under the alias and nothing else or the first drawn code that is free; or it stores nothing and says why, the checks coming in this order: URL, block list, alias, database |
| Links.AliasMeans | url-shortener/src/application/mod.rs:133-138 | with nothing else amiss an alias is given verbatim, or refused as a conflict with nothing stored exactly if it is in use |
| Links.MadeThenVisited | url-shortener/src/application/mod.rs:118-183 | a link just made redirects to what was submitted, if it has not expired |
| Links.BlockedMeans | url-shortener/src/application/mod.rs:103-114 | a host is blocked exactly if it is on the list or below a host on it |
| Links.ResolveMeans | url-shortener/src/application/mod.rs:156-183 | with a trustworthy cache: a live row redirects and counts one hit, anything else is not found, and an expired row is purged |
| Links.DatabaseDown | url-shortener/src/application/mod.rs:161-166 | with the database down a cached target still redirects, and nothing else does |
| Links.GetMeans | url-shortener/src/application/mod.rs:186-194 | the live row is shown, an expired one purged but not from the cache, and a failing database reported |
| Links.DeleteMeans | url-shortener/src/application/mod.rs:203-212 | row and cached target go, and the reply says whether there was a row |
| LinkRaces.AlwaysGood | url-shortener/src/application/mod.rs:156-212 | the invariant of all interleavings with a cache that honours the time to live: rows, cache, calls in flight and the log of redirects |
| LinkRaces.BoundedRedirects | url-shortener/src/application/mod.rs:156-238 | if sets follow their reads within D and the cache honours the time to live, every redirect goes to a target made under its code; found in the cache, it was so before the removal plus D plus 300 seconds and before the expiry plus D plus a second, lost invalidations included, and a resolve that returns within R of that does so within R more; read from the database, it was there and had not expired |
| LinkRaces.BoundsAreTight | url-shortener/src/application/mod.rs:170-212 | for every D one run redirects in the last millisecond that both bounds allow, after a successful deletion |
| LinkSteps.ResolveAlone | url-shortener/src/application/mod.rs:156-183 | the steps of a resolve that is not interrupted amount to the atomic resolve: same rows, same cache, same answer or error, hit counts aside |
| LinkSteps.GetAlone | url-shortener/src/application/mod.rs:186-194 | the same for a get |
| LinkSteps.DeleteAlone | url-shortener/src/application/mod.rs:203-212 | the same for a delete |
| LinkSteps.LeftAlone | url-shortener/src/application/mod.rs:156-212 | in any run a call that is started and left alone ends as the atomic operation says of the moment it started, and disturbs no other call |
| Pastes.PasteRepository.Insert | pastebin-service/src/infrastructure/memory.rs:100-110 | inserts under a free id and reports a taken one, changing nothing then |
| Pastes.PasteRepository.Take | pastebin-service/src/infrastructure/memory.rs:114-116 | removes and returns in one command |
| Pastes.PasteRepository.IncrementBy | pastebin-service/src/infrastructure/memory.rs:117-126 | adds to the views of an existing row and to nothing else |
| Pastes.PasteRepository.Delete | pastebin-service/src/infrastructure/memory.rs:127-129 | removes exactly that row and reports whether it was there |
| Pastes.PasteService.Create | pastebin-service/src/application/mod.rs:87-115 | validation and retry loop leave the repository as specified, with the specified reply |
| Pastes.PasteService.Fetch | pastebin-service/src/application/mod.rs:121-165 | cache, expiry, purge, burn, set and view leave repository and cache as specified, with the specified reply |
| Pastes.PasteService.Delete | pastebin-service/src/application/mod.rs:168-177 | database first, then the invalidation regardless |
| Pastes.StepAlike | pastebin-service/src/application/mod.rs:87-177 | every operation answers as without a cache up to views that are not ahead, changes the rows alike, and keeps every entry a snapshot of its row |
| Pastes.CacheNearlyInvisible | pastebin-service/src/application/mod.rs:87-247 | up to views every history looks the same with and without the cache, with the same rows, if and only if there is no cache or invalidations arrive; the clock and the time to live do not matter |
| Pastes.UndeadShows | pastebin-service/src/cache.rs:174-181 | a lost invalidation lets a deleted paste be served |
| Pastes.ServesLiveRow | pastebin-service/src/application/mod.rs:121-165 | a fetch is served if and only if the row is alive (and can be taken, if it burns), with a snapshot of that row; the row goes or counts one view |
| Pastes.GoneStaysGone | pastebin-service/src/application/mod.rs:121-177 | once a paste is burned, deleted or purged no later fetch is served until its id is given out again |
| Pastes.BurnedPastesLeaveNothing | pastebin-service/src/application/mod.rs:147-160 | whatever the backends do, no entry is burn-after-read, and serving such a paste removes its row |
| Pastes.CreateMeans | pastebin-service/src/application/mod.rs:87-115 | a create stores the submitted content, syntax and burn-after-read flag, the second of the call, the expiry of the submitted time to live and no views, under the first drawn id that is free; or it stores nothing and says why |
| Pastes.BurnsOnce | pastebin-service/src/application/mod.rs:147-153 | over every history in which invalidations arrive, of the fetches since a burn-after-read paste was made at most one is served |
| Pastes.FirstFetchServes | pastebin-service/src/application/mod.rs:87-153 | and the first fetch that the database answers is, with exactly what was submitted, unless the paste was deleted or has expired |
| Pastes.FetchMeans | pastebin-service/src/application/mod.rs:121-165 | with invalidations that arrive: a live row is served and counts a view or burns, an expired one is purged from rows and cache, anything else is not found |
| Pastes.DatabaseDown | pastebin-service/src/application/mod.rs:127-138 | with the database down a snapshot that has not expired is still served, and nothing else is |
| Pastes.FetchDropsExpired | pastebin-service/src/application/mod.rs:127-135 | a fetch that sees the cache leaves no expired snapshot of its id there, lost invalidations before it included |
| Pastes.DeleteMeans | pastebin-service/src/application/mod.rs:168-177 | row and snapshot go, and the reply says whether there was a row |
| Pastes.ViewsAreServes | pastebin-service/src/views.rs:63-70 | with immediate recording the views of a row are the fetches it served since it was made, on every history and with any cache |
| PasteRaces.AlwaysSafe | pastebin-service/src/application/mod.rs:121-177 | the invariant of all interleavings: rows, cache, calls in flight and the log of answers |
| PasteRaces.BurnAfterReading | pastebin-service/src/application/mod.rs:147-153 | under any interleaving, cache and failures, a burn-after-read paste is returned by at most one fetch of the whole run |
| PasteRaces.NeverCached | pastebin-service/src/application/mod.rs:147-163 | in every reachable state no cache holds a burn-after-read paste, and one that was returned has no row |
| PasteRaces.NeverServedExpired | pastebin-service/src/application/mod.rs:127-135 | nothing from the cache passes its check at or after its own expiry, to the millisecond, even if the cache ignores the time to live |
| PasteRaces.BoundedStaleness | pastebin-service/src/application/mod.rs:127-163 | if sets follow their reads within D and the cache honours the time to live, a removed paste is found in the cache only before its removal plus D plus 300 seconds, lost invalidations included; a fetch that returns within R of that returns it only before R more |
| PasteRaces.StalenessIsTight | pastebin-service/src/application/mod.rs:155-177 | for every D a run returns a paste in the last millisecond that this bound allows, after a successful deletion |
| PasteSteps.FetchAlone | pastebin-service/src/application/mod.rs:121-165 | the steps of a fetch that is not interrupted amount to the atomic fetch: same rows, same cache, same answer or error, view counts aside |
| PasteSteps.DeleteAlone | pastebin-service/src/application/mod.rs:168-177 | the same for a delete, which tells a removed paste, a missing one and a failed database apart |
| PasteSteps.LeftAlone | pastebin-service/src/application/mod.rs:121-177 | in any run a call that is started and left alone ends as the atomic operation says of the moment it started, and disturbs no other call |
| Batcher.FlushPending | url-shortener/src/hits.rs:175-183 | draining the pending map in any order credits every code once, but for missing rows and failed writes |
| Batcher.Wake | url-shortener/src/hits.rs:147-168 | one turn of the loop with its early, timed, requested and final flushes does what is specified |
| Batcher.RunWorker | url-shortener/src/hits.rs:135-170 | the whole loop does, up to the end of the channel |
| Batcher.BatchingIsImmediate | url-shortener/src/hits.rs:66-72 | what is written plus what is pending is at all times what immediate recording writes |
| Batcher.FlushShowsEverything | url-shortener/src/hits.rs:150-167 | after a timed, requested or final flush the rows are those of immediate recording |
| Batcher.PendingStaysSmall | url-shortener/src/hits.rs:149-154 | the loop waits with fewer than `max_pending` pending codes only |
| Batcher.WorkerExactly | url-shortener/src/hits.rs:135-183 | told from the wake-ups alone: the rows hold the hits that the last flush covers, the map those since, and a hit flushes exactly when it brings the codes since the last flush up to the limit |
| Batcher.AcksAreRequests | url-shortener/src/hits.rs:154-164 | every flush request received before the end is acknowledged, in order, once, and nothing else is |
| BatcherRuns.HitsConserved | url-shortener/src/hits.rs:117-183 | in every reachable state, for every code, hits attempted are those dropped, queued, pending, credited and lost; queue and map stay within their bounds |
| BatcherRuns.WriteSettles | url-shortener/src/hits.rs:179-182 | each write settles the pending hits of its code and no others |
| BatcherRuns.NothingLeftAtExit | url-shortener/src/hits.rs:159-163 | once the worker has exited every hit was dropped, credited or lost |
| BatcherRuns.CanExit | url-shortener/src/hits.rs:159-163 | once the last sender is gone the worker can go on to its exit from every reachable state |
| BatcherRuns.FlushTakesEverything | url-shortener/src/hits.rs:124-131 | when a flush request is acknowledged, every hit accepted before it is credited or lost |
| BatcherRuns.EveryRequestAcked | url-shortener/src/hits.rs:124-164 | on every schedule the requests acknowledged are all those made but for the ones queued or being served; after the exit, all |
| BatcherRuns.FlushesForAReason | url-shortener/src/hits.rs:147-168 | the worker starts a flush exactly at a tick, a request, the end, or a hit that brings the pending codes up to the limit |
| BatcherRuns.NoHitDropped | url-shortener/src/hits.rs:35-39 | no hit is dropped as long as at no time more than 8192 messages are sent and not yet taken |
| BatcherRuns.DroppedWhenFull | url-shortener/src/hits.rs:117-121 | a hit is dropped if and only if it finds 8192 messages queued, the next one after that bound among them |
| BatcherRuns.BatchedAgainstImmediate | url-shortener/src/hits.rs:66-72 | on every schedule and for every row there is, links deleted and made again included: the row lacks exactly what was dropped, lost or is on its way since it was made, and has gained what was on its way when it was made; so a row that has caught up with nothing dropped or lost agrees with immediate recording if and only if no hit of its code was in flight when it was made |
| BatcherRuns.FlushClears | url-shortener/src/hits.rs:124-131 | after an acknowledged flush with no later hit of a code, none of its hits is in flight |
| BatcherRuns.MadeAfterFlush | url-shortener/src/hits.rs:124-131 | a row made after such a flush adds up with what was dropped, lost and is on its way to immediate recording, on every schedule that follows |
| BatcherRuns.KeptAgainstImmediate | url-shortener/src/hits.rs:66-72 | for a row that is never removed, the same over the whole run: it has gained every hit that came before it |
| BatcherRuns.RemadeRowInheritsHits | url-shortener/src/hits.rs:175-183 | a run on which a remade row is credited with a hit of the row before it |
| ShareLink.BytesToB64 | pastebin-service/static/app.js:102-106 | building the string in slices of 0x8000 encodes exactly the bytes |
| ShareLink.B64ToBytes | pastebin-service/static/app.js:107-112 | the array is filled with exactly the decoded bytes |
| ShareLink.B64UrlDecode | pastebin-service/static/app.js:114-114 | the padding loop ends with exactly the missing padding |
| ShareLink.AtobBtoa | pastebin-service/static/app.js:102-112 | decoding undoes encoding, for every byte array |
| ShareLink.UrlRoundTrip | pastebin-service/static/app.js:113-114 | undoing the url-safe form gives the padded text back |
| ShareLink.KeyTextIsUrlSafe | pastebin-service/static/app.js:113-113 | what a link carries of a key is letters, digits, `-` and `_` only |
| ShareLink.LettersInOrder | pastebin-service/static/app.js:102-112 | the 64 letters are those of RFC 4648, in its order |
| ShareLink.ShareLinkRoundTrip | pastebin-service/static/app.js:264-267 | reading the fragment made for an id and a key gives both back, for every key, if and only if the id is not empty and has no dot; the browser's URL parser between the two aside |
| ShareLink.GeneratedIdsRoundTrip | pastebin-service/static/app.js:195-195 | in particular for every id that the service accepts |

## Left out

- Server.PermitConservation: `Server::run` is modelled as interleaved steps on values, not as a loop over objects, because its point is what other activities do meanwhile; the biased order of its selects, the back-off after a failed accept and Tokio's fairness are not modelled.
- Server.CountsLinearizable: assumes that the registry actor is alive and that connection ids do not wrap at 64 bits.
- ConnectionLoop.Handler.Handle: reads come from a finite script of outcomes; a connection whose script ends is left waiting.
- Connection.DeadlineAndReads: timers are ideal, so bytes never arrive after the deadline of a read.
- Responses.ResponsesDecode: a write either succeeds as a whole or ends the connection with nothing written; the write of a refusal always succeeds.
- RateLimit.AdmissionRule: arithmetic is over the reals, without the rounding of `f64`; the lock makes each check one step.
- Links.CacheInvisible: operations are atomic, each at one instant of a clock in milliseconds that the service and its cache share; hits are recorded at once, and the database answers the reads of redirects; counters do not overflow `i64`.
- Pastes.CacheNearlyInvisible: operations are atomic and the database answers the reads of fetches; what interleaving adds is in `PasteRaces`.
- CacheAside.Cache.Get: by convention an entry dies at the very millisecond of its deadline. A Redis that keeps it until just past that would redirect in the first millisecond after an expiry even on whole seconds, so the Redis case of `Links.CacheInvisible` rests on this; the bounds of `Links.RedirectsNotLate`, `LinkRaces.BoundedRedirects` and `PasteRaces.BoundedStaleness`, and the runs that meet them, would move by one millisecond.
- LinkRaces.BoundedRedirects: of `create` only the insert is a step, since nothing else in it touches shared state; hits are not tracked, and a redirect from the database may come at any time after its read.
- PasteSteps.FetchAlone: view counts, in rows and in the paste that is returned, are not tracked among interleaved calls; `Pastes` counts them with atomic operations.
- LinkSteps.ResolveAlone: hit counts are set aside in the same way; `Links` and `BatcherRuns` count them.
- PasteRaces.BoundedStaleness: speaks of what is found in the cache; a fetch that has already read a row from the database may return it at any time after its removal.
- PasteRaces.BurnAfterReading: of `create` only the insert is a step, since nothing else in it touches shared state; view counts are not tracked.
- BatcherRuns.FlushTakesEverything: a flush request waits for its slot outside the model, and the worker is never aborted; it exits only after the last sender is gone, so no hit can come after its exit.
- ShareLink.ShareLinkRoundTrip: the URL parser between the link and `location.hash` is left out; it percent-encodes spaces, quotes and other characters that may stand in an arbitrary id, but none that `ShareLink.GeneratedIdsRoundTrip` admits.
- ShareLink.AtobBtoa: `atob` is taken without its removal of white space.
- The pastebin's rate limiter and view batcher, which are the shortener's with other names.
- Sockets, Tokio's scheduler and channels below the level of a FIFO queue; SQL, the connection pool, Redis and its client.
- JSON, the `url` crate, random code generation and WebCrypto: the parsed target, the drawn codes and the keys are inputs, and a cached snapshot that does not decode counts as a miss.
- Axum routes, middleware, configuration, logging, metrics and the text of `/status`.
- The pastebin's user interface, its translations, its QR code and its syntax highlighting.
- Standalone claims about length and charset checks.
