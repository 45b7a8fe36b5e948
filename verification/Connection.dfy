/** One connection of tcp-actor-server/src/server.rs as a state machine over the outcomes of its reads. */
module Connection {
  import opened Options
  import opened Bytes
  import opened Http

  type Time = nat

  datatype Config = Config(maxBody: nat, timeout: Time)

  /** What a raw read yields: bytes (none at end of file), an error, an elapsed timer or the shutdown flag. */
  datatype RawRead = Data(chunk: bytes) | Broken | Elapsed | ShutdownSeen

  /** A raw read together with how long it took. */
  datatype Arrival = Arrival(raw: RawRead, wait: Time)

  datatype ReadOutcome = GotBytes | Eof | Timeout | Shutdown | Fault

  /** `classify`: zero bytes mean end of file. */
  function Classify(raw: RawRead): ReadOutcome {
    match raw
    case Data(chunk) => if chunk == [] then Eof else GotBytes
    case Broken => Fault
    case Elapsed => Timeout
    case ShutdownSeen => Shutdown
  }

  /** What the rest of the server contributes to the k-th request of a connection: the shutdown flag when the
      response is built, the `/status` text, whether the write succeeds and how long routing and writing take. And what
      only its sender knows: whether it was to be a HEAD request, should it be cut off before it says so. */
  datatype Surroundings = Surroundings(shutdown: bool, status: bytes, writeOk: bool, took: Time, meansHead: bool)
  type Env = nat -> Surroundings

  datatype Close = Silent | Aborted | Rejected | WriteFailed | Finished

  datatype Phase = ReadHead | ReadBody(head: RequestHead, headLen: nat) | Closed(why: Close)

  /** A response and whether the request it answers is a HEAD request to the client that sent it. */
  datatype Reply = Reply(response: Response, toHead: bool)

  /** When a request began (first bytes buffered, or previous response finished), when it was complete, and how
      many successful reads it took. */
  datatype Timing = Timing(started: Time, complete: Time, received: nat)

  datatype Conn = Conn(
    phase: Phase, buf: bytes, deadline: Option<Time>, now: Time, started: Time, received: nat,
    requests: seq<RequestHead>, timings: seq<Timing>, out: seq<Reply>)

  function Open(): Conn {
    Conn(ReadHead, [], None, 0, 0, 0, [], [], [])
  }

  /** The reasons for refusing a request. */
  datatype Refusal = HeaderTooLarge | Chunked | BadRequest | CutShort | TooSlow | BodyTooLarge

  function RefusalReason(r: Refusal): bytes {
    match r
    case HeaderTooLarge => "Request Header Fields Too Large"
    case Chunked => "Not Implemented"
    case BadRequest => "Bad Request"
    case CutShort => "Bad Request"
    case TooSlow => "Request Timeout"
    case BodyTooLarge => "Payload Too Large"
  }

  function RefusalBody(r: Refusal): bytes {
    match r
    case HeaderTooLarge => "header too large\n"
    case Chunked => "unsupported framing\n"
    case BadRequest => "bad request\n"
    case CutShort => "incomplete request\n"
    case TooSlow => "request timeout\n"
    case BodyTooLarge => "payload too large\n"
  }

  function RefusalStatus(r: Refusal): nat {
    match r
    case HeaderTooLarge => 431
    case Chunked => 501
    case BadRequest => 400
    case CutShort => 400
    case TooSlow => 408
    case BodyTooLarge => 413
  }

  function RefusalText(r: Refusal): Response {
    Response(RefusalStatus(r), RefusalReason(r), RefusalBody(r), false, true)
  }

  /** `respond` followed by `break 'conn`. */
  function Reject(c: Conn, why: Refusal, toHead: bool): Conn {
    c.(phase := Closed(Rejected), out := c.out + [Reply(RefusalText(why), toHead)])
  }

  predicate IsHead(head: RequestHead) { head.verb == "HEAD" }

  function HeadWord(): bytes { "HEAD " }

  /** Too little of a request to tell it from a HEAD request. */
  predicate CutOff(buf: bytes) { |buf| < |HeadWord()| && buf == HeadWord()[..|buf|] }

  /** To its sender the request that begins `buf` is a HEAD request, whatever the server makes of it. */
  predicate AsksHead(buf: bytes, s: Surroundings) {
    if CutOff(buf) then s.meansHead else StartsWith(buf, HeadWord())
  }

  datatype Routed = Routed(status: nat, reason: bytes, body: bytes)

  /** `route`. */
  function Route(head: RequestHead, status: bytes): Routed {
    if head.verb == "GET" || head.verb == "HEAD" then
      if head.path == "/" then Routed(200, "OK", "Hello from tcp-actor-server\n")
      else if head.path == "/healthz" then Routed(200, "OK", "ok\n")
      else if head.path == "/status" then Routed(200, "OK", status)
      else Routed(404, "Not Found", "not found\n")
    else Routed(405, "Method Not Allowed", "method not allowed\n")
  }

  predicate KeepsAlive(head: RequestHead, s: Surroundings) { head.keepAlive && !s.shutdown }

  function Answer(head: RequestHead, s: Surroundings): Reply {
    var r := Route(head, s.status);
    Reply(Response(r.status, r.reason, r.body, KeepsAlive(head, s), !IsHead(head)), IsHead(head))
  }

  /** Route, respond and drain a complete request. */
  function Serve(env: Env, c: Conn): Conn
    requires c.phase.ReadBody? && |c.buf| >= c.phase.headLen + c.phase.head.contentLength
  {
    var head, total := c.phase.head, c.phase.headLen + c.phase.head.contentLength;
    var s := env(|c.requests|);
    var d := c.(requests := c.requests + [head], timings := c.timings + [Timing(c.started, c.now, c.received)],
                now := c.now + s.took);
    if !s.writeOk then d.(phase := Closed(WriteFailed))
    else
      d.(phase := if KeepsAlive(head, s) then ReadHead else Closed(Finished),
         buf := c.buf[total..], deadline := None, started := d.now, received := 0,
         out := c.out + [Answer(head, s)])
  }

  function Armed(cfg: Config, c: Conn): Option<Time> { Some(Or(c.deadline, c.now + cfg.timeout)) }

  /** In the body phase the head length is positive, so draining a request makes progress. */
  predicate Wf(c: Conn) { c.phase.ReadBody? ==> c.phase.headLen >= 4 }

  /** Nothing more happens without a read: closed, or the head or the body is incomplete. */
  predicate Blocked(c: Conn) {
    match c.phase
    case Closed(_) => true
    case ReadBody(head, n) => |c.buf| < n + head.contentLength
    case ReadHead => ParseHead(c.buf) == Failed(Incomplete)
  }

  function Rank(c: Conn): nat { match c.phase case Closed(_) => 0 case ReadBody(_, _) => 1 case ReadHead => 2 }

  /** The request at the front of the buffer is a HEAD request to its sender. */
  predicate Asks(env: Env, c: Conn) { AsksHead(c.buf, env(|c.requests|)) }

  /** One step without a read: act on the parse of the head, or serve the complete request. */
  function Turn(cfg: Config, env: Env, c: Conn): (r: Conn)
    requires Wf(c) && !Blocked(c)
    ensures Wf(r)
    ensures |r.buf| < |c.buf| || (|r.buf| == |c.buf| && Rank(r) < Rank(c))
  {
    match c.phase
    case ReadBody(_, _) => Serve(env, c)
    case ReadHead =>
      match ParseHead(c.buf)
      case Failed(HeadTooLarge) => Reject(c, HeaderTooLarge, Asks(env, c))
      case Failed(Unsupported) => Reject(c, Chunked, Asks(env, c))
      case Failed(Malformed) => Reject(c, BadRequest, Asks(env, c))
      case Parsed(head, n) =>
        if head.contentLength > cfg.maxBody then Reject(c, BodyTooLarge, IsHead(head))
        else c.(phase := ReadBody(head, n), deadline := Armed(cfg, c))
  }

  /** A request in progress arms its deadline before it waits for more of its head. */
  function Park(cfg: Config, c: Conn): Conn {
    if c.phase.ReadHead? && c.buf != [] then c.(deadline := Armed(cfg, c)) else c
  }

  /** Everything the connection does until it needs another read or closes. */
  function Advance(cfg: Config, env: Env, c: Conn): (r: Conn)
    requires Wf(c)
    ensures Wf(r)
    decreases |c.buf|, Rank(c)
  {
    if Blocked(c) then Park(cfg, c) else Advance(cfg, env, Turn(cfg, env, c))
  }

  predicate Idle(c: Conn) { c.phase.ReadHead? && c.buf == [] }

  /** Bytes join the buffer; the first bytes of a request also start it. */
  function Append(c: Conn, chunk: bytes): Conn {
    c.(buf := c.buf + chunk, received := c.received + 1, started := if Idle(c) then c.now else c.started)
  }

  /** What a read that brings no bytes does: `read_idle` between requests, `read_until` within one. */
  function OnStop(env: Env, c: Conn, o: ReadOutcome): (r: Conn)
    ensures if o == GotBytes then r == c else r.phase.Closed?
  {
    if c.phase.Closed? || o == GotBytes then c
    else
      match o
      case Timeout =>
        if Idle(c) then c.(phase := Closed(Silent))
        else Reject(c, TooSlow, if c.phase.ReadBody? then IsHead(c.phase.head) else Asks(env, c))
      case Eof =>
        if Idle(c) then c.(phase := Closed(Silent))
        else if c.phase.ReadHead? then Reject(c, CutShort, Asks(env, c))
        else c.(phase := Closed(Aborted))
      case _ => c.(phase := Closed(if Idle(c) then Silent else Aborted))
  }

  /** One read. */
  function OnRead(cfg: Config, env: Env, c: Conn, a: Arrival): (r: Conn)
    requires Wf(c)
    ensures Wf(r)
  {
    if c.phase.Closed? then c
    else
      var d := c.(now := c.now + a.wait);
      if Classify(a.raw) == GotBytes then Advance(cfg, env, Append(d, a.raw.chunk))
      else OnStop(env, d, Classify(a.raw))
  }

  /** The connection after a whole script of reads. Every reachable state is the state after some script. */
  function Run(cfg: Config, env: Env, script: seq<Arrival>): (r: Conn)
    ensures Wf(r)
  {
    if script == [] then Advance(cfg, env, Open())
    else OnRead(cfg, env, Run(cfg, env, script[..|script| - 1]), script[|script| - 1])
  }

  /* ---------- framing does not depend on how reads split the stream ---------- */

  /** What a peer can observe: the phase, the bytes that still matter, the requests seen and the replies written. */
  datatype View = View(phase: Phase, buf: bytes, requests: seq<RequestHead>, out: seq<Reply>)

  function Seen(c: Conn): View {
    View(c.phase, if c.phase.Closed? then [] else c.buf, c.requests, c.out)
  }

  /** Clocks and counters never influence what is observed. */
  lemma TurnSame(cfg: Config, env: Env, a: Conn, b: Conn)
    requires Wf(a) && Wf(b) && Seen(a) == Seen(b)
    ensures Blocked(a) <==> Blocked(b)
    ensures !Blocked(a) ==> Seen(Turn(cfg, env, a)) == Seen(Turn(cfg, env, b))
  {
    hide ParseHead, RefusalText, Answer, KeepsAlive, IsHead;
  }

  lemma {:induction false} AdvanceSame(cfg: Config, env: Env, a: Conn, b: Conn)
    requires Wf(a) && Wf(b) && Seen(a) == Seen(b)
    ensures Seen(Advance(cfg, env, a)) == Seen(Advance(cfg, env, b))
    decreases |a.buf|, Rank(a)
  {
    hide Turn, Blocked;
    TurnSame(cfg, env, a, b);
    if !Blocked(a) {
      AdvanceSame(cfg, env, Turn(cfg, env, a), Turn(cfg, env, b));
    }
  }

  /** What a request asks does not change once its head has an answer. */
  lemma AsksStable(buf: bytes, ext: bytes, s: Surroundings)
    requires ParseHead(buf) != Failed(Incomplete)
    ensures AsksHead(buf + ext, s) <==> AsksHead(buf, s)
  {
    NotCutOff(buf);
    hide ParseHead;
    AsksLonger(buf, ext, s);
  }

  lemma NotCutOff(buf: bytes)
    requires ParseHead(buf) != Failed(Incomplete)
    ensures !CutOff(buf)
  {
    if Find(buf, HEAD_END).Some? {
      EndsWithReturn(buf, Find(buf, HEAD_END).value);
    }
  }

  lemma EndsWithReturn(buf: bytes, i: nat)
    requires MatchAt(buf, HEAD_END, i)
    ensures i + 4 <= |buf| && buf[i] == '\r'
  {
    assert buf[i..i + 4][0] == HEAD_END[0];
  }

  lemma AsksLonger(buf: bytes, ext: bytes, s: Surroundings)
    requires !CutOff(buf)
    ensures AsksHead(buf + ext, s) <==> AsksHead(buf, s)
  {
    var n := |HeadWord()|;
    if |buf| < n {
      var i :| 0 <= i < |buf| && buf[i] != HeadWord()[i];
      assert (buf + ext)[i] == buf[i];
      hide HeadWord;
      forall w: bytes | i < |w| <= |buf + ext| && w == (buf + ext)[..|w|] ensures w[i] == buf[i] {
      }
    } else {
      assert (buf + ext)[..n] == buf[..n];
    }
  }

  /** A request whose head parses is taken for what it is. */
  lemma AsksParsed(buf: bytes, s: Surroundings)
    requires ParseHead(buf).Parsed?
    ensures AsksHead(buf, s) <==> IsHead(ParseHead(buf).head)
  {
    NotCutOff(buf);
    var verb, rest := ParsedVerb(buf);
    hide ParseHead, CutOff;
    VerbTold(buf, verb, rest);
  }

  /** The bytes of a parsed head begin with its method and a space. */
  lemma ParsedVerb(buf: bytes) returns (verb: bytes, rest: bytes)
    requires ParseHead(buf).Parsed?
    ensures var space: bytes := " "; ' ' !in verb && buf == verb + space + rest && verb == ParseHead(buf).head.verb
  {
    FirstWord(buf);
    var text := buf[..ParseHead(buf).len - 4];
    verb := ParseHead(buf).head.verb;
    hide ParseHead, Split, StartsWith;
    var more := SplitStarts(text, CRLF);
    var tail := FirstPart(Split(text, CRLF)[0]);
    rest := tail + more + buf[|text|..];
    Assemble(buf, verb, tail, more, |text|);
  }

  lemma Assemble(buf: bytes, verb: bytes, tail: bytes, more: bytes, n: nat)
    requires var space: bytes := " "; n <= |buf| && buf[..n] == verb + space + tail + more
    ensures var space: bytes := " "; buf == verb + space + (tail + more + buf[n..])
  {
    assert buf == buf[..n] + buf[n..];
  }

  /** A line of several words begins with the first of them and a space. */
  lemma FirstPart(line: bytes) returns (tail: bytes)
    requires |Split(line, " ")| > 1
    ensures var space: bytes := " "; var verb := Split(line, space)[0]; ' ' !in verb && line == verb + space + tail
  {
    var space: bytes := " ";
    var rest := SplitStarts(line, space);
    hide Split;
    tail := rest[1..];
    assert rest == space + tail;
  }

  lemma FirstWord(buf: bytes)
    requires ParseHead(buf).Parsed?
    ensures var lines := Split(buf[..ParseHead(buf).len - 4], CRLF);
            |Split(lines[0], " ")| > 1 && ParseHead(buf).head.verb == Split(lines[0], " ")[0]
  {
    hide Find, Split, ValidUtf8, ApplyLines;
  }

  /** A text begins with its first part, and with the separator if there are more. */
  lemma SplitStarts(s: bytes, sep: bytes) returns (rest: bytes)
    requires sep != []
    ensures var parts := Split(s, sep);
            && (|sep| == 1 ==> sep[0] !in parts[0])
            && s == parts[0] + rest && (|parts| > 1 ==> StartsWith(rest, sep))
  {
    match Find(s, sep)
    case None =>
      rest := [];
      forall i | 0 <= i < |s| && |sep| == 1 ensures s[i] != sep[0] { assert !MatchAt(s, sep, i) && |s[i..i + 1]| == 1; }
    case Some(k) =>
      rest := s[k..];
      assert rest[..|sep|] == s[k..k + |sep|];
      forall i | 0 <= i < k && |sep| == 1 ensures s[i] != sep[0] { assert !MatchAt(s, sep, i) && |s[i..i + 1]| == 1; }
  }

  lemma VerbTold(buf: bytes, verb: bytes, rest: bytes)
    requires var space: bytes := " "; ' ' !in verb && buf == verb + space + rest
    ensures StartsWith(buf, HeadWord()) <==> verb == "HEAD"
  {
    var four: bytes, space: bytes := "HEAD", " ";
    assert HeadWord() == four + space;
    if verb == four {
      assert buf[..5] == HeadWord();
    }
    if StartsWith(buf, HeadWord()) {
      assert forall i :: 0 <= i < 5 ==> buf[i] == HeadWord()[i];
      assert forall i :: 0 <= i < 4 ==> four[i] != ' ' && HeadWord()[i] == four[i];
      assert forall i :: 0 <= i < |verb| ==> buf[i] == verb[i] && verb[i] != ' ';
      assert buf[|verb|] == ' ' && buf[4] == ' ';
      assert verb == buf[..4] == four;
    }
  }

  lemma ServeMore(env: Env, c: Conn, ext: bytes)
    requires Wf(c) && c.phase.ReadBody? && !Blocked(c)
    ensures !Blocked(Append(c, ext))
    ensures Seen(Serve(env, Append(c, ext))) == Seen(Append(Serve(env, c), ext))
  {
    hide ParseHead, Answer, KeepsAlive, Idle;
    DropAppend(c.buf, ext, c.phase.headLen + c.phase.head.contentLength);
    var before, after := Serve(env, c), Serve(env, Append(c, ext));
    assert after.phase == before.phase && after.requests == before.requests && after.out == before.out;
    assert !before.phase.Closed? ==> after.buf == before.buf + ext;
    hide Serve;
  }

  lemma DropAppend(s: bytes, ext: bytes, n: nat)
    requires n <= |s|
    ensures (s + ext)[n..] == s[n..] + ext
  {
  }

  /** A step that was possible stays possible, with the same effect, when more bytes are buffered. */
  lemma TurnMore(cfg: Config, env: Env, c: Conn, ext: bytes)
    requires Wf(c) && !Blocked(c)
    ensures !Blocked(Append(c, ext))
    ensures Seen(Turn(cfg, env, Append(c, ext))) == Seen(Append(Turn(cfg, env, c), ext))
  {
    hide ParseHead, RefusalText, Serve, IsHead, AsksHead;
    if c.phase.ReadBody? {
      ServeMore(env, c, ext);
    } else {
      PrefixStable(c.buf, ext);
      AsksStable(c.buf, ext, env(|c.requests|));
    }
  }

  /** Advancing, then receiving more bytes and advancing again, is receiving all the bytes first. */
  lemma {:induction false} AdvanceMore(cfg: Config, env: Env, c: Conn, ext: bytes)
    requires Wf(c)
    ensures Seen(Advance(cfg, env, Append(Advance(cfg, env, c), ext))) == Seen(Advance(cfg, env, Append(c, ext)))
    decreases |c.buf|, Rank(c)
  {
    hide Turn, Blocked;
    if Blocked(c) {
      AdvanceSame(cfg, env, Append(Park(cfg, c), ext), Append(c, ext));
    } else {
      var d := Turn(cfg, env, c);
      TurnMore(cfg, env, c, ext);
      AdvanceMore(cfg, env, d, ext);
      AdvanceSame(cfg, env, Append(d, ext), Turn(cfg, env, Append(c, ext)));
    }
  }

  /** How the reads stopped: the outcome of the first one that brought no bytes, `GotBytes` if none did. */
  function Stop(script: seq<Arrival>): ReadOutcome {
    if script == [] then GotBytes
    else
      var n := |script| - 1;
      if Stop(script[..n]) != GotBytes then Stop(script[..n]) else Classify(script[n].raw)
  }

  /** The bytes that came before it. */
  function Received(script: seq<Arrival>): bytes {
    if script == [] then []
    else
      var n := |script| - 1;
      Received(script[..n]) + if Stop(script) == GotBytes then script[n].raw.chunk else []
  }

  /** Reads that bring bytes add up; then no bytes at all are the end of the stream, and an error, an elapsed timer and
      the shutdown flag are what they are. */
  lemma {:induction false} StopMeans(script: seq<Arrival>, a: Arrival)
    requires forall i :: 0 <= i < |script| ==> script[i].raw.Data? && script[i].raw.chunk != []
    ensures Stop(script) == GotBytes
    ensures Stop(script + [a]) == match a.raw
                                  case Data(chunk) => if |chunk| > 0 then GotBytes else Eof
                                  case Broken => Fault
                                  case Elapsed => Timeout
                                  case ShutdownSeen => Shutdown
    ensures Received(script + [a]) == Received(script) + if a.raw.Data? then a.raw.chunk else []
    decreases |script|
  {
    assert (script + [a])[..|script|] == script;
    if script != [] {
      var n := |script| - 1;
      StopMeans(script[..n], script[n]);
      assert script[..n] + [script[n]] == script;
    }
  }

  /** Bytes read by a waiting connection have the effect of having been there before it last advanced. */
  lemma ReadAfterAdvance(cfg: Config, env: Env, c: Conn, whole: Conn, a: Arrival)
    requires Wf(c) && Wf(whole) && Seen(c) == Seen(Advance(cfg, env, whole)) && a.raw.Data? && a.raw.chunk != []
    ensures Seen(OnRead(cfg, env, c, a)) == Seen(Advance(cfg, env, Append(whole, a.raw.chunk)))
  {
    hide Advance;
    var chunk, ideal := a.raw.chunk, Advance(cfg, env, whole);
    AdvanceMore(cfg, env, whole, chunk);
    AdvanceSame(cfg, env, Append(c.(now := c.now + a.wait), chunk), Append(ideal, chunk));
    if c.phase.Closed? {
      ClosedStays(cfg, env, Append(ideal, chunk));
    }
  }

  lemma AdvanceBlocked(cfg: Config, env: Env, c: Conn)
    requires Wf(c) && Blocked(c)
    ensures Advance(cfg, env, c) == Park(cfg, c)
  {
  }

  lemma AdvanceTurn(cfg: Config, env: Env, c: Conn)
    requires Wf(c) && !Blocked(c)
    ensures Advance(cfg, env, c) == Advance(cfg, env, Turn(cfg, env, c))
    ensures Turn(cfg, env, c).phase.Closed? ==> Advance(cfg, env, c) == Turn(cfg, env, c)
  {
    hide Turn, Blocked;
    if Turn(cfg, env, c).phase.Closed? {
      ClosedStays(cfg, env, Turn(cfg, env, c));
    }
  }

  lemma ClosedStays(cfg: Config, env: Env, c: Conn)
    requires c.phase.Closed?
    ensures Advance(cfg, env, c) == c
  {
  }

  /** A connection that a read stopped ignores whatever comes then. */
  lemma StopIgnores(cfg: Config, env: Env, c: Conn, a: Arrival)
    requires c.phase.Closed?
    ensures OnRead(cfg, env, c, a) == c
  {
  }

  /** What stops a connection is observed alike in connections that look alike. */
  lemma StopSame(cfg: Config, env: Env, c: Conn, d: Conn, a: Arrival)
    requires Wf(c) && Seen(c) == Seen(d) && Classify(a.raw) != GotBytes
    ensures Seen(OnRead(cfg, env, c, a)) == Seen(OnStop(env, d, Classify(a.raw)))
  {
    hide Advance, RefusalText, AsksHead, IsHead;
  }

  /** However the bytes were split and timed, the connection stands where one read of all of them, and then the same
      stop, would put it. */
  lemma {:induction false} RunStands(cfg: Config, env: Env, script: seq<Arrival>)
    ensures Seen(Run(cfg, env, script)) ==
            Seen(OnStop(env, Advance(cfg, env, Open().(buf := Received(script))), Stop(script)))
    decreases |script|
  {
    hide Advance, OnStop, OnRead;
    if script != [] {
      var n := |script| - 1;
      var a, before := script[n], script[..n];
      RunStands(cfg, env, before);
      var c, whole := Run(cfg, env, before), Open().(buf := Received(before));
      assert Run(cfg, env, script) == OnRead(cfg, env, c, a);
      if Stop(before) != GotBytes {
        StopIgnores(cfg, env, c, a);
        assert Received(script) == Received(before);
      } else if Stop(script) != GotBytes {
        assert Received(script) == Received(before);
        StopSame(cfg, env, c, Advance(cfg, env, whole), a);
      } else {
        ReadAfterAdvance(cfg, env, c, whole, a);
        AdvanceSame(cfg, env, Append(whole, a.raw.chunk), Open().(buf := Received(script)));
      }
    }
  }

  lemma ClosedStop(env: Env, c: Conn, o: ReadOutcome)
    requires c.phase.Closed?
    ensures OnStop(env, c, o) == c
  {
  }

  /** What a connection amounts to: the requests it accepted, the replies it wrote and how it ended, if it did. */
  datatype Transcript = Transcript(requests: seq<RequestHead>, out: seq<Reply>, close: Option<Close>)

  /** The whole conversation, defined on the bytes that a peer sent and on how its reads stopped. `k` counts
      requests. */
  function Converse(cfg: Config, env: Env, stream: bytes, k: nat, stop: ReadOutcome): Transcript
    decreases |stream|
  {
    var asks := AsksHead(stream, env(k));
    match ParseHead(stream)
    case Failed(Incomplete) =>
      if stop == GotBytes then Transcript([], [], None)
      else if stream == [] then Transcript([], [], Some(Silent))
      else if stop == Timeout then Refuse(TooSlow, asks)
      else if stop == Eof then Refuse(CutShort, asks)
      else Transcript([], [], Some(Aborted))
    case Failed(Malformed) => Refuse(BadRequest, asks)
    case Failed(HeadTooLarge) => Refuse(HeaderTooLarge, asks)
    case Failed(Unsupported) => Refuse(Chunked, asks)
    case Parsed(head, n) =>
      if head.contentLength > cfg.maxBody then Refuse(BodyTooLarge, asks)
      else if |stream| < n + head.contentLength then
        if stop == GotBytes then Transcript([], [], None)
        else if stop == Timeout then Refuse(TooSlow, asks)
        else Transcript([], [], Some(Aborted))
      else if !env(k).writeOk then Transcript([head], [], Some(WriteFailed))
      else if !KeepsAlive(head, env(k)) then Transcript([head], [Answer(head, env(k))], Some(Finished))
      else Prepend(head, Answer(head, env(k)), Converse(cfg, env, stream[n + head.contentLength..], k + 1, stop))
  }

  function Prepend(head: RequestHead, reply: Reply, rest: Transcript): Transcript {
    Transcript([head] + rest.requests, [reply] + rest.out, rest.close)
  }

  function Refuse(why: Refusal, toHead: bool): Transcript {
    Transcript([], [Reply(RefusalText(why), toHead)], Some(Rejected))
  }

  /** `t` continues what `c` has already seen and written. */
  predicate Continues(c: Conn, t: Transcript, r: Conn) {
    && r.requests == c.requests + t.requests && r.out == c.out + t.out
    && match t.close case Some(why) => r.phase == Closed(why) case None => !r.phase.Closed?
  }

  /** The head of a request whose body is awaited is still at the front of the buffer. */
  predicate HeadInFront(cfg: Config, c: Conn) {
    c.phase.ReadBody? ==>
      ParseHead(c.buf) == Parsed(c.phase.head, c.phase.headLen) && c.phase.head.contentLength <= cfg.maxBody
  }

  lemma PrependContinues(c: Conn, d: Conn, head: RequestHead, reply: Reply, rest: Transcript, r: Conn)
    requires d.requests == c.requests + [head] && d.out == c.out + [reply] && Continues(d, rest, r)
    ensures Continues(c, Prepend(head, reply, rest), r)
  {
    assert (c.requests + [head]) + rest.requests == c.requests + ([head] + rest.requests);
    assert (c.out + [reply]) + rest.out == c.out + ([reply] + rest.out);
  }

  /** A complete request is served, and the rest of the stream is the rest of the conversation. */
  lemma ConverseServes(cfg: Config, env: Env, stream: bytes, k: nat, head: RequestHead, n: nat, stop: ReadOutcome)
    requires ParseHead(stream) == Parsed(head, n) && head.contentLength <= cfg.maxBody
               && n + head.contentLength <= |stream|
    ensures Converse(cfg, env, stream, k, stop) ==
            if !env(k).writeOk then Transcript([head], [], Some(WriteFailed))
            else if !KeepsAlive(head, env(k)) then Transcript([head], [Answer(head, env(k))], Some(Finished))
            else Prepend(head, Answer(head, env(k)),
                         Converse(cfg, env, stream[n + head.contentLength..], k + 1, stop))
  {
    hide ParseHead, RefusalText, Answer, Prepend, KeepsAlive, AsksHead;
  }

  /** Serving a request is one unfolding of the specification. */
  lemma ServeConverses(cfg: Config, env: Env, c: Conn, r: Conn, stop: ReadOutcome)
    requires Wf(c) && c.phase.ReadBody? && HeadInFront(cfg, c) && !Blocked(c)
    requires var d := Serve(env, c);
             if d.phase.Closed? then r == d else Continues(d, Converse(cfg, env, d.buf, |d.requests|, stop), r)
    ensures Continues(c, Converse(cfg, env, c.buf, |c.requests|, stop), r)
  {
    hide ParseHead, Converse, Serve, Answer, KeepsAlive, Prepend, Continues;
    var head, k, d := c.phase.head, |c.requests|, Serve(env, c);
    var rest := c.buf[c.phase.headLen + head.contentLength..];
    ServedState(env, c);
    ConverseServes(cfg, env, c.buf, k, head, c.phase.headLen, stop);
    hide *;
    Unfolded(c, d, head, Answer(head, env(k)), env(k).writeOk, KeepsAlive(head, env(k)),
             Converse(cfg, env, rest, k + 1, stop), Converse(cfg, env, c.buf, k, stop), r);
  }

  lemma Unfolded(c: Conn, d: Conn, head: RequestHead, reply: Reply, written: bool, goesOn: bool, rest: Transcript,
                 t: Transcript, r: Conn)
    requires d.requests == c.requests + [head]
    requires if !written then d.phase == Closed(WriteFailed) && d.out == c.out
             else d.out == c.out + [reply] && d.phase == if goesOn then ReadHead else Closed(Finished)
    requires if d.phase.Closed? then r == d else Continues(d, rest, r)
    requires t == if !written then Transcript([head], [], Some(WriteFailed))
                  else if !goesOn then Transcript([head], [reply], Some(Finished)) else Prepend(head, reply, rest)
    ensures Continues(c, t, r)
  {
    if !d.phase.Closed? {
      PrependContinues(c, d, head, reply, rest, r);
    }
  }

  lemma ServedState(env: Env, c: Conn)
    requires Wf(c) && c.phase.ReadBody? && !Blocked(c)
    ensures var head, k, d := c.phase.head, |c.requests|, Serve(env, c);
            && d.requests == c.requests + [head]
            && if !env(k).writeOk then d.phase == Closed(WriteFailed) && d.out == c.out
               else d.out == c.out + [Answer(head, env(k))] && d.buf == c.buf[c.phase.headLen + head.contentLength..]
                    && d.phase == if KeepsAlive(head, env(k)) then ReadHead else Closed(Finished)
  {
    hide Answer, KeepsAlive, ParseHead;
  }

  /** Refused on sight. */
  lemma HeadConverses(cfg: Config, env: Env, c: Conn, stop: ReadOutcome)
    requires Wf(c) && c.phase.ReadHead? && !Blocked(c) && Turn(cfg, env, c).phase.Closed?
    ensures Continues(c, Converse(cfg, env, c.buf, |c.requests|, stop), Turn(cfg, env, c))
  {
    hide ParseHead, RefusalText, Answer, KeepsAlive, IsHead, AsksHead;
    if ParseHead(c.buf).Parsed? {
      AsksParsed(c.buf, env(|c.requests|));
    }
  }

  lemma StopConverses(cfg: Config, env: Env, c: Conn, stop: ReadOutcome)
    requires Wf(c) && !c.phase.Closed? && HeadInFront(cfg, c) && Blocked(c)
    ensures Continues(c, Converse(cfg, env, c.buf, |c.requests|, stop), OnStop(env, Park(cfg, c), stop))
  {
    if c.phase.ReadBody? {
      AsksParsed(c.buf, env(|c.requests|));
    }
    hide ParseHead, RefusalText, Answer, KeepsAlive, IsHead, AsksHead;
  }

  lemma {:induction false} AdvanceConverses(cfg: Config, env: Env, c: Conn, stop: ReadOutcome)
    requires Wf(c) && !c.phase.Closed? && HeadInFront(cfg, c)
    ensures Continues(c, Converse(cfg, env, c.buf, |c.requests|, stop), OnStop(env, Advance(cfg, env, c), stop))
    decreases |c.buf|, Rank(c)
  {
    hide ParseHead, RefusalText, IsHead, Serve, Converse, OnStop;
    if Blocked(c) {
      StopConverses(cfg, env, c, stop);
    } else {
      var d := Turn(cfg, env, c);
      TurnKeepsHead(cfg, env, c);
      if d.phase.Closed? {
        ClosedStays(cfg, env, d);
        ClosedStop(env, d, stop);
      } else {
        AdvanceConverses(cfg, env, d, stop);
      }
      if c.phase.ReadBody? {
        ServeConverses(cfg, env, c, OnStop(env, Advance(cfg, env, c), stop), stop);
      } else if d.phase.Closed? {
        HeadConverses(cfg, env, c, stop);
      }
    }
  }

  lemma TurnKeepsHead(cfg: Config, env: Env, c: Conn)
    requires Wf(c) && !Blocked(c)
    ensures HeadInFront(cfg, Turn(cfg, env, c))
  {
    hide ParseHead, RefusalText, Answer, KeepsAlive, IsHead;
  }

  /** Main framing theorem: on every script, however the bytes were split and timed and whatever stopped the reads, the
      connection saw the requests, wrote the replies and ended, or still waits, the way `Converse` says of the bytes and
      the stop alone. */
  lemma FramingIsChunkIndependent(cfg: Config, env: Env, script: seq<Arrival>)
    ensures var r := Run(cfg, env, script);
            var t := Converse(cfg, env, Received(script), 0, Stop(script));
            && r.requests == t.requests && r.out == t.out
            && match t.close case Some(why) => r.phase == Closed(why) case None => !r.phase.Closed?
  {
    var whole := Open().(buf := Received(script));
    RunStands(cfg, env, script);
    hide Advance, Converse, ParseHead, OnStop, Run, Received, Stop;
    AdvanceConverses(cfg, env, whole, Stop(script));
  }

  /* ---------- deadlines, read counts and buffer bounds ---------- */

  /** Most successful reads one request can need. */
  function MaxReads(cfg: Config): nat { MAX_HEAD_BYTES + if cfg.maxBody == 0 then 1 else cfg.maxBody }

  predicate TimingOk(cfg: Config, t: Timing) {
    t.started <= t.complete <= t.started + cfg.timeout && t.received <= MaxReads(cfg)
  }

  /** The deadline is armed exactly when bytes are waiting, always `timeout` after the request began. */
  predicate DeadlineOk(cfg: Config, c: Conn) {
    c.deadline == if Idle(c) then None else Some(c.started + cfg.timeout)
  }

  /** Holds whenever the connection waits for a read. */
  predicate Waiting(cfg: Config, c: Conn) {
    && (forall i :: 0 <= i < |c.timings| ==> TimingOk(cfg, c.timings[i]))
    && |c.timings| == |c.requests|
    && (!c.phase.Closed? ==>
          && DeadlineOk(cfg, c)
          && (!Idle(c) ==> c.started <= c.now <= c.started + cfg.timeout)
          && c.received <= |c.buf| < MaxReads(cfg))
    && (c.phase.ReadHead? ==> ParseHead(c.buf) == Failed(Incomplete))
    && (c.phase.ReadBody? ==>
          && ParseHead(c.buf) == Parsed(c.phase.head, c.phase.headLen)
          && c.phase.head.contentLength <= cfg.maxBody
          && |c.buf| < c.phase.headLen + c.phase.head.contentLength)
  }

  /** Holds when `Advance` starts. */
  predicate Ready(cfg: Config, c: Conn) {
    && (forall i :: 0 <= i < |c.timings| ==> TimingOk(cfg, c.timings[i]))
    && |c.timings| == |c.requests|
    && c.started <= c.now <= c.started + cfg.timeout
    && (c.deadline == Some(c.started + cfg.timeout) || (c.deadline == None && c.now == c.started && c.phase.ReadHead?))
    && (Idle(c) ==> c.deadline == None)
    && c.received <= |c.buf| && c.received <= MaxReads(cfg)
    && (c.phase.ReadBody? ==>
          ParseHead(c.buf) == Parsed(c.phase.head, c.phase.headLen) && c.phase.head.contentLength <= cfg.maxBody)
  }

  lemma TurnReady(cfg: Config, env: Env, c: Conn)
    requires Wf(c) && !c.phase.Closed? && Ready(cfg, c) && !Blocked(c)
    ensures var d := Turn(cfg, env, c); if d.phase.Closed? then Waiting(cfg, d) else Ready(cfg, d)
  {
    hide ParseHead, RefusalText, Answer, KeepsAlive, IsHead;
  }

  lemma {:induction false} AdvanceWaits(cfg: Config, env: Env, c: Conn)
    requires Wf(c) && !c.phase.Closed? && Ready(cfg, c)
    ensures Waiting(cfg, Advance(cfg, env, c))
    decreases |c.buf|, Rank(c)
  {
    hide ParseHead, Turn;
    if !Blocked(c) {
      TurnReady(cfg, env, c);
      if !Turn(cfg, env, c).phase.Closed? {
        AdvanceWaits(cfg, env, Turn(cfg, env, c));
      }
    }
  }

  /** Timers are ideal: within a request bytes come no later than the deadline and a timeout no earlier; `read_until`
      never reports shutdown. A read delivers at most 8192 bytes. */
  predicate Timely(cfg: Config, c: Conn, a: Arrival) {
    && (a.raw.Data? ==> |a.raw.chunk| <= 8192)
    && (!c.phase.Closed? && !Idle(c) && c.deadline.Some? ==>
          && (a.raw.Data? ==> c.now + a.wait <= c.deadline.value)
          && (a.raw.Elapsed? ==> c.deadline.value <= c.now + a.wait)
          && !a.raw.ShutdownSeen?)
  }

  predicate TimelyScript(cfg: Config, env: Env, script: seq<Arrival>) {
    script == [] ||
      var before := script[..|script| - 1];
      TimelyScript(cfg, env, before) && Timely(cfg, Run(cfg, env, before), script[|script| - 1])
  }

  lemma WaitingRead(cfg: Config, env: Env, c: Conn, a: Arrival)
    requires Wf(c) && !c.phase.Closed? && Waiting(cfg, c) && Timely(cfg, c, a) && Classify(a.raw) == GotBytes
    ensures Ready(cfg, Append(c.(now := c.now + a.wait), a.raw.chunk))
  {
    hide ParseHead, TimingOk;
    if c.phase.ReadBody? {
      PrefixStable(c.buf, a.raw.chunk);
    }
  }

  lemma WaitingStep(cfg: Config, env: Env, c: Conn, a: Arrival)
    requires Wf(c) && Waiting(cfg, c) && Timely(cfg, c, a)
    ensures Waiting(cfg, OnRead(cfg, env, c, a))
  {
    hide ParseHead, RefusalText, IsHead, Advance, TimingOk, Ready;
    if !c.phase.Closed? && Classify(a.raw) == GotBytes {
      hide Waiting;
      WaitingRead(cfg, env, c, a);
      AdvanceWaits(cfg, env, Append(c.(now := c.now + a.wait), a.raw.chunk));
    }
  }

  /** On every run, in every reachable state: completed requests met their deadline within the read bound, the armed
      deadline is where the current request put it, and the buffer is short of a full request. */
  lemma {:induction false} DeadlineAndReads(cfg: Config, env: Env, script: seq<Arrival>)
    requires TimelyScript(cfg, env, script)
    ensures Waiting(cfg, Run(cfg, env, script))
    decreases |script|
  {
    hide Advance, OnRead, Waiting, Timely;
    if script == [] {
      AdvanceWaits(cfg, env, Open());
    } else {
      var n := |script| - 1;
      DeadlineAndReads(cfg, env, script[..n]);
      WaitingStep(cfg, env, Run(cfg, env, script[..n]), script[n]);
    }
  }

  lemma DeadlineKept(cfg: Config, env: Env, c: Conn, a: Arrival)
    requires Wf(c) && !c.phase.Closed? && !Idle(c) && Waiting(cfg, c)
    requires var d := OnRead(cfg, env, c, a); Waiting(cfg, d) && !d.phase.Closed? && |d.requests| == |c.requests|
    ensures c.deadline.Some? && OnRead(cfg, env, c, a).deadline == c.deadline
  {
    hide Advance, ParseHead, RefusalText, TimingOk;
    AdvanceKeepsStart(cfg, env, Append(c.(now := c.now + a.wait), a.raw.chunk));
  }

  /** While a request is being read its deadline does not move. */
  lemma DeadlineNeverMoves(cfg: Config, env: Env, script: seq<Arrival>, a: Arrival)
    requires TimelyScript(cfg, env, script + [a])
    requires var c, d := Run(cfg, env, script), Run(cfg, env, script + [a]);
             !c.phase.Closed? && !Idle(c) && !d.phase.Closed? && |d.requests| == |c.requests|
    ensures Run(cfg, env, script).deadline.Some?
    ensures Run(cfg, env, script + [a]).deadline == Run(cfg, env, script).deadline
  {
    hide OnRead, Timely, Waiting;
    assert (script + [a])[..|script|] == script;
    DeadlineAndReads(cfg, env, script);
    DeadlineAndReads(cfg, env, script + [a]);
    DeadlineKept(cfg, env, Run(cfg, env, script), a);
  }

  lemma {:induction false} AdvanceKeepsStart(cfg: Config, env: Env, c: Conn)
    requires Wf(c)
    ensures |Advance(cfg, env, c).requests| >= |c.requests|
    ensures |Advance(cfg, env, c).requests| == |c.requests| ==>
              Advance(cfg, env, c).started == c.started && Advance(cfg, env, c).buf == c.buf
    decreases |c.buf|, Rank(c)
  {
    hide ParseHead, RefusalText, Answer, KeepsAlive, IsHead;
    if !Blocked(c) {
      AdvanceKeepsStart(cfg, env, Turn(cfg, env, c));
    }
  }

  /** The buffer never grows past `max_body_bytes` plus 16384, even with the next chunk already appended; a request
      whose body is awaited ends within `usize` when `max_body_bytes` leaves room for a head. */
  lemma BufferBound(cfg: Config, env: Env, script: seq<Arrival>, a: Arrival)
    requires TimelyScript(cfg, env, script) && Timely(cfg, Run(cfg, env, script), a)
    ensures var c := Run(cfg, env, script);
            !c.phase.Closed? && a.raw.Data? ==> |c.buf + a.raw.chunk| <= cfg.maxBody + 16384
    ensures var c := Run(cfg, env, script);
            c.phase.ReadBody? && cfg.maxBody <= USIZE_MAX - MAX_HEAD_BYTES ==>
              |c.buf| < c.phase.headLen + c.phase.head.contentLength <= USIZE_MAX
  {
    DeadlineAndReads(cfg, env, script);
  }
}
