/** Requests as a client prints them, and what a connection makes of a pipelined stream of them. */
module Requests {
  import opened Options
  import opened Bytes
  import opened Http
  import opened Messages
  import opened Connection
  import opened Responses

  function RequestLine(r: RequestHead): bytes {
    var space: bytes := " ";
    r.verb + space + (r.path + space + Version())
  }

  function HeadLines(r: RequestHead): seq<bytes> {
    [RequestLine(r),
     FieldLine(LengthName(), Decimal(r.contentLength)),
     FieldLine(ConnectionName(), Persistence(r.keepAlive))]
  }

  function RenderHead(r: RequestHead): bytes { Join(HeadLines(r), CRLF) + HEAD_END }

  /** Heads a client can print within the size the server accepts. */
  predicate Sendable(r: RequestHead) {
    Token(r.verb) && Token(r.path) && r.contentLength <= USIZE_MAX && |RenderHead(r)| <= MAX_HEAD_BYTES
  }

  lemma ReadRequestLine(r: RequestHead)
    requires Token(r.verb) && Token(r.path)
    ensures Split(RequestLine(r), " ") == [r.verb, r.path, Version()] && RequestLineOk([r.verb, r.path, Version()])
    ensures '\r' !in RequestLine(r) && RequestLine(r) != [] && Ascii(RequestLine(r))
  {
    var space: bytes := " ";
    var parts := [r.verb, r.path, Version()];
    TokenFacts(r.verb);
    TokenFacts(r.path);
    VersionFacts([]);
    assert Version() + [] == Version();
    assert Ascii(Version());
    hide Version, Token, Ascii, Split, StartsWith;
    assert parts[1..] == [r.path, Version()] && parts[1..][1..] == [Version()];
    assert Join([Version()], space) == Version();
    assert Join([r.path, Version()], space) == r.path + space + Version();
    assert Join(parts, space) == r.verb + space + (r.path + space + Version());
    SplitJoin(parts, space);
    AsciiLine(r.verb, r.path, Version());
  }

  lemma AsciiLine(a: bytes, b: bytes, c: bytes)
    requires Ascii(a) && Ascii(b) && Ascii(c)
    ensures var space: bytes := " "; Ascii(a + space + (b + space + c))
  {
    var space: bytes := " ";
    AsciiConcat(a, space);
    AsciiConcat(b, space);
    AsciiConcat(b + space, c);
    AsciiConcat(a + space, b + space + c);
  }

  lemma AsciiField(name: bytes, value: bytes)
    requires Ascii(name) && Ascii(value)
    ensures Ascii(FieldLine(name, value))
  {
    var sep: bytes := ": ";
    AsciiConcat(name, sep);
    AsciiConcat(name + sep, value);
  }

  lemma AsciiWords(keepAlive: bool)
    ensures Ascii(LengthName()) && Ascii(ConnectionName()) && Ascii(Persistence(keepAlive))
    ensures Lower(Persistence(keepAlive)) == Persistence(keepAlive)
  {
  }

  lemma HeadLinesClean(r: RequestHead)
    requires Token(r.verb) && Token(r.path)
    ensures var lines := HeadLines(r);
            && Clean(lines, '\r') && NonEmptyLines(lines)
            && forall i :: 0 <= i < |lines| ==> Ascii(lines[i])
  {
    ReadRequestLine(r);
    ContentLengthLine(r.contentLength);
    ConnectionLine(r.keepAlive);
    DigitsGraphic(r.contentLength);
    AsciiWords(r.keepAlive);
    AsciiField(LengthName(), Decimal(r.contentLength));
    AsciiField(ConnectionName(), Persistence(r.keepAlive));
    hide RequestLine, FieldLine, Decimal, LengthName, ConnectionName, Persistence, Ascii, FieldName, FieldValue;
    ThreeLines(RequestLine(r), HeadLines(r)[1], HeadLines(r)[2]);
  }

  lemma ThreeLines(a: bytes, b: bytes, c: bytes)
    requires a != [] && '\r' !in a && Ascii(a)
    requires b != [] && '\r' !in b && Ascii(b)
    requires c != [] && '\r' !in c && Ascii(c)
    ensures var lines := [a, b, c];
            Clean(lines, '\r') && NonEmptyLines(lines) && forall i :: 0 <= i < |lines| ==> Ascii(lines[i])
  {
    hide Ascii;
  }

  lemma ApplyLength(line: bytes, n: nat, f: Fields)
    requires n <= USIZE_MAX && Says(line, LengthName(), Decimal(n))
    ensures ApplyLine(line, f) == Ok(f.(contentLength := n))
  {
    ParseDecimal(n);
    hide Decimal, ParseUsize, LengthName, ConnectionName, EncodingName, Persistence, Find, FieldName, FieldValue, Lower;
  }

  lemma ApplyConnection(line: bytes, keepAlive: bool, f: Fields)
    requires Says(line, ConnectionName(), Persistence(keepAlive))
    ensures ApplyLine(line, f) == Ok(f.(keepAlive := keepAlive))
  {
    AsciiWords(keepAlive);
    NamesDiffer();
    hide LengthName, ConnectionName, EncodingName, Persistence, Find, FieldName, FieldValue, Lower, ParseUsize,
        ChunkedValue;
  }

  lemma ApplyTwo(first: bytes, a: bytes, b: bytes, f: Fields, g: Fields, h: Fields)
    requires ApplyLine(a, f) == Ok(g) && ApplyLine(b, g) == Ok(h)
    ensures ApplyLines([first, a, b][1..], f) == Ok(h)
  {
    hide ApplyLine;
    assert [first, a, b][1..] == [a, b] && [a, b][1..] == [b];
    assert ApplyLines([b], g) == Ok(h);
  }

  lemma ReadHeadFields(r: RequestHead)
    requires r.contentLength <= USIZE_MAX
    ensures ApplyLines(HeadLines(r)[1..], Fields(true, 0)) == Ok(Fields(r.keepAlive, r.contentLength))
  {
    var a, b := HeadLines(r)[1], HeadLines(r)[2];
    ContentLengthLine(r.contentLength);
    ConnectionLine(r.keepAlive);
    hide FieldLine, Decimal, LengthName, ConnectionName, Persistence, RequestLine, ApplyLines, ApplyLine, Says;
    ApplyLength(a, r.contentLength, Fields(true, 0));
    ApplyConnection(b, r.keepAlive, Fields(true, r.contentLength));
    ApplyTwo(RequestLine(r), a, b, Fields(true, 0), Fields(true, r.contentLength),
        Fields(r.keepAlive, r.contentLength));
  }

  lemma ParseLines(text: bytes, lines: seq<bytes>, verb: bytes, path: bytes, f: Fields, len: nat)
    requires ValidUtf8(text) && Split(text, CRLF) == lines && lines != []
    requires Split(lines[0], " ") == [verb, path, Version()] && RequestLineOk([verb, path, Version()])
    requires ApplyLines(lines[1..], Fields(true, 0)) == Ok(f)
    ensures ParseText(text, len) == Parsed(RequestHead(verb, path, f.keepAlive, f.contentLength), len)
  {
    hide ValidUtf8, Split, RequestLineOk, ApplyLines, Version;
  }

  lemma ParsesAs(text: bytes, rest: bytes, p: ParseResult)
    requires Find(text + HEAD_END + rest, HEAD_END) == Some(|text|) && |text| + 4 <= MAX_HEAD_BYTES
    requires ParseText(text, |text| + 4) == p
    ensures ParseHead(text + HEAD_END + rest) == p
  {
    hide Find, ParseText;
    assert (text + HEAD_END + rest)[..|text|] == text;
  }

  /** Printing then parsing: the server reads every sendable head back exactly, whatever follows it. */
  lemma ParsePrinted(r: RequestHead, rest: bytes)
    requires Sendable(r)
    ensures ParseHead(RenderHead(r) + rest) == Parsed(r, |RenderHead(r)|)
  {
    hide ValidUtf8, Split, Find, RequestLine, FieldLine, ApplyLines, Version, RequestLineOk, ParseText, ParseHead,
        Token, Ascii;
    hide Decimal, HeadLines, Join;
    HeadStarts(r);
    HeadLinesClean(r);
    var lines := HeadLines(r);
    var text := Join(lines, CRLF);
    SplitJoin(lines, CRLF);
    FindPrintedEnd(lines, rest);
    AsciiJoin(lines);
    AsciiIsUtf8(text);
    ReadRequestLine(r);
    ReadHeadFields(r);
    ParseLines(text, lines, r.verb, r.path, Fields(r.keepAlive, r.contentLength), |text| + 4);
    ParsesAs(text, rest, Parsed(r, |text| + 4));
  }

  lemma HeadStarts(r: RequestHead)
    ensures HeadLines(r) != [] && HeadLines(r)[0] == RequestLine(r)
  {
  }

  /* ---------- a pipelined conversation ---------- */

  datatype Request = Request(head: RequestHead, body: bytes)

  function WireRequests(rs: seq<Request>): bytes {
    if rs == [] then [] else RenderHead(rs[0].head) + rs[0].body + WireRequests(rs[1..])
  }

  /** Requests the server takes one after the other: sendable, correctly framed, within the body limit, persistent. */
  predicate Acceptable(cfg: Config, r: Request) {
    Sendable(r.head) && |r.body| == r.head.contentLength <= cfg.maxBody && r.head.keepAlive
  }

  function Heads(rs: seq<Request>): seq<RequestHead> { seq(|rs|, i requires 0 <= i < |rs| => rs[i].head) }

  function Answers(env: Env, rs: seq<Request>, k: nat): seq<Reply> {
    seq(|rs|, i requires 0 <= i < |rs| => Answer(rs[i].head, env(k + i)))
  }

  /** The answers to `n` requests from number `k` on are written, and not under shutdown. */
  predicate Calm(env: Env, k: nat, n: nat) { forall i :: k <= i < k + n ==> !env(i).shutdown && env(i).writeOk }

  /** `rest` after these requests. */
  function Following(env: Env, rs: seq<Request>, k: nat, rest: Transcript): Transcript {
    Transcript(Heads(rs) + rest.requests, Answers(env, rs, k) + rest.out, rest.close)
  }

  /** Pipelined persistent requests are all seen, in order and each with its own body, and each gets its answer; then
      the conversation goes on with whatever follows them. */
  lemma {:induction false} PipelineIsServed(cfg: Config, env: Env, rs: seq<Request>, tail: bytes, k: nat,
                                            stop: ReadOutcome)
    requires Calm(env, k, |rs|) && forall i :: 0 <= i < |rs| ==> Acceptable(cfg, rs[i])
    ensures Converse(cfg, env, WireRequests(rs) + tail, k, stop)
         == Following(env, rs, k, Converse(cfg, env, tail, k + |rs|, stop))
    decreases |rs|
  {
    hide ParseHead, Answer, RenderHead, Sendable, Converse;
    var rest := Converse(cfg, env, tail, k + |rs|, stop);
    if rs == [] {
      assert [] + tail == tail && Heads(rs) == [] && Answers(env, rs, k) == [];
      NothingBefore(rest);
    } else {
      var r, more := rs[0], rs[1..];
      var head, wire := RenderHead(r.head), WireRequests(more) + tail;
      Reassociate(head, r.body, WireRequests(more));
      WireSplits(head, r.body, WireRequests(more), tail);
      ParsePrinted(r.head, r.body + wire);
      PipelineIsServed(cfg, env, more, tail, k + 1, stop);
      PrependServed(env, rs, k, rest);
      assert Acceptable(cfg, r) && KeepsAlive(r.head, env(k)) && env(k).writeOk;
      hide Prepend, Following, Acceptable, KeepsAlive;
      ConverseServes(cfg, env, WireRequests(rs) + tail, k, r.head, |head|, stop);
    }
  }

  lemma NothingBefore(t: Transcript)
    ensures Transcript([] + t.requests, [] + t.out, t.close) == t
  {
  }

  lemma WireSplits(head: bytes, body: bytes, more: bytes, tail: bytes)
    ensures head + body + more + tail == head + (body + (more + tail))
    ensures (head + body + more + tail)[|head| + |body|..] == more + tail
  {
    assert head + body + more + tail == (head + body) + (more + tail);
  }

  lemma PrependServed(env: Env, rs: seq<Request>, k: nat, rest: Transcript)
    requires rs != []
    ensures Prepend(rs[0].head, Answer(rs[0].head, env(k)), Following(env, rs[1..], k + 1, rest))
         == Following(env, rs, k, rest)
  {
    hide Answer;
    assert Heads(rs) == [rs[0].head] + Heads(rs[1..]);
    assert Answers(env, rs, k) == [Answer(rs[0].head, env(k))] + Answers(env, rs[1..], k + 1);
    FrontFirst(rs[0].head, Heads(rs[1..]), rest.requests);
    FrontFirst(Answer(rs[0].head, env(k)), Answers(env, rs[1..], k + 1), rest.out);
  }

  lemma FrontFirst<T>(x: T, a: seq<T>, b: seq<T>)
    ensures [x] + (a + b) == ([x] + a) + b
  {
  }

  /** The first messages answer these requests, each for what it is, and keep the connection. */
  predicate Kept(env: Env, rs: seq<Request>, ms: seq<Message>) {
    |ms| >= |rs| && forall i :: 0 <= i < |rs| ==> TellsAnswer(ms[i], rs[i].head, env(i)) && ms[i].keepAlive
  }

  /** End to end: print any acceptable requests, cut the stream anywhere with any timing, then close. The server sees
      those requests, and the client reads back its answers: one per request, in order, nothing else. */
  lemma EndToEnd(cfg: Config, env: Env, rs: seq<Request>, script: seq<Arrival>)
    requires EnvPrintable(env) && Calm(env, 0, |rs|) && forall i :: 0 <= i < |rs| ==> Acceptable(cfg, rs[i])
    requires Received(script) == WireRequests(rs) && Stop(script) == Eof
    ensures var c := Run(cfg, env, script);
            var read := ReadBy(env, script, c.out);
            && c.phase == Closed(Silent) && c.requests == Heads(rs) && |read.messages| == |rs| && read.rest == []
            && Kept(env, rs, read.messages)
  {
    PipelineCloses(cfg, env, rs);
    hide *;
    FramingIsChunkIndependent(cfg, env, script);
    ClientReads(cfg, env, script);
    var c := Run(cfg, env, script);
    EachAnswered(cfg, env, rs, c, ReadBy(env, script, c.out),
                 TurnedAway(cfg, env, Received(script), 0, Stop(script)));
  }

  lemma PipelineCloses(cfg: Config, env: Env, rs: seq<Request>)
    requires Calm(env, 0, |rs|) && forall i :: 0 <= i < |rs| ==> Acceptable(cfg, rs[i])
    ensures Converse(cfg, env, WireRequests(rs), 0, Eof) == Transcript(Heads(rs), Answers(env, rs, 0), Some(Silent))
  {
    PipelineIsServed(cfg, env, rs, [], 0, Eof);
    NothingMore(cfg, env, |rs|);
    hide Converse, WireRequests, Heads, Answers;
    assert WireRequests(rs) + [] == WireRequests(rs) && Heads(rs) + [] == Heads(rs)
           && Answers(env, rs, 0) + [] == Answers(env, rs, 0);
  }

  lemma NothingMore(cfg: Config, env: Env, k: nat)
    ensures Converse(cfg, env, [], k, Eof) == Transcript([], [], Some(Silent))
  {
    assert Find([], HEAD_END).None?;
  }

  lemma EachAnswered(cfg: Config, env: Env, rs: seq<Request>, c: Conn, read: Stream, turned: Option<Turned>)
    requires Calm(env, 0, |rs|) && forall i :: 0 <= i < |rs| ==> Acceptable(cfg, rs[i])
    requires c.requests == Heads(rs) && c.phase == Closed(Silent) && ReadRight(env, c, read, turned)
    ensures |read.messages| == |rs| && read.rest == []
    ensures Kept(env, rs, read.messages)
  {
    hide Sendable, Tells;
    forall i | 0 <= i < |rs| ensures TellsAnswer(read.messages[i], rs[i].head, env(i)) && read.messages[i].keepAlive {
      assert Acceptable(cfg, rs[i]) && c.requests[i] == rs[i].head;
    }
  }

  /** The last request: persistent requests served before shutdown, then one that is printed with `connection: close`
      or served once the flag is set, then any bytes at all, cut and timed anyhow, whatever the peer does then. The
      connection serves exactly those requests and closes by itself. Every reply says keep-alive but the last, which
      says close. */
  lemma LastRequest(cfg: Config, env: Env, rs: seq<Request>, last: Request, tail: bytes, script: seq<Arrival>)
    requires EnvPrintable(env) && Calm(env, 0, |rs|) && forall i :: 0 <= i < |rs| ==> Acceptable(cfg, rs[i])
    requires Sendable(last.head) && |last.body| == last.head.contentLength <= cfg.maxBody && env(|rs|).writeOk
    requires !last.head.keepAlive || env(|rs|).shutdown
    requires Received(script) == WireRequests(rs) + (RenderHead(last.head) + (last.body + tail))
    ensures var c := Run(cfg, env, script);
            var read := ReadBy(env, script, c.out);
            && c.phase == Closed(Finished) && c.requests == Heads(rs) + [last.head]
            && |read.messages| == |rs| + 1 && read.rest == []
            && Kept(env, rs, read.messages)
            && TellsAnswer(read.messages[|rs|], last.head, env(|rs|)) && !read.messages[|rs|].keepAlive
  {
    LastCloses(cfg, env, rs, last, tail, Stop(script));
    hide *;
    FramingIsChunkIndependent(cfg, env, script);
    ClientReads(cfg, env, script);
    var c := Run(cfg, env, script);
    LastAnswered(cfg, env, rs, last, c, ReadBy(env, script, c.out),
                 TurnedAway(cfg, env, Received(script), 0, Stop(script)));
  }

  lemma LastCloses(cfg: Config, env: Env, rs: seq<Request>, last: Request, tail: bytes, stop: ReadOutcome)
    requires Calm(env, 0, |rs|) && forall i :: 0 <= i < |rs| ==> Acceptable(cfg, rs[i])
    requires Sendable(last.head) && |last.body| == last.head.contentLength <= cfg.maxBody && env(|rs|).writeOk
    requires !last.head.keepAlive || env(|rs|).shutdown
    ensures Converse(cfg, env, WireRequests(rs) + (RenderHead(last.head) + (last.body + tail)), 0, stop)
         == Transcript(Heads(rs) + [last.head], Answers(env, rs, 0) + [Answer(last.head, env(|rs|))], Some(Finished))
  {
    hide *;
    var wire := RenderHead(last.head) + (last.body + tail);
    var rest := Transcript([last.head], [Answer(last.head, env(|rs|))], Some(Finished));
    PipelineIsServed(cfg, env, rs, wire, 0, stop);
    ParsePrinted(last.head, last.body + tail);
    ClosesAfter(cfg, env, wire, |rs|, last.head, |RenderHead(last.head)|, stop);
    FollowedBy(env, rs, rest);
  }

  lemma FollowedBy(env: Env, rs: seq<Request>, rest: Transcript)
    ensures Following(env, rs, 0, rest) ==
            Transcript(Heads(rs) + rest.requests, Answers(env, rs, 0) + rest.out, rest.close)
  {
  }

  lemma ClosesAfter(cfg: Config, env: Env, wire: bytes, k: nat, head: RequestHead, n: nat, stop: ReadOutcome)
    requires ParseHead(wire) == Parsed(head, n) && n + head.contentLength <= |wire| && head.contentLength <= cfg.maxBody
    requires env(k).writeOk && (!head.keepAlive || env(k).shutdown)
    ensures Converse(cfg, env, wire, k, stop) == Transcript([head], [Answer(head, env(k))], Some(Finished))
  {
    hide ParseHead, Answer, Converse;
    ConverseServes(cfg, env, wire, k, head, n, stop);
  }

  lemma LastAnswered(cfg: Config, env: Env, rs: seq<Request>, last: Request, c: Conn, read: Stream,
                     turned: Option<Turned>)
    requires Calm(env, 0, |rs|) && forall i :: 0 <= i < |rs| ==> Acceptable(cfg, rs[i])
    requires !last.head.keepAlive || env(|rs|).shutdown
    requires c.requests == Heads(rs) + [last.head] && c.phase == Closed(Finished) && ReadRight(env, c, read, turned)
    ensures |read.messages| == |rs| + 1 && read.rest == []
    ensures Kept(env, rs, read.messages)
    ensures TellsAnswer(read.messages[|rs|], last.head, env(|rs|)) && !read.messages[|rs|].keepAlive
  {
    hide Sendable, Tells;
    forall i | 0 <= i < |rs| ensures TellsAnswer(read.messages[i], rs[i].head, env(i)) && read.messages[i].keepAlive {
      assert Acceptable(cfg, rs[i]) && c.requests[i] == rs[i].head;
    }
    assert c.requests[|rs|] == last.head;
  }

  /* ---------- requests that are cut short ---------- */

  /** No proper part of a printed head is taken for a head. */
  lemma HeadIsWhole(head: RequestHead, n: nat)
    requires Sendable(head) && n < |RenderHead(head)|
    ensures ParseHead(RenderHead(head)[..n]) == Failed(Incomplete)
  {
    var all := RenderHead(head);
    hide ParseHead, RenderHead, Sendable;
    ParsePrinted(head, []);
    assert all[..n] + all[n..] == all == all + [];
    if ParseHead(all[..n]) != Failed(Incomplete) {
      PrefixStable(all[..n], all[n..]);
    }
  }

  /** A printed request of which only part arrives is never served, whatever its path and method. If its deadline passes
      it is refused with 408; if the peer closes within the head, with 400; and in no other case is anything written. */
  lemma CutRequest(cfg: Config, env: Env, r: Request, n: nat, k: nat, stop: ReadOutcome)
    requires Sendable(r.head) && |r.body| == r.head.contentLength <= cfg.maxBody
    requires 0 < n < |RenderHead(r.head)| + |r.body|
    ensures var t := Converse(cfg, env, (RenderHead(r.head) + r.body)[..n], k, stop);
            && t.requests == []
            && match stop
               case GotBytes => t.close == None && t.out == []
               case Timeout => t.close == Some(Rejected) && |t.out| == 1 && t.out[0].response.status == 408
               case Eof =>
                 if n < |RenderHead(r.head)|
                 then t.close == Some(Rejected) && |t.out| == 1 && t.out[0].response.status == 400
                 else t.close == Some(Aborted) && t.out == []
               case _ => t.close == Some(Aborted) && t.out == []
  {
    var head := RenderHead(r.head);
    var part := (head + r.body)[..n];
    hide ParseHead, RenderHead, Sendable, Converse, RefusalText;
    if n < |head| {
      assert part == head[..n];
      HeadIsWhole(r.head, n);
      StopsInHead(cfg, env, part, k, stop);
    } else {
      assert part == head + r.body[..n - |head|];
      ParsePrinted(r.head, r.body[..n - |head|]);
      StopsInBody(cfg, env, part, k, stop);
    }
  }

  lemma StopsInHead(cfg: Config, env: Env, stream: bytes, k: nat, stop: ReadOutcome)
    requires stream != [] && ParseHead(stream) == Failed(Incomplete)
    ensures var t := Converse(cfg, env, stream, k, stop);
            && t.requests == []
            && match stop
               case GotBytes => t.close == None && t.out == []
               case Timeout => t.close == Some(Rejected) && |t.out| == 1 && t.out[0].response.status == 408
               case Eof => t.close == Some(Rejected) && |t.out| == 1 && t.out[0].response.status == 400
               case _ => t.close == Some(Aborted) && t.out == []
  {
    hide ParseHead, RefusalReason, RefusalBody, AsksHead;
  }

  lemma StopsInBody(cfg: Config, env: Env, stream: bytes, k: nat, stop: ReadOutcome)
    requires var p := ParseHead(stream);
             p.Parsed? && p.head.contentLength <= cfg.maxBody && |stream| < p.len + p.head.contentLength
    ensures var t := Converse(cfg, env, stream, k, stop);
            && t.requests == []
            && match stop
               case GotBytes => t.close == None && t.out == []
               case Timeout => t.close == Some(Rejected) && |t.out| == 1 && t.out[0].response.status == 408
               case _ => t.close == Some(Aborted) && t.out == []
  {
    hide ParseHead, RefusalReason, RefusalBody, AsksHead;
  }

  /* ---------- HEAD requests that are refused ---------- */

  /** A HEAD request whose body is announced too large is refused for it. */
  lemma BigHeadIsRefused(cfg: Config, env: Env, head: RequestHead, rest: bytes, k: nat, stop: ReadOutcome)
    requires Sendable(head) && IsHead(head) && head.contentLength > cfg.maxBody
    ensures TurnedAway(cfg, env, RenderHead(head) + rest, k, stop) == Some(Turned(BodyTooLarge, true))
  {
    hide ParseHead, RenderHead, Sendable, IsHead, AsksHead;
    ParsePrinted(head, rest);
    AsksParsed(RenderHead(head) + rest, env(k));
  }

  /** So is one whose body does not come before the deadline. */
  lemma SlowHeadIsRefused(cfg: Config, env: Env, head: RequestHead, body: bytes, k: nat)
    requires Sendable(head) && IsHead(head) && |body| < head.contentLength <= cfg.maxBody
    ensures TurnedAway(cfg, env, RenderHead(head) + body, k, Timeout) == Some(Turned(TooSlow, true))
  {
    hide ParseHead, RenderHead, Sendable, IsHead, AsksHead;
    ParsePrinted(head, body);
    AsksParsed(RenderHead(head) + body, env(k));
  }

  /** So is one that the timer or the peer cuts off within its head. */
  lemma PartialHeadIsRefused(cfg: Config, env: Env, stream: bytes, k: nat)
    requires StartsWith(stream, HeadWord()) && ParseHead(stream) == Failed(Incomplete)
    ensures TurnedAway(cfg, env, stream, k, Timeout) == Some(Turned(TooSlow, true))
    ensures TurnedAway(cfg, env, stream, k, Eof) == Some(Turned(CutShort, true))
  {
    hide ParseHead;
  }

  /** So is the plainest of them: a HEAD request for an over-long path, at once. */
  lemma LongHeadIsRefused(cfg: Config, env: Env, path: bytes, k: nat, stop: ReadOutcome)
    requires Token(path) && |path| > 8192
    ensures TurnedAway(cfg, env, HeadWord() + path, k, stop) == Some(Turned(HeaderTooLarge, true))
  {
    var buf := HeadWord() + path;
    assert '\r' !in HeadWord() && '\r' !in path;
    assert buf[..|HeadWord()|] == HeadWord();
    assert !CutOff(buf);
    hide HeadWord, Token;
    assert '\r' !in buf;
    if Find(buf, HEAD_END).Some? {
      EndsWithReturn(buf, Find(buf, HEAD_END).value);
      assert false;
    }
    assert ParseHead(buf) == Failed(HeadTooLarge);
    hide ParseHead, Find;
  }

  /* ---------- when the end of a request fits `usize` ---------- */

  function Pow10(k: nat): nat { if k == 0 then 1 else 10 * Pow10(k - 1) }

  lemma {:induction false} DecimalLength(n: nat, k: nat)
    requires k > 0 && n < Pow10(k)
    ensures |Decimal(n)| <= k
    decreases k
  {
    if n >= 10 {
      assert k > 1 by { assert Pow10(1) == 10 * Pow10(0); }
      DecimalLength(n / 10, k - 1);
    }
  }

  lemma UsizeDigits(n: nat)
    requires n <= USIZE_MAX
    ensures |Decimal(n)| <= 20
  {
    assert Pow10(4) == 10000 * Pow10(0) && Pow10(8) == 10000 * Pow10(4) && Pow10(12) == 10000 * Pow10(8)
           && Pow10(16) == 10000 * Pow10(12) && Pow10(20) == 10000 * Pow10(16) by {
      FourMore(0);
      FourMore(4);
      FourMore(8);
      FourMore(12);
      FourMore(16);
    }
    DecimalLength(n, 20);
  }

  lemma FourMore(k: nat)
    ensures Pow10(k + 4) == 10000 * Pow10(k)
  {
    assert Pow10(k + 4) == 100 * Pow10(k + 2);
  }

  lemma HeadSize(r: RequestHead)
    ensures |RenderHead(r)| == |r.verb| + |r.path| + |Decimal(r.contentLength)| + |Persistence(r.keepAlive)| + 46
  {
    NamesDiffer();
    assert |Version()| == 8;
    hide Version, LengthName, ConnectionName, Persistence, Decimal;
    var lines := HeadLines(r);
    assert lines[1..] == [lines[1], lines[2]] && lines[1..][1..] == [lines[2]];
    assert Join([lines[2]], CRLF) == lines[2];
    assert Join(lines[1..], CRLF) == lines[1] + CRLF + lines[2];
  }

  /** A head that fills the limit to the last byte and announces a body of `n` bytes. */
  lemma LongestHead(n: nat) returns (head: RequestHead)
    requires n <= USIZE_MAX
    ensures Sendable(head) && head.contentLength == n && |RenderHead(head)| == MAX_HEAD_BYTES
  {
    UsizeDigits(n);
    NamesDiffer();
    var k: nat := MAX_HEAD_BYTES - 46 - 1 - |Decimal(n)| - |Persistence(true)|;
    head := RequestHead("G", seq(k, i requires 0 <= i < k => 'a'), true, n);
    hide RenderHead, Decimal, Persistence;
    HeadSize(head);
  }

  /** Adding the length of the body to that of its head never overflows, for any input, exactly when the body limit
      leaves room for the largest head. */
  lemma TotalFits(maxBody: nat)
    requires maxBody <= USIZE_MAX
    ensures (forall buf: bytes, head: RequestHead, n: nat
               | ParseHead(buf) == Parsed(head, n) && head.contentLength <= maxBody ::
               n + head.contentLength <= USIZE_MAX)
            <==> maxBody <= USIZE_MAX - MAX_HEAD_BYTES
  {
    if maxBody > USIZE_MAX - MAX_HEAD_BYTES {
      var head := LongestHead(maxBody);
      ParsePrinted(head, []);
      hide ParseHead, RenderHead, Sendable;
      assert ParseHead(RenderHead(head) + []) == Parsed(head, MAX_HEAD_BYTES);
    }
  }
}
