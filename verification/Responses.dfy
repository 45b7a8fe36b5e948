/** The stream of responses a connection writes, read back by an RFC 9112 client. */
module Responses {
  import opened Options
  import opened Bytes
  import opened Http
  import opened Messages
  import opened Connection

  /** A response as its reader sees it. */
  datatype Message = Message(status: nat, reason: bytes, keepAlive: bool, length: nat, body: bytes)
  datatype Reading = Reading(message: Message, rest: bytes)

  /** The value of the last field called `name`. */
  function Lookup(lines: seq<bytes>, name: bytes): Option<bytes> {
    if lines == [] then None
    else
      var later := Lookup(lines[1..], name);
      if later.Some? then later
      else if IsField(lines[0], name) then Some(FieldValue(lines[0]))
      else None
  }

  /** Responses that never carry a body (RFC 9112, section 6.3, rule 1, apart from HEAD). */
  predicate Bodiless(status: nat) { 100 <= status < 200 || status == 204 || status == 304 }

  datatype Status = Status(code: nat, reason: bytes)

  function ReadStatus(line: bytes): Option<Status> {
    var a := Find(line, " ");
    if a.None? || !StartsWith(line, "HTTP/1.") then None
    else
      var after := line[a.value + 1..];
      var b := Find(after, " ");
      if b.None? || ParseUsize(after[..b.value]).None? then None
      else Some(Status(ParseUsize(after[..b.value]).value, after[b.value + 1..]))
  }

  /** The head lines say how much of `rest` is the body (RFC 9112, section 6.3): nothing after a HEAD request, else as
      many bytes as `Content-Length` says, else everything up to the close. */
  function Interpret(lines: seq<bytes>, rest: bytes, toHead: bool): Option<Reading>
    requires lines != []
  {
    var status := ReadStatus(lines[0]);
    var length := match Lookup(lines[1..], LengthName())
                  case None => Some(|rest|)
                  case Some(v) => ParseUsize(v);
    if status.None? || length.None? then None
    else
      var n := if toHead || Bodiless(status.value.code) then 0 else length.value;
      if |rest| < n then None
      else Some(Reading(Message(status.value.code, status.value.reason,
                                Lookup(lines[1..], ConnectionName()) != Some(Persistence(false)),
                                length.value, rest[..n]), rest[n..]))
  }

  /** One response from the front of a stream. */
  function ReadMessage(s: bytes, toHead: bool): Option<Reading> {
    match Find(s, HEAD_END)
    case None => None
    case Some(i) => Interpret(Split(s[..i], CRLF), s[i + 4..], toHead)
  }

  /** What `build_response` may be asked to print. */
  predicate Printable(r: Response) {
    200 <= r.status < 1000 && !Bodiless(r.status) && '\r' !in r.reason && |r.body| <= USIZE_MAX
  }

  /** Three words between spaces read as a status line. */
  lemma ReadsAs(version: bytes, digits: bytes, reason: bytes, code: nat)
    requires ' ' !in version && ' ' !in digits && ParseUsize(digits) == Some(code)
    requires forall more: bytes :: StartsWith(version + more, "HTTP/1.")
    ensures var space: bytes := " ";
            ReadStatus(version + space + (digits + space + reason)) == Some(Status(code, reason))
  {
    var space: bytes := " ";
    var after := digits + space + reason;
    SplitAtSpace(version, after);
    SplitAtSpace(digits, reason);
    assert version + space + after == version + (space + after);
    hide ParseUsize, Find, StartsWith;
  }

  lemma ReadStatusLine(r: Response)
    requires Printable(r)
    ensures ReadStatus(StatusLine(r)) == Some(Status(r.status, r.reason))
    ensures '\r' !in StatusLine(r) && StatusLine(r) != []
  {
    DigitsGraphic(r.status);
    ParseDecimal(r.status);
    forall more: bytes { VersionFacts(more); }
    hide Decimal, ParseUsize, Version, StartsWith, ReadStatus;
    ReadsAs(Version(), Decimal(r.status), r.reason, r.status);
  }

  lemma VersionFacts(more: bytes)
    ensures ' ' !in Version() && '\r' !in Version() && StartsWith(Version() + more, "HTTP/1.") && Version() != []
  {
    assert (Version() + more)[..7] == "HTTP/1.";
  }

  lemma SplitAtSpace(word: bytes, after: bytes)
    requires ' ' !in word
    ensures var space: bytes := " ";
            var s := word + space + after;
            Find(s, space) == Some(|word|) && s[..|word|] == word && s[|word| + 1..] == after
  {
    var space: bytes := " ";
    FindAfterClean(word, space, after);
  }

  /** The line is a field called `name` with this value, fit for a head. */
  predicate Says(line: bytes, name: bytes, value: bytes) {
    line != [] && '\r' !in line && Find(line, ":").Some? && FieldName(line) == name && FieldValue(line) == value
  }

  lemma ReadField(name: bytes, value: bytes)
    requires Token(name) && ':' !in name && Lower(name) == name && value != [] && '\r' !in value
    requires Graphic(value[0]) && Graphic(value[|value| - 1])
    ensures Says(FieldLine(name, value), name, value)
  {
    ReadFieldLine(name, value);
    TokenFacts(name);
    NoReturn(name, value);
    hide FieldLine, Token, Lower, Find, FieldName, FieldValue;
  }

  lemma NoReturn(name: bytes, value: bytes)
    requires '\r' !in name && '\r' !in value
    ensures '\r' !in FieldLine(name, value)
  {
  }

  lemma ContentTypeLine()
    ensures Says(FieldLine(TypeName(), TypeValue()), TypeName(), TypeValue())
  {
    hide FieldLine;
    ReadField(TypeName(), TypeValue());
  }

  lemma ContentLengthLine(n: nat)
    ensures Says(FieldLine(LengthName(), Decimal(n)), LengthName(), Decimal(n))
  {
    hide FieldLine;
    DigitsGraphic(n);
    ReadField(LengthName(), Decimal(n));
  }

  lemma ConnectionLine(keepAlive: bool)
    ensures Says(FieldLine(ConnectionName(), Persistence(keepAlive)), ConnectionName(), Persistence(keepAlive))
  {
    hide FieldLine;
    ReadField(ConnectionName(), Persistence(keepAlive));
  }

  lemma LookupThree(a: bytes, b: bytes, c: bytes, name: bytes)
    ensures Lookup([a, b, c], name) ==
            if IsField(c, name) then Some(FieldValue(c)) else if IsField(b, name) then Some(FieldValue(b))
            else if IsField(a, name) then Some(FieldValue(a)) else None
  {
    hide FieldValue, FieldName, Find;
    assert [a, b, c][1..] == [b, c] && [b, c][1..] == [c];
    assert Lookup([c], name) == if IsField(c, name) then Some(FieldValue(c)) else None;
  }

  /** What the header lines of a response say. */
  lemma ResponseFields(r: Response)
    requires Printable(r)
    ensures var lines := ResponseLines(r);
            && lines[0] == StatusLine(r)
            && Clean(lines, '\r') && NonEmptyLines(lines)
            && Lookup(lines[1..], LengthName()) == Some(Decimal(|r.body|))
            && Lookup(lines[1..], ConnectionName()) == Some(Persistence(r.keepAlive))
  {
    ReadStatusLine(r);
    ContentTypeLine();
    ContentLengthLine(|r.body|);
    ConnectionLine(r.keepAlive);
    NamesDiffer();
    hide FieldLine, Says, StatusLine, Lookup, Decimal, TypeName, TypeValue, LengthName, ConnectionName, Persistence;
    FourLines(StatusLine(r), ResponseLines(r)[1], TypeName(), TypeValue(),
              ResponseLines(r)[2], LengthName(), Decimal(|r.body|),
              ResponseLines(r)[3], ConnectionName(), Persistence(r.keepAlive));
  }

  lemma FourLines(first: bytes, a: bytes, na: bytes, va: bytes, b: bytes, nb: bytes, vb: bytes,
                  c: bytes, nc: bytes, vc: bytes)
    requires first != [] && '\r' !in first
    requires Says(a, na, va) && Says(b, nb, vb) && Says(c, nc, vc) && na != nb && nb != nc && na != nc
    ensures var lines := [first, a, b, c];
            Clean(lines, '\r') && NonEmptyLines(lines) && Lookup(lines[1..], nb) == Some(vb)
                && Lookup(lines[1..], nc) == Some(vc)
  {
    LookupThree(a, b, c, nb);
    LookupThree(a, b, c, nc);
    hide Lookup, FieldName, FieldValue, Find;
    assert [first, a, b, c][1..] == [a, b, c];
  }

  function Sent(r: Response): bytes { if r.writeBody then r.body else [] }

  /** A reader gets a printed response back. Told that it answers a HEAD request, it takes no body bytes: whatever
      body was sent stays in the stream. */
  lemma ReadBack(r: Response, rest: bytes, toHead: bool)
    requires Printable(r) && (!toHead ==> r.writeBody)
    ensures ReadMessage(BuildResponse(r) + rest, toHead) ==
            Some(Reading(Message(r.status, r.reason, r.keepAlive, |r.body|, if toHead then [] else r.body),
                         if toHead then Sent(r) + rest else rest))
  {
    var lines, tail := ResponseLines(r), Sent(r) + rest;
    ResponseFields(r);
    Reassociate(Join(lines, CRLF) + HEAD_END, Sent(r), rest);
    CutHead(lines, tail);
    InterpretPrinted(r, lines, rest, toHead);
    hide Interpret, ResponseLines, BuildResponse, Find, Split, Join;
  }

  lemma InterpretPrinted(r: Response, lines: seq<bytes>, rest: bytes, toHead: bool)
    requires Printable(r) && (!toHead ==> r.writeBody)
    requires lines != [] && lines[0] == StatusLine(r)
    requires Lookup(lines[1..], LengthName()) == Some(Decimal(|r.body|))
    requires Lookup(lines[1..], ConnectionName()) == Some(Persistence(r.keepAlive))
    ensures Interpret(lines, Sent(r) + rest, toHead) ==
            Some(Reading(Message(r.status, r.reason, r.keepAlive, |r.body|, if toHead then [] else r.body),
                         if toHead then Sent(r) + rest else rest))
  {
    var tail := Sent(r) + rest;
    ReadStatusLine(r);
    ParseDecimal(|r.body|);
    NamesDiffer();
    hide Lookup, ReadStatus, StatusLine, ParseUsize, Decimal, LengthName, ConnectionName, Persistence;
    var n := if toHead then 0 else |r.body|;
    assert tail[..n] == if toHead then [] else r.body;
    assert tail[n..] == if toHead then tail else rest;
  }

  lemma CutHead(lines: seq<bytes>, tail: bytes)
    requires lines != [] && Clean(lines, '\r') && NonEmptyLines(lines)
    ensures var s := Join(lines, CRLF) + HEAD_END + tail;
            var i := |Join(lines, CRLF)|;
            Find(s, HEAD_END) == Some(i) && Split(s[..i], CRLF) == lines && s[i + 4..] == tail
  {
    var head := Join(lines, CRLF);
    var s := head + HEAD_END + tail;
    FindPrintedEnd(lines, tail);
    SplitJoin(lines, CRLF);
    hide Find, Split, Join;
    assert s[..|head|] == head;
  }

  /* ---------- the whole stream ---------- */

  function Wire(out: seq<Reply>): bytes {
    if out == [] then [] else BuildResponse(out[0].response) + Wire(out[1..])
  }

  /** What was read, and the bytes left unread. */
  datatype Stream = Stream(messages: seq<Message>, rest: bytes)

  /** Read one response per request, knowing which requests were HEAD. */
  function ReadAll(s: bytes, toHead: seq<bool>): Stream {
    if toHead == [] then Stream([], s)
    else
      match ReadMessage(s, toHead[0])
      case None => Stream([], s)
      case Some(r) =>
        var more := ReadAll(r.rest, toHead[1..]);
        Stream([r.message] + more.messages, more.rest)
  }

  function MessageOf(r: Reply): Message {
    var p := r.response;
    Message(p.status, p.reason, p.keepAlive, |p.body|, if r.toHead then [] else p.body)
  }

  function AsRead(out: seq<Reply>): seq<Message> { seq(|out|, i requires 0 <= i < |out| => MessageOf(out[i])) }
  function ToHeads(out: seq<Reply>): seq<bool> { seq(|out|, i requires 0 <= i < |out| => out[i].toHead) }

  /** A reply a connection may write and go on. */
  predicate Regular(r: Reply) {
    Printable(r.response) && r.response.keepAlive && r.response.writeBody == !r.toHead
  }

  predicate AllRegular(out: seq<Reply>) { forall i :: 0 <= i < |out| ==> Regular(out[i]) }

  /** A reply a connection may write before it closes: a refusal carries its text even when the request was HEAD. */
  predicate Parting(r: Reply) {
    Printable(r.response) && if r.toHead then r.response.writeBody ==> r.response.body != [] else r.response.writeBody
  }

  /** Every reply but the last says keep-alive: nothing follows a `connection: close`. */
  predicate Orderly(out: seq<Reply>) {
    forall i :: 0 <= i < |out| ==> if i < |out| - 1 then Regular(out[i]) else Parting(out[i])
  }

  function Unread(out: seq<Reply>): bytes {
    if out != [] && out[|out| - 1].toHead then Sent(out[|out| - 1].response) else []
  }

  /** Reading the stream gives back the replies, one by one and in order; only the text of a refused HEAD request can be
      left over. */
  lemma {:induction false} ReadAllBack(out: seq<Reply>)
    requires Orderly(out)
    ensures ReadAll(Wire(out), ToHeads(out)) == Stream(AsRead(out), Unread(out))
    decreases |out|
  {
    hide ReadMessage, BuildResponse, Printable;
    if out != [] {
      var rest := out[1..];
      assert ToHeads(out)[1..] == ToHeads(rest);
      assert AsRead(out) == [MessageOf(out[0])] + AsRead(rest);
      ReadBack(out[0].response, Wire(rest), out[0].toHead);
      var sent := Sent(out[0].response);
      ReadAllBack(rest);
      if rest == [] {
        assert sent + Wire(rest) == sent;
      } else if out[0].toHead {
        assert sent + Wire(rest) == Wire(rest);
      }
    }
  }

  ghost predicate EnvPrintable(env: Env) { forall k :: |env(k).status| <= USIZE_MAX }

  lemma AnswerPrintable(head: RequestHead, s: Surroundings)
    requires |s.status| <= USIZE_MAX
    ensures Parting(Answer(head, s)) && (KeepsAlive(head, s) ==> Regular(Answer(head, s)))
    ensures Answer(head, s).toHead ==> !Answer(head, s).response.writeBody
  {
  }

  lemma RefusalReasonOk(why: Refusal)
    ensures '\r' !in RefusalReason(why)
  {
    match why
    case HeaderTooLarge =>
    case Chunked =>
    case BadRequest =>
    case CutShort =>
    case TooSlow =>
    case BodyTooLarge =>
  }

  lemma RefusalBodyOk(why: Refusal)
    ensures 0 < |RefusalBody(why)| < 30
  {
  }

  lemma RefusalPrintable(why: Refusal, toHead: bool)
    ensures Parting(Reply(RefusalText(why), toHead))
  {
    RefusalReasonOk(why);
    RefusalBodyOk(why);
    hide RefusalReason, RefusalBody;
  }

  /** What a conversation writes is orderly; while it goes on, every reply promises more. */
  lemma {:induction false} ConverseOut(cfg: Config, env: Env, stream: bytes, k: nat, stop: ReadOutcome)
    requires EnvPrintable(env)
    ensures var t := Converse(cfg, env, stream, k, stop);
            Orderly(t.out) && (t.close.None? ==> AllRegular(t.out))
    decreases |stream|
  {
    hide ParseHead, RefusalText, Answer, Printable, AsksHead, KeepsAlive, Regular, Parting;
    if Complete(cfg, stream) {
      var head, n := ParseHead(stream).head, ParseHead(stream).len;
      var rest := stream[n + head.contentLength..];
      AnswerPrintable(head, env(k));
      ConverseServes(cfg, env, stream, k, head, n, stop);
      hide Converse;
      if env(k).writeOk && KeepsAlive(head, env(k)) {
        ConverseOut(cfg, env, rest, k + 1, stop);
        OneBefore(Answer(head, env(k)), Converse(cfg, env, rest, k + 1, stop).out);
      }
    } else {
      forall why, toHead ensures Parting(Reply(RefusalText(why), toHead)) { RefusalPrintable(why, toHead); }
    }
  }

  /** A request is complete at the front of the stream. */
  predicate Complete(cfg: Config, stream: bytes) {
    match ParseHead(stream)
    case Failed(_) => false
    case Parsed(head, n) => head.contentLength <= cfg.maxBody && n + head.contentLength <= |stream|
  }

  lemma OneBefore(r: Reply, out: seq<Reply>)
    requires Regular(r) && Parting(r) && Orderly(out)
    ensures Orderly([r] + out)
    ensures AllRegular(out) ==> AllRegular([r] + out)
  {
    hide Regular, Parting;
    forall i | 1 <= i < |[r] + out| ensures ([r] + out)[i] == out[i - 1] {
    }
  }

  /** On every run the replies written are orderly: each printable, none after a `connection: close`; and as long as the
      connection is open every one of them says keep-alive. */
  lemma RunOut(cfg: Config, env: Env, script: seq<Arrival>)
    requires EnvPrintable(env)
    ensures var c := Run(cfg, env, script);
            Orderly(c.out) && (!c.phase.Closed? ==> AllRegular(c.out))
  {
    hide *;
    FramingIsChunkIndependent(cfg, env, script);
    ConverseOut(cfg, env, Received(script), 0, Stop(script));
  }

  /* ---------- which requests are refused, and which of them leave a text behind ---------- */

  /** Why a request was refused, and whether it was a HEAD request to its sender. */
  datatype Turned = Turned(why: Refusal, toHead: bool)

  /** Told from the bytes a peer sent and how its reads stopped: the request that is refused, if one is. Its head cannot
      be parsed, does not come in time or is cut short, or its body is announced too large or does not come in time. `k`
      counts requests. */
  function TurnedAway(cfg: Config, env: Env, stream: bytes, k: nat, stop: ReadOutcome): Option<Turned>
    decreases |stream|
  {
    var asks := AsksHead(stream, env(k));
    match ParseHead(stream)
    case Failed(Incomplete) =>
      if stream == [] then None
      else if stop == Timeout then Some(Turned(TooSlow, asks))
      else if stop == Eof then Some(Turned(CutShort, asks)) else None
    case Failed(HeadTooLarge) => Some(Turned(HeaderTooLarge, asks))
    case Failed(Unsupported) => Some(Turned(Chunked, asks))
    case Failed(Malformed) => Some(Turned(BadRequest, asks))
    case Parsed(head, n) =>
      if head.contentLength > cfg.maxBody then Some(Turned(BodyTooLarge, asks))
      else if |stream| < n + head.contentLength then if stop == Timeout then Some(Turned(TooSlow, asks)) else None
      else if env(k).writeOk && head.keepAlive && !env(k).shutdown then
        TurnedAway(cfg, env, stream[n + head.contentLength..], k + 1, stop)
      else None
  }

  predicate RefusesHead(cfg: Config, env: Env, stream: bytes, k: nat, stop: ReadOutcome) {
    var t := TurnedAway(cfg, env, stream, k, stop); t.Some? && t.value.toHead
  }

  /** The last reply is one to a HEAD request and yet carries a text. */
  predicate LeavesText(out: seq<Reply>) {
    out != [] && out[|out| - 1].toHead && out[|out| - 1].response.writeBody
  }

  lemma AnswerLeavesNone(head: RequestHead, s: Surroundings)
    ensures !LeavesText([Answer(head, s)])
  {
    hide Route, KeepsAlive, IsHead;
  }

  lemma RefusalLeaves(why: Refusal, toHead: bool)
    ensures LeavesText([Reply(RefusalText(why), toHead)]) <==> toHead
  {
    hide RefusalReason, RefusalBody, RefusalStatus;
  }

  /** `t` ends with the refusal of `turned`, or without one. */
  predicate EndsRefused(t: Transcript, turned: Option<Turned>) {
    match turned
    case None => t.close != Some(Rejected) && !LeavesText(t.out)
    case Some(r) =>
      && t.close == Some(Rejected) && t.out != [] && t.out[|t.out| - 1] == Reply(RefusalText(r.why), r.toHead)
      && (LeavesText(t.out) <==> r.toHead)
  }

  lemma EndsLater(head: RequestHead, s: Surroundings, rest: Transcript, turned: Option<Turned>)
    requires EndsRefused(rest, turned)
    ensures EndsRefused(Prepend(head, Answer(head, s), rest), turned)
  {
    AnswerLeavesNone(head, s);
    hide Answer, RefusalText;
    var out := [Answer(head, s)] + rest.out;
    assert rest.out != [] ==> out[|out| - 1] == rest.out[|rest.out| - 1];
    assert rest.out == [] ==> out == [Answer(head, s)];
  }

  lemma {:induction false} ConverseRefuses(cfg: Config, env: Env, stream: bytes, k: nat, stop: ReadOutcome)
    ensures EndsRefused(Converse(cfg, env, stream, k, stop), TurnedAway(cfg, env, stream, k, stop))
    decreases |stream|
  {
    hide ParseHead, RefusalText, Answer, AsksHead, LeavesText;
    if Complete(cfg, stream) {
      var head, n := ParseHead(stream).head, ParseHead(stream).len;
      var rest := stream[n + head.contentLength..];
      ConverseServes(cfg, env, stream, k, head, n, stop);
      AnswerLeavesNone(head, env(k));
      assert !LeavesText([]) by { NothingLeft(); }
      hide Converse;
      if env(k).writeOk && KeepsAlive(head, env(k)) {
        ConverseRefuses(cfg, env, rest, k + 1, stop);
        EndsLater(head, env(k), Converse(cfg, env, rest, k + 1, stop), TurnedAway(cfg, env, rest, k + 1, stop));
        hide EndsRefused;
      }
    } else {
      NothingLeft();
      forall why, toHead { RefusalLeaves(why, toHead); }
    }
  }

  lemma NothingLeft()
    ensures !LeavesText([])
  {
  }

  /** On every script of reads a request is refused, and a text is left behind, exactly as the bytes received and the
      stop say. */
  lemma TextFromInput(cfg: Config, env: Env, script: seq<Arrival>)
    ensures var c := Run(cfg, env, script);
            var turned := TurnedAway(cfg, env, Received(script), 0, Stop(script));
            && (c.phase == Closed(Rejected) <==> turned.Some?)
            && (turned.Some? ==>
                  && c.out != []
                  && c.out[|c.out| - 1] == Reply(RefusalText(turned.value.why), turned.value.toHead))
            && (LeavesText(c.out) <==> RefusesHead(cfg, env, Received(script), 0, Stop(script)))
  {
    hide Run, Received, Stop, Converse, RefusalText, LeavesText, TurnedAway;
    FramingIsChunkIndependent(cfg, env, script);
    ConverseRefuses(cfg, env, Received(script), 0, Stop(script));
  }

  /* ---------- a client needs only to know what it sent ---------- */

  /** Of each request in a stream, whether its sender meant a HEAD request. `k` counts requests. */
  function Asked(env: Env, stream: bytes, k: nat): (r: seq<bool>)
    ensures r != [] && r[0] == AsksHead(stream, env(k))
    decreases |stream|
  {
    var asks := AsksHead(stream, env(k));
    match ParseHead(stream)
    case Failed(_) => [asks]
    case Parsed(head, n) =>
      if |stream| < n + head.contentLength then [asks]
      else [asks] + Asked(env, stream[n + head.contentLength..], k + 1)
  }

  lemma AskedServed(env: Env, stream: bytes, k: nat, head: RequestHead, n: nat)
    requires ParseHead(stream) == Parsed(head, n) && n + head.contentLength <= |stream|
    ensures Asked(env, stream, k) == [IsHead(head)] + Asked(env, stream[n + head.contentLength..], k + 1)
  {
    hide ParseHead, IsHead, AsksHead;
    AsksParsed(stream, env(k));
    var asks, rest := AsksHead(stream, env(k)), stream[n + head.contentLength..];
    assert Asked(env, stream, k) == [asks] + Asked(env, rest, k + 1);
    hide Asked;
  }

  /** Whatever the server makes of a request, it answers it as what its sender meant it to be. */
  lemma {:induction false} ConverseFlags(cfg: Config, env: Env, stream: bytes, k: nat, stop: ReadOutcome)
    ensures ToHeads(Converse(cfg, env, stream, k, stop).out) <= Asked(env, stream, k)
    decreases |stream|
  {
    hide ParseHead, RefusalText, Answer, AsksHead, IsHead, KeepsAlive, Asked;
    if Complete(cfg, stream) {
      var head, n := ParseHead(stream).head, ParseHead(stream).len;
      var rest := stream[n + head.contentLength..];
      AskedServed(env, stream, k, head, n);
      ConverseServes(cfg, env, stream, k, head, n, stop);
      AnswerFlag(head, env(k));
      hide Converse, Complete;
      if env(k).writeOk && KeepsAlive(head, env(k)) {
        ConverseFlags(cfg, env, rest, k + 1, stop);
        OneFlagMore(Answer(head, env(k)), Converse(cfg, env, rest, k + 1, stop).out);
      } else {
        OneFlagMore(Answer(head, env(k)), []);
      }
      hide ToHeads;
    } else {
      RefusedFlags(cfg, env, stream, k, stop);
      hide Converse, ToHeads;
      var asked := Asked(env, stream, k);
      assert asked == [asked[0]] + asked[1..];
    }
  }

  lemma OneFlagMore(r: Reply, out: seq<Reply>)
    ensures ToHeads([r] + out) == [r.toHead] + ToHeads(out) && [r] + [] == [r] && ToHeads([]) == []
  {
  }

  lemma RefusedFlags(cfg: Config, env: Env, stream: bytes, k: nat, stop: ReadOutcome)
    requires !Complete(cfg, stream)
    ensures var flags := ToHeads(Converse(cfg, env, stream, k, stop).out);
            flags == [] || flags == [AsksHead(stream, env(k))]
  {
    hide ParseHead, RefusalText, Answer, AsksHead;
  }

  lemma AnswerFlag(head: RequestHead, s: Surroundings)
    ensures Answer(head, s).toHead == IsHead(head)
  {
    hide IsHead, Route, KeepsAlive;
  }

  /** On every script of reads each reply goes to the request at its place in the stream, as what its sender meant. */
  lemma FlagsFromInput(cfg: Config, env: Env, script: seq<Arrival>)
    ensures var out, asked := Run(cfg, env, script).out, Asked(env, Received(script), 0);
            |out| <= |asked| && asked[..|out|] == ToHeads(out)
  {
    hide Run, Received, Stop, Converse, Asked;
    FramingIsChunkIndependent(cfg, env, script);
    ConverseFlags(cfg, env, Received(script), 0, Stop(script));
  }

  /** What a client reads that knows no more than what it sent, request by request. */
  function ReadBy(env: Env, script: seq<Arrival>, out: seq<Reply>): Stream {
    var asked := Asked(env, Received(script), 0);
    ReadAll(Wire(out), if |out| <= |asked| then asked[..|out|] else [])
  }

  /** On every run, timeouts, errors and shutdown included, such a client reads back exactly the responses written, in
      order. Bytes are left over exactly on the inputs that make the server refuse a HEAD request: it sends the refusal
      with its text. */
  lemma ResponsesDecode(cfg: Config, env: Env, script: seq<Arrival>)
    requires EnvPrintable(env)
    ensures var out := Run(cfg, env, script).out;
            && |out| <= |Asked(env, Received(script), 0)|
            && ReadBy(env, script, out) == Stream(AsRead(out), Unread(out))
            && (ReadBy(env, script, out).rest == [] <==>
                  !RefusesHead(cfg, env, Received(script), 0, Stop(script)))
            && (forall i :: 0 <= i < |out| - 1 ==> out[i].response.keepAlive)
  {
    RunOut(cfg, env, script);
    ReadAllBack(Run(cfg, env, script).out);
    TextFromInput(cfg, env, script);
    FlagsFromInput(cfg, env, script);
    hide Run, RefusesHead, ReadAll, Wire, Received, Stop, Asked, TurnedAway, AsRead;
    UnreadText(Run(cfg, env, script).out);
  }

  lemma UnreadText(out: seq<Reply>)
    requires Orderly(out)
    ensures Unread(out) != [] <==> LeavesText(out)
  {
    hide Printable, Regular;
  }

  /* ---------- what a client reads ---------- */

  /** The message is this text, of which a HEAD request gets the length alone. */
  predicate Tells(m: Message, toHead: bool, status: nat, reason: bytes, text: bytes) {
    m.status == status && m.reason == reason && m.length == |text| && m.body == if toHead then [] else text
  }

  /** What each way of being refused comes to: a last message, and its text left unread if it answers a HEAD request. */
  predicate TellsRefusal(m: Message, rest: bytes, t: Turned) {
    && !m.keepAlive
    && match t.why
       case HeaderTooLarge => Turns(m, rest, t.toHead, 431, "Request Header Fields Too Large", "header too large\n")
       case Chunked => Turns(m, rest, t.toHead, 501, "Not Implemented", "unsupported framing\n")
       case BadRequest => Turns(m, rest, t.toHead, 400, "Bad Request", "bad request\n")
       case CutShort => Turns(m, rest, t.toHead, 400, "Bad Request", "incomplete request\n")
       case TooSlow => Turns(m, rest, t.toHead, 408, "Request Timeout", "request timeout\n")
       case BodyTooLarge => Turns(m, rest, t.toHead, 413, "Payload Too Large", "payload too large\n")
  }

  predicate Turns(m: Message, rest: bytes, toHead: bool, status: nat, reason: bytes, text: bytes) {
    Tells(m, toHead, status, reason, text) && rest == if toHead then text else []
  }

  /** What each request that is served comes to. */
  predicate TellsAnswer(m: Message, head: RequestHead, s: Surroundings) {
    var toHead := head.verb == "HEAD";
    && (m.keepAlive <==> head.keepAlive && !s.shutdown)
    && if head.verb != "GET" && !toHead then Tells(m, false, 405, "Method Not Allowed", "method not allowed\n")
       else if head.path == "/" then Tells(m, toHead, 200, "OK", "Hello from tcp-actor-server\n")
       else if head.path == "/healthz" then Tells(m, toHead, 200, "OK", "ok\n")
       else if head.path == "/status" then Tells(m, toHead, 200, "OK", s.status)
       else Tells(m, toHead, 404, "Not Found", "not found\n")
  }

  lemma RefusalTells(why: Refusal, toHead: bool)
    ensures var r := Reply(RefusalText(why), toHead);
            TellsRefusal(MessageOf(r), if toHead then Sent(r.response) else [], Turned(why, toHead))
  {
  }

  lemma AnswerTells(head: RequestHead, s: Surroundings)
    ensures TellsAnswer(MessageOf(Answer(head, s)), head, s)
  {
  }

  /** Which requests end the connection: those that ask for it, and those served once the flag is set. */
  predicate Last(head: RequestHead, s: Surroundings) { !head.keepAlive || s.shutdown }

  /** Request `i` was answered for what it is. */
  predicate AnsweredAt(env: Env, k: nat, t: Transcript, i: nat) {
    i < |t.requests| && i < |t.out| ==> t.out[i] == Answer(t.requests[i], env(k + i))
  }

  /** Request `i`, unless it is the last, left the connection open. */
  predicate OpenAfter(env: Env, k: nat, t: Transcript, i: nat) {
    i + 1 < |t.requests| ==> env(k + i).writeOk && !Last(t.requests[i], env(k + i))
  }

  /** The last request closed the connection exactly if it was to, or if its answer could not be written. */
  predicate ClosedBy(env: Env, k: nat, t: Transcript) {
    if t.requests == [] then t.close != Some(Finished) && t.close != Some(WriteFailed)
    else
      var n := |t.requests| - 1;
      && (t.close == Some(WriteFailed) <==> !env(k + n).writeOk)
      && (t.close == Some(Finished) <==> env(k + n).writeOk && Last(t.requests[n], env(k + n)))
  }

  /** What each close adds to one reply for every request. */
  function Extra(t: Transcript): int {
    if t.close == Some(Rejected) then 1 else if t.close == Some(WriteFailed) then -1 else 0
  }

  ghost predicate Served(env: Env, k: nat, t: Transcript) {
    && |t.out| == |t.requests| + Extra(t) && ClosedBy(env, k, t)
    && (forall i :: AnsweredAt(env, k, t, i))
    && (forall i :: OpenAfter(env, k, t, i))
  }

  lemma ServedLater(env: Env, k: nat, head: RequestHead, rest: Transcript)
    requires Served(env, k + 1, rest) && env(k).writeOk && !Last(head, env(k))
    ensures Served(env, k, Prepend(head, Answer(head, env(k)), rest))
  {
    hide Answer, Last;
    var t := Prepend(head, Answer(head, env(k)), rest);
    forall i: nat ensures AnsweredAt(env, k, t, i) && OpenAfter(env, k, t, i) {
      if i > 0 {
        assert AnsweredAt(env, k + 1, rest, i - 1) && OpenAfter(env, k + 1, rest, i - 1);
        assert k + 1 + (i - 1) == k + i;
      }
    }
    assert rest.requests != [] ==> t.requests[|t.requests| - 1] == rest.requests[|rest.requests| - 1];
    assert rest.requests != [] ==> k + 1 + (|rest.requests| - 1) == k + (|t.requests| - 1);
  }

  lemma {:induction false} ConverseServed(cfg: Config, env: Env, stream: bytes, k: nat, stop: ReadOutcome)
    ensures Served(env, k, Converse(cfg, env, stream, k, stop))
    decreases |stream|
  {
    hide ParseHead, RefusalText, Answer, AsksHead;
    if Complete(cfg, stream) {
      var head, n := ParseHead(stream).head, ParseHead(stream).len;
      var rest := stream[n + head.contentLength..];
      ConverseServes(cfg, env, stream, k, head, n, stop);
      hide Converse;
      if env(k).writeOk && !Last(head, env(k)) {
        ConverseServed(cfg, env, rest, k + 1, stop);
        ServedLater(env, k, head, Converse(cfg, env, rest, k + 1, stop));
      }
    }
  }

  /** What a client reads of a conversation. */
  lemma TranscriptReads(env: Env, t: Transcript, read: Stream, turned: Option<Turned>)
    requires Served(env, 0, t) && EndsRefused(t, turned) && read == Stream(AsRead(t.out), Unread(t.out))
    ensures |read.messages| == |t.requests| + Extra(t)
    ensures forall i :: 0 <= i < |t.requests| && i < |read.messages| ==>
              TellsAnswer(read.messages[i], t.requests[i], env(i))
    ensures if turned.None? then read.rest == []
            else |read.messages| == |t.requests| + 1
                 && TellsRefusal(read.messages[|t.requests|], read.rest, turned.value)
  {
    hide Answer, RefusalText, TellsAnswer, TellsRefusal, MessageOf, ClosedBy;
    if turned.Some? {
      RefusalTells(turned.value.why, turned.value.toHead);
    }
    forall i | 0 <= i < |t.requests| && i < |read.messages|
      ensures TellsAnswer(read.messages[i], t.requests[i], env(i))
    {
      assert AnsweredAt(env, 0, t, i);
      AnswerTells(t.requests[i], env(i));
    }
  }

  /** What a client reads of a connection: one message for each request that was answered, saying what that request
      comes to, and one more for a request that is refused; of all this only the text of a refused HEAD request is
      left over. And the connection ended of itself exactly after a request that asked for it, or that was served once
      the flag was set; no earlier request did. */
  predicate ReadRight(env: Env, c: Conn, read: Stream, turned: Option<Turned>) {
    var ms, n := read.messages, |c.requests|;
    && |ms| == n + (if turned.Some? then 1 else if c.phase == Closed(WriteFailed) then -1 else 0)
    && (forall i :: 0 <= i < n && i < |ms| ==> TellsAnswer(ms[i], c.requests[i], env(i)))
    && (if turned.Some? then TellsRefusal(ms[n], read.rest, turned.value) else read.rest == [])
    && (c.phase == Closed(Rejected) <==> turned.Some?)
    && (forall i :: 0 <= i < n - 1 ==> env(i).writeOk && c.requests[i].keepAlive && !env(i).shutdown)
    && (c.phase == Closed(Finished) <==>
          n > 0 && env(n - 1).writeOk && (!c.requests[n - 1].keepAlive || env(n - 1).shutdown))
  }

  /** Main theorem of what a client reads: on every run, exactly that, the refusal told from the input. */
  lemma ClientReads(cfg: Config, env: Env, script: seq<Arrival>)
    requires EnvPrintable(env)
    ensures var c := Run(cfg, env, script);
            ReadRight(env, c, ReadBy(env, script, c.out), TurnedAway(cfg, env, Received(script), 0, Stop(script)))
  {
    var stream, stop := Received(script), Stop(script);
    var c, t := Run(cfg, env, script), Converse(cfg, env, stream, 0, stop);
    var turned := TurnedAway(cfg, env, stream, 0, stop);
    ResponsesDecode(cfg, env, script);
    hide *;
    TextFromInput(cfg, env, script);
    FramingIsChunkIndependent(cfg, env, script);
    ConverseRefuses(cfg, env, stream, 0, stop);
    ConverseServed(cfg, env, stream, 0, stop);
    RightlyRead(env, c, t, ReadBy(env, script, c.out), turned);
  }

  lemma RightlyRead(env: Env, c: Conn, t: Transcript, read: Stream, turned: Option<Turned>)
    requires c.requests == t.requests
    requires match t.close case Some(why) => c.phase == Closed(why) case None => !c.phase.Closed?
    requires Served(env, 0, t) && EndsRefused(t, turned) && read == Stream(AsRead(t.out), Unread(t.out))
    ensures ReadRight(env, c, read, turned)
  {
    TranscriptReads(env, t, read, turned);
    ServedMeans(env, t, turned);
    assert c.phase == Closed(Rejected) <==> turned.Some?;
    hide AsRead, Unread, EndsRefused, Served, TellsAnswer, TellsRefusal;
  }

  lemma ServedMeans(env: Env, t: Transcript, turned: Option<Turned>)
    requires Served(env, 0, t) && EndsRefused(t, turned)
    ensures Extra(t) == if turned.Some? then 1 else if t.close == Some(WriteFailed) then -1 else 0
    ensures var n := |t.requests|;
            && (forall i :: 0 <= i < n - 1 ==> env(i).writeOk && t.requests[i].keepAlive && !env(i).shutdown)
            && (t.close == Some(Finished) <==>
                  n > 0 && env(n - 1).writeOk && (!t.requests[n - 1].keepAlive || env(n - 1).shutdown))
  {
    hide Answer, RefusalText, LeavesText;
    forall i | 0 <= i < |t.requests| - 1 ensures env(i).writeOk && t.requests[i].keepAlive && !env(i).shutdown {
      assert OpenAfter(env, 0, t, i);
    }
  }

  /** A HEAD request is answered as the GET request for the same path would be, length included, without the body; other
      methods are refused, and only the three known paths are found. */
  lemma HeadMirrorsGet(path: bytes, keepAlive: bool, n: nat, s: Surroundings)
    ensures var head, get := RequestHead("HEAD", path, keepAlive, n), RequestHead("GET", path, keepAlive, n);
            && MessageOf(Answer(head, s)) == MessageOf(Answer(get, s)).(body := [])
            && Sent(Answer(head, s).response) == [] && Sent(Answer(get, s).response) == Answer(get, s).response.body
            && (Answer(get, s).response.status == 200 <==> path in {"/", "/healthz", "/status"})
            && Answer(get, s).response.status in {200, 404}
  {
    NamesApart();
  }

  lemma NamesApart()
    ensures var head: bytes, get: bytes := "HEAD", "GET"; head != get
  {
    var head: bytes, get: bytes := "HEAD", "GET";
    assert |head| == 4 && |get| == 3;
  }
}
