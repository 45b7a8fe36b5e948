/** `handle_connection` with its own loops and mutable buffer, proved to be the machine of `Connection`. */
module ConnectionLoop {
  import opened Options
  import opened Bytes
  import opened Http
  import opened Connection

  lemma RunStep(cfg: Config, env: Env, script: seq<Arrival>, pos: nat)
    requires pos < |script|
    ensures Run(cfg, env, script[..pos + 1]) == OnRead(cfg, env, Run(cfg, env, script[..pos]), script[pos])
  {
    hide OnRead;
    assert script[..pos + 1][..pos] == script[..pos];
  }

  /** What a read does to a connection that waits, outcome by outcome. */
  lemma ReadWhileHead(cfg: Config, env: Env, c: Conn, a: Arrival)
    requires c.phase.ReadHead?
    ensures var d, o := c.(now := c.now + a.wait), Classify(a.raw);
            OnRead(cfg, env, c, a) ==
            if o == GotBytes then Advance(cfg, env, Append(d, a.raw.chunk))
            else if c.buf == [] then d.(phase := Closed(Silent))
            else if o == Timeout then Reject(d, TooSlow, Asks(env, c))
            else if o == Eof then Reject(d, CutShort, Asks(env, c))
            else d.(phase := Closed(Aborted))
  {
    hide Advance, RefusalText;
  }

  lemma ReadWhileBody(cfg: Config, env: Env, c: Conn, a: Arrival)
    requires c.phase.ReadBody? && Wf(c)
    ensures var d, o := c.(now := c.now + a.wait), Classify(a.raw);
            OnRead(cfg, env, c, a) ==
            if o == GotBytes then Advance(cfg, env, Append(d, a.raw.chunk))
            else if o == Timeout then Reject(d, TooSlow, IsHead(c.phase.head))
            else d.(phase := Closed(Aborted))
  {
    hide Advance, RefusalText, IsHead;
  }

  /** A closed connection ignores whatever the peer still sends. */
  lemma {:induction false} ClosedForGood(cfg: Config, env: Env, script: seq<Arrival>, pos: nat)
    requires pos <= |script| && Run(cfg, env, script[..pos]).phase.Closed?
    ensures Run(cfg, env, script) == Run(cfg, env, script[..pos])
    decreases |script| - pos
  {
    if pos == |script| {
      assert script[..pos] == script;
    } else {
      RunStep(cfg, env, script, pos);
      ClosedForGood(cfg, env, script, pos + 1);
    }
  }

  class Handler {
    const cfg: Config
    const env: Env
    const script: seq<Arrival>
    var pos: nat
    var buf: bytes
    var deadline: Option<Time>
    var now: Time
    var requests: seq<RequestHead>
    var out: seq<Reply>
    ghost var started: Time
    ghost var received: nat
    ghost var timings: seq<Timing>

    ghost function State(phase: Phase): Conn
      reads this
    {
      Conn(phase, buf, deadline, now, started, received, requests, timings, out)
    }

    constructor (cfg: Config, env: Env, script: seq<Arrival>)
      ensures this.cfg == cfg && this.env == env && this.script == script
      ensures pos == 0 && State(ReadHead) == Open()
    {
      this.cfg, this.env, this.script := cfg, env, script;
      pos, buf, deadline, now, requests, out := 0, [], None, 0, [], [];
      started, received, timings := 0, 0, [];
    }

    /** `read_idle` or `read_until`: the outcome of the next read, its bytes appended to the buffer. */
    method Read(ghost phase: Phase) returns (o: ReadOutcome)
      requires pos < |script| && !phase.Closed?
      modifies this`pos, this`buf, this`now, this`started, this`received
      ensures pos == old(pos) + 1 && o == Classify(script[old(pos)].raw)
      ensures var c := old(State(phase));
              var d := c.(now := c.now + script[old(pos)].wait);
              State(phase) == if o == GotBytes then Append(d, script[old(pos)].raw.chunk) else d
    {
      var a := script[pos];
      pos := pos + 1;
      now := now + a.wait;
      o := Classify(a.raw);
      if o == GotBytes {
        if phase.ReadHead? && buf == [] {
          started := now;
        }
        buf := buf + a.raw.chunk;
        received := received + 1;
      }
    }

    /** `respond`. */
    method Respond(why: Refusal, toHead: bool)
      modifies this`out
      ensures out == old(out) + [Reply(RefusalText(why), toHead)]
    {
      out := out + [Reply(RefusalText(why), toHead)];
    }

    /** A request in progress arms its deadline once. */
    method Arm()
      modifies this`deadline
      ensures State(ReadHead) == Park(cfg, old(State(ReadHead)))
    {
      if buf != [] && deadline == None {
        deadline := Some(now + cfg.timeout);
      }
    }

    /** One read while the head is incomplete: idle between requests, or under the armed deadline. */
    method ReadMore() returns (end: Option<Phase>)
      requires pos <= |script| && ParseHead(buf) == Failed(Incomplete)
      requires Advance(cfg, env, State(ReadHead)) == Run(cfg, env, script[..pos])
      modifies this`pos, this`buf, this`deadline, this`now, this`out, this`started, this`received
      ensures end.Some? ==> old(pos) <= pos <= |script| && (pos == old(pos) ==> buf == old(buf))
      ensures end.Some? ==> State(end.value) == Run(cfg, env, script[..pos]) && (end.value.Closed? || pos == |script|)
      ensures end.None? ==> old(pos) < pos <= |script|
      ensures end.None? ==> Advance(cfg, env, State(ReadHead)) == Run(cfg, env, script[..pos])
    {
      hide ParseHead, RefusalText, Advance;
      AdvanceBlocked(cfg, env, State(ReadHead));
      var idle := buf == [];
      Arm();
      hide Park, Blocked;
      if pos == |script| {
        return Some(ReadHead);
      }
      ghost var c, a := State(ReadHead), script[pos];
      assert c == Run(cfg, env, script[..pos]);
      RunStep(cfg, env, script, pos);
      ReadWhileHead(cfg, env, c, a);
      hide Run, OnRead;
      var o := Read(ReadHead);
      if o == GotBytes {
        return None;
      }
      if idle {
        return Some(Closed(Silent));
      }
      match o {
        case Timeout =>
          Respond(TooSlow, AsksHead(buf, env(|requests|)));
          end := Some(Closed(Rejected));
        case Eof =>
          Respond(CutShort, AsksHead(buf, env(|requests|)));
          end := Some(Closed(Rejected));
        case _ =>
          end := Some(Closed(Aborted));
      }
    }

    /** Read until a full request head is buffered. `end` is set when the connection ends, or still waits, first. */
    method AwaitHead() returns (end: Option<Phase>, head: RequestHead, headLen: nat)
      requires pos <= |script| && deadline == None
      requires Advance(cfg, env, State(ReadHead)) == Run(cfg, env, script[..pos])
      modifies this`pos, this`buf, this`deadline, this`now, this`out, this`started, this`received
      ensures old(pos) <= pos <= |script|
      ensures end.Some? ==> State(end.value) == Run(cfg, env, script[..pos]) && (end.value.Closed? || pos == |script|)
      ensures end.None? ==> ParseHead(buf) == Parsed(head, headLen)
      ensures end.None? ==> Advance(cfg, env, State(ReadHead)) == Run(cfg, env, script[..pos])
      ensures pos == old(pos) ==> buf == old(buf)
    {
      hide ParseHead, RefusalText, Advance;
      head, headLen := RequestHead([], [], false, 0), 0;
      while true
        invariant old(pos) <= pos <= |script|
        invariant Advance(cfg, env, State(ReadHead)) == Run(cfg, env, script[..pos])
        invariant pos == old(pos) ==> buf == old(buf)
        decreases |script| - pos
      {
        var parsed := ParseHeadLoop(buf);
        match parsed {
          case Parsed(h, n) =>
            return None, h, n;
          case Failed(Incomplete) =>
          case Failed(HeadTooLarge) =>
            AdvanceTurn(cfg, env, State(ReadHead));
            Respond(HeaderTooLarge, AsksHead(buf, env(|requests|)));
            return Some(Closed(Rejected)), head, headLen;
          case Failed(Unsupported) =>
            AdvanceTurn(cfg, env, State(ReadHead));
            Respond(Chunked, AsksHead(buf, env(|requests|)));
            return Some(Closed(Rejected)), head, headLen;
          case Failed(Malformed) =>
            AdvanceTurn(cfg, env, State(ReadHead));
            Respond(BadRequest, AsksHead(buf, env(|requests|)));
            return Some(Closed(Rejected)), head, headLen;
        }
        end := ReadMore();
        if end.Some? {
          return;
        }
      }
    }

    /** Buffer the rest of the request under the same deadline. */
    method AwaitBody(head: RequestHead, headLen: nat) returns (end: Option<Phase>)
      requires pos <= |script| && headLen >= 4
      requires Advance(cfg, env, State(ReadBody(head, headLen))) == Run(cfg, env, script[..pos])
      modifies this`pos, this`buf, this`now, this`out, this`started, this`received
      ensures old(pos) <= pos <= |script|
      ensures end.Some? ==> State(end.value) == Run(cfg, env, script[..pos]) && (end.value.Closed? || pos == |script|)
      ensures end.None? ==> |buf| >= headLen + head.contentLength
      ensures end.None? ==> Advance(cfg, env, State(ReadBody(head, headLen))) == Run(cfg, env, script[..pos])
      ensures pos == old(pos) ==> buf == old(buf)
    {
      hide ParseHead, RefusalText, Advance, AsksHead, Turn;
      var total := headLen + head.contentLength;
      while |buf| < total
        invariant old(pos) <= pos <= |script|
        invariant Advance(cfg, env, State(ReadBody(head, headLen))) == Run(cfg, env, script[..pos])
        invariant pos == old(pos) ==> buf == old(buf)
        decreases |script| - pos
      {
        AdvanceBlocked(cfg, env, State(ReadBody(head, headLen)));
        if pos == |script| {
          return Some(ReadBody(head, headLen));
        }
        ghost var c, a := State(ReadBody(head, headLen)), script[pos];
        assert c == Run(cfg, env, script[..pos]);
        RunStep(cfg, env, script, pos);
        ReadWhileBody(cfg, env, c, a);
        hide Run, Blocked, OnRead, Park;
        var o := Read(ReadBody(head, headLen));
        if o == Timeout {
          Respond(TooSlow, head.verb == "HEAD");
          return Some(Closed(Rejected));
        }
        if o != GotBytes {
          return Some(Closed(Aborted));
        }
      }
      return None;
    }

    /** The whole connection. `end` is how it closed, or what it still waits for when the script of reads runs out. */
    method Handle() returns (end: Phase)
      requires pos == 0 && State(ReadHead) == Open()
      modifies this
      ensures State(end) == Run(cfg, env, script)
      ensures end.Closed? || pos == |script|
    {
      hide ParseHead, RefusalText, Advance, Serve;
      while true
        invariant pos <= |script| && deadline == None
        invariant Advance(cfg, env, State(ReadHead)) == Run(cfg, env, script[..pos])
        decreases |script| - pos, |buf|
      {
        var stop, head, headLen := AwaitHead();
        if stop.Some? {
          Ended(stop.value);
          return stop.value;
        }
        AdvanceTurn(cfg, env, State(ReadHead));
        if head.contentLength > cfg.maxBody {
          Respond(BodyTooLarge, head.verb == "HEAD");
          Ended(Closed(Rejected));
          return Closed(Rejected);
        }
        deadline := Some(Or(deadline, now + cfg.timeout));
        stop := AwaitBody(head, headLen);
        if stop.Some? {
          Ended(stop.value);
          return stop.value;
        }
        AdvanceTurn(cfg, env, State(ReadBody(head, headLen)));
        var phase := ServeRequest(head, headLen);
        if phase.Closed? {
          ClosedStays(cfg, env, State(phase));
          Ended(phase);
          return phase;
        }
      }
    }

    /** Route, respond and drain. */
    method ServeRequest(head: RequestHead, headLen: nat) returns (phase: Phase)
      requires |buf| >= headLen + head.contentLength
      modifies this
      ensures pos == old(pos)
      ensures !phase.Closed? ==>
                phase.ReadHead? && buf == old(buf)[headLen + head.contentLength..] && deadline == None
      ensures State(phase) == Serve(env, old(State(ReadBody(head, headLen))))
    {
      hide Answer;
      var s := env(|requests|);
      requests, timings := requests + [head], timings + [Timing(started, now, received)];
      var keepAlive := head.keepAlive && !s.shutdown;
      now := now + s.took;
      if !s.writeOk {
        return Closed(WriteFailed);
      }
      out := out + [Answer(head, s)];
      buf := buf[headLen + head.contentLength..];
      deadline, started, received := None, now, 0;
      phase := if keepAlive then ReadHead else Closed(Finished);
    }

    lemma Ended(end: Phase)
      requires pos <= |script| && State(end) == Run(cfg, env, script[..pos]) && (end.Closed? || pos == |script|)
      ensures State(end) == Run(cfg, env, script)
    {
      if end.Closed? {
        ClosedForGood(cfg, env, script, pos);
      } else {
        assert script[..pos] == script;
      }
    }
  }
}
