/** Message heads as text: what a printed head reads back as. Shared by requests and responses. */
module Messages {
  import opened Options
  import opened Bytes
  import opened Http

  /** Printable ASCII without the space. */
  predicate Graphic(b: byte) { In(b, 0x21, 0x7E) }

  predicate Token(s: bytes) { s != [] && forall i :: 0 <= i < |s| ==> Graphic(s[i]) }

  lemma SpaceIsNotGraphic(c: bytes)
    requires c != [] && (Graphic(c[0]) || Graphic(c[|c| - 1]))
    ensures !IsSpace(c)
  {
  }

  lemma NoSpaceInFront(s: bytes)
    requires s != [] && Graphic(s[0])
    ensures SpaceInFront(s) == 0
  {
    forall k | 1 <= k <= |s| { SpaceIsNotGraphic(s[..k]); }
  }

  lemma NoSpaceBehind(s: bytes)
    requires s != [] && Graphic(s[|s| - 1])
    ensures SpaceBehind(s) == 0
  {
    forall j | 0 <= j < |s| ensures !IsSpace(s[j..]) { SpaceIsNotGraphic(s[j..]); }
  }

  lemma TrimNothing(s: bytes)
    requires s != [] && Graphic(s[0]) && Graphic(s[|s| - 1])
    ensures TrimStart(s) == s && TrimEnd(s) == s && Trim(s) == s
  {
    NoSpaceInFront(s);
    NoSpaceBehind(s);
  }

  lemma TrimLeadingSpace(s: bytes)
    requires s != [] && Graphic(s[0]) && Graphic(s[|s| - 1])
    ensures var space: bytes := " "; Trim(space + s) == s
  {
    var space: bytes := " ";
    var t := space + s;
    assert t[..1] == space && IsSpace(t[..1]) && t[1..] == s;
    assert SpaceInFront(t) == 1;
    hide SpaceInFront;
    TrimNothing(s);
  }

  /** A printed header line reads back as its name, lower-cased, and its value. */
  lemma ReadFieldLine(name: bytes, value: bytes)
    requires Token(name) && ':' !in name
    requires value != [] && Graphic(value[0]) && Graphic(value[|value| - 1])
    ensures Find(FieldLine(name, value), ":") == Some(|name|)
    ensures FieldName(FieldLine(name, value)) == Lower(name)
    ensures FieldValue(FieldLine(name, value)) == value
    ensures FieldLine(name, value) != []
  {
    var line, colon: bytes, space: bytes := FieldLine(name, value), ":", " ";
    var rest := space + value;
    assert line == name + colon + rest;
    FindAfterClean(name, colon, rest);
    assert line[..|name|] == name;
    assert line[|name| + 1..] == rest;
    TrimNothing(name);
    TrimLeadingSpace(value);
  }

  predicate NonEmptyLines(lines: seq<bytes>) { forall i :: 0 <= i < |lines| ==> lines[i] != [] }

  /** A head printed as non-empty lines without carriage returns ends where its lines end. */
  lemma {:induction false} FindPrintedEnd(lines: seq<bytes>, rest: bytes)
    requires lines != [] && Clean(lines, '\r') && NonEmptyLines(lines)
    ensures Find(Join(lines, CRLF) + HEAD_END + rest, HEAD_END) == Some(|Join(lines, CRLF)|)
    decreases |lines|
  {
    var p := lines[0];
    if |lines| == 1 {
      FindAfterClean(p, HEAD_END, rest);
    } else {
      var more := lines[1..];
      assert more[0] == lines[1];
      FindPrintedEnd(more, rest);
      var tail := Join(more, CRLF) + HEAD_END + rest;
      assert Join(lines, CRLF) + HEAD_END + rest == p + CRLF + tail;
      assert tail[0] == more[0][0];
      FindShifted(p, tail);
    }
  }

  lemma FindShifted(p: bytes, tail: bytes)
    requires '\r' !in p && tail != [] && tail[0] != '\r' && Find(tail, HEAD_END).Some?
    ensures Find(p + CRLF + tail, HEAD_END) == Some(|p| + 2 + Find(tail, HEAD_END).value)
  {
    var s, at := p + CRLF + tail, Find(tail, HEAD_END).value;
    assert s[|p|] == '\r' && s[|p| + 1] == '\n' && s[|p| + 2] == tail[0];
    forall j | 0 <= j < |p| + 2 ensures !MatchAt(s, HEAD_END, j) {
      if MatchAt(s, HEAD_END, j) {
        NoMatchEarly(s, p, tail, j);
      }
    }
    forall j | |p| + 2 <= j <= |p| + 2 + at ensures MatchAt(s, HEAD_END, j) <==> j == |p| + 2 + at {
      MatchShifted(p + CRLF, tail, j - |p| - 2);
    }
    FindIs(s, HEAD_END, |p| + 2 + at);
  }

  lemma NoMatchEarly(s: bytes, p: bytes, tail: bytes, j: nat)
    requires s == p + CRLF + tail && '\r' !in p && tail != [] && tail[0] != '\r' && j < |p| + 2
    ensures !MatchAt(s, HEAD_END, j)
  {
    if MatchAt(s, HEAD_END, j) {
      HeadEndBytes(s, j);
      assert false;
    }
  }

  lemma HeadEndBytes(s: bytes, j: nat)
    requires MatchAt(s, HEAD_END, j)
    ensures s[j] == '\r' && s[j + 2] == '\r'
  {
    assert s[j..j + 4] == HEAD_END;
    assert s[j] == s[j..j + 4][0] && s[j + 2] == s[j..j + 4][2];
  }

  lemma MatchShifted(pre: bytes, s: bytes, j: nat)
    ensures MatchAt(pre + s, HEAD_END, |pre| + j) <==> MatchAt(s, HEAD_END, j)
  {
    if j + 4 <= |s| {
      assert (pre + s)[|pre| + j..|pre| + j + 4] == s[j..j + 4];
    }
  }

  lemma DigitsGraphic(n: nat)
    ensures Token(Decimal(n)) && Ascii(Decimal(n))
    ensures Graphic(Decimal(n)[0]) && Graphic(Decimal(n)[|Decimal(n)| - 1])
    ensures '\r' !in Decimal(n) && ' ' !in Decimal(n)
  {
    var s := Decimal(n);
    assert forall i :: 0 <= i < |s| ==> IsDigit(s[i]);
  }

  lemma TokenFacts(s: bytes)
    requires Token(s)
    ensures Ascii(s) && '\r' !in s && ' ' !in s && Graphic(s[0]) && Graphic(s[|s| - 1])
  {
  }

  lemma AsciiConcat(a: bytes, b: bytes)
    requires Ascii(a) && Ascii(b)
    ensures Ascii(a + b)
  {
  }

  lemma {:induction false} AsciiJoin(lines: seq<bytes>)
    requires lines != [] && forall i :: 0 <= i < |lines| ==> Ascii(lines[i])
    ensures Ascii(Join(lines, CRLF))
    decreases |lines|
  {
    if |lines| > 1 {
      AsciiJoin(lines[1..]);
      AsciiConcat(lines[0], CRLF);
      AsciiConcat(lines[0] + CRLF, Join(lines[1..], CRLF));
    }
  }

  /* ---------- the bytes on the wire ---------- */

  function TypeText(): bytes {
    var name: bytes, value: bytes := "\r\ncontent-type: ", "text/plain; charset=utf-8";
    name + value
  }
  function LengthText(): bytes { "\r\ncontent-length: " }
  function KeepText(): bytes { "\r\nconnection: keep-alive\r\n\r\n" }
  function CloseText(): bytes { "\r\nconnection: close\r\n\r\n" }
  function VersionText(): bytes { "HTTP/1.1 " }

  lemma TypeSpelled()
    ensures CRLF + FieldLine(TypeName(), TypeValue()) == TypeText()
  {
    var sep: bytes, name: bytes := ": ", "\r\ncontent-type: ";
    assert CRLF + TypeName() + sep == name;
    hide TypeName;
    assert CRLF + (TypeName() + sep + TypeValue()) == (CRLF + TypeName() + sep) + TypeValue();
  }

  lemma LengthSpelled(n: nat)
    ensures CRLF + FieldLine(LengthName(), Decimal(n)) == LengthText() + Decimal(n)
  {
    var sep: bytes := ": ";
    assert CRLF + LengthName() + sep == LengthText();
    hide LengthName, LengthText, Decimal;
    assert CRLF + (LengthName() + sep + Decimal(n)) == (CRLF + LengthName() + sep) + Decimal(n);
  }

  lemma KeepSpelled()
    ensures CRLF + FieldLine(ConnectionName(), Persistence(true)) + HEAD_END == KeepText()
  {
  }

  lemma CloseSpelled()
    ensures CRLF + FieldLine(ConnectionName(), Persistence(false)) + HEAD_END == CloseText()
  {
  }

  lemma JoinFour(a: bytes, b: bytes, c: bytes, d: bytes)
    ensures Join([a, b, c, d], CRLF) == a + (CRLF + b) + (CRLF + c) + (CRLF + d)
  {
    var all := [a, b, c, d];
    assert all[1..] == [b, c, d] && all[1..][1..] == [c, d] && all[1..][1..][1..] == [d];
    assert Join([c, d], CRLF) == c + CRLF + d by { assert [c, d][1..] == [d]; }
    assert Join([b, c, d], CRLF) == b + CRLF + (c + CRLF + d) by { assert [b, c, d][1..] == [c, d]; }
  }

  /** `build_response`, byte for byte. */
  lemma ResponseFormat(r: Response)
    ensures var space: bytes := " ";
            BuildResponse(r) ==
              VersionText() + Decimal(r.status) + space + r.reason + TypeText() + LengthText() + Decimal(|r.body|)
              + (if r.keepAlive then KeepText() else CloseText()) + if r.writeBody then r.body else []
  {
    var space: bytes, lines := " ", ResponseLines(r);
    TypeSpelled();
    LengthSpelled(|r.body|);
    KeepSpelled();
    CloseSpelled();
    assert Version() + space == VersionText();
    hide TypeText, LengthText, KeepText, CloseText, VersionText, Version, Decimal, FieldLine, Persistence, TypeName,
        TypeValue, LengthName, ConnectionName;
    JoinFour(lines[0], lines[1], lines[2], lines[3]);
    Regrouped(Version(), space, Decimal(r.status), r.reason, CRLF + lines[1], CRLF + lines[2], CRLF, lines[3], HEAD_END,
              if r.writeBody then r.body else []);
    hide Join;
    var end := if r.keepAlive then KeepText() else CloseText();
    assert CRLF + lines[3] + HEAD_END == end;
    var front := VersionText() + Decimal(r.status) + space + r.reason + TypeText();
    Reassociated(front, LengthText(), Decimal(|r.body|), end, if r.writeBody then r.body else []);
  }

  lemma Regrouped(v: bytes, space: bytes, digits: bytes, reason: bytes, a: bytes, b: bytes, crlf: bytes, c: bytes,
                  end: bytes, body: bytes)
    ensures (v + space + (digits + space + reason)) + a + b + (crlf + c) + end + body
         == (v + space) + digits + space + reason + a + b + (crlf + c + end) + body
  {
  }

  lemma Reassociated(a: bytes, b: bytes, c: bytes, d: bytes, e: bytes)
    ensures a + (b + c) + d + e == a + b + c + d + e
  {
  }
}
