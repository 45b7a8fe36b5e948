/** The HTTP/1.1 subset of tcp-actor-server/src/http.rs: parsing a request head and printing a response. */
module Http {
  import opened Options
  import opened Bytes

  const MAX_HEAD_BYTES: nat := 8192

  datatype RequestHead = RequestHead(verb: bytes, path: bytes, keepAlive: bool, contentLength: nat)

  datatype ParseError = Incomplete | Malformed | HeadTooLarge | Unsupported

  datatype ParseResult = Parsed(head: RequestHead, len: nat) | Failed(error: ParseError)

  /* ---------- the words of the protocol ---------- */

  function Version(): bytes { "HTTP/1.1" }
  function TypeName(): bytes { "content-type" }
  function TypeValue(): bytes { "text/plain; charset=utf-8" }
  function LengthName(): bytes { "content-length" }
  function ConnectionName(): bytes { "connection" }
  function Persistence(keepAlive: bool): bytes { if keepAlive then "keep-alive" else "close" }
  function EncodingName(): bytes { "transfer-encoding" }
  function ChunkedValue(): bytes { "chunked" }

  /* ---------- the request head ---------- */

  /** What the header loop carries from line to line. */
  datatype Fields = Fields(keepAlive: bool, contentLength: nat)
  datatype FieldsResult = Ok(fields: Fields) | Err(error: ParseError)

  function FieldName(line: bytes): bytes
    requires Find(line, ":").Some?
  {
    Lower(Trim(line[..Find(line, ":").value]))
  }

  function FieldValue(line: bytes): bytes
    requires Find(line, ":").Some?
  {
    Trim(line[Find(line, ":").value + 1..])
  }

  /** One pass of the header loop. */
  function ApplyLine(line: bytes, f: Fields): FieldsResult {
    if line == [] then Ok(f)
    else if Find(line, ":").None? then Err(Malformed)
    else
      var name, value := FieldName(line), FieldValue(line);
      if name == LengthName() then
        match ParseUsize(value)
        case None => Err(Malformed)
        case Some(n) => Ok(f.(contentLength := n))
      else if name == EncodingName() && Lower(value) == ChunkedValue() then Err(Unsupported)
      else if name == ConnectionName() && Lower(value) == Persistence(false) then Ok(f.(keepAlive := false))
      else if name == ConnectionName() && Lower(value) == Persistence(true) then Ok(f.(keepAlive := true))
      else Ok(f)
  }

  function ApplyLines(lines: seq<bytes>, f: Fields): FieldsResult {
    if lines == [] then Ok(f)
    else
      match ApplyLine(lines[0], f)
      case Err(e) => Err(e)
      case Ok(g) => ApplyLines(lines[1..], g)
  }

  predicate StartsWith(s: bytes, pre: bytes) { |pre| <= |s| && s[..|pre|] == pre }

  /** The request line holds exactly a method, a path and an `HTTP/1.` version, separated by single spaces. */
  predicate RequestLineOk(parts: seq<bytes>) {
    |parts| == 3 && parts[0] != [] && parts[1] != [] && StartsWith(parts[2], "HTTP/1.")
  }

  /** The parse of the bytes before the blank line. */
  function ParseText(text: bytes, len: nat): ParseResult {
    if !ValidUtf8(text) then Failed(Malformed)
    else
      var lines := Split(text, CRLF);
      var parts := Split(lines[0], " ");
      if !RequestLineOk(parts) then Failed(Malformed)
      else
        match ApplyLines(lines[1..], Fields(parts[2] == Version(), 0))
        case Err(e) => Failed(e)
        case Ok(f) => Parsed(RequestHead(parts[0], parts[1], f.keepAlive, f.contentLength), len)
  }

  /** Specification of `parse_head`. */
  function ParseHead(buf: bytes): (r: ParseResult)
    ensures r.Parsed? ==> 4 <= r.len <= |buf| && r.len <= MAX_HEAD_BYTES && r.head.verb != []
    ensures r.Parsed? ==> Find(buf, HEAD_END) == Some(r.len - 4)
    ensures r == Failed(Incomplete) <==> |buf| <= 8192 && Find(buf, HEAD_END).None?
    ensures r == Failed(HeadTooLarge) <==>
              if Find(buf, HEAD_END).Some? then Find(buf, HEAD_END).value + 4 > 8192 else |buf| > 8192
  {
    match Find(buf, HEAD_END)
    case None => if |buf| > MAX_HEAD_BYTES then Failed(HeadTooLarge) else Failed(Incomplete)
    case Some(i) =>
      if i + 4 > MAX_HEAD_BYTES then Failed(HeadTooLarge)
      else
        ApplyLinesFaults(Split(buf[..i], CRLF)[1..]);
        ParseText(buf[..i], i + 4)
  }

  lemma {:induction false} ApplyLinesFaults(lines: seq<bytes>)
    ensures forall f :: ApplyLines(lines, f) != Err(Incomplete) && ApplyLines(lines, f) != Err(HeadTooLarge)
  {
    if lines != [] {
      ApplyLinesFaults(lines[1..]);
    }
  }

  /** The loop of `parse_head`, updating its two locals line by line. */
  method ParseHeadLoop(buf: bytes) returns (r: ParseResult)
    ensures r == ParseHead(buf)
  {
    hide Find, Split, ValidUtf8, ParseUsize, Trim, Lower, FieldName, FieldValue;
    var headEnd;
    match Find(buf, HEAD_END) {
      case Some(i) => headEnd := i + 4;
      case None =>
        return if |buf| > MAX_HEAD_BYTES then Failed(HeadTooLarge) else Failed(Incomplete);
    }
    if headEnd > MAX_HEAD_BYTES {
      return Failed(HeadTooLarge);
    }
    var text := buf[..headEnd - 4];
    if !ValidUtf8(text) {
      return Failed(Malformed);
    }
    var lines := Split(text, CRLF);
    var parts := Split(lines[0], " ");
    if |parts| < 3 || parts[0] == [] || parts[1] == [] {
      return Failed(Malformed);
    }
    if |parts| > 3 || !StartsWith(parts[2], "HTTP/1.") {
      return Failed(Malformed);
    }
    var keepAlive := parts[2] == Version();
    var contentLength: nat := 0;
    var k := 1;
    while k < |lines|
      invariant 1 <= k <= |lines|
      invariant ApplyLines(lines[1..], Fields(parts[2] == Version(), 0))
             == ApplyLines(lines[k..], Fields(keepAlive, contentLength))
    {
      var line := lines[k];
      assert lines[k..][1..] == lines[k + 1..];
      k := k + 1;
      if line == [] {
        continue;
      }
      if Find(line, ":").None? {
        return Failed(Malformed);
      }
      var name, value := FieldName(line), FieldValue(line);
      if name == LengthName() {
        match ParseUsize(value) {
          case Some(n) => contentLength := n;
          case None => return Failed(Malformed);
        }
      } else if name == EncodingName() && Lower(value) == ChunkedValue() {
        return Failed(Unsupported);
      } else if name == ConnectionName() {
        if Lower(value) == Persistence(false) {
          keepAlive := false;
        } else if Lower(value) == Persistence(true) {
          keepAlive := true;
        }
      }
    }
    assert lines[k..] == [];
    r := Parsed(RequestHead(parts[0], parts[1], keepAlive, contentLength), headEnd);
  }

  /* ---------- properties of the parser ---------- */

  /** Once the parser has an answer, no further byte changes it. */
  lemma PrefixStable(buf: bytes, ext: bytes)
    requires ParseHead(buf) != Failed(Incomplete)
    ensures ParseHead(buf + ext) == ParseHead(buf)
  {
    match Find(buf, HEAD_END)
    case Some(i) =>
      FindStable(buf, ext, HEAD_END);
      assert (buf + ext)[..i] == buf[..i];
    case None =>
      FindLate(buf, ext, HEAD_END);
  }

  /** No header line of a complete head is empty: skipping empty lines is dead code. */
  lemma HeaderLinesNonEmpty(buf: bytes, i: nat, k: nat)
    requires Find(buf, HEAD_END) == Some(i)
    requires 1 <= k < |Split(buf[..i], CRLF)|
    ensures Split(buf[..i], CRLF)[k] != []
  {
    var lines := Split(buf[..i], CRLF);
    if lines[k] == [] {
      JoinSplit(buf[..i], CRLF);
      var pre, post := EmptyPart(lines, CRLF, k);
      NoEarlierHeadEnd(buf, i, pre, post);
    }
  }

  /** Up to its own first CRLF, a head end is preceded by no other head end. */
  lemma NoEarlierHeadEnd(buf: bytes, i: nat, pre: bytes, post: bytes)
    requires Find(buf, HEAD_END) == Some(i)
    ensures buf[..i] + CRLF != pre + CRLF + CRLF + post
  {
    var w := pre + HEAD_END + post;
    assert pre + CRLF + CRLF + post == w by { assert CRLF + CRLF == HEAD_END; }
    if buf[..i] + CRLF == w {
      assert buf[i..i + 4] == HEAD_END;
      assert buf[..i + 2] == w by {
        assert buf[i..i + 4][..2] == CRLF;
        assert buf[i..i + 4][..2] == buf[i..i + 2];
        assert buf[..i + 2] == buf[..i] + buf[i..i + 2];
      }
      assert w[|pre|..|pre| + 4] == HEAD_END;
      assert buf[|pre|..|pre| + 4] == buf[..i + 2][|pre|..|pre| + 4];
      assert MatchAt(buf, HEAD_END, |pre|);
      assert false;
    }
  }

  /** An empty part after the first sits between two separators, counting one after the last part. */
  lemma {:induction false} EmptyPart(parts: seq<bytes>, sep: bytes, k: nat) returns (pre: bytes, post: bytes)
    requires 1 <= k < |parts| && parts[k] == []
    ensures Join(parts, sep) + sep == pre + sep + sep + post
    decreases k
  {
    var p, rest := parts[0], parts[1..];
    if k == 1 {
      pre := p;
      post := if |rest| == 1 then [] else Join(rest[1..], sep) + sep;
    } else {
      var a;
      a, post := EmptyPart(rest, sep, k - 1);
      pre := p + sep + a;
      calc {
        Join(parts, sep) + sep;
        p + sep + (Join(rest, sep) + sep);
        p + sep + (a + sep + sep + post);
        pre + sep + sep + post;
      }
    }
  }

  /* The header loop, said without a loop: the first offending line decides the error, the last
     recognised line of each kind decides the value. */

  function LineError(line: bytes): Option<ParseError> {
    if line == [] then None
    else if Find(line, ":").None? then Some(Malformed)
    else if FieldName(line) == "content-length" && ParseUsize(FieldValue(line)).None? then Some(Malformed)
    else if FieldName(line) == "transfer-encoding" && Lower(FieldValue(line)) == "chunked" then Some(Unsupported)
    else None
  }

  predicate IsField(line: bytes, name: bytes) {
    Find(line, ":").Some? && FieldName(line) == name
  }

  function DeclaredLength(line: bytes): Option<nat> {
    if IsField(line, "content-length") then ParseUsize(FieldValue(line)) else None
  }

  function DeclaredKeepAlive(line: bytes): Option<bool> {
    if !IsField(line, "connection") then None
    else if Lower(FieldValue(line)) == "close" then Some(false)
    else if Lower(FieldValue(line)) == "keep-alive" then Some(true)
    else None
  }

  /** `v` is what the last line declaring something declares, or the default when none does. */
  predicate LastDeclared<T(==)>(lines: seq<bytes>, declares: bytes -> Option<T>, default: T, v: T) {
    || (v == default && forall i :: 0 <= i < |lines| ==> declares(lines[i]).None?)
    || exists i :: 0 <= i < |lines| && declares(lines[i]) == Some(v)
                   && forall j :: i < j < |lines| ==> declares(lines[j]).None?
  }

  lemma NamesDiffer()
    ensures |TypeName()| == 12 && |LengthName()| == 14 && |ConnectionName()| == 10 && |EncodingName()| == 17
    ensures |Persistence(true)| == 10 && |Persistence(false)| == 5
  {
  }

  lemma LineMeaning(line: bytes, f: Fields)
    ensures ApplyLine(line, f) ==
            if LineError(line).Some? then Err(LineError(line).value)
            else Ok(Fields(Or(DeclaredKeepAlive(line), f.keepAlive), Or(DeclaredLength(line), f.contentLength)))
  {
    NamesDiffer();
    hide Find, FieldName, FieldValue, Lower, ParseUsize;
  }

  predicate NoError(lines: seq<bytes>) { forall i :: 0 <= i < |lines| ==> LineError(lines[i]).None? }

  /** The loop fails exactly when some line is at fault, with the error of the first such line. */
  lemma {:induction false} FirstErrorWins(lines: seq<bytes>, f: Fields)
    ensures ApplyLines(lines, f).Ok? <==> NoError(lines)
    ensures ApplyLines(lines, f).Err? ==>
              exists i :: 0 <= i < |lines| && LineError(lines[i]) == Some(ApplyLines(lines, f).error)
                          && NoError(lines[..i])
  {
    hide ApplyLine, LineError;
    if lines != [] {
      LineMeaning(lines[0], f);
      var rest := lines[1..];
      if LineError(lines[0]).Some? {
        assert NoError(lines[..0]);
      } else {
        var g := ApplyLine(lines[0], f).fields;
        FirstErrorWins(rest, g);
        assert NoError(lines) <==> NoError(rest) by {
          assert forall i :: 0 <= i < |rest| ==> lines[i + 1] == rest[i];
          assert forall i :: 1 <= i < |lines| ==> lines[i] == rest[i - 1];
        }
        if ApplyLines(rest, g).Err? {
          var i :| 0 <= i < |rest| && LineError(rest[i]) == Some(ApplyLines(rest, g).error) && NoError(rest[..i]);
          assert lines[..i + 1] == [lines[0]] + rest[..i];
          assert NoError(lines[..i + 1]);
          assert LineError(lines[i + 1]) == Some(ApplyLines(lines, f).error);
        }
      }
    }
  }

  /** On success the last recognised line of each kind wins. */
  lemma {:induction false} LastFieldWins(lines: seq<bytes>, f: Fields)
    requires ApplyLines(lines, f).Ok?
    ensures LastDeclared(lines, DeclaredLength, f.contentLength, ApplyLines(lines, f).fields.contentLength)
    ensures LastDeclared(lines, DeclaredKeepAlive, f.keepAlive, ApplyLines(lines, f).fields.keepAlive)
  {
    hide ApplyLine, LineError, DeclaredLength, DeclaredKeepAlive;
    if lines != [] {
      LineMeaning(lines[0], f);
      var g := ApplyLine(lines[0], f).fields;
      LastFieldWins(lines[1..], g);
      var h := ApplyLines(lines[1..], g).fields;
      LastDeclaredCons(lines, DeclaredLength, f.contentLength, g.contentLength, h.contentLength);
      LastDeclaredCons(lines, DeclaredKeepAlive, f.keepAlive, g.keepAlive, h.keepAlive);
    }
  }

  /** What a complete head within the limit means, on every buffer: it parses exactly if it is UTF-8, its request line
      is in order and no header line is at fault; method and path are the first two words, the last recognised line of
      each kind decides, and without one a connection persists exactly under `HTTP/1.1`. Otherwise the first header
      line at fault says why, unless the text or the request line was at fault before. */
  lemma HeadMeaning(buf: bytes, i: nat)
    requires Find(buf, HEAD_END) == Some(i) && i + 4 <= 8192
    ensures var lines := Split(buf[..i], CRLF);
            var parts, fields := Split(lines[0], " "), lines[1..];
            var ok := ValidUtf8(buf[..i]) && |parts| == 3 && parts[0] != [] && parts[1] != []
                && StartsWith(parts[2], "HTTP/1.");
            match ParseHead(buf)
            case Parsed(head, len) =>
              && ok && NoError(fields) && len == i + 4 && head.verb == parts[0] && head.path == parts[1]
              && LastDeclared(fields, DeclaredLength, 0, head.contentLength)
              && LastDeclared(fields, DeclaredKeepAlive, parts[2] == "HTTP/1.1", head.keepAlive)
            case Failed(e) =>
              if !ok then e == Malformed
              else exists j :: 0 <= j < |fields| && LineError(fields[j]) == Some(e) && NoError(fields[..j])
  {
    var lines := Split(buf[..i], CRLF);
    var parts, fields := Split(lines[0], " "), lines[1..];
    hide Find, Split, ValidUtf8, ApplyLines, LineError, DeclaredLength, DeclaredKeepAlive, LastDeclared, StartsWith;
    if RequestLineOk(parts) {
      var f := Fields(parts[2] == Version(), 0);
      FirstErrorWins(fields, f);
      if ApplyLines(fields, f).Ok? {
        LastFieldWins(fields, f);
      }
    }
  }

  lemma LastDeclaredCons<T>(lines: seq<bytes>, declares: bytes -> Option<T>, before: T, after: T, v: T)
    requires lines != [] && LastDeclared(lines[1..], declares, after, v)
    requires after == Or(declares(lines[0]), before)
    ensures LastDeclared(lines, declares, before, v)
  {
    if v == after && forall i :: 0 <= i < |lines[1..]| ==> declares(lines[1..][i]).None? {
      forall i | 1 <= i < |lines| ensures declares(lines[i]).None? {
        assert lines[i] == lines[1..][i - 1];
      }
    } else {
      var i :| 0 <= i < |lines[1..]| && declares(lines[1..][i]) == Some(v)
               && forall j :: i < j < |lines[1..]| ==> declares(lines[1..][j]).None?;
      forall j | i + 1 < j < |lines| ensures declares(lines[j]).None? {
        assert lines[j] == lines[1..][j - 1];
      }
      assert declares(lines[i + 1]) == Some(v);
    }
  }

  /* ---------- responses ---------- */

  datatype Response = Response(status: nat, reason: bytes, body: bytes, keepAlive: bool, writeBody: bool)

  function FieldLine(name: bytes, value: bytes): bytes {
    var sep: bytes := ": ";
    name + sep + value
  }

  function StatusLine(r: Response): bytes {
    var space: bytes := " ";
    Version() + space + (Decimal(r.status) + space + r.reason)
  }

  /** The lines of a response head, without their terminators. */
  function ResponseLines(r: Response): seq<bytes> {
    [StatusLine(r),
     FieldLine(TypeName(), TypeValue()),
     FieldLine(LengthName(), Decimal(|r.body|)),
     FieldLine(ConnectionName(), Persistence(r.keepAlive))]
  }

  /** `build_response`. */
  function BuildResponse(r: Response): bytes {
    Join(ResponseLines(r), CRLF) + HEAD_END + if r.writeBody then r.body else []
  }
}
