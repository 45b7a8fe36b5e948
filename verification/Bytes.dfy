/** Byte strings and the pieces of Rust's `str` and slice API that the services use. */
module Bytes {
  import opened Options

  /** A byte, written as the character with that code so that ASCII literals read naturally. */
  type byte = c: char | c as int < 256
  type bytes = seq<byte>

  const CRLF: bytes := "\r\n"
  const HEAD_END: bytes := "\r\n\r\n"

  /** Largest value of a 64-bit `usize`. */
  const USIZE_MAX: nat := 0xFFFF_FFFF_FFFF_FFFF

  lemma Reassociate(a: bytes, b: bytes, c: bytes)
    ensures a + b + c == a + (b + c)
  {
  }

  /* ---------- searching ---------- */

  predicate MatchAt(s: bytes, pat: bytes, i: int) {
    0 <= i && i + |pat| <= |s| && s[i..i + |pat|] == pat
  }

  /** First index of `pat` in `s`. */
  function Find(s: bytes, pat: bytes): (r: Option<nat>)
    ensures r.Some? ==> pat != [] && MatchAt(s, pat, r.value) && forall j :: 0 <= j < r.value ==> !MatchAt(s, pat, j)
    ensures r.None? && pat != [] ==> forall j :: !MatchAt(s, pat, j)
  {
    if pat == [] || |s| < |pat| then None else FindFrom(s, pat, 0)
  }

  function FindFrom(s: bytes, pat: bytes, i: nat): (r: Option<nat>)
    requires pat != [] && |pat| <= |s| && i <= |s| - |pat| + 1
    ensures r.Some? ==> i <= r.value && MatchAt(s, pat, r.value) && forall j :: i <= j < r.value ==> !MatchAt(s, pat, j)
    ensures r.None? ==> forall j :: i <= j ==> !MatchAt(s, pat, j)
    decreases |s| - i
  {
    if i + |pat| > |s| then None
    else if s[i..i + |pat|] == pat then Some(i)
    else FindFrom(s, pat, i + 1)
  }

  /** `Find` is pinned down by its contract: a match with no earlier match is what it returns. */
  lemma FindIs(s: bytes, pat: bytes, i: nat)
    requires pat != [] && MatchAt(s, pat, i)
    requires forall j :: 0 <= j < i ==> !MatchAt(s, pat, j)
    ensures Find(s, pat) == Some(i)
  {
    assert Find(s, pat).Some?;
  }

  /** Where a match lies does not depend on the bytes after it. */
  lemma MatchAtPrefix(s: bytes, ext: bytes, pat: bytes, i: nat)
    requires i + |pat| <= |s|
    ensures MatchAt(s + ext, pat, i) <==> MatchAt(s, pat, i)
  {
    assert (s + ext)[i..i + |pat|] == s[i..i + |pat|];
  }

  lemma FindStable(s: bytes, ext: bytes, pat: bytes)
    requires Find(s, pat).Some?
    ensures Find(s + ext, pat) == Find(s, pat)
  {
    var i := Find(s, pat).value;
    forall j | 0 <= j <= i ensures MatchAt(s + ext, pat, j) <==> MatchAt(s, pat, j) {
      MatchAtPrefix(s, ext, pat, j);
    }
    FindIs(s + ext, pat, i);
  }

  /** A match that only appears once more bytes arrive must reach into those bytes. */
  lemma FindLate(s: bytes, ext: bytes, pat: bytes)
    requires pat != [] && Find(s, pat).None?
    ensures Find(s + ext, pat).Some? ==> Find(s + ext, pat).value + |pat| > |s|
  {
    var r := Find(s + ext, pat);
    if r.Some? && r.value + |pat| <= |s| {
      MatchAtPrefix(s, ext, pat, r.value);
      assert false;
    }
  }

  /* ---------- splitting and joining ---------- */

  /** `s.split(sep)` collected. */
  function Split(s: bytes, sep: bytes): (parts: seq<bytes>)
    requires sep != []
    ensures |parts| >= 1
    decreases |s|
  {
    match Find(s, sep)
    case None => [s]
    case Some(i) => [s[..i]] + Split(s[i + |sep|..], sep)
  }

  function Join(parts: seq<bytes>, sep: bytes): bytes
    requires |parts| >= 1
  {
    if |parts| == 1 then parts[0] else parts[0] + sep + Join(parts[1..], sep)
  }

  /** Joining undoes splitting. */
  lemma {:induction false} JoinSplit(s: bytes, sep: bytes)
    requires sep != []
    ensures Join(Split(s, sep), sep) == s
    decreases |s|
  {
    match Find(s, sep)
    case None =>
    case Some(i) =>
      JoinSplit(s[i + |sep|..], sep);
      var rest := Split(s[i + |sep|..], sep);
      assert ([s[..i]] + rest)[1..] == rest;
      assert s == s[..i] + s[i..i + |sep|] + s[i + |sep|..];
  }

  /** No element of `parts` contains the first byte of the separator. */
  predicate Clean(parts: seq<bytes>, b: byte) {
    forall i :: 0 <= i < |parts| ==> b !in parts[i]
  }

  /** Splitting undoes joining, when no part contains the separator's first byte. */
  lemma {:induction false} SplitJoin(parts: seq<bytes>, sep: bytes)
    requires |parts| >= 1 && sep != [] && Clean(parts, sep[0])
    ensures Split(Join(parts, sep), sep) == parts
    decreases |parts|
  {
    var s := Join(parts, sep);
    var p := parts[0];
    if |parts| == 1 {
      if Find(s, sep).Some? {
        assert false;
      }
    } else {
      var rest := Join(parts[1..], sep);
      assert s == p + sep + rest;
      FindAfterClean(p, sep, rest);
      assert s[..|p|] == p && s[|p| + |sep|..] == rest;
      SplitJoin(parts[1..], sep);
    }
  }

  lemma FindAfterClean(p: bytes, sep: bytes, rest: bytes)
    requires sep != [] && sep[0] !in p
    ensures Find(p + sep + rest, sep) == Some(|p|)
  {
    var s := p + sep + rest;
    assert s[|p|..|p| + |sep|] == sep;
    forall j | 0 <= j < |p| ensures !MatchAt(s, sep, j) {
      if MatchAt(s, sep, j) {
        assert false;
      }
    }
    FindIs(s, sep, |p|);
  }

  /* ---------- UTF-8 and Unicode whitespace ---------- */

  predicate In(b: byte, lo: int, hi: int) { lo <= b as int <= hi }

  /** Length of the well-formed UTF-8 sequence at the front of `s`, or 0 (Unicode standard, table 3-7). */
  function Utf8Len(s: bytes): (n: nat)
    requires s != []
    ensures n <= |s|
  {
    var c := s[0];
    if In(c, 0, 0x7F) then 1
    else if In(c, 0xC2, 0xDF) && |s| >= 2 && In(s[1], 0x80, 0xBF) then 2
    else if |s| >= 3 && In(s[2], 0x80, 0xBF) &&
            ((In(c, 0xE0, 0xE0) && In(s[1], 0xA0, 0xBF)) || (In(c, 0xE1, 0xEC) && In(s[1], 0x80, 0xBF)) ||
             (In(c, 0xED, 0xED) && In(s[1], 0x80, 0x9F)) || (In(c, 0xEE, 0xEF) && In(s[1], 0x80, 0xBF))) then 3
    else if |s| >= 4 && In(s[2], 0x80, 0xBF) && In(s[3], 0x80, 0xBF) &&
            ((In(c, 0xF0, 0xF0) && In(s[1], 0x90, 0xBF)) || (In(c, 0xF1, 0xF3) && In(s[1], 0x80, 0xBF)) ||
             (In(c, 0xF4, 0xF4) && In(s[1], 0x80, 0x8F))) then 4
    else 0
  }

  predicate ValidUtf8(s: bytes)
    decreases |s|
  {
    s == [] || (Utf8Len(s) > 0 && ValidUtf8(s[Utf8Len(s)..]))
  }

  predicate Ascii(s: bytes) { forall i :: 0 <= i < |s| ==> In(s[i], 0, 0x7F) }

  lemma {:induction false} AsciiIsUtf8(s: bytes)
    requires Ascii(s)
    ensures ValidUtf8(s)
    decreases |s|
  {
    if s != [] {
      AsciiIsUtf8(s[1..]);
    }
  }

  /** `c` is the UTF-8 encoding of one `White_Space` character. */
  predicate IsSpace(c: bytes) {
    match |c|
    case 1 => In(c[0], 0x09, 0x0D) || c[0] == ' '
    case 2 => In(c[0], 0xC2, 0xC2) && (In(c[1], 0x85, 0x85) || In(c[1], 0xA0, 0xA0))
    case 3 =>
      || (In(c[0], 0xE1, 0xE1) && In(c[1], 0x9A, 0x9A) && In(c[2], 0x80, 0x80))
      || (In(c[0], 0xE2, 0xE2) && In(c[1], 0x80, 0x80) &&
          (In(c[2], 0x80, 0x8A) || In(c[2], 0xA8, 0xA9) || In(c[2], 0xAF, 0xAF)))
      || (In(c[0], 0xE2, 0xE2) && In(c[1], 0x81, 0x81) && In(c[2], 0x9F, 0x9F))
      || (In(c[0], 0xE3, 0xE3) && In(c[1], 0x80, 0x80) && In(c[2], 0x80, 0x80))
    case _ => false
  }

  /** Length of the whitespace character at the front of `s`, or 0. */
  function SpaceInFront(s: bytes): (k: nat)
    ensures k <= |s|
  {
    if |s| >= 1 && IsSpace(s[..1]) then 1
    else if |s| >= 2 && IsSpace(s[..2]) then 2
    else if |s| >= 3 && IsSpace(s[..3]) then 3
    else 0
  }

  /** Length of the whitespace character at the end of `s`, or 0. */
  function SpaceBehind(s: bytes): (k: nat)
    ensures k <= |s|
  {
    var n := |s|;
    if n >= 1 && IsSpace(s[n - 1..]) then 1
    else if n >= 2 && IsSpace(s[n - 2..]) then 2
    else if n >= 3 && IsSpace(s[n - 3..]) then 3
    else 0
  }

  function TrimStart(s: bytes): bytes
    decreases |s|
  {
    var k := SpaceInFront(s);
    if k == 0 then s else TrimStart(s[k..])
  }

  function TrimEnd(s: bytes): bytes
    decreases |s|
  {
    var k := SpaceBehind(s);
    if k == 0 then s else TrimEnd(s[..|s| - k])
  }

  function Trim(s: bytes): bytes { TrimEnd(TrimStart(s)) }

  /* ---------- ASCII case and decimal numbers ---------- */

  function LowerByte(b: byte): byte {
    if 'A' <= b <= 'Z' then b - 'A' + 'a' else b
  }

  /** `to_ascii_lowercase`; `eq_ignore_ascii_case` compares these. */
  function Lower(s: bytes): (r: bytes)
    ensures |r| == |s| && forall i :: 0 <= i < |s| ==> r[i] == LowerByte(s[i])
  {
    seq(|s|, i requires 0 <= i < |s| => LowerByte(s[i]))
  }

  predicate IsDigit(b: byte) { '0' <= b <= '9' }

  predicate AllDigits(s: bytes) { forall i :: 0 <= i < |s| ==> IsDigit(s[i]) }

  function DigitsValue(s: bytes): nat
    requires AllDigits(s)
  {
    if s == [] then 0 else 10 * DigitsValue(s[..|s| - 1]) + (s[|s| - 1] - '0') as int
  }

  /** `str::parse::<usize>`: an optional `+`, then one or more digits, in range. */
  function ParseUsize(s: bytes): (r: Option<nat>)
    ensures r.Some? ==> r.value <= USIZE_MAX
  {
    var d := if |s| > 1 && s[0] == '+' then s[1..] else s;
    if d == [] || !AllDigits(d) || DigitsValue(d) > USIZE_MAX then None else Some(DigitsValue(d))
  }

  function Digit(d: nat): (b: byte)
    requires d < 10
    ensures IsDigit(b) && (b - '0') as int == d
  {
    '0' + d as char
  }

  /** Decimal rendering, as `{}` prints an unsigned integer. */
  function Decimal(n: nat): (s: bytes)
    ensures s != [] && AllDigits(s)
  {
    if n < 10 then [Digit(n)] else Decimal(n / 10) + [Digit(n % 10)]
  }

  lemma {:induction false} DecimalValue(n: nat)
    ensures DigitsValue(Decimal(n)) == n
  {
    if n >= 10 {
      DecimalValue(n / 10);
      var s := Decimal(n);
      assert s[..|s| - 1] == Decimal(n / 10);
    }
  }

  /** Printing then parsing a `usize` gives it back. */
  lemma ParseDecimal(n: nat)
    requires n <= USIZE_MAX
    ensures ParseUsize(Decimal(n)) == Some(n)
  {
    DecimalValue(n);
    assert IsDigit(Decimal(n)[0]);
  }
}
