/** What the text functions of `Bytes` mean: UTF-8, white space and letter case against the standards. */
module Text {
  import opened Options
  import opened Bytes

  /* ---------- UTF-8 (section 3 of RFC 3629) ---------- */

  /** A Unicode scalar value: a code point that is not a surrogate. */
  predicate Scalar(cp: nat) { cp < 0xD800 || 0xE000 <= cp <= 0x10FFFF }

  function Trail(v: nat): byte { (0x80 + v % 64) as char }

  function Utf8(cp: nat): (s: bytes)
    requires Scalar(cp)
    ensures s != []
  {
    if cp < 0x80 then [cp as char]
    else if cp < 0x800 then [(0xC0 + cp / 64) as char, Trail(cp)]
    else if cp < 0x1_0000 then [(0xE0 + cp / 64 / 64) as char, Trail(cp / 64), Trail(cp)]
    else [(0xF0 + cp / 64 / 64 / 64) as char, Trail(cp / 64 / 64), Trail(cp / 64), Trail(cp)]
  }

  function Encoded(cps: seq<nat>): bytes
    requires forall i :: 0 <= i < |cps| ==> Scalar(cps[i])
  {
    if cps == [] then [] else Utf8(cps[0]) + Encoded(cps[1..])
  }

  lemma FrontIsUtf8(cp: nat, rest: bytes)
    requires Scalar(cp)
    ensures Utf8Len(Utf8(cp) + rest) == |Utf8(cp)|
  {
  }

  /** Six more bits. */
  function Push(v: nat, c: byte): (w: nat)
    requires In(c, 0x80, 0xBF)
    ensures w / 64 == v && Trail(w) == c && 64 * v <= w < 64 * v + 64
  {
    v * 64 + (c as nat - 0x80)
  }

  /** The scalar value that a well-formed sequence stands for. */
  function Decoded(s: bytes): (cp: nat)
    requires s != [] && Utf8Len(s) > 0
  {
    var c := s[0] as nat;
    match Utf8Len(s)
    case 1 => c
    case 2 => Push(c - 0xC0, s[1])
    case 3 => Push(Push(c - 0xE0, s[1]), s[2])
    case _ => Push(Push(Push(c - 0xF0, s[1]), s[2]), s[3])
  }

  lemma DecodedBack(s: bytes)
    requires s != [] && Utf8Len(s) > 0
    ensures Scalar(Decoded(s)) && Utf8(Decoded(s)) == s[..Utf8Len(s)]
  {
    hide Push, Trail;
    match Utf8Len(s)
    case 1 =>
    case 2 =>
    case 3 => Decoded3(s);
    case _ => Decoded4(s);
  }

  lemma Decoded3(s: bytes)
    requires s != [] && Utf8Len(s) == 3
    ensures Scalar(Decoded(s)) && Utf8(Decoded(s)) == s[..3]
  {
    var cp := Decoded(s);
    var high := Push(s[0] as nat - 0xE0, s[1]);
    assert high == (s[0] as nat - 0xE0) * 64 + (s[1] as nat - 0x80) && 0x20 <= high < 0x400;
    assert high < 0x360 || 0x380 <= high;
    assert cp == Push(high, s[2]);
    hide Push, Trail;
    assert 0x800 <= cp < 0x1_0000 && Scalar(cp);
    assert Utf8(cp) == [s[0], s[1], s[2]];
  }

  lemma Decoded4(s: bytes)
    requires s != [] && Utf8Len(s) == 4
    ensures Scalar(Decoded(s)) && Utf8(Decoded(s)) == s[..4]
  {
    var cp := Decoded(s);
    var top := Push(s[0] as nat - 0xF0, s[1]);
    assert top == (s[0] as nat - 0xF0) * 64 + (s[1] as nat - 0x80) && 0x10 <= top < 0x110;
    var high := Push(top, s[2]);
    assert cp == Push(high, s[3]);
    hide Push, Trail;
    assert 0x1_0000 <= cp <= 0x10FFFF;
    assert Utf8(cp) == [s[0], s[1], s[2], s[3]];
  }

  predicate Scalars(cps: seq<nat>) { forall i :: 0 <= i < |cps| ==> Scalar(cps[i]) }

  lemma {:induction false} EncodedIsValid(cps: seq<nat>)
    requires Scalars(cps)
    ensures ValidUtf8(Encoded(cps))
    decreases |cps|
  {
    hide Utf8, Utf8Len;
    if cps != [] {
      var rest := Encoded(cps[1..]);
      FrontIsUtf8(cps[0], rest);
      assert (Utf8(cps[0]) + rest)[|Utf8(cps[0])|..] == rest;
      EncodedIsValid(cps[1..]);
    }
  }

  lemma {:induction false} ValidIsEncoded(s: bytes) returns (cps: seq<nat>)
    requires ValidUtf8(s)
    ensures Scalars(cps) && Encoded(cps) == s
    decreases |s|
  {
    hide Utf8, Utf8Len, Decoded;
    cps := [];
    if s != [] {
      var n := Utf8Len(s);
      var more := ValidIsEncoded(s[n..]);
      DecodedBack(s);
      cps := [Decoded(s)] + more;
      assert cps[1..] == more;
      assert s == s[..n] + s[n..];
    }
  }

  /** The check accepts exactly the encodings of sequences of scalar values. */
  lemma ValidMeans(s: bytes)
    ensures ValidUtf8(s) <==> exists cps :: Scalars(cps) && Encoded(cps) == s
  {
    if ValidUtf8(s) {
      var cps := ValidIsEncoded(s);
    }
    forall cps | Scalars(cps) && Encoded(cps) == s {
      EncodedIsValid(cps);
    }
  }

  /* ---------- white space ---------- */

  /** The characters with the Unicode property `White_Space`. */
  predicate WhiteSpace(cp: nat) {
    || 0x09 <= cp <= 0x0D || cp == 0x20 || cp == 0x85 || cp == 0xA0 || cp == 0x1680 || 0x2000 <= cp <= 0x200A
    || cp == 0x2028 || cp == 0x2029 || cp == 0x202F || cp == 0x205F || cp == 0x3000
  }

  lemma SpaceMeans(cp: nat)
    requires Scalar(cp)
    ensures IsSpace(Utf8(cp)) <==> WhiteSpace(cp)
  {
  }

  /** White space, character by character. */
  ghost predicate Blank(s: bytes)
    decreases |s|
  {
    s == [] || exists k :: 1 <= k <= |s| && IsSpace(s[..k]) && Blank(s[k..])
  }

  lemma {:induction false} TrimStartMeans(s: bytes) returns (pre: bytes)
    ensures s == pre + TrimStart(s) && Blank(pre) && SpaceInFront(TrimStart(s)) == 0
    decreases |s|
  {
    hide IsSpace;
    var k := SpaceInFront(s);
    pre := [];
    if k > 0 {
      var more := TrimStartMeans(s[k..]);
      pre := s[..k] + more;
      assert pre[..k] == s[..k] && pre[k..] == more;
    }
  }

  lemma {:induction false} BlankConcat(a: bytes, b: bytes)
    requires Blank(a) && Blank(b)
    ensures Blank(a + b)
    decreases |a|
  {
    hide IsSpace;
    if a == [] {
      assert a + b == b;
    } else {
      var k :| 1 <= k <= |a| && IsSpace(a[..k]) && Blank(a[k..]);
      BlankConcat(a[k..], b);
      assert (a + b)[..k] == a[..k] && (a + b)[k..] == a[k..] + b;
    }
  }

  lemma LastIsSpace(s: bytes)
    requires SpaceBehind(s) > 0
    ensures Blank(s[|s| - SpaceBehind(s)..])
  {
    hide IsSpace;
    var last, k := s[|s| - SpaceBehind(s)..], SpaceBehind(s);
    assert last[..k] == last && last[k..] == [] && Blank([]);
  }

  lemma {:induction false} TrimEndMeans(s: bytes) returns (post: bytes)
    ensures s == TrimEnd(s) + post && Blank(post) && SpaceBehind(TrimEnd(s)) == 0
    decreases |s|
  {
    hide IsSpace;
    var k := SpaceBehind(s);
    post := [];
    if k > 0 {
      var n := |s| - k;
      LastIsSpace(s);
      hide SpaceBehind, Blank;
      var more := TrimEndMeans(s[..n]);
      post := more + s[n..];
      BlankConcat(more, s[n..]);
      assert s == s[..n] + s[n..];
    }
  }

  /** Trimming takes white space from both ends, and all of it. */
  lemma TrimMeans(s: bytes)
    ensures exists pre, post :: s == pre + Trim(s) + post && Blank(pre) && Blank(post)
    ensures SpaceInFront(Trim(s)) == 0 && SpaceBehind(Trim(s)) == 0
  {
    var pre := TrimStartMeans(s);
    var post := TrimEndMeans(TrimStart(s));
    hide IsSpace, Blank;
    assert s == pre + Trim(s) + post;
    FrontStays(Trim(s), post);
  }

  lemma FrontStays(s: bytes, post: bytes)
    requires SpaceInFront(s + post) == 0
    ensures SpaceInFront(s) == 0
  {
    hide IsSpace;
    forall k | 1 <= k <= |s| ensures (s + post)[..k] == s[..k] {
    }
  }

  /* ---------- letter case ---------- */

  /** Two texts that differ in the case of ASCII letters alone. */
  predicate SameButForCase(a: bytes, b: bytes) {
    |a| == |b| && forall i :: 0 <= i < |a| ==>
      || a[i] == b[i]
      || ('A' <= a[i] <= 'Z' && b[i] as int == a[i] as int + 32)
      || ('a' <= a[i] <= 'z' && b[i] as int + 32 == a[i] as int)
  }

  /** `eq_ignore_ascii_case`. */
  lemma LowerMeans(a: bytes, b: bytes)
    ensures Lower(a) == Lower(b) <==> SameButForCase(a, b)
    ensures forall i :: 0 <= i < |a| ==> !('A' <= Lower(a)[i] <= 'Z')
  {
    if Lower(a) == Lower(b) {
      forall i | 0 <= i < |a| ensures LowerByte(a[i]) == LowerByte(b[i]) {
        assert Lower(a)[i] == Lower(b)[i];
      }
    }
  }

  /** Values of numbers: what `str::parse::<usize>` makes of digits, with or without a sign, and of nothing else. */
  lemma NumberMeans(s: bytes)
    ensures var digits := if |s| > 1 && s[0] == '+' then s[1..] else s;
            ParseUsize(s).Some? <==> digits != [] && (forall i :: 0 <= i < |digits| ==> '0' <= digits[i] <= '9')
                                     && DigitsValue(digits) <= 18446744073709551615
  {
  }
}
