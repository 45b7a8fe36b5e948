/** The share links of pastebin-service/static/app.js: base64url keys and the `#id.key` fragment. */
module ShareLink {
  import opened Options
  import opened Bytes
  import opened CacheAside

  /* ---------- base64 (section 4 of RFC 4648) ---------- */

  /** The letter for a 6-bit value. */
  function Letter(v: nat): (c: byte)
    requires v < 64
    ensures Value(c) == Some(v)
  {
    if v < 26 then 'A' + v as char
    else if v < 52 then 'a' + (v - 26) as char
    else if v < 62 then '0' + (v - 52) as char
    else if v == 62 then '+' else '/'
  }

  function Value(c: byte): (v: Option<nat>)
    ensures v.Some? ==> v.value < 64
  {
    if 'A' <= c <= 'Z' then Some((c - 'A') as nat)
    else if 'a' <= c <= 'z' then Some((c - 'a') as nat + 26)
    else if '0' <= c <= '9' then Some((c - '0') as nat + 52)
    else if c == '+' then Some(62) else if c == '/' then Some(63) else None
  }

  predicate Letters(s: bytes) { forall i :: 0 <= i < |s| ==> Value(s[i]).Some? }

  /* Three bytes as four sextets, and back. */

  function Sextet0(a: byte): (v: nat) ensures v < 64 { a as nat / 4 }
  function Sextet1(a: byte, b: byte): (v: nat) ensures v < 64 { a as nat % 4 * 16 + b as nat / 16 }
  function Sextet2(b: byte, c: byte): (v: nat) ensures v < 64 { b as nat % 16 * 4 + c as nat / 64 }
  function Sextet3(c: byte): (v: nat) ensures v < 64 { c as nat % 64 }

  type sextet = v: nat | v < 64

  function Byte0(v: sextet, w: sextet): byte { (v * 4 + w / 16) as char }
  function Byte1(w: sextet, x: sextet): byte { (w % 16 * 16 + x / 4) as char }
  function Byte2(x: sextet, y: sextet): byte { (x % 4 * 64 + y) as char }

  /** `btoa`: three bytes become four letters; one or two left over are padded. */
  function Btoa(s: bytes): bytes {
    if s == [] then []
    else
      var b, c := if |s| > 1 then s[1] else NUL, if |s| > 2 then s[2] else NUL;
      [Letter(Sextet0(s[0])), Letter(Sextet1(s[0], b)),
       if |s| > 1 then Letter(Sextet2(b, c)) else '=',
       if |s| > 2 then Letter(Sextet3(c)) else '=']
      + if |s| > 3 then Btoa(s[3..]) else []
  }

  const NUL: byte := 0 as char

  /** The bytes that letters stand for; bits that fill no byte are dropped. */
  function DecodeLetters(s: bytes): bytes
    requires Letters(s)
  {
    if |s| < 2 then []
    else
      var v, w := Value(s[0]).value, Value(s[1]).value;
      var x, y := if |s| > 2 then Value(s[2]).value else 0, if |s| > 3 then Value(s[3]).value else 0;
      if |s| == 2 then [Byte0(v, w)] else if |s| == 3 then [Byte0(v, w), Byte1(w, x)]
      else [Byte0(v, w), Byte1(w, x), Byte2(x, y)] + DecodeLetters(s[4..])
  }

  /** At most two padding characters go, if they complete a group of four. */
  function Unpadded(s: bytes): bytes {
    if |s| % 4 != 0 || s == [] || s[|s| - 1] != '=' then s
    else if s[|s| - 2] == '=' then s[..|s| - 2] else s[..|s| - 1]
  }

  /** `atob`; it throws on a character outside the alphabet and on a lone letter at the end. */
  function Atob(s: bytes): Option<bytes> {
    var body := Unpadded(s);
    if !Letters(body) || |body| % 4 == 1 then None else Some(DecodeLetters(body))
  }

  /* ---------- the helpers of the page ---------- */

  /** `bytesToB64`: the argument list is built in slices of 0x8000. */
  method BytesToB64(s: array<byte>) returns (b64: bytes)
    ensures b64 == Btoa(s[..])
  {
    var bin: bytes := [];
    var i := 0;
    while i < s.Length
      invariant i <= s.Length ==> bin == s[..i]
      invariant i > s.Length ==> bin == s[..]
    {
      var end := if i + 0x8000 <= s.Length then i + 0x8000 else s.Length;
      bin := bin + s[i..end];
      i := i + 0x8000;
    }
    assert s[..s.Length] == s[..];
    return Btoa(bin);
  }

  /** `b64ToBytes`. */
  method B64ToBytes(b64: bytes) returns (ok: bool, out: array<byte>)
    ensures ok == Atob(b64).Some? && (ok ==> out[..] == Atob(b64).value)
  {
    var bin := Atob(b64);
    if bin.None? {
      out := new byte[0];
      return false, out;
    }
    var n := |bin.value|;
    out := new byte[n];
    var i := 0;
    while i < n
      invariant i <= n && out.Length == n && out[..i] == bin.value[..i]
    {
      out[i] := bin.value[i];
      i := i + 1;
    }
    assert out[..] == out[..n] && bin.value[..n] == bin.value;
    return true, out;
  }

  function UrlSafe(c: byte): byte { if c == '+' then '-' else if c == '/' then '_' else c }
  function UrlUnsafe(c: byte): byte { if c == '-' then '+' else if c == '_' then '/' else c }

  function Replaced(s: bytes, f: byte -> byte): (r: bytes)
    ensures |r| == |s| && forall i :: 0 <= i < |s| ==> r[i] == f(s[i])
  {
    seq(|s|, i requires 0 <= i < |s| => f(s[i]))
  }

  /** The regular expression `=+$`. */
  function StripPadding(s: bytes): bytes {
    if s != [] && s[|s| - 1] == '=' then StripPadding(s[..|s| - 1]) else s
  }

  function B64UrlEncode(b64: bytes): bytes { StripPadding(Replaced(b64, UrlSafe)) }

  function Padding(n: nat): bytes { seq(n, i requires 0 <= i < n => '=') }

  /** As much padding as fills the last group of four. */
  function Missing(n: nat): nat { (4 - n % 4) % 4 }

  function Padded(s: bytes): bytes { s + Padding(Missing(|s|)) }

  function UrlDecoded(s: bytes): bytes { Padded(Replaced(s, UrlUnsafe)) }

  /** `b64UrlDecode`. */
  method B64UrlDecode(s: bytes) returns (r: bytes)
    ensures r == UrlDecoded(s)
  {
    r := Replaced(s, UrlUnsafe);
    ghost var k := 0;
    while |r| % 4 != 0
      invariant k <= Missing(|s|) && r == Replaced(s, UrlUnsafe) + Padding(k)
      decreases Missing(|s|) - k
    {
      assert |r| == |s| + k && k < Missing(|s|);
      var pad: bytes := "=";
      assert Padding(k + 1) == Padding(k) + pad;
      r := r + pad;
      k := k + 1;
    }
    assert |r| == |s| + k;
  }

  /** What follows the `#` of a share link. */
  function MakeFragment(id: bytes, key: bytes): bytes {
    var dot: bytes := ".";
    id + dot + B64UrlEncode(Btoa(key))
  }

  datatype Shared = Shared(id: bytes, key: bytes)

  /** What `init` makes of a fragment: `None` shows the page for new pastes. */
  function SplitFragment(hash: bytes): Option<Shared> {
    match Find(hash, ".")
    case None => None
    case Some(dot) => if dot > 0 then Some(Shared(hash[..dot], hash[dot + 1..])) else None
  }

  /** The id and the key that the viewer will use. */
  function ReadFragment(hash: bytes): Option<Shared> {
    match SplitFragment(hash)
    case None => None
    case Some(f) =>
      var key := Atob(UrlDecoded(f.key));
      if key.None? then None else Some(Shared(f.id, key.value))
  }

  /* ---------- the round trip ---------- */

  /** The letters of a text, group by group. */
  function Group(s: bytes): (r: bytes)
    requires s != []
    ensures Letters(r) && 2 <= |r| <= 4 && (|s| >= 3 <==> |r| == 4) && (|s| == 1 <==> |r| == 2)
  {
    var b, c := if |s| > 1 then s[1] else NUL, if |s| > 2 then s[2] else NUL;
    [Letter(Sextet0(s[0])), Letter(Sextet1(s[0], b))]
    + (if |s| > 1 then [Letter(Sextet2(b, c))] else [])
    + (if |s| > 2 then [Letter(Sextet3(c))] else [])
  }

  function Encoded(s: bytes): (r: bytes)
    ensures Letters(r)
  {
    if s == [] then [] else Group(s) + if |s| > 3 then Encoded(s[3..]) else []
  }

  /** Bytes cut into sextets and put together again. */
  lemma SextetsBack(a: byte, b: byte, c: byte)
    ensures Byte0(Sextet0(a), Sextet1(a, b)) == a
    ensures Byte1(Sextet1(a, b), Sextet2(b, c)) == b
    ensures Byte2(Sextet2(b, c), Sextet3(c)) == c
  {
  }

  /** Decoding one group gives its bytes back. */
  lemma GroupBack(s: bytes, rest: bytes)
    requires s != [] && Letters(rest) && (|s| < 3 ==> rest == [])
    ensures DecodeLetters(Group(s) + rest) == if |s| >= 3 then s[..3] + DecodeLetters(rest) else s
  {
    SextetsBack(s[0], if |s| > 1 then s[1] else NUL, if |s| > 2 then s[2] else NUL);
    hide Letter, Value, Sextet0, Sextet1, Sextet2, Sextet3, Byte0, Byte1, Byte2;
    var g := Group(s);
    if |s| >= 3 {
      assert (g + rest)[4..] == rest;
      assert s[..3] == [s[0], s[1], s[2]];
    } else {
      assert g + rest == g;
    }
  }

  lemma {:induction false} EncodedBack(s: bytes)
    ensures DecodeLetters(Encoded(s)) == s
    decreases |s|
  {
    hide DecodeLetters, Group;
    if s == [] {
      assert DecodeLetters([]) == [] by { NoLetters(); }
    } else if |s| > 3 {
      EncodedBack(s[3..]);
      GroupBack(s, Encoded(s[3..]));
    } else {
      GroupBack(s, []);
      NoLetters();
      assert Group(s) + [] == Group(s);
    }
  }

  lemma NoLetters()
    ensures DecodeLetters([]) == []
  {
  }

  lemma {:induction false} BtoaIsPadded(s: bytes)
    ensures Btoa(s) == Padded(Encoded(s))
    decreases |s|
  {
    hide Padded, Letters, Group;
    if s == [] {
      NothingPadded();
    } else {
      GroupPadded(s);
      hide Btoa;
      if |s| > 3 {
        BtoaIsPadded(s[3..]);
        PaddedAfter(Group(s), Encoded(s[3..]));
        assert Encoded(s) == Group(s) + Encoded(s[3..]);
      } else {
        PlusNothing(Group(s));
        PlusNothing(Padded(Group(s)));
        assert Encoded(s) == Group(s) + [];
      }
    }
  }

  lemma NothingPadded()
    ensures Padded([]) == []
  {
  }

  lemma PlusNothing(s: bytes)
    ensures s + [] == s
  {
  }

  lemma {:induction false} NoLoneLetter(s: bytes)
    ensures |Encoded(s)| % 4 != 1
    decreases |s|
  {
    hide Group, Letters;
    if |s| > 3 {
      NoLoneLetter(s[3..]);
    }
  }

  /** Whole groups in front take no part in padding. */
  lemma PaddedAfter(g: bytes, rest: bytes)
    requires |g| % 4 == 0
    ensures Padded(g) == g && Padded(g + rest) == g + Padded(rest)
  {
    assert Padding(0) == [];
    assert Missing(|g|) == 0 && Missing(|g + rest|) == Missing(|rest|);
    hide Missing, Padding;
    Reassociate(g, rest, Padding(Missing(|rest|)));
  }

  lemma GroupPadded(s: bytes)
    requires s != []
    ensures Btoa(s) == Padded(Group(s)) + if |s| > 3 then Btoa(s[3..]) else []
  {
    PadGroup(Group(s));
    hide Letter, Padded;
  }

  lemma PadGroup(g: bytes)
    requires 2 <= |g| <= 4
    ensures Padded(g) == [g[0], g[1], if |g| > 2 then g[2] else '=', if |g| > 3 then g[3] else '=']
  {
  }

  lemma {:induction false} StripPadded(s: bytes, n: nat)
    requires s == [] || s[|s| - 1] != '='
    ensures StripPadding(s + Padding(n)) == s
    decreases n
  {
    if n == 0 {
      assert s + Padding(0) == s;
    } else {
      assert (s + Padding(n))[..|s| + n - 1] == s + Padding(n - 1);
      StripPadded(s, n - 1);
    }
  }

  /** The url-safe form of a text is its letters, replaced. */
  lemma UrlEncoded(s: bytes)
    ensures B64UrlEncode(Btoa(s)) == Replaced(Encoded(s), UrlSafe)
  {
    BtoaIsPadded(s);
    var body := Encoded(s);
    hide Encoded, Btoa;
    assert Replaced(Padded(body), UrlSafe) == Replaced(body, UrlSafe) + Padding(Missing(|body|));
    if body != [] {
      assert Value(body[|body| - 1]).Some?;
    }
    StripPadded(Replaced(body, UrlSafe), Missing(|body|));
  }

  /** The alphabet of table 1 of RFC 4648, from end to end: three runs of consecutive characters and two more. */
  lemma LettersInOrder(c: byte, d: byte)
    ensures Value('A') == Some(0) && Value('Z') == Some(25) && Value('a') == Some(26) && Value('z') == Some(51)
    ensures Value('0') == Some(52) && Value('9') == Some(61) && Value('+') == Some(62) && Value('/') == Some(63)
    ensures ('A' <= c && d <= 'Z') || ('a' <= c && d <= 'z') || ('0' <= c && d <= '9') ==>
              c as int + 1 == d as int ==> Value(c).Some? && Value(d) == Some(Value(c).value + 1)
    ensures Value(c).Some? && Value(c) == Value(d) ==> c == d
    ensures Value(c).Some? ==> Letter(Value(c).value) == c
  {
  }

  /** What a link carries of a key needs no escaping: letters, digits, `-` and `_` only, as many as the bits fill. */
  lemma KeyTextIsUrlSafe(key: bytes, i: nat)
    requires i < |B64UrlEncode(Btoa(key))|
    ensures var c := B64UrlEncode(Btoa(key))[i];
            'A' <= c <= 'Z' || 'a' <= c <= 'z' || '0' <= c <= '9' || c == '-' || c == '_'
  {
    UrlEncoded(key);
    var body := Encoded(key);
    hide Encoded, Btoa, B64UrlEncode;
    assert Value(body[i]).Some?;
  }

  lemma {:induction false} KeyTextLength(key: bytes)
    ensures |B64UrlEncode(Btoa(key))| == (|key| * 8 + 5) / 6
  {
    UrlEncoded(key);
    EncodedLength(key);
    hide Encoded, Btoa, B64UrlEncode;
  }

  lemma {:induction false} EncodedLength(s: bytes)
    ensures |Encoded(s)| == (|s| * 8 + 5) / 6
    decreases |s|
  {
    hide Letter;
    if |s| > 3 {
      EncodedLength(s[3..]);
    }
  }

  /** Test vectors of section 10 of RFC 4648, one for each amount of padding. */
  lemma Vectors()
    ensures Btoa([]) == [] && Btoa("f") == "Zg==" && Btoa("fo") == "Zm8=" && Btoa("foo") == "Zm9v"
  {
  }

  /** Undoing the url-safe form gives the padded text back. */
  lemma UrlRoundTrip(s: bytes)
    ensures UrlDecoded(B64UrlEncode(Btoa(s))) == Btoa(s)
  {
    UrlEncoded(s);
    BtoaIsPadded(s);
    var body := Encoded(s);
    hide Encoded, Btoa, B64UrlEncode;
    assert Replaced(Replaced(body, UrlSafe), UrlUnsafe) == body by {
      forall i | 0 <= i < |body| ensures UrlUnsafe(UrlSafe(body[i])) == body[i] {
        assert Value(body[i]).Some?;
      }
    }
  }

  /** `atob` undoes `btoa`. */
  lemma AtobBtoa(s: bytes)
    ensures Atob(Btoa(s)) == Some(s)
  {
    BtoaIsPadded(s);
    NoLoneLetter(s);
    EncodedBack(s);
    var body := Encoded(s);
    UnpadPadded(body);
    hide Encoded, Btoa, Unpadded, DecodeLetters;
  }

  lemma UnpadPadded(body: bytes)
    requires Letters(body) && |body| % 4 != 1
    ensures Unpadded(Padded(body)) == body
  {
    PaddedFills(body);
    if body != [] {
      assert Value(body[|body| - 1]).Some?;
      hide Letters, Value, Missing;
      var n, s := Missing(|body|), Padded(body);
      assert |s| == |body| + n && s[..|body|] == body;
      assert n > 0 ==> s[|s| - 1] == '=';
      assert n > 1 ==> s[|s| - 2] == '=';
    } else {
      assert Padded(body) == [];
    }
  }

  lemma PaddedFills(body: bytes)
    requires |body| % 4 != 1
    ensures Missing(|body|) <= 2 && |Padded(body)| % 4 == 0
  {
  }

  /** The first dot ends the id. */
  lemma SplitsAtFirstDot(id: bytes, text: bytes)
    ensures var dot: bytes := ".";
            var r := SplitFragment(id + dot + text);
            if id != [] && '.' !in id then r == Some(Shared(id, text)) else r.None? || r.value.id != id
  {
    var dot: bytes := ".";
    var hash := id + dot + text;
    if '.' !in id {
      FindAfterClean(id, dot, text);
      hide Find;
      assert hash[..|id|] == id && hash[|id| + 1..] == text;
    } else {
      var k :| 0 <= k < |id| && id[k] == '.';
      assert hash[k..k + 1] == dot;
      assert MatchAt(hash, dot, k);
    }
  }

  /** Share-link round trip: for every key, reading the fragment made for an id gives back id and key exactly when the
      id is not empty and holds no dot. */
  lemma ShareLinkRoundTrip(id: bytes, key: bytes)
    ensures ReadFragment(MakeFragment(id, key)) == Some(Shared(id, key)) <==> id != [] && '.' !in id
  {
    UrlRoundTrip(key);
    AtobBtoa(key);
    SplitsAtFirstDot(id, B64UrlEncode(Btoa(key)));
    hide B64UrlEncode, Btoa, Atob, UrlDecoded, SplitFragment;
  }

  /** Every id the service gives out qualifies. */
  lemma GeneratedIdsRoundTrip(id: bytes, key: bytes)
    requires ValidKey(id)
    ensures ReadFragment(MakeFragment(id, key)) == Some(Shared(id, key))
  {
    ShareLinkRoundTrip(id, key);
  }
}
