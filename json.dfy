/**
  The JSON text of a list of strings, as Python's `json.dumps` writes it
  with its default options (`ensure_ascii=True`, item separator ", "),
  and the matching part of `json.loads`.

  `json.dumps` escapes `"` and `\` with a backslash, writes the five
  control characters that have a short escape (`\b \f \n \r \t`) that way,
  writes every other character outside the printable ASCII range
  ' '..'~' as `\uXXXX` with lower-case hex digits, and a code point
  above U+FFFF as a UTF-16 surrogate pair of two such escapes.
*/
module Json {
  import opened Common
  import Text

  // ---------------------------------------------------------------------
  // Hex digits
  // ---------------------------------------------------------------------

  const HexDigits: string := "0123456789abcdef"

  /** The value of one hex digit, either case; `None` for any other character. */
  function HexDigitValue(c: char): (r: Option<int>)
    ensures r.Some? ==> 0 <= r.value < 16
  {
    if '0' <= c <= '9' then Some(c as int - '0' as int)
    else if 'a' <= c <= 'f' then Some(c as int - 'a' as int + 10)
    else if 'A' <= c <= 'F' then Some(c as int - 'A' as int + 10)
    else None
  }

  /** `'{0:04x}'.format(v)`: four lower-case hex digits. */
  function Hex4(v: int): (r: string)
    requires 0 <= v < 0x10000
    ensures |r| == 4
  {
    var v1 := v / 16;
    var v2 := v1 / 16;
    [HexDigits[v2 / 16], HexDigits[v2 % 16], HexDigits[v1 % 16], HexDigits[v % 16]]
  }

  /** The value of four hex digits. */
  function ParseHex4(s: string): (r: Option<int>)
    requires |s| == 4
    ensures r.Some? ==> 0 <= r.value < 0x10000
  {
    var a, b, c, d := HexDigitValue(s[0]), HexDigitValue(s[1]), HexDigitValue(s[2]), HexDigitValue(s[3]);
    if a.Some? && b.Some? && c.Some? && d.Some? then
      Some(((a.value * 16 + b.value) * 16 + c.value) * 16 + d.value)
    else None
  }

  lemma HexDigitRoundTrip(d: int)
    requires 0 <= d < 16
    ensures HexDigitValue(HexDigits[d]) == Some(d)
  {
  }

  /** Reading back four written hex digits gives the value written. */
  lemma Hex4RoundTrip(v: int)
    requires 0 <= v < 0x10000
    ensures ParseHex4(Hex4(v)) == Some(v)
  {
    var v1 := v / 16;
    var v2 := v1 / 16;
    var a, b, c, d := v2 / 16, v2 % 16, v1 % 16, v % 16;
    HexDigitRoundTrip(a);
    HexDigitRoundTrip(b);
    HexDigitRoundTrip(c);
    HexDigitRoundTrip(d);
    var h := Hex4(v);
    assert HexDigitValue(h[0]) == Some(a);
    assert HexDigitValue(h[1]) == Some(b);
    assert HexDigitValue(h[2]) == Some(c);
    assert HexDigitValue(h[3]) == Some(d);
    assert v2 == a * 16 + b;
    assert v1 == v2 * 16 + c;
    assert v == v1 * 16 + d;
  }

  // ---------------------------------------------------------------------
  // Writing
  // ---------------------------------------------------------------------

  /** Code points that are surrogates cannot be Dafny characters. */
  predicate IsSurrogate(v: int) {
    0xD800 <= v < 0xE000
  }

  /** The text `json.dumps` writes for one character inside a string. */
  function EscapeChar(c: char): (r: string)
    ensures |r| >= 1
  {
    var n := c as int;
    if c == '"' then "\\\""
    else if c == '\\' then "\\\\"
    else if n == 0x08 then "\\b"
    else if n == 0x0C then "\\f"
    else if c == '\n' then "\\n"
    else if c == '\r' then "\\r"
    else if c == '\t' then "\\t"
    else if ' ' <= c <= '~' then [c]
    else UnicodeEscape(n)
  }

  /** `\uXXXX`, or a surrogate pair of two, for a code point outside printable ASCII. */
  function UnicodeEscape(n: int): (r: string)
    requires 0 <= n < 0x110000
    ensures |r| >= 6 && r[0] == '\\' && r[1] == 'u'
  {
    if n < 0x10000 then "\\u" + Hex4(n)
    else
      var (hi, lo) := SurrogatePair(n);
      "\\u" + Hex4(hi) + "\\u" + Hex4(lo)
  }

  /** The UTF-16 surrogate pair of a code point above U+FFFF. */
  function SurrogatePair(n: int): (r: (int, int))
    requires 0x10000 <= n < 0x110000
    ensures 0xD800 <= r.0 < 0xDC00 && 0xDC00 <= r.1 < 0xE000
    ensures 0x10000 + (r.0 - 0xD800) * 0x400 + (r.1 - 0xDC00) == n
  {
    // 0xd800 | (m >> 10) and 0xdc00 | (m & 0x3ff), written with + / %
    var m := n - 0x10000;
    (0xD800 + m / 0x400, 0xDC00 + m % 0x400)
  }

  function Escape(s: string): string {
    if s == [] then "" else EscapeChar(s[0]) + Escape(s[1..])
  }

  /** A JSON string literal. */
  function Quote(s: string): string {
    "\"" + Escape(s) + "\""
  }

  function QuoteAll(xs: seq<string>): (r: seq<string>)
    ensures |r| == |xs|
  {
    if xs == [] then [] else [Quote(xs[0])] + QuoteAll(xs[1..])
  }

  /** `json.dumps(xs)` for a list of strings. */
  function Dumps(xs: seq<string>): string {
    "[" + Text.Join(", ", QuoteAll(xs)) + "]"
  }

  // ---------------------------------------------------------------------
  // Reading
  // ---------------------------------------------------------------------

  /** The character named by a one-letter escape `\e` other than `\u`. */
  function ShortEscape(e: char): Option<char> {
    if e == '"' then Some('"')
    else if e == '\\' then Some('\\')
    else if e == '/' then Some('/')
    else if e == 'b' then Some(8 as char)
    else if e == 'f' then Some(12 as char)
    else if e == 'n' then Some('\n')
    else if e == 'r' then Some('\r')
    else if e == 't' then Some('\t')
    else None
  }

  /**
    The character of a `\u` escape whose four digits start `s`, and the text
    after it. A high surrogate followed by `\u` and a low surrogate combine
    into one code point, as in Python's decoder; a surrogate left alone is
    refused, since it is not a character.
  */
  function ParseUnicodeEscape(s: string): (r: Option<(char, string)>)
    ensures r.Some? ==> |r.value.1| < |s|
  {
    if |s| < 4 then None
    else
      var v := ParseHex4(s[..4]);
      var rest := s[4..];
      if v.None? then None
      else if 0xD800 <= v.value < 0xDC00 && |rest| >= 6 && rest[0] == '\\' && rest[1] == 'u'
              && ParseHex4(rest[2..6]).Some? && 0xDC00 <= ParseHex4(rest[2..6]).value < 0xE000 then
        var w := ParseHex4(rest[2..6]).value;
        Some(((0x10000 + (v.value - 0xD800) * 0x400 + (w - 0xDC00)) as char, rest[6..]))
      else if IsSurrogate(v.value) then None
      else Some((v.value as char, rest))
  }

  /** One character of a string literal's body (not the closing quote), and the text after it. */
  function ParseChar(s: string): (r: Option<(char, string)>)
    requires |s| > 0
    ensures r.Some? ==> |r.value.1| < |s|
  {
    if s[0] == '\\' then
      if |s| < 2 then None
      else if s[1] == 'u' then ParseUnicodeEscape(s[2..])
      else
        var c := ShortEscape(s[1]);
        if c.None? then None else Some((c.value, s[2..]))
    else if s[0] < ' ' then None  // raw control characters are refused
    else Some((s[0], s[1..]))
  }

  /** The body of a string literal up to its closing quote, and the text after that quote. */
  function ParseStringBody(s: string): (r: Option<(string, string)>)
    ensures r.Some? ==> |r.value.1| < |s|
    decreases |s|
  {
    if s == [] then None
    else if s[0] == '"' then Some(("", s[1..]))
    else
      match ParseChar(s)
      case None => None
      case Some((c, rest)) =>
        match ParseStringBody(rest)
        case None => None
        case Some((body, after)) => Some(([c] + body, after))
  }

  /** The items of a non-empty list, starting at the first item's opening quote, through the closing bracket. */
  function ParseItems(s: string): Option<seq<string>>
    decreases |s|
  {
    if s == [] || s[0] != '"' then None
    else
      match ParseStringBody(s[1..])
      case None => None
      case Some((x, rest)) =>
        if rest == "]" then Some([x])
        else if |rest| >= 2 && rest[0] == ',' && rest[1] == ' ' then
          match ParseItems(rest[2..])
          case None => None
          case Some(ys) => Some([x] + ys)
        else None
  }

  /** `json.loads` for the list-of-strings text `Dumps` writes; `None` stands for a decoding error. */
  function Loads(t: string): Option<seq<string>> {
    if t == "[]" then Some([])
    else if t != [] && t[0] == '[' then ParseItems(t[1..])
    else None
  }

  // ---------------------------------------------------------------------
  // Round trip
  // ---------------------------------------------------------------------

  /** An escape of a code point below U+10000 reads back as that code point. */
  lemma UnicodeEscapeRoundTrip(n: int, rest: string)
    requires 0 <= n < 0x10000 && !IsSurrogate(n)
    ensures ParseUnicodeEscape(Hex4(n) + rest) == Some((n as char, rest))
  {
    var s := Hex4(n) + rest;
    assert s[..4] == Hex4(n) && s[4..] == rest;
    Hex4RoundTrip(n);
  }

  /** The `\u` escape of a high surrogate followed by that of a low one combine as Python's decoder does. */
  lemma CombinePair(hi: int, lo: int, rest: string)
    requires 0xD800 <= hi < 0xDC00 && 0xDC00 <= lo < 0xE000
    ensures ParseUnicodeEscape(Hex4(hi) + "\\u" + Hex4(lo) + rest)
      == Some(((0x10000 + (hi - 0xD800) * 0x400 + (lo - 0xDC00)) as char, rest))
  {
    Hex4RoundTrip(hi);
    Hex4RoundTrip(lo);
    PairEscapeParse(Hex4(hi), Hex4(lo), rest, hi, lo);
  }

  /** Four digits of a high surrogate, `\u`, and four digits of a low one read as one code point. */
  lemma PairEscapeParse(a: string, b: string, rest: string, hi: int, lo: int)
    requires |a| == 4 && |b| == 4
    requires ParseHex4(a) == Some(hi) && 0xD800 <= hi < 0xDC00
    requires ParseHex4(b) == Some(lo) && 0xDC00 <= lo < 0xE000
    ensures ParseUnicodeEscape(a + "\\u" + b + rest)
      == Some(((0x10000 + (hi - 0xD800) * 0x400 + (lo - 0xDC00)) as char, rest))
  {
    var s := a + "\\u" + b + rest;
    assert s[..4] == a;
    var tail := s[4..];
    assert tail == "\\u" + b + rest;
    assert tail[2..6] == b && tail[6..] == rest;
  }

  /** A character written as a two-character escape `\e` reads back. */
  lemma ShortEscapeRoundTrip(c: char, rest: string)
    requires c == '"' || c == '\\' || c as int == 0x08 || c as int == 0x0C || c == '\n' || c == '\r' || c == '\t'
    ensures ParseChar(EscapeChar(c) + rest) == Some((c, rest))
  {
    var s := EscapeChar(c) + rest;
    assert |EscapeChar(c)| == 2 && EscapeChar(c)[0] == '\\';
    assert s[0] == '\\' && s[1] == EscapeChar(c)[1] && s[2..] == rest;
    assert ShortEscape(EscapeChar(c)[1]) == Some(c);
  }

  /** A `\u` at the front of a string body starts a Unicode escape. */
  lemma ParseCharUnicode(t: string)
    ensures ParseChar("\\u" + t) == ParseUnicodeEscape(t)
  {
    assert ("\\u" + t)[2..] == t;
  }

  /** A code point below U+10000 written as one `\u` escape reads back. */
  lemma BmpEscapeRoundTrip(c: char, rest: string)
    requires c as int < 0x10000
    ensures ParseChar(UnicodeEscape(c as int) + rest) == Some((c, rest))
  {
    var n := c as int;
    assert UnicodeEscape(n) + rest == "\\u" + (Hex4(n) + rest);
    ParseCharUnicode(Hex4(n) + rest);
    UnicodeEscapeRoundTrip(n, rest);
  }

  /** The text of a surrogate-pair escape. */
  lemma AstralEscapeText(n: int, rest: string)
    requires 0x10000 <= n < 0x110000
    ensures UnicodeEscape(n) + rest
      == "\\u" + (Hex4(SurrogatePair(n).0) + "\\u" + Hex4(SurrogatePair(n).1) + rest)
  {
    var a, b := Hex4(SurrogatePair(n).0), Hex4(SurrogatePair(n).1);
    assert UnicodeEscape(n) == "\\u" + a + "\\u" + b;
    Assoc("\\u", a + "\\u" + b, rest);
    assert "\\u" + a + "\\u" + b == "\\u" + (a + "\\u" + b);
    assert a + "\\u" + b + rest == (a + "\\u" + b) + rest;
  }

  /** A code point above U+FFFF written as a surrogate pair of `\u` escapes reads back. */
  lemma AstralEscapeRoundTrip(c: char, rest: string)
    requires c as int >= 0x10000
    ensures ParseChar(UnicodeEscape(c as int) + rest) == Some((c, rest))
  {
    var n := c as int;
    var (hi, lo) := SurrogatePair(n);
    AstralEscapeText(n, rest);
    ParseCharUnicode(Hex4(hi) + "\\u" + Hex4(lo) + rest);
    CombinePair(hi, lo, rest);
  }

  /** A code point written with `\u` escapes reads back. */
  lemma UnicodeEscapeCharRoundTrip(c: char, rest: string)
    ensures ParseChar(UnicodeEscape(c as int) + rest) == Some((c, rest))
  {
    if c as int < 0x10000 {
      BmpEscapeRoundTrip(c, rest);
    } else {
      AstralEscapeRoundTrip(c, rest);
    }
  }

  /** What `EscapeChar` writes for `c` reads back as `c`. */
  lemma EscapeCharRoundTrip(c: char, rest: string)
    ensures ParseChar(EscapeChar(c) + rest) == Some((c, rest))
  {
    if c == '"' || c == '\\' || c as int == 0x08 || c as int == 0x0C || c == '\n' || c == '\r' || c == '\t' {
      ShortEscapeRoundTrip(c, rest);
    } else if ' ' <= c <= '~' {
      var s := EscapeChar(c) + rest;
      assert s[0] == c && s[1..] == rest;
    } else {
      assert EscapeChar(c) == UnicodeEscape(c as int);
      UnicodeEscapeCharRoundTrip(c, rest);
    }
  }

  /** Reading a body that does not start with the closing quote: one character, then the rest of the body. */
  lemma ParseStringBodyStep(s: string, c: char, tail: string)
    requires s != [] && s[0] != '"' && ParseChar(s) == Some((c, tail))
    ensures ParseStringBody(s) == match ParseStringBody(tail)
      case None => None
      case Some((body, after)) => Some(([c] + body, after))
  {
  }

  /** An escaped body followed by the closing quote reads back as the original string. */
  lemma {:induction false} StringBodyRoundTrip(x: string, rest: string)
    ensures ParseStringBody(Escape(x) + "\"" + rest) == Some((x, rest))
  {
    if x == [] {
      var s := Escape(x) + "\"" + rest;
      assert s[1..] == rest;
    } else {
      StringBodyRoundTrip(x[1..], rest);
      EscapedCharStep(x[0], Escape(x[1..]) + "\"" + rest, x[1..], rest);
      assert Escape(x) + "\"" + rest == EscapeChar(x[0]) + (Escape(x[1..]) + "\"" + rest);
      assert [x[0]] + x[1..] == x;
    }
  }

  /** An escaped character in front of a body that reads back puts that character in front of it. */
  lemma EscapedCharStep(c: char, tail: string, body: string, after: string)
    requires ParseStringBody(tail) == Some((body, after))
    ensures ParseStringBody(EscapeChar(c) + tail) == Some(([c] + body, after))
  {
    var s := EscapeChar(c) + tail;
    assert s[0] == EscapeChar(c)[0] != '"';
    EscapeCharRoundTrip(c, tail);
    ParseStringBodyStep(s, c, tail);
  }

  /** A quoted item followed by `]` reads back as a one-item list. */
  lemma ParseLastItem(x: string)
    ensures ParseItems(Quote(x) + "]") == Some([x])
  {
    var s := Quote(x) + "]";
    assert s[1..] == Escape(x) + "\"" + "]";
    StringBodyRoundTrip(x, "]");
    ParseItemsFront(s, x, "]");
  }

  /** A quoted item followed by the separator reads back in front of the items after it. */
  lemma ParseItemThenMore(x: string, more: string)
    ensures ParseItems(Quote(x) + ", " + more) ==
      match ParseItems(more)
      case None => None
      case Some(ys) => Some([x] + ys)
  {
    var tail := ", " + more;
    var s := Quote(x) + tail;
    assert Quote(x) + ", " + more == s;
    assert s[1..] == Escape(x) + "\"" + tail;
    StringBodyRoundTrip(x, tail);
    ParseItemsFront(s, x, tail);
    assert tail[2..] == more;
    assert tail != "]";
  }

  /** Reading items once the first one's body is read: the closing bracket, or the separator and more items. */
  lemma ParseItemsFront(s: string, x: string, rest: string)
    requires s != [] && s[0] == '"' && ParseStringBody(s[1..]) == Some((x, rest))
    ensures ParseItems(s) ==
      if rest == "]" then Some([x])
      else if |rest| >= 2 && rest[0] == ',' && rest[1] == ' ' then
        match ParseItems(rest[2..])
        case None => None
        case Some(ys) => Some([x] + ys)
      else None
  {
  }

  /** A non-empty run of quoted items followed by `]` reads back as the items. */
  lemma {:induction false} ItemsRoundTrip(xs: seq<string>)
    requires |xs| >= 1
    ensures ParseItems(Text.Join(", ", QuoteAll(xs)) + "]") == Some(xs)
  {
    var qs := QuoteAll(xs);
    assert qs[0] == Quote(xs[0]);
    if |xs| == 1 {
      assert Text.Join(", ", qs) == Quote(xs[0]);
      ParseLastItem(xs[0]);
      assert xs == [xs[0]];
    } else {
      var more := Text.Join(", ", QuoteAll(xs[1..])) + "]";
      JoinQuotedStep(xs);
      ParseItemThenMore(xs[0], more);
      ItemsRoundTrip(xs[1..]);
      assert [xs[0]] + xs[1..] == xs;
    }
  }

  /** Two or more quoted items: the first, the separator, then the others. */
  lemma JoinQuotedStep(xs: seq<string>)
    requires |xs| >= 2
    ensures Text.Join(", ", QuoteAll(xs)) + "]" == Quote(xs[0]) + ", " + (Text.Join(", ", QuoteAll(xs[1..])) + "]")
  {
    var qs := QuoteAll(xs);
    assert qs[0] == Quote(xs[0]);
    assert qs[1..] == QuoteAll(xs[1..]);
  }

  /** `json.loads(json.dumps(xs)) == xs` for every list of strings, order kept. */
  lemma LoadsDumps(xs: seq<string>)
    ensures Loads(Dumps(xs)) == Some(xs)
  {
    var t := Dumps(xs);
    if xs != [] {
      ItemsRoundTrip(xs);
      assert t[1..] == Text.Join(", ", QuoteAll(xs)) + "]";
      assert |Quote(xs[0])| >= 2;
      assert Text.Join(", ", QuoteAll(xs))[0] == '"';
      assert t != "[]";
    }
  }
}
