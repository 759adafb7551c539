/** What `url.Parse(path).String()` does to the canonical path at the end of
    `CanonicalizePath` (pkg/sanitizer/sanitizer.go:77-82), for a string that
    begins with one `/`: the path component is escaped as section 3.3 of
    RFC 3986 allows (percent-encoding, section 2.1), the query after the first
    `?` is kept verbatim, and the fragment after the first `#` is escaped as
    section 4.1 of RFC 3986 allows; an empty fragment is dropped.

    Escaping works on the UTF-8 bytes of the string. Control characters
    before the fragment, and a `%` not followed by two hex digits in the
    path or the fragment, make the parse fail, with the text of `url.Error`
    and of the cause as `net/url` renders them. */
module UrlPath {

  type Byte = b: int | 0 <= b < 256

  datatype Mode = PathMode | FragmentMode

  datatype Parsed = Url(text: string) | BadUrl(reason: string)

  // ---------------------------------------------------------------------
  // UTF-8

  /** The UTF-8 encoding of one Unicode scalar value. */
  function Utf8Char(c: char): (bs: seq<Byte>)
    ensures 1 <= |bs| <= 4
    ensures c as int < 0x80 ==> bs == [c as int]
    ensures c as int >= 0x80 ==> bs[0] >= 0x80
  {
    var n := c as int;
    if n < 0x80 then [n]
    else if n < 0x800 then [0xC0 + n / 0x40, 0x80 + n % 0x40]
    else if n < 0x10000 then [0xE0 + n / 0x1000, 0x80 + (n / 0x40) % 0x40, 0x80 + n % 0x40]
    else [0xF0 + (n / 0x40000) % 8, 0x80 + (n / 0x1000) % 0x40, 0x80 + (n / 0x40) % 0x40, 0x80 + n % 0x40]
  }

  function Utf8(s: string): (bs: seq<Byte>)
  {
    if s == [] then [] else Utf8Char(s[0]) + Utf8(s[1..])
  }

  /** Every byte of a multi-byte encoding has its high bit set. */
  lemma Utf8CharHighBytes(c: char)
    requires c as int >= 0x80
    ensures forall i :: 0 <= i < |Utf8Char(c)| ==> Utf8Char(c)[i] >= 0x80
  {
  }

  /** An ASCII string encodes as its own character codes. */
  lemma {:induction false} Utf8Ascii(s: string)
    requires forall i :: 0 <= i < |s| ==> s[i] as int < 0x80
    ensures |Utf8(s)| == |s| && forall i :: 0 <= i < |s| ==> Utf8(s)[i] == s[i] as int
  {
    if s != [] {
      Utf8Ascii(s[1..]);
    }
  }

  /** An ASCII byte of the encoding is a character of the string. */
  lemma {:induction false} Utf8AsciiFromString(s: string, b: Byte)
    requires b < 0x80 && b in Utf8(s)
    ensures exists i :: 0 <= i < |s| && s[i] as int == b
  {
    if s != [] {
      if b in Utf8Char(s[0]) {
        if s[0] as int >= 0x80 { Utf8CharHighBytes(s[0]); }
        assert s[0] as int == b;
      } else {
        Utf8AsciiFromString(s[1..], b);
        var i :| 0 <= i < |s[1..]| && s[1..][i] as int == b;
        assert s[i + 1] as int == b;
      }
    }
  }

  // ---------------------------------------------------------------------
  // Character classes of net/url

  predicate IsAlnum(b: int)
  {
    'a' as int <= b <= 'z' as int || 'A' as int <= b <= 'Z' as int || '0' as int <= b <= '9' as int
  }

  predicate IsHex(c: char)
  {
    '0' <= c <= '9' || 'a' <= c <= 'f' || 'A' <= c <= 'F'
  }

  function HexValue(b: int): (v: int)
    ensures 0 <= v < 16
  {
    if '0' as int <= b <= '9' as int then b - '0' as int
    else if 'a' as int <= b <= 'f' as int then b - 'a' as int + 10
    else if 'A' as int <= b <= 'F' as int then b - 'A' as int + 10
    else 0
  }

  /** `-`, `_`, `.` and `~` (section 2.3 of RFC 3986). */
  predicate IsUnreservedMark(b: int)
  {
    b == '-' as int || b == '_' as int || b == '.' as int || b == '~' as int
  }

  /** The reserved characters `shouldEscape` considers (section 2.2 of RFC 3986). */
  predicate IsReservedChar(b: int)
  {
    b == '$' as int || b == '&' as int || b == '+' as int || b == ',' as int || b == '/' as int ||
    b == ':' as int || b == ';' as int || b == '=' as int || b == '?' as int || b == '@' as int
  }

  /** The characters `validEncoded` accepts without asking `shouldEscape`. */
  predicate IsValidAsIs(c: char)
  {
    c == '!' || c == '$' || c == '&' || c == '\'' || c == '(' || c == ')' || c == '*' || c == '+' ||
    c == ',' || c == ';' || c == '=' || c == ':' || c == '@' || c == '[' || c == ']' || c == '%'
  }

  /** `shouldEscape` for the path and the fragment encodings. */
  predicate ShouldEscape(b: Byte, mode: Mode)
  {
    if IsAlnum(b) then false
    else if IsUnreservedMark(b) then false
    else if IsReservedChar(b) then mode == PathMode && b == '?' as int
    else if mode == FragmentMode && (b == '!' as int || b == '(' as int || b == ')' as int || b == '*' as int) then false
    else true
  }

  /** `validEncoded`: every character may stand as it is in the component. */
  predicate ValidEncoded(s: string, mode: Mode)
  {
    forall i :: 0 <= i < |s| ==>
      IsValidAsIs(s[i]) || (s[i] as int < 0x80 && !ShouldEscape(s[i] as int, mode))
  }

  predicate IsControl(c: char)
  {
    c < ' ' || c as int == 0x7F
  }

  predicate HasControl(s: string)
  {
    exists i :: 0 <= i < |s| && IsControl(s[i])
  }

  /** Every `%` of `s` starts a two-hex-digit escape (`unescape` succeeds). */
  predicate EscapesOk(s: string)
  {
    if s == [] then true
    else if s[0] == '%' then |s| >= 3 && IsHex(s[1]) && IsHex(s[2]) && EscapesOk(s[3..])
    else EscapesOk(s[1..])
  }

  lemma {:induction false} EscapesOkWithoutPercent(s: string)
    requires '%' !in s
    ensures EscapesOk(s)
  {
    if s != [] {
      EscapesOkWithoutPercent(s[1..]);
    }
  }

  // ---------------------------------------------------------------------
  // escape and unescape

  function HexDigit(n: int): (c: char)
    requires 0 <= n < 16
    ensures IsHexOut(c)
  {
    if n < 10 then ('0' as int + n) as char else ('A' as int + n - 10) as char
  }

  /** What `escape` writes after a `%`: a digit or an upper-case hex letter. */
  predicate IsHexOut(c: char)
  {
    '0' <= c <= '9' || 'A' <= c <= 'F'
  }

  /** `unescape`: each `%XX` becomes the byte it names; everything else stays. */
  function Unescape(bs: seq<Byte>): seq<Byte>
  {
    if bs == [] then []
    else if bs[0] == '%' as int && |bs| >= 3 then
      [16 * HexValue(bs[1]) + HexValue(bs[2])] + Unescape(bs[3..])
    else [bs[0]] + Unescape(bs[1..])
  }

  /** `escape`: a byte that must be escaped becomes `%` and two upper-case
      hex digits, every other byte stands for itself. */
  function Escape(bs: seq<Byte>, mode: Mode): string
  {
    if bs == [] then ""
    else EscapeByte(bs[0], mode) + Escape(bs[1..], mode)
  }

  function EscapeByte(b: Byte, mode: Mode): (r: string)
    ensures ShouldEscape(b, mode) ==> r == ['%', HexDigit(b / 16), HexDigit(b % 16)]
    ensures !ShouldEscape(b, mode) ==> r == [b as char]
  {
    if ShouldEscape(b, mode) then ['%', HexDigit(b / 16), HexDigit(b % 16)] else [b as char]
  }

  lemma {:induction false} UnescapeWithoutPercent(bs: seq<Byte>)
    requires '%' as int !in bs
    ensures Unescape(bs) == bs
  {
    if bs != [] {
      UnescapeWithoutPercent(bs[1..]);
    }
  }

  /** Escaping leaves no character that was not a byte of its input, except
      `%` and the hex digits it writes. */
  lemma {:induction false} EscapeChars(bs: seq<Byte>, mode: Mode)
    ensures forall c :: c in Escape(bs, mode) && c != '%' && !IsHexOut(c) ==> c as int in bs
  {
    if bs != [] {
      EscapeChars(bs[1..], mode);
      assert Escape(bs, mode) == EscapeByte(bs[0], mode) + Escape(bs[1..], mode);
    }
  }

  /** The escaped form of a path or fragment (`EscapedPath`, `EscapedFragment`):
      the original text when it is validly encoded, otherwise the decoded
      bytes escaped afresh. */
  function Encoded(part: string, mode: Mode): string
  {
    if ValidEncoded(part, mode) then part else Escape(Unescape(Utf8(part)), mode)
  }

  // ---------------------------------------------------------------------
  // Splitting at the first `?` or `#`

  /** The string cut at its first `#`, and the part before that at its
      first `?`; `query` keeps its `?`. */
  datatype Parts = Parts(beforeFragment: string, path: string, query: string, fragment: string)

  /** The text before the first `c`, and the text after it. */
  function Before(s: string, c: char): (r: string)
    ensures c !in r && r <= s
    ensures c !in s ==> r == s
    ensures c in s ==> |r| < |s| && s[|r|] == c
  {
    if s == [] || s[0] == c then [] else [s[0]] + Before(s[1..], c)
  }

  function After(s: string, c: char): (r: string)
    ensures c in s ==> s == Before(s, c) + [c] + r
    ensures c !in s ==> r == ""
  {
    if c in s then s[|Before(s, c)| + 1..] else ""
  }

  function Split(s: string): (p: Parts)
    ensures '#' !in p.path + p.query && '?' !in p.path
    ensures p.query == [] || p.query[0] == '?'
    ensures p.beforeFragment == p.path + p.query
  {
    var u := Before(s, '#');
    var path := Before(u, '?');
    assert path + u[|path|..] == u;
    Parts(u, path, u[|path|..], After(s, '#'))
  }

  /** Cutting at the first `#` loses nothing: the two parts and the `#`
      between them give back the string. */
  lemma SplitParts(s: string)
    ensures s == Split(s).beforeFragment + (if '#' in s then "#" + Split(s).fragment else "")
    ensures '#' !in s ==> Split(s).fragment == ""
  {
    var u, f := Before(s, '#'), After(s, '#');
    assert Split(s).beforeFragment == u && Split(s).fragment == f;
    if '#' in s {
      assert s == u + ['#'] + f;
      assert u + ['#'] + f == u + ("#" + f);
    }
  }

  // ---------------------------------------------------------------------
  // Error texts

  /** The text from the first `%` of `s` that does not start a
      two-hex-digit escape: where `unescape` gives up. */
  function BadEscape(s: string): (r: string)
    requires !EscapesOk(s)
    ensures |r| <= |s| && r == s[|s| - |r|..] && r != [] && r[0] == '%'
    ensures !(|r| >= 3 && IsHex(r[1]) && IsHex(r[2]))
  {
    if s[0] == '%' && !(|s| >= 3 && IsHex(s[1]) && IsHex(s[2])) then s
    else if s[0] == '%' then BadEscape(s[3..])
    else BadEscape(s[1..])
  }

  /** `url.Error.Error()` for the operation "parse": the operation, the
      input as `%q` quotes it, and the cause. */
  function ParseError(u: string, cause: string): string
  {
    "parse " + Quote(u) + ": " + cause
  }

  /** `EscapeError.Error()`: the escape cut to its first three bytes, quoted. */
  function EscapeErrorText(bad: string): string
  {
    "invalid URL escape \"" + QuotePrefix(bad, 3) + "\""
  }

  /** `strconv.Quote`. */
  function Quote(s: string): string
  {
    "\"" + QuoteBody(s) + "\""
  }

  function QuoteBody(s: string): string
  {
    if s == [] then "" else QuoteChar(s[0]) + QuoteBody(s[1..])
  }

  /** `strconv.Quote` of the first `room` bytes of the UTF-8 encoding of
      `s`, without the quotes: whole characters as `QuoteChar` writes them,
      and each byte of a character cut short as an invalid byte, `\xNN`. */
  function QuotePrefix(s: string, room: nat): string
  {
    if s == [] || room == 0 then ""
    else
      var bs := Utf8Char(s[0]);
      if |bs| <= room then QuoteChar(s[0]) + QuotePrefix(s[1..], room - |bs|)
      else HexEscapes(bs[..room])
  }

  function HexEscapes(bs: seq<Byte>): string
  {
    if bs == [] then "" else ['\\', 'x', LowerHex(bs[0] / 16), LowerHex(bs[0] % 16)] + HexEscapes(bs[1..])
  }

  function LowerHex(n: int): char
    requires 0 <= n < 16
  {
    if n < 10 then ('0' as int + n) as char else ('a' as int + n - 10) as char
  }

  /** `strconv.IsPrint` on Latin-1; every character beyond is taken as
      printable. */
  predicate IsPrint(c: char)
  {
    if c as int <= 0xFF then (0x20 <= c as int <= 0x7E) || (0xA1 <= c as int && c as int != 0xAD)
    else true
  }

  /** How `strconv.Quote` writes one character. */
  function QuoteChar(c: char): string
  {
    var n := c as int;
    if c == '"' || c == '\\' then ['\\', c]
    else if IsPrint(c) then [c]
    else if n == 7 then "\\a"
    else if n == 8 then "\\b"
    else if n == 12 then "\\f"
    else if n == 10 then "\\n"
    else if n == 13 then "\\r"
    else if n == 9 then "\\t"
    else if n == 11 then "\\v"
    else if n < 0x20 || n == 0x7F then ['\\', 'x', LowerHex(n / 16), LowerHex(n % 16)]
    else ['\\', 'u', LowerHex(n / 0x1000), LowerHex(n / 0x100 % 16), LowerHex(n / 16 % 16), LowerHex(n % 16)]
  }

  /** Printable ASCII other than `"` and `\\` is quoted as it stands. */
  lemma {:induction false} QuotePlainAscii(s: string)
    requires forall i :: 0 <= i < |s| ==> ' ' <= s[i] <= '~' && s[i] != '"' && s[i] != '\\'
    ensures QuoteBody(s) == s
  {
    if s != [] {
      QuotePlainAscii(s[1..]);
      assert s == [s[0]] + s[1..];
    }
  }

  /** A printable ASCII character other than `"` and `\\` takes one byte
      of the room and is quoted as it stands. */
  lemma QuotePrefixCons(s: string, room: nat)
    requires s != [] && room >= 1 && ' ' <= s[0] <= '~' && s[0] != '"' && s[0] != '\\'
    ensures QuotePrefix(s, room) == [s[0]] + QuotePrefix(s[1..], room - 1)
  {
    assert Utf8Char(s[0]) == [s[0] as int];
    assert QuoteChar(s[0]) == [s[0]];
  }

  /** After a prefix without `%`, `unescape` gives up at the first `%` of
      the rest when that one starts no escape. */
  lemma {:induction false} BadEscapeAfter(a: string, t: string)
    requires '%' !in a && t != [] && t[0] == '%' && !(|t| >= 3 && IsHex(t[1]) && IsHex(t[2]))
    ensures !EscapesOk(a + t) && BadEscape(a + t) == t
  {
    if a == [] {
      assert a + t == t;
    } else {
      assert (a + t)[0] == a[0] && (a + t)[1..] == a[1..] + t;
      BadEscapeAfter(a[1..], t);
    }
  }

  /** The parse of a string that begins with a single `/`. A failing path
      names the text before the fragment, a failing fragment the whole
      string. */
  function Parse(s: string): (r: Parsed)
  {
    var p := Split(s);
    if HasControl(p.beforeFragment) then BadUrl(ParseError(p.beforeFragment, "net/url: invalid control character in URL"))
    else if !EscapesOk(p.path) then BadUrl(ParseError(p.beforeFragment, EscapeErrorText(BadEscape(p.path))))
    else if !EscapesOk(p.fragment) then BadUrl(ParseError(s, EscapeErrorText(BadEscape(p.fragment))))
    else Url(Encoded(p.path, PathMode) + p.query + (if p.fragment == "" then "" else "#" + Encoded(p.fragment, FragmentMode)))
  }

  /** The parse of a string with no fragment, once its parts are known to
      pass the checks. */
  lemma ParseParts(s: string, p: Parts)
    requires Split(s) == p && p.fragment == ""
    requires !HasControl(p.beforeFragment) && EscapesOk(p.path) && EscapesOk("")
    ensures Parse(s) == Url(Encoded(p.path, PathMode) + p.query)
  {
  }

  // ---------------------------------------------------------------------
  // Properties

  /** A string of letters, digits and slashes is returned unchanged. */
  lemma ParsePlain(s: string)
    requires forall i :: 0 <= i < |s| ==> s[i] == '/' || IsAlnum(s[i] as int)
    ensures Parse(s) == Url(s)
  {
    assert '#' !in s && '?' !in s && '%' !in s;
    var p := Split(s);
    assert p.path == s && p.query == "" && p.fragment == "";
    EscapesOkWithoutPercent(s);
    EscapesOkWithoutPercent("");
    assert ValidEncoded(s, PathMode);
  }

  lemma EscapeFirst(bs: seq<Byte>, mode: Mode)
    requires bs != [] && bs[0] == '/' as int
    ensures Escape(bs, mode) != [] && Escape(bs, mode)[0] == '/'
  {
  }

  lemma EncodedKeepsLeadingSlash(part: string, mode: Mode)
    requires part != [] && part[0] == '/'
    ensures Encoded(part, mode) != [] && Encoded(part, mode)[0] == '/'
  {
    if !ValidEncoded(part, mode) {
      var bs := Utf8(part);
      assert part == [part[0]] + part[1..];
      assert bs == [47] + Utf8(part[1..]);
      assert Unescape(bs) == [47] + Unescape(bs[1..]);
      EscapeFirst(Unescape(bs), mode);
    }
  }

  // ---------------------------------------------------------------------
  // Encoding piece by piece

  lemma {:induction false} Utf8Append(a: string, b: string)
    ensures Utf8(a + b) == Utf8(a) + Utf8(b)
  {
    if a != [] {
      assert (a + b)[0] == a[0] && (a + b)[1..] == a[1..] + b;
      Utf8Append(a[1..], b);
    } else {
      assert a + b == b;
    }
  }

  lemma {:induction false} EscapeAppend(a: seq<Byte>, b: seq<Byte>, mode: Mode)
    ensures Escape(a + b, mode) == Escape(a, mode) + Escape(b, mode)
  {
    if a != [] {
      assert (a + b)[0] == a[0] && (a + b)[1..] == a[1..] + b;
      EscapeAppend(a[1..], b, mode);
    } else {
      assert a + b == b;
    }
  }

  /** Decoding splits at any point not inside an escape. */
  lemma {:induction false} UnescapeAppend(a: seq<Byte>, b: seq<Byte>)
    requires '%' as int !in a
    ensures Unescape(a + b) == Unescape(a) + Unescape(b)
  {
    if a != [] {
      assert (a + b)[0] == a[0] && (a + b)[1..] == a[1..] + b;
      UnescapeAppend(a[1..], b);
    } else {
      assert a + b == b;
    }
  }

  /** The escapes of a string are those of what follows its last `%`-free prefix. */
  lemma {:induction false} EscapesOkAppend(a: string, b: string)
    requires '%' !in a
    ensures EscapesOk(a + b) == EscapesOk(b)
  {
    if a != [] {
      assert (a + b)[0] == a[0] && (a + b)[1..] == a[1..] + b;
      EscapesOkAppend(a[1..], b);
    } else {
      assert a + b == b;
    }
  }

  /** Letters, digits and slashes are written back as they are. */
  lemma {:induction false} EscapePlain(s: string, mode: Mode)
    requires forall i :: 0 <= i < |s| ==> s[i] == '/' || IsAlnum(s[i] as int)
    ensures Escape(Utf8(s), mode) == s
  {
    if s != [] {
      var bs := Utf8(s);
      assert bs == [s[0] as int] + Utf8(s[1..]);
      assert bs[0] == s[0] as int && bs[1..] == Utf8(s[1..]);
      EscapePlain(s[1..], mode);
      assert s == [s[0]] + s[1..];
    }
  }

  /** No `%` byte in the encoding of a string without `%`. */
  lemma {:induction false} Utf8WithoutPercent(s: string)
    requires '%' !in s
    ensures '%' as int !in Utf8(s)
  {
    if s != [] {
      Utf8WithoutPercent(s[1..]);
      if s[0] as int >= 0x80 {
        Utf8CharHighBytes(s[0]);
      }
      assert '%' as int !in Utf8Char(s[0]);
    }
  }

  /** The result keeps the leading `/` of its argument. */
  lemma ParseKeepsLeadingSlash(s: string)
    requires s != [] && s[0] == '/'
    requires Parse(s).Url?
    ensures Parse(s).text != [] && Parse(s).text[0] == '/'
  {
    var p := Split(s);
    assert p.beforeFragment != [] && p.beforeFragment[0] == '/';
    assert p.path != [] && p.path[0] == '/';
    EncodedKeepsLeadingSlash(p.path, PathMode);
  }

  /** Without a `%` in the argument, the result holds none of `_`, `.`
      and `-` unless the argument does. */
  lemma ParseAddsNoSpecial(s: string, c: char)
    requires (c == '_' || c == '.' || c == '-') && c !in s && '%' !in s
    requires Parse(s).Url?
    ensures c !in Parse(s).text
  {
    var p := Split(s);
    assert c !in p.path && c !in p.query && c !in p.fragment && '%' !in p.path && '%' !in p.fragment;
    EncodedAddsNoSpecial(p.path, PathMode, c);
    EncodedAddsNoSpecial(p.fragment, FragmentMode, c);
  }

  lemma EncodedAddsNoSpecial(part: string, mode: Mode, c: char)
    requires (c == '_' || c == '.' || c == '-') && c !in part && '%' !in part
    ensures c !in Encoded(part, mode)
  {
    if !ValidEncoded(part, mode) {
      var bs := Utf8(part);
      if '%' as int in bs {
        Utf8AsciiFromString(part, '%' as int);
      }
      UnescapeWithoutPercent(bs);
      EscapeChars(bs, mode);
      if c in Escape(bs, mode) {
        assert c as int in bs;
        Utf8AsciiFromString(part, c as int);
      }
    }
  }
}
