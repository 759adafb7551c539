/** Canonical forms of paths and URLs, and the rewriting of a pair's
    metadata before it is stored (pkg/sanitizer/sanitizer.go).

    The Go functions that overwrite a `*PathUrlPair` in place are modelled
    as functions from the old record to the new one. */
module Sanitizer {
  import opened Errors
  import opened Pairs
  import UrlPath

  // ---------------------------------------------------------------------
  // strings.Trim with a one-character cut set

  function TrimLeft(s: string, c: char): (r: string)
    ensures |r| <= |s| && r == s[|s| - |r|..]
    ensures r == [] || r[0] != c
  {
    if |s| > 0 && s[0] == c then TrimLeft(s[1..], c) else s
  }

  function TrimRight(s: string, c: char): (r: string)
    ensures |r| <= |s| && r == s[..|r|]
    ensures r == [] || r[|r| - 1] != c
  {
    if |s| > 0 && s[|s| - 1] == c then TrimRight(s[..|s| - 1], c) else s
  }

  /** What `TrimLeft` cuts off is all `c`. */
  lemma {:induction false} TrimLeftCutsPadding(s: string, c: char)
    ensures AllOf(s[..|s| - |TrimLeft(s, c)|], c)
  {
    if |s| > 0 && s[0] == c {
      TrimLeftCutsPadding(s[1..], c);
      assert s[..|s| - |TrimLeft(s, c)|] == [c] + s[1..][..|s| - 1 - |TrimLeft(s[1..], c)|];
    }
  }

  /** What `TrimRight` cuts off is all `c`. */
  lemma {:induction false} TrimRightCutsPadding(s: string, c: char)
    ensures AllOf(s[|TrimRight(s, c)|..], c)
  {
    if |s| > 0 && s[|s| - 1] == c {
      var t := s[..|s| - 1];
      TrimRightCutsPadding(t, c);
      assert s[|TrimRight(s, c)|..] == t[|TrimRight(t, c)|..] + [c];
    }
  }

  /** `strings.Trim(s, string(c))`: the longest infix of `s` that neither
      starts nor ends with `c`, everything around it being `c`. */
  function Trim(s: string, c: char): (r: string)
    ensures |r| <= |s|
    ensures r == [] || (r[0] != c && r[|r| - 1] != c)
  {
    TrimRight(TrimLeft(s, c), c)
  }

  predicate AllOf(s: string, c: char)
  {
    forall i :: 0 <= i < |s| ==> s[i] == c
  }

  lemma {:induction false} TrimLeftOfPadding(a: string, r: string, c: char)
    requires AllOf(a, c) && (r == [] || r[0] != c)
    ensures TrimLeft(a + r, c) == r
  {
    if a != [] {
      assert (a + r)[1..] == a[1..] + r;
      TrimLeftOfPadding(a[1..], r, c);
    }
  }

  lemma {:induction false} TrimRightOfPadding(r: string, b: string, c: char)
    requires AllOf(b, c) && (r == [] || r[|r| - 1] != c)
    ensures TrimRight(r + b, c) == r
  {
    if b != [] {
      assert (r + b)[..|r + b| - 1] == r + b[..|b| - 1];
      TrimRightOfPadding(r, b[..|b| - 1], c);
    }
  }

  /** Trim characterised independently of how it is computed: cutting any
      padding made only of `c` off a core that neither starts nor ends with
      `c` gives back that core. */
  lemma TrimCharacterization(a: string, r: string, b: string, c: char)
    requires AllOf(a, c) && AllOf(b, c)
    requires r == [] || (r[0] != c && r[|r| - 1] != c)
    ensures Trim(a + r + b, c) == r
  {
    if r == [] {
      assert a + r + b == a + b;
      TrimLeftOfPadding(a + b, [], c);
      assert a + b + [] == a + b;
    } else {
      assert a + r + b == a + (r + b);
      TrimLeftOfPadding(a, r + b, c);
      TrimRightOfPadding(r, b, c);
    }
  }

  // ---------------------------------------------------------------------
  // The two regular-expression rewrites

  predicate IsSpecial(c: char)
  {
    c == '_' || c == '.' || c == '-'
  }

  /** `regexp.MustCompile("[_.-]").ReplaceAllString(s, "")`. */
  function RemoveSpecial(s: string): (r: string)
    ensures |r| <= |s|
  {
    if s == [] then ""
    else if IsSpecial(s[0]) then RemoveSpecial(s[1..])
    else [s[0]] + RemoveSpecial(s[1..])
  }

  /** Exactly the characters of `s` other than `_`, `.` and `-` remain. */
  lemma {:induction false} RemoveSpecialChars(s: string)
    ensures forall c :: c in RemoveSpecial(s) <==> c in s && !IsSpecial(c)
  {
    if s != [] {
      RemoveSpecialChars(s[1..]);
      assert forall c :: c in s <==> c == s[0] || c in s[1..];
    }
  }

  lemma {:induction false} RemoveSpecialIdentity(s: string)
    requires forall i :: 0 <= i < |s| ==> !IsSpecial(s[i])
    ensures RemoveSpecial(s) == s
  {
    if s != [] {
      RemoveSpecialIdentity(s[1..]);
    }
  }

  predicate NoDoubleSlash(s: string)
  {
    forall i :: 0 <= i < |s| - 1 ==> !(s[i] == '/' && s[i + 1] == '/')
  }

  /** `regexp.MustCompile("/+").ReplaceAllString(s, "/")`: every run of
      slashes becomes one slash. */
  function CollapseSlashes(s: string): (r: string)
    ensures |r| <= |s|
    ensures s != [] ==> r != [] && r[0] == s[0] && r[|r| - 1] == s[|s| - 1]
  {
    if |s| < 2 then s
    else if s[0] == '/' && s[1] == '/' then CollapseSlashes(s[1..])
    else [s[0]] + CollapseSlashes(s[1..])
  }

  /** The result has no two slashes in a row. */
  lemma {:induction false} CollapseNoDoubleSlash(s: string)
    ensures NoDoubleSlash(CollapseSlashes(s))
  {
    if |s| >= 2 {
      CollapseNoDoubleSlash(s[1..]);
      if !(s[0] == '/' && s[1] == '/') {
        var t := CollapseSlashes(s[1..]);
        var r := [s[0]] + t;
        assert r == CollapseSlashes(s);
        forall i | 0 <= i < |r| - 1 ensures !(r[i] == '/' && r[i + 1] == '/') {
          if i > 0 { assert r[i] == t[i - 1] && r[i + 1] == t[i]; }
        }
      }
    }
  }

  /** The result has the same characters. */
  lemma {:induction false} CollapseSameChars(s: string)
    ensures forall c :: c in CollapseSlashes(s) <==> c in s
  {
    if |s| >= 2 {
      CollapseSameChars(s[1..]);
      assert forall c :: c in s <==> c == s[0] || c in s[1..];
    }
  }

  /** Collapsing keeps a string of letters, digits and slashes so. */
  lemma {:induction false} CollapseKeepsPlain(s: string)
    requires AllPlain(s)
    ensures AllPlain(CollapseSlashes(s))
  {
    if |s| >= 2 {
      CollapseKeepsPlain(s[1..]);
      if !(s[0] == '/' && s[1] == '/') {
        var t := CollapseSlashes(s[1..]);
        assert CollapseSlashes(s) == [s[0]] + t;
        assert forall i :: 0 < i < |t| + 1 ==> ([s[0]] + t)[i] == t[i - 1];
      }
    }
  }

  lemma {:induction false} CollapseIdentity(s: string)
    requires NoDoubleSlash(s)
    ensures CollapseSlashes(s) == s
  {
    if |s| >= 2 {
      CollapseIdentity(s[1..]);
    }
  }

  // ---------------------------------------------------------------------
  // Path segments: the slash-separated non-empty pieces of a path

  /** The non-empty segments of `s`, `cur` being the segment read so far. */
  function SegmentsFrom(s: string, cur: string): seq<string>
  {
    if s == [] then (if cur == [] then [] else [cur])
    else if s[0] == '/' then (if cur == [] then [] else [cur]) + SegmentsFrom(s[1..], [])
    else SegmentsFrom(s[1..], cur + [s[0]])
  }

  function Segments(s: string): seq<string>
  {
    SegmentsFrom(s, [])
  }

  lemma {:induction false} SegmentsOfCollapse(s: string, cur: string)
    ensures SegmentsFrom(CollapseSlashes(s), cur) == SegmentsFrom(s, cur)
  {
    if |s| >= 2 {
      SegmentsOfCollapse(s[1..], if s[0] == '/' then [] else cur + [s[0]]);
      if s[0] == '/' && s[1] == '/' {
        SegmentsOfCollapse(s[1..], cur);
        assert SegmentsFrom(s[1..], cur) == (if cur == [] then [] else [cur]) + SegmentsFrom(s[2..], []);
        assert s[1..][1..] == s[2..];
      } else {
        var t := CollapseSlashes(s[1..]);
        assert ([s[0]] + t)[1..] == t;
      }
    }
  }

  lemma {:induction false} SegmentsOfLeadingSlashes(a: string, s: string)
    requires AllOf(a, '/')
    ensures SegmentsFrom(a + s, []) == SegmentsFrom(s, [])
  {
    if a == [] {
      assert a + s == s;
    } else {
      assert (a + s)[0] == '/';
      assert (a + s)[1..] == a[1..] + s;
      SegmentsOfLeadingSlashes(a[1..], s);
    }
  }

  lemma {:induction false} SegmentsOfTrailingSlashes(s: string, b: string, cur: string)
    requires AllOf(b, '/')
    ensures SegmentsFrom(s + b, cur) == SegmentsFrom(s, cur)
  {
    if s == [] {
      assert s + b == b;
      TrailingSlashesOnly(b, cur);
    } else {
      assert (s + b)[1..] == s[1..] + b;
      SegmentsOfTrailingSlashes(s[1..], b, if s[0] == '/' then [] else cur + [s[0]]);
    }
  }

  lemma TrailingSlashesOnly(b: string, cur: string)
    requires AllOf(b, '/')
    ensures SegmentsFrom(b, cur) == (if cur == [] then [] else [cur])
  {
    if b != [] {
      SegmentsOfLeadingSlashes(b[1..], []);
      assert b[1..] + [] == b[1..];
    }
  }

  lemma SegmentsOfTrimLeft(s: string)
    ensures Segments(TrimLeft(s, '/')) == Segments(s)
  {
    var l := TrimLeft(s, '/');
    var a := s[..|s| - |l|];
    TrimLeftCutsPadding(s, '/');
    assert s == a + l;
    SegmentsOfLeadingSlashes(a, l);
  }

  lemma SegmentsOfTrimRight(s: string)
    ensures Segments(TrimRight(s, '/')) == Segments(s)
  {
    var r := TrimRight(s, '/');
    var b := s[|r|..];
    TrimRightCutsPadding(s, '/');
    assert s == r + b;
    SegmentsOfTrailingSlashes(r, b, []);
  }

  /** Trimming slashes keeps the non-empty segments. */
  lemma SegmentsOfTrim(s: string)
    ensures Segments(Trim(s, '/')) == Segments(s)
  {
    SegmentsOfTrimLeft(s);
    SegmentsOfTrimRight(TrimLeft(s, '/'));
  }

  // ---------------------------------------------------------------------
  // CanonicalizePath

  /** The rewriting part of `CanonicalizePath`: trim slashes, drop `_`, `.`
      and `-`, collapse slash runs and put one slash in front. */
  function Process(path: string): (p: string)
    ensures p != [] && p[0] == '/'
  {
    "/" + CollapseSlashes(RemoveSpecial(Trim(path, '/')))
  }

  /** Paths that the redirector keeps for itself: "", "/", "/d" and every
      path that begins with "/d/". */
  predicate Reserved(p: string)
  {
    || |p| == 0
    || (|p| == 1 && p[0] == '/')
    || (|p| >= 2 && p[0] == '/' && p[1] == 'd' && (|p| == 2 || p[2] == '/'))
  }

  function CanonicalizePath(path: string): (r: Result<string>)
    ensures Reserved(Process(path)) ==>
              r == Err(InvalidPath(Process(path), "path is reserved"))
    ensures r.Ok? ==> !Reserved(Process(path)) && r.value != [] && r.value[0] == '/'
    ensures r.Err? ==> r.error.InvalidPath? && r.error.path == Process(path)
  {
    var p := Process(path);
    if Reserved(p) then Err(InvalidPath(p, "path is reserved"))
    else
      match UrlPath.Parse(p)
      case BadUrl(reason) => Err(InvalidPath(p, "path is invalid url: " + reason))
      case Url(text) =>
        UrlPath.ParseKeepsLeadingSlash(p);
        Ok(text)
  }

  /** What is not reserved is the URL parser's rendering of the rewritten path. */
  lemma CanonicalizePathParses(path: string)
    requires !Reserved(Process(path))
    ensures UrlPath.Parse(Process(path)).Url? ==> CanonicalizePath(path) == Ok(UrlPath.Parse(Process(path)).text)
    ensures UrlPath.Parse(Process(path)).BadUrl? ==> CanonicalizePath(path).Err?
  {
  }

  /** The rewritten path holds a slash or characters of the input other
      than `_`, `.` and `-`. */
  lemma ProcessChars(path: string)
    ensures forall c :: c in Process(path) ==> c == '/' || (c in path && !IsSpecial(c))
  {
    var t := Trim(path, '/');
    var rs := RemoveSpecial(t);
    var cs := CollapseSlashes(rs);
    RemoveSpecialChars(t);
    CollapseSameChars(rs);
    TrimChars(path, '/');
    assert Process(path) == "/" + cs;
    forall c | c in Process(path) ensures c == '/' || (c in path && !IsSpecial(c)) {
      if c != '/' {
        assert c in cs;
      }
    }
  }

  /** Trimming keeps characters of the input. */
  lemma TrimChars(s: string, c: char)
    ensures forall x :: x in Trim(s, c) ==> x in s
  {
    var t := Trim(s, c);
    TrimIsInfix(s, c);
    var k := TrimStart(s, c);
    forall x | x in t ensures x in s {
      var i :| 0 <= i < |t| && t[i] == x;
      assert s[k + i] == x;
    }
  }

  /** Without a `%` in the input, a canonical path holds no `_`, `.` or `-`:
      the removal runs before the URL parser, which adds none of them. */
  lemma CanonicalizePathNoSpecial(path: string)
    requires '%' !in path && CanonicalizePath(path).Ok?
    ensures '_' !in CanonicalizePath(path).value
    ensures '.' !in CanonicalizePath(path).value
    ensures '-' !in CanonicalizePath(path).value
  {
    var p := Process(path);
    ProcessNoSpecial(path);
    CanonicalizePathParses(path);
    UrlPath.ParseAddsNoSpecial(p, '_');
    UrlPath.ParseAddsNoSpecial(p, '.');
    UrlPath.ParseAddsNoSpecial(p, '-');
  }

  /** Without a `%` in the input, the processed path holds no `%`, `_`,
      `.` or `-`. */
  lemma ProcessNoSpecial(path: string)
    requires '%' !in path
    ensures '%' !in Process(path) && '_' !in Process(path) && '.' !in Process(path) && '-' !in Process(path)
  {
    ProcessChars(path);
  }

  predicate IsPlainChar(c: char)
  {
    c == '/' || UrlPath.IsAlnum(c as int)
  }

  predicate AllPlain(s: string)
  {
    forall i :: 0 <= i < |s| ==> IsPlainChar(s[i])
  }

  /** A canonical path of letters, digits and slashes: one leading slash, no
      empty segment, no trailing slash. */
  predicate Normal(p: string)
  {
    && p != [] && p[0] == '/'
    && NoDoubleSlash(p)
    && (|p| > 1 ==> p[|p| - 1] != '/')
    && AllPlain(p)
  }

  /** A rewritten path of letters, digits and slashes that is not reserved
      passes the URL parser unchanged. */
  lemma PlainRewriteIsCanonical(path: string)
    requires AllPlain(Process(path)) && !Reserved(Process(path))
    ensures CanonicalizePath(path) == Ok(Process(path))
  {
    UrlPath.ParsePlain(Process(path));
  }

  /** `Process` through its three steps. */
  lemma ProcessSteps(path: string, t: string, r: string, k: string)
    requires Trim(path, '/') == t && RemoveSpecial(t) == r && CollapseSlashes(r) == k
    ensures Process(path) == "/" + k
  {
  }

  /** Rewriting a path of letters, digits and slashes gives a normal path. */
  lemma ProcessOfPlain(path: string)
    requires AllPlain(path)
    ensures Normal(Process(path))
  {
    var t := Trim(path, '/');
    TrimKeepsPlain(path);
    PlainIdentity(t);
    ProcessSteps(path, t, t, CollapseSlashes(t));
    SlashCoreNormal(t);
  }

  /** Letters, digits and slashes hold no `_`, `.` or `-`. */
  lemma PlainIdentity(t: string)
    requires AllPlain(t)
    ensures RemoveSpecial(t) == t
  {
    assert forall i :: 0 <= i < |t| ==> IsPlainChar(t[i]);
    RemoveSpecialIdentity(t);
  }

  /** A slash before the collapse of a trimmed plain string: normal. */
  lemma SlashCoreNormal(t: string)
    requires AllPlain(t) && (t == [] || (t[0] != '/' && t[|t| - 1] != '/'))
    ensures Normal("/" + CollapseSlashes(t))
  {
    var core := CollapseSlashes(t);
    CollapseNoDoubleSlash(t);
    CollapseKeepsPlain(t);
    SlashPrefixPlain(core);
    SlashPrefixNoDouble(core);
  }

  lemma SlashPrefixPlain(core: string)
    requires AllPlain(core)
    ensures AllPlain("/" + core)
  {
    var p := "/" + core;
    forall i | 0 <= i < |p| ensures IsPlainChar(p[i]) {
      if i > 0 { assert p[i] == core[i - 1]; }
    }
  }

  lemma SlashPrefixNoDouble(core: string)
    requires NoDoubleSlash(core) && (core == [] || core[0] != '/')
    ensures NoDoubleSlash("/" + core)
  {
    var p := "/" + core;
    forall i | 0 <= i < |p| - 1 ensures !(p[i] == '/' && p[i + 1] == '/') {
      if i > 0 { assert p[i] == core[i - 1] && p[i + 1] == core[i]; }
    }
  }

  /** Where the leading `c`s of `s` end. */
  function TrimStart(s: string, c: char): (k: nat)
    ensures k <= |s|
  {
    |s| - |TrimLeft(s, c)|
  }

  /** The trimmed string is the infix of `s` that starts where the leading
      `c`s end. */
  /** Trimming twice trims no more than trimming once. */
  lemma TrimIdempotent(s: string, c: char)
    ensures Trim(Trim(s, c), c) == Trim(s, c)
  {
    var r := Trim(s, c);
    assert "" + r + "" == r;
    TrimCharacterization("", r, "", c);
  }

  lemma TrimIsInfix(s: string, c: char)
    ensures TrimStart(s, c) + |Trim(s, c)| <= |s|
    ensures Trim(s, c) == s[TrimStart(s, c)..TrimStart(s, c) + |Trim(s, c)|]
  {
    var l := TrimLeft(s, c);
    var t := TrimRight(l, c);
    assert l == s[TrimStart(s, c)..];
    assert t == l[..|t|];
  }

  lemma TrimKeepsPlain(path: string)
    requires AllPlain(path)
    ensures AllPlain(Trim(path, '/'))
  {
    TrimIsInfix(path, '/');
    var t := Trim(path, '/');
    var k := TrimStart(path, '/');
    forall i | 0 <= i < |t| ensures IsPlainChar(t[i]) {
      assert t[i] == path[k + i];
    }
  }

  /** Rewriting a path without `_`, `.` or `-` keeps its non-empty segments. */
  lemma ProcessKeepsSegments(path: string)
    requires forall i :: 0 <= i < |path| ==> !IsSpecial(path[i])
    ensures Segments(Process(path)) == Segments(path)
  {
    var t := Trim(path, '/');
    TrimIsInfix(path, '/');
    var k := TrimStart(path, '/');
    forall i | 0 <= i < |t| ensures !IsSpecial(t[i]) {
      assert t[i] == path[k + i];
    }
    RemoveSpecialIdentity(t);
    var core := CollapseSlashes(t);
    SegmentsOfCollapse(t, []);
    SegmentsOfTrim(path);
    var p := "/" + core;
    assert p == Process(path);
    assert p[1..] == core;
  }

  /** A normal path is its own rewrite. */
  lemma ProcessOfNormal(p: string)
    requires Normal(p)
    ensures Process(p) == p
  {
    NormalTrim(p);
    NormalCoreIdentity(p);
    ProcessSteps(p, p[1..], p[1..], p[1..]);
  }

  lemma NormalTrim(p: string)
    requires Normal(p)
    ensures Trim(p, '/') == p[1..]
  {
    var core := p[1..];
    assert p == "/" + core + "";
    if core != [] {
      assert core[0] == p[1] && core[|core| - 1] == p[|p| - 1];
    }
    TrimCharacterization("/", core, "", '/');
  }

  lemma NormalCoreIdentity(p: string)
    requires Normal(p)
    ensures RemoveSpecial(p[1..]) == p[1..] && CollapseSlashes(p[1..]) == p[1..]
  {
    var core := p[1..];
    assert forall i :: 0 <= i < |core| ==> core[i] == p[i + 1];
    PlainIdentity(core);
    assert NoDoubleSlash(core);
    CollapseIdentity(core);
  }

  lemma NormalIsFixpoint(p: string)
    requires Normal(p) && !Reserved(p)
    ensures CanonicalizePath(p) == Ok(p)
  {
    ProcessOfNormal(p);
    PlainRewriteIsCanonical(p);
  }

  /** For a path of letters, digits and slashes that is not reserved, the
      canonical form is normal, has the same non-empty segments and is its
      own canonical form. */
  lemma CanonicalizePlain(path: string)
    requires AllPlain(path) && !Reserved(Process(path))
    ensures CanonicalizePath(path).Ok?
    ensures Normal(CanonicalizePath(path).value)
    ensures Segments(CanonicalizePath(path).value) == Segments(path)
    ensures CanonicalizePath(CanonicalizePath(path).value) == CanonicalizePath(path)
  {
    ProcessOfPlain(path);
    ProcessKeepsSegments(path);
    PlainRewriteIsCanonical(path);
    NormalIsFixpoint(Process(path));
  }

  // ---------------------------------------------------------------------
  // CanonicalizeUrl and the pair rewrites

  /** `CanonicalizeUrl`: never fails; only leading and trailing spaces go. */
  function CanonicalizeUrl(url: string): (r: Result<string>)
    ensures r.Ok? && r.value == Trim(url, ' ')
  {
    Ok(Trim(url, ' '))
  }

  /** A pair rewritten in place, with the error the rewrite returned. */
  datatype Sanitized = Sanitized(pair: Pair, outcome: Outcome)

  /** `SanitizeInput`: the backend name is stamped first; a path that does
      not canonicalise stops the rewrite there; otherwise path and URL take
      their canonical forms and the use count is reset. */
  function SanitizeInput(name: string, p: Pair): (r: Sanitized)
    ensures r.pair.mapper == name
    ensures r.outcome.Pass? <==> CanonicalizePath(p.path).Ok?
    ensures r.outcome.Fail? ==>
              r.outcome.error == CanonicalizePath(p.path).error &&
              r.pair == p.(mapper := name)
    ensures r.outcome.Pass? ==>
              r.pair == Pair(CanonicalizePath(p.path).value, Trim(p.url, ' '), name, 0)
  {
    var p1 := p.(mapper := name);
    match CanonicalizePath(p1.path)
    case Err(e) => Sanitized(p1, Fail(e))
    case Ok(path) =>
      var url := CanonicalizeUrl(p1.url).value;
      Sanitized(p1.(path := path, url := url, useCount := 0), Pass)
  }

  /** `SanitizeOutput`: a read-only backend reports a zero use count. */
  function SanitizeOutput(readonly: bool, p: Pair): (r: Pair)
    ensures r.path == p.path && r.url == p.url && r.mapper == p.mapper
    ensures readonly ==> r.useCount == 0
    ensures !readonly ==> r == p
  {
    if readonly then p.(useCount := 0) else p
  }

  lemma SanitizeOutputIdempotent(readonly: bool, p: Pair)
    ensures SanitizeOutput(readonly, SanitizeOutput(readonly, p)) == SanitizeOutput(readonly, p)
  {
  }

  /** Sanitizing a pair whose path and URL are already canonical changes
      nothing but the backend name and the use count. */
  lemma SanitizeInputIdempotent(name: string, p: Pair)
    requires forall i :: 0 <= i < |p.path| ==> IsPlainChar(p.path[i])
    requires !Reserved(Process(p.path))
    ensures SanitizeInput(name, p).outcome.Pass?
    ensures var q := SanitizeInput(name, p).pair;
            SanitizeInput(name, q) == Sanitized(q, Pass)
  {
    CanonicalizePlain(p.path);
    TrimIdempotent(p.url, ' ');
    SanitizedIsFixed(name, SanitizeInput(name, p).pair);
  }

  /** A pair already in the form `SanitizeInput` gives is left as it is. */
  lemma SanitizedIsFixed(name: string, q: Pair)
    requires CanonicalizePath(q.path) == Ok(q.path) && Trim(q.url, ' ') == q.url
    requires q.mapper == name && q.useCount == 0
    ensures SanitizeInput(name, q) == Sanitized(q, Pass)
  {
  }

  // ---------------------------------------------------------------------
  // SanitizeInputMap

  /** The rewrite of one pair for the backend `name`, as a value. */
  function Rewriter(name: string): (f: Pair -> Sanitized)
    ensures forall p :: f(p) == SanitizeInput(name, p)
  {
    p => SanitizeInput(name, p)
  }

  /** Why an entry of a starter map cannot be rewritten, if it cannot: its
      key is checked (by `canon`) before its pair (by `rewrite`). The map
      loop is stated over these two parameters so that its proof does not
      depend on what canonicalisation does. */
  function EntryFailure(canon: string -> Result<string>, rewrite: Pair -> Sanitized, key: string, p: Pair): (e: Option<Error>)
    ensures e.None? <==> canon(key).Ok? && rewrite(p).outcome.Pass?
  {
    match canon(key)
    case Err(err) => Some(err)
    case Ok(_) =>
      match rewrite(p).outcome
      case Fail(err) => Some(err)
      case Pass => None
  }

  ghost predicate AllRewritable(canon: string -> Result<string>, rewrite: Pair -> Sanitized, m: map<string, Pair>)
  {
    forall k :: k in m ==> EntryFailure(canon, rewrite, k, m[k]).None?
  }

  /** `out` is what the rewritten copy of `done`'s entries of `m` may be: its
      keys are exactly the canonical forms of those keys, and under each, the
      rewritten pair of one entry whose key has that form (which one, when
      several keys share a canonical form, depends on the map's iteration
      order). */
  ghost predicate RewrittenCopy(canon: string -> Result<string>, rewrite: Pair -> Sanitized,
                                m: map<string, Pair>, done: set<string>, out: map<string, Pair>)
  {
    && done <= m.Keys
    && (forall k :: k in done ==> EntryFailure(canon, rewrite, k, m[k]).None?)
    && out.Keys == (set k | k in done :: canon(k).value)
    && forall ck :: ck in out ==>
         exists k :: k in done && canon(k).value == ck && out[ck] == rewrite(m[k]).pair
  }

  lemma CopyStep(canon: string -> Result<string>, rewrite: Pair -> Sanitized,
                 m: map<string, Pair>, done: set<string>, clone: map<string, Pair>, key: string)
    requires RewrittenCopy(canon, rewrite, m, done, clone)
    requires key in m && EntryFailure(canon, rewrite, key, m[key]).None?
    ensures RewrittenCopy(canon, rewrite, m, done + {key}, clone[canon(key).value := rewrite(m[key]).pair])
  {
    var ck := canon(key).value;
    var clone' := clone[ck := rewrite(m[key]).pair];
    var done' := done + {key};
    assert (set k | k in done' :: canon(k).value) == (set k | k in done :: canon(k).value) + {ck};
    forall c | c in clone'
      ensures exists k :: k in done' && canon(k).value == c && clone'[c] == rewrite(m[k]).pair
    {
      if c == ck {
        assert key in done';
      } else {
        var k :| k in done && canon(k).value == c && clone[c] == rewrite(m[k]).pair;
        assert k in done';
      }
    }
  }

  /** A set of keys has at least as many elements as their canonical forms. */
  lemma {:induction false} CanonicalImageSize(canon: string -> Result<string>, keys: set<string>)
    requires forall k :: k in keys ==> canon(k).Ok?
    ensures |set k | k in keys :: canon(k).value| <= |keys|
  {
    if keys != {} {
      var k :| k in keys;
      var rest := keys - {k};
      CanonicalImageSize(canon, rest);
      assert (set x | x in keys :: canon(x).value) == (set x | x in rest :: canon(x).value) + {canon(k).value};
    }
  }

  /** The loop of `SanitizeInputMap`, over any key check and pair rewrite. */
  method RewriteMap(canon: string -> Result<string>, rewrite: Pair -> Sanitized, m: map<string, Pair>)
    returns (r: Result<map<string, Pair>>)
    ensures r.Ok? <==> AllRewritable(canon, rewrite, m)
    ensures r.Err? ==> exists k :: k in m && EntryFailure(canon, rewrite, k, m[k]) == Some(r.error)
    ensures r.Ok? ==> RewrittenCopy(canon, rewrite, m, m.Keys, r.value) && |r.value| <= |m|
  {
    var clone: map<string, Pair> := map[];
    var rest := m.Keys;
    ghost var done: set<string> := {};
    while rest != {}
      invariant rest <= m.Keys && done == m.Keys - rest
      invariant RewrittenCopy(canon, rewrite, m, done, clone)
      decreases |rest|
    {
      var key :| key in rest;
      var canonical := canon(key);
      if canonical.Err? {
        return Err(canonical.error);
      }
      var s := rewrite(m[key]);
      if s.outcome.Fail? {
        return Err(s.outcome.error);
      }
      CopyStep(canon, rewrite, m, done, clone, key);
      clone := clone[canonical.value := s.pair];
      done := done + {key};
      rest := rest - {key};
    }
    assert done == m.Keys;
    CanonicalImageSize(canon, m.Keys);
    return Ok(clone);
  }

  /** Why an entry of a starter map cannot be sanitized, if it cannot. */
  function EntryError(name: string, key: string, p: Pair): (e: Option<Error>)
    ensures e.None? <==> CanonicalizePath(key).Ok? && SanitizeInput(name, p).outcome.Pass?
    ensures e.Some? && CanonicalizePath(key).Err? ==> e.value == CanonicalizePath(key).error
    ensures e.Some? && CanonicalizePath(key).Ok? ==> e.value == SanitizeInput(name, p).outcome.error
  {
    EntryFailure(CanonicalizePath, Rewriter(name), key, p)
  }

  ghost predicate Sanitizable(name: string, m: map<string, Pair>)
  {
    AllRewritable(CanonicalizePath, Rewriter(name), m)
  }

  /** Every entry of a sanitizable map has a canonical key and a pair that
      sanitizes. */
  lemma SanitizableMeans(name: string, m: map<string, Pair>)
    ensures Sanitizable(name, m) <==>
            forall k :: k in m ==> CanonicalizePath(k).Ok? && SanitizeInput(name, m[k]).outcome.Pass?
  {
    assert forall k :: k in m ==> EntryFailure(CanonicalizePath, Rewriter(name), k, m[k]) == EntryError(name, k, m[k]);
  }

  /** `SanitizeInputMap`: the entries are visited in the map's order; the
      first that cannot be sanitized ends the loop with its error and the
      caller keeps its map; otherwise the sanitized copy, keyed by the
      canonical forms of the keys, replaces it. The copy never has more
      entries than the original. */
  method SanitizeInputMap(name: string, m: map<string, Pair>) returns (r: Result<map<string, Pair>>)
    ensures r.Ok? <==> Sanitizable(name, m)
    ensures r.Err? ==> exists k :: k in m && EntryError(name, k, m[k]) == Some(r.error)
    ensures r.Ok? ==> RewrittenCopy(CanonicalizePath, Rewriter(name), m, m.Keys, r.value) && |r.value| <= |m|
  {
    r := RewriteMap(CanonicalizePath, Rewriter(name), m);
  }
}
