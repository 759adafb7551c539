/** What `CanonicalizePath` makes of the shapes of path exercised by
    pkg/sanitizer/sanitizer_test.go, stated for arbitrary words rather than
    for the fixed strings of the tests. A word is a non-empty run of ASCII
    letters and digits. */
module SanitizerCases {
  import opened Errors
  import opened Sanitizer
  import UrlPath

  predicate Word(x: string)
  {
    x != [] && forall i :: 0 <= i < |x| ==> UrlPath.IsAlnum(x[i] as int)
  }

  predicate Slashes(a: string)
  {
    AllOf(a, '/')
  }

  // ---------------------------------------------------------------------
  // Slash runs

  /** Collapsing runs of slashes passes over a leading piece without slashes. */
  lemma {:induction false} CollapseAfterWord(x: string, rest: string)
    requires forall i :: 0 <= i < |x| ==> x[i] != '/'
    ensures CollapseSlashes(x + rest) == x + CollapseSlashes(rest)
  {
    if x == [] {
      assert x + rest == rest;
    } else {
      var s := x + rest;
      assert s[0] == x[0] && s[1..] == x[1..] + rest;
      CollapseAfterWord(x[1..], rest);
      CollapseAtNonSlash(s);
      assert x == [x[0]] + x[1..];
    }
  }

  /** A character other than a slash at the front is kept as it is. */
  lemma CollapseAtNonSlash(s: string)
    requires s != [] && s[0] != '/'
    ensures CollapseSlashes(s) == [s[0]] + CollapseSlashes(s[1..])
  {
    if |s| < 2 {
      assert s[1..] == [] && s == [s[0]];
    }
  }

  /** A non-empty run of slashes in front of a word becomes one slash. */
  lemma {:induction false} CollapseRunBeforeWord(m: string, y: string)
    requires Slashes(m) && m != [] && Word(y)
    ensures CollapseSlashes(m + y) == "/" + y
  {
    var s := m + y;
    assert s[0] == '/' && s[1..] == m[1..] + y;
    if |m| == 1 {
      assert s[1..] == y && s[1] == y[0];
      assert NoDoubleSlash(y);
      CollapseIdentity(y);
      assert CollapseSlashes(s) == [s[0]] + CollapseSlashes(y);
    } else {
      assert s[1] == '/';
      CollapseRunBeforeWord(m[1..], y);
    }
  }

  /** Any mix of letters, digits and slashes stays clear of `_`, `.` and `-`. */
  lemma PlainHasNoSpecial(s: string)
    requires AllPlain(s)
    ensures RemoveSpecial(s) == s
  {
    assert forall i :: 0 <= i < |s| ==> !IsSpecial(s[i]) by {
      forall i | 0 <= i < |s| ensures !IsSpecial(s[i]) {
        assert IsPlainChar(s[i]);
      }
    }
    RemoveSpecialIdentity(s);
  }

  // ---------------------------------------------------------------------
  // Cases that canonicalise

  /** Slashes are trimmed at both ends and a run between two words becomes
      one slash ("/example/path/", "//example///path//", "example/path",
      "/dd/example"). */
  lemma TwoWords(a: string, x: string, m: string, y: string, b: string)
    requires Slashes(a) && Slashes(m) && m != [] && Slashes(b)
    requires Word(x) && Word(y) && x != "d"
    ensures CanonicalizePath(a + x + m + y + b) == Ok("/" + x + "/" + y)
  {
    var path := a + x + m + y + b;
    var core := x + m + y;
    Regroup(a, x, m, y, b);
    TwoWordsCore(x, m, y);
    TrimCharacterization(a, core, b, '/');
    SlashTwoWords(x, y);
    RegroupSlash(x, y);
    PlainRewriteIsCanonical(path);
  }

  lemma Regroup(a: string, x: string, m: string, y: string, b: string)
    ensures a + x + m + y + b == a + (x + m + y) + b
  {
  }

  lemma RegroupSlash(x: string, y: string)
    ensures "/" + x + "/" + y == "/" + (x + "/" + y)
  {
  }

  /** Two words around a run of slashes: plain, and collapsed to one slash. */
  lemma TwoWordsCore(x: string, m: string, y: string)
    requires Slashes(m) && m != [] && Word(x) && Word(y)
    ensures var core := x + m + y;
            core[0] != '/' && core[|core| - 1] != '/' &&
            RemoveSpecial(core) == core && CollapseSlashes(core) == x + "/" + y
  {
    var core := x + m + y;
    assert core[0] == x[0] && core[|core| - 1] == y[|y| - 1];
    CorePlain(x, m, y);
    PlainHasNoSpecial(core);
    CollapseCore(x, m, y);
  }

  lemma CorePlain(x: string, m: string, y: string)
    requires Slashes(m) && Word(x) && Word(y)
    ensures AllPlain(x + m + y)
  {
    var core := x + m + y;
    forall i | 0 <= i < |core| ensures IsPlainChar(core[i]) {
      if i < |x| { assert core[i] == x[i]; }
      else if i < |x| + |m| { assert core[i] == m[i - |x|]; }
      else { assert core[i] == y[i - |x| - |m|]; }
    }
  }

  lemma CollapseCore(x: string, m: string, y: string)
    requires Slashes(m) && m != [] && Word(x) && Word(y)
    ensures CollapseSlashes(x + m + y) == x + "/" + y
  {
    assert x + m + y == x + (m + y);
    CollapseAfterWord(x, m + y);
    CollapseRunBeforeWord(m, y);
  }

  /** A slash, a word other than `d`, a slash and a word: plain and not
      reserved. */
  lemma SlashTwoWords(x: string, y: string)
    requires Word(x) && Word(y) && x != "d"
    ensures AllPlain("/" + x + "/" + y) && !Reserved("/" + x + "/" + y)
  {
    var p := "/" + x + "/" + y;
    assert AllPlain(p) by {
      forall i | 0 <= i < |p| ensures IsPlainChar(p[i]) {
        if 1 <= i <= |x| { assert p[i] == x[i - 1]; }
        else if i > |x| + 1 { assert p[i] == y[i - |x| - 2]; }
      }
    }
    assert p[1] == x[0];
    if |x| == 1 {
      assert x == [x[0]];
    } else {
      assert p[2] == x[1];
    }
  }

  /** A single word between slash runs becomes that word after one slash. */
  lemma OneWord(a: string, x: string, b: string)
    requires Slashes(a) && Slashes(b) && Word(x) && x != "d"
    ensures CanonicalizePath(a + x + b) == Ok("/" + x)
  {
    var path := a + x + b;
    TrimCharacterization(a, x, b, '/');
    assert AllPlain(x) by {
      forall i | 0 <= i < |x| ensures IsPlainChar(x[i]) {
      }
    }
    PlainHasNoSpecial(x);
    assert NoDoubleSlash(x);
    CollapseIdentity(x);
    var p := "/" + x;
    assert Process(path) == p;
    assert AllPlain(p) by {
      forall i | 0 <= i < |p| ensures IsPlainChar(p[i]) {
        if i > 0 { assert p[i] == x[i - 1]; }
      }
    }
    assert !Reserved(p) by {
      if |x| == 1 {
        assert x == [x[0]];
      } else {
        assert p[2] == x[1];
      }
    }
    PlainRewriteIsCanonical(path);
  }

  /** `_`, `.` and `-` are dropped ("ex_am.ple-path"). */
  lemma DropsSpecials(path: string)
    requires forall i :: 0 <= i < |path| ==> UrlPath.IsAlnum(path[i] as int) || IsSpecial(path[i])
    requires RemoveSpecial(path) != [] && RemoveSpecial(path) != "d"
    ensures CanonicalizePath(path) == Ok("/" + RemoveSpecial(path))
  {
    DropsSpecialsRewrite(path);
    PlainRewriteIsCanonical(path);
  }

  lemma DropsSpecialsRewrite(path: string)
    requires forall i :: 0 <= i < |path| ==> UrlPath.IsAlnum(path[i] as int) || IsSpecial(path[i])
    requires RemoveSpecial(path) != [] && RemoveSpecial(path) != "d"
    ensures Process(path) == "/" + RemoveSpecial(path)
    ensures AllPlain(Process(path)) && !Reserved(Process(path))
  {
    DropsSpecialsSteps(path);
    ProcessSteps(path, path, RemoveSpecial(path), RemoveSpecial(path));
    SlashBeforeWord(RemoveSpecial(path));
  }

  lemma DropsSpecialsSteps(path: string)
    requires forall i :: 0 <= i < |path| ==> UrlPath.IsAlnum(path[i] as int) || IsSpecial(path[i])
    requires RemoveSpecial(path) != []
    ensures Trim(path, '/') == path
    ensures Word(RemoveSpecial(path)) && CollapseSlashes(RemoveSpecial(path)) == RemoveSpecial(path)
  {
    SpecialTextTrim(path);
    RemovalIsWord(path);
  }

  lemma SpecialTextTrim(path: string)
    requires forall i :: 0 <= i < |path| ==> UrlPath.IsAlnum(path[i] as int) || IsSpecial(path[i])
    ensures Trim(path, '/') == path
  {
    assert '/' !in path by {
      assert forall i :: 0 <= i < |path| ==> path[i] != '/';
    }
    NoSlashTrim(path);
  }

  lemma RemovalIsWord(path: string)
    requires forall i :: 0 <= i < |path| ==> UrlPath.IsAlnum(path[i] as int) || IsSpecial(path[i])
    requires RemoveSpecial(path) != []
    ensures Word(RemoveSpecial(path)) && CollapseSlashes(RemoveSpecial(path)) == RemoveSpecial(path)
  {
    var w := RemoveSpecial(path);
    RemovalLeavesAlnum(path);
    assert NoDoubleSlash(w);
    CollapseIdentity(w);
  }

  /** What remains of letters, digits, `_`, `.` and `-` is a run of letters
      and digits. */
  lemma {:induction false} RemovalLeavesAlnum(s: string)
    requires forall i :: 0 <= i < |s| ==> UrlPath.IsAlnum(s[i] as int) || IsSpecial(s[i])
    ensures forall i :: 0 <= i < |RemoveSpecial(s)| ==> UrlPath.IsAlnum(RemoveSpecial(s)[i] as int)
  {
    if s != [] {
      RemovalLeavesAlnum(s[1..]);
    }
  }

  /** A slash and a word other than `d`: plain and not reserved. */
  lemma SlashBeforeWord(w: string)
    requires Word(w) && w != "d"
    ensures AllPlain("/" + w) && !Reserved("/" + w)
  {
    var p := "/" + w;
    SlashWordPlain(w);
    if |w| == 1 {
      assert w == [w[0]];
    } else {
      assert p[2] == w[1];
    }
  }

  /** A slash and a word: plain. */
  lemma SlashWordPlain(w: string)
    requires Word(w)
    ensures AllPlain("/" + w)
  {
    var p := "/" + w;
    forall i | 0 <= i < |p| ensures IsPlainChar(p[i]) {
      if i > 0 { assert p[i] == w[i - 1]; }
    }
  }

  /** Trimming slashes leaves a string without slashes as it is. */
  lemma NoSlashTrim(s: string)
    requires '/' !in s
    ensures Trim(s, '/') == s
  {
    if s != [] {
      assert s[0] in s && s[|s| - 1] in s;
      TrimCharacterization("", s, "", '/');
      assert "" + s + "" == s;
    }
  }

  // ---------------------------------------------------------------------
  // Reserved paths

  /** Nothing but slashes is the reserved root ("/"). */
  lemma OnlySlashes(a: string)
    requires Slashes(a)
    ensures CanonicalizePath(a) == Err(InvalidPath("/", "path is reserved"))
  {
    assert a == a + [] + [];
    TrimCharacterization(a, [], [], '/');
    assert Process(a) == "/";
  }

  /** `d` between slash runs is reserved ("/d"). */
  lemma ReservedD(a: string, b: string)
    requires Slashes(a) && Slashes(b)
    ensures CanonicalizePath(a + "d" + b) == Err(InvalidPath("/d", "path is reserved"))
  {
    TrimCharacterization(a, "d", b, '/');
    assert Process(a + "d" + b) == "/d";
  }

  /** A path under `d` is reserved ("/d/example"). */
  lemma ReservedUnderD(a: string, m: string, y: string, b: string)
    requires Slashes(a) && Slashes(m) && m != [] && Slashes(b) && Word(y)
    ensures CanonicalizePath(a + "d" + m + y + b) == Err(InvalidPath("/d/" + y, "path is reserved"))
  {
    var path := a + "d" + m + y + b;
    var core := "d" + m + y;
    Regroup(a, "d", m, y, b);
    TwoWordsCore("d", m, y);
    TrimCharacterization(a, core, b, '/');
    RegroupSlashD(y);
    var p := "/d/" + y;
    assert Process(path) == p;
    assert p[0] == '/' && p[1] == 'd' && p[2] == '/';
  }

  lemma RegroupSlashD(y: string)
    ensures "/d/" + y == "/" + ("d" + "/" + y)
  {
  }

  // ---------------------------------------------------------------------
  // Escaping

  /** The text of a path that the URL parser has to re-encode: no `#`, `?`
      or control character, every `%` a valid escape, and the rendering
      is its decoded bytes escaped afresh. */
  lemma Reencoded(p: string)
    requires '#' !in p && '?' !in p && !UrlPath.HasControl(p)
    requires UrlPath.EscapesOk(p) && !UrlPath.ValidEncoded(p, UrlPath.PathMode)
    ensures UrlPath.Parse(p) == UrlPath.Url(UrlPath.Escape(UrlPath.Unescape(UrlPath.Utf8(p)), UrlPath.PathMode))
  {
    SplitWhole(p);
    UrlPath.EscapesOkWithoutPercent("");
    UrlPath.ParseParts(p, UrlPath.Parts(p, p, "", ""));
    assert UrlPath.Encoded(p, UrlPath.PathMode) + "" == UrlPath.Escape(UrlPath.Unescape(UrlPath.Utf8(p)), UrlPath.PathMode);
  }

  /** Without `#` and `?` the whole string is the path. */
  lemma SplitWhole(p: string)
    requires '#' !in p && '?' !in p
    ensures UrlPath.Split(p) == UrlPath.Parts(p, p, "", "")
  {
  }

  predicate SpacedText(s: string)
  {
    forall i :: 0 <= i < |s| ==> s[i] == ' ' || s[i] == '/' || UrlPath.IsAlnum(s[i] as int)
  }

  lemma SpacedTextFacts(s: string)
    requires SpacedText(s)
    ensures '%' !in s && '#' !in s && '?' !in s && !UrlPath.HasControl(s)
  {
  }

  /** Two words with a space between, after a slash: their own rewrite. */
  lemma SpaceRewrite(x: string, y: string)
    requires Word(x) && Word(y)
    ensures Process("/" + x + " " + y) == "/" + x + " " + y
    ensures !Reserved("/" + x + " " + y)
  {
    var core := x + " " + y;
    RegroupSpace(x, y);
    SpacedCore(x, y);
    SpacedTrim(core);
    RemoveSpecialIdentity(core);
    CollapseIdentity(core);
    ProcessSteps("/" + core, core, core, core);
    SpacedNotReserved(x, y);
  }

  /** The characters of `x y`: no `_`, `.`, `-` or slash. */
  lemma SpacedCore(x: string, y: string)
    requires Word(x) && Word(y)
    ensures forall i :: 0 <= i < |x + " " + y| ==> !IsSpecial((x + " " + y)[i]) && (x + " " + y)[i] != '/'
    ensures NoDoubleSlash(x + " " + y)
  {
    var core := x + " " + y;
    forall i | 0 <= i < |core| ensures !IsSpecial(core[i]) && core[i] != '/' {
      if i < |x| { assert core[i] == x[i]; }
      else if i > |x| { assert core[i] == y[i - |x| - 1]; }
    }
  }

  lemma SpacedTrim(core: string)
    requires core != [] && core[0] != '/' && core[|core| - 1] != '/'
    ensures Trim("/" + core, '/') == core
  {
    assert "/" + core == "/" + core + "";
    TrimCharacterization("/", core, "", '/');
  }

  lemma SpacedNotReserved(x: string, y: string)
    requires Word(x) && Word(y)
    ensures !Reserved("/" + x + " " + y)
  {
    var p := "/" + x + " " + y;
    if |x| == 1 { assert p[2] == ' '; } else { assert p[2] == x[1]; }
    assert p[1] == x[0];
  }

  lemma RegroupSpace(x: string, y: string)
    ensures "/" + x + " " + y == "/" + (x + " " + y) + ""
    ensures "/" + x + " " + y == "/" + (x + " " + y)
  {
  }

  /** The URL parser escapes the space of `/x y` as `%20`. */
  lemma SpaceParse(x: string, y: string)
    requires Word(x) && Word(y)
    ensures UrlPath.Parse("/" + x + " " + y) == UrlPath.Url("/" + x + "%20" + y)
  {
    var head := "/" + x;
    var path := head + " " + y;
    SpacedPath(x, y);
    SpacedTextFacts(path);
    UrlPath.EscapesOkWithoutPercent(path);
    Reencoded(path);
    UrlPath.Utf8WithoutPercent(path);
    UrlPath.UnescapeWithoutPercent(UrlPath.Utf8(path));
    assert AllPlain(x) by {
      forall i | 0 <= i < |x| ensures IsPlainChar(x[i]) {
      }
    }
    SlashPrefixPlain(x);
    SpaceBytes(head, y);
  }

  /** A slash, a word, a space and a word: text of that kind, with a
      space that must be escaped. */
  lemma SpacedPath(x: string, y: string)
    requires Word(x) && Word(y)
    ensures SpacedText("/" + x + " " + y)
    ensures !UrlPath.ValidEncoded("/" + x + " " + y, UrlPath.PathMode)
  {
    var path := "/" + x + " " + y;
    forall i | 0 <= i < |path| ensures path[i] == ' ' || path[i] == '/' || UrlPath.IsAlnum(path[i] as int) {
      if 1 <= i <= |x| { assert path[i] == x[i - 1]; }
      else if i > |x| + 1 { assert path[i] == y[i - |x| - 2]; }
    }
    assert path[|x| + 1] == ' ';
  }

  /** Escaping the bytes of a plain head, a space and a word. */
  lemma SpaceBytes(head: string, y: string)
    requires AllPlain(head) && Word(y)
    ensures UrlPath.Escape(UrlPath.Utf8(head + " " + y), UrlPath.PathMode) == head + "%20" + y
  {
    SpaceUtf8(head, y);
    UrlPath.EscapePlain(head, UrlPath.PathMode);
    UrlPath.EscapePlain(y, UrlPath.PathMode);
    EscapeAround(UrlPath.Utf8(head), [32], UrlPath.Utf8(y), head, "%20", y);
  }

  lemma SpaceUtf8(head: string, y: string)
    ensures UrlPath.Utf8(head + " " + y) == UrlPath.Utf8(head) + [32] + UrlPath.Utf8(y)
  {
    UrlPath.Utf8Append(head + " ", y);
    UrlPath.Utf8Append(head, " ");
    assert UrlPath.Utf8(" ") == [32];
  }

  /** Escaping three byte strings one after the other. */
  lemma EscapeAround(a: seq<UrlPath.Byte>, m: seq<UrlPath.Byte>, b: seq<UrlPath.Byte>,
                     ea: string, em: string, eb: string)
    requires UrlPath.Escape(a, UrlPath.PathMode) == ea
    requires UrlPath.Escape(m, UrlPath.PathMode) == em
    requires UrlPath.Escape(b, UrlPath.PathMode) == eb
    ensures UrlPath.Escape(a + m + b, UrlPath.PathMode) == ea + em + eb
  {
    UrlPath.EscapeAppend(a + m, b, UrlPath.PathMode);
    UrlPath.EscapeAppend(a, m, UrlPath.PathMode);
  }

  /** A space is escaped as `%20` ("/example/path with spaces"). */
  lemma EscapesSpace(x: string, y: string)
    requires Word(x) && Word(y)
    ensures CanonicalizePath("/" + x + " " + y) == Ok("/" + x + "%20" + y)
  {
    SpaceRewrite(x, y);
    SpaceParse(x, y);
    CanonicalizePathParses("/" + x + " " + y);
  }

  /** `x%2E y`, cut into the pieces the URL parser sees. */
  lemma RegroupDot(x: string, y: string)
    ensures "/" + (x + "%2E " + y) == ("/" + x) + "%2E" + (" " + y)
    ensures x + "%2E " + y == "" + (x + "%2E " + y) + ""
    ensures ("/" + x) + "." + ("%20" + y) == "/" + x + ".%20" + y
  {
  }

  lemma DotRewrite(x: string, y: string)
    requires Word(x) && Word(y)
    ensures Process(x + "%2E " + y) == ("/" + x) + "%2E" + (" " + y)
  {
    DotChars(x, y);
    NoSlashRewrite(x + "%2E " + y);
    RegroupDot(x, y);
  }

  lemma DotNotReserved(x: string, y: string)
    requires Word(x) && Word(y)
    ensures !Reserved(("/" + x) + "%2E" + (" " + y))
  {
    DotChars(x, y);
    NotReservedAfterSlash(x + "%2E " + y);
    RegroupDot(x, y);
  }

  lemma DotChars(x: string, y: string)
    requires Word(x) && Word(y)
    ensures forall i :: 0 <= i < |x + "%2E " + y| ==>
              !IsSpecial((x + "%2E " + y)[i]) && (x + "%2E " + y)[i] != '/'
    ensures '/' !in x + "%2E " + y
  {
    var path := x + "%2E " + y;
    forall i | 0 <= i < |path| ensures !IsSpecial(path[i]) && path[i] != '/' {
      if i < |x| { assert path[i] == x[i]; }
      else if i >= |x| + 4 { assert path[i] == y[i - |x| - 4]; }
    }
  }

  /** A path without slashes and without `_`, `.` and `-` is rewritten to
      itself after a slash. */
  lemma NoSlashRewrite(s: string)
    requires forall i :: 0 <= i < |s| ==> !IsSpecial(s[i]) && s[i] != '/'
    ensures Process(s) == "/" + s
  {
    assert '/' !in s;
    NoSlashTrim(s);
    RemoveSpecialIdentity(s);
    assert NoDoubleSlash(s);
    CollapseIdentity(s);
    ProcessSteps(s, s, s, s);
  }

  /** A slash and at least two characters other than slashes: not
      reserved. */
  lemma NotReservedAfterSlash(s: string)
    requires |s| >= 2 && '/' !in s
    ensures !Reserved("/" + s)
  {
    var p := "/" + s;
    assert p[2] == s[1] && s[1] in s;
  }

  /** The URL parser decodes `%2E` and escapes the space once it has to
      re-encode the path. */
  lemma DotParse(head: string, tail: string)
    requires SpacedText(head) && SpacedText(tail) && ' ' in tail
    ensures UrlPath.Parse(head + "%2E" + tail) ==
            UrlPath.Url(UrlPath.Escape(UrlPath.Utf8(head) + [46] + UrlPath.Utf8(tail), UrlPath.PathMode))
  {
    DotSafe(head, tail);
    DotEscapes(head, tail);
    Reencoded(head + "%2E" + tail);
    DotUnescape(head, tail);
  }

  /** Neither `#`, `?` nor a control character around an escaped dot. */
  lemma DotSafe(head: string, tail: string)
    requires SpacedText(head) && SpacedText(tail)
    ensures var p := head + "%2E" + tail;
            '#' !in p && '?' !in p && !UrlPath.HasControl(p)
  {
    var p := head + "%2E" + tail;
    forall i | 0 <= i < |p| ensures p[i] != '#' && p[i] != '?' && !UrlPath.IsControl(p[i]) {
      if i < |head| { assert p[i] == head[i]; }
      else if i >= |head| + 3 { assert p[i] == tail[i - |head| - 3]; }
    }
  }

  /** The escapes around an escaped dot are well formed, and the space of
      the tail is not allowed unescaped in a path. */
  lemma DotEscapes(head: string, tail: string)
    requires SpacedText(head) && SpacedText(tail) && ' ' in tail
    ensures var p := head + "%2E" + tail;
            UrlPath.EscapesOk(p) && !UrlPath.ValidEncoded(p, UrlPath.PathMode)
  {
    var p := head + "%2E" + tail;
    SpacedTextFacts(head);
    SpacedTextFacts(tail);
    RegroupEscapedDot(head, tail);
    UrlPath.EscapesOkAppend(head, "%2E" + tail);
    UrlPath.EscapesOkWithoutPercent(tail);
    var j :| 0 <= j < |tail| && tail[j] == ' ';
    assert p[|head| + 3 + j] == ' ';
  }

  lemma RegroupEscapedDot(head: string, tail: string)
    ensures head + "%2E" + tail == head + ("%2E" + tail)
    ensures ("%2E" + tail)[3..] == tail
  {
  }

  /** Unescaping the bytes around `%2E` yields a dot (byte 46) there. */
  lemma DotUnescape(head: string, tail: string)
    requires SpacedText(head) && SpacedText(tail)
    ensures UrlPath.Unescape(UrlPath.Utf8(head + "%2E" + tail)) ==
            UrlPath.Utf8(head) + [46] + UrlPath.Utf8(tail)
  {
    SpacedTextFacts(head);
    SpacedTextFacts(tail);
    RegroupEscapedDot(head, tail);
    UrlPath.Utf8Append(head, "%2E" + tail);
    UrlPath.Utf8Append("%2E", tail);
    assert UrlPath.Utf8("%2E") == [37, 50, 69];
    var hb := UrlPath.Utf8(head);
    var tb := UrlPath.Utf8(tail);
    UrlPath.Utf8WithoutPercent(head);
    UrlPath.Utf8WithoutPercent(tail);
    DotUnescapeBytes(hb, tb);
  }

  lemma DotUnescapeBytes(hb: seq<UrlPath.Byte>, tb: seq<UrlPath.Byte>)
    requires '%' as int !in hb && '%' as int !in tb
    ensures UrlPath.Unescape(hb + ([37, 50, 69] + tb)) == hb + [46] + tb
  {
    UrlPath.UnescapeAppend(hb, [37, 50, 69] + tb);
    UrlPath.UnescapeWithoutPercent(hb);
    assert ([37, 50, 69] + tb)[3..] == tb;
    UrlPath.UnescapeWithoutPercent(tb);
    assert UrlPath.Unescape([37, 50, 69] + tb) == [46] + tb;
    assert hb + ([46] + tb) == hb + [46] + tb;
  }

  lemma DotBytes(head: string, y: string)
    requires AllPlain(head) && Word(y)
    ensures UrlPath.Escape(UrlPath.Utf8(head) + [46] + UrlPath.Utf8(" " + y), UrlPath.PathMode) ==
            head + "." + ("%20" + y)
  {
    UrlPath.EscapeAppend(UrlPath.Utf8(head) + [46], UrlPath.Utf8(" " + y), UrlPath.PathMode);
    EscapeDotAfter(head);
    EscapeSpaceWord(y);
  }

  lemma EscapeDotAfter(head: string)
    requires AllPlain(head)
    ensures UrlPath.Escape(UrlPath.Utf8(head) + [46], UrlPath.PathMode) == head + "."
  {
    UrlPath.EscapeAppend(UrlPath.Utf8(head), [46], UrlPath.PathMode);
    UrlPath.EscapePlain(head, UrlPath.PathMode);
    assert UrlPath.Escape([46], UrlPath.PathMode) == ".";
  }

  lemma EscapeSpaceWord(y: string)
    requires Word(y)
    ensures UrlPath.Escape(UrlPath.Utf8(" " + y), UrlPath.PathMode) == "%20" + y
  {
    UrlPath.Utf8Append(" ", y);
    assert UrlPath.Utf8(" ") == [32];
    UrlPath.EscapeAppend([32], UrlPath.Utf8(y), UrlPath.PathMode);
    UrlPath.EscapePlain(y, UrlPath.PathMode);
    assert UrlPath.Escape([32], UrlPath.PathMode) == "%20";
  }

  /** An escaped `.` is decoded once the path also holds a character that
      has to be escaped, so the canonical form can hold a `.` although the
      removal step ran ("a%2E b" gives "/a.%20b"). */
  lemma EscapedDotDecoded(x: string, y: string)
    requires Word(x) && Word(y)
    ensures CanonicalizePath(x + "%2E " + y) == Ok("/" + x + ".%20" + y)
  {
    DotRewrite(x, y);
    DotNotReserved(x, y);
    DotCanonical(x, y);
    CanonicalFromParse(x + "%2E " + y, ("/" + x) + "%2E" + (" " + y), "/" + x + ".%20" + y);
  }

  /** What the URL parser makes of the rewritten path. */
  lemma DotCanonical(x: string, y: string)
    requires Word(x) && Word(y)
    ensures UrlPath.Parse(("/" + x) + "%2E" + (" " + y)) == UrlPath.Url("/" + x + ".%20" + y)
  {
    var head := "/" + x;
    DotPieces(x, y);
    DotParse(head, " " + y);
    SlashWordPlain(x);
    DotBytes(head, y);
    RegroupDot(x, y);
  }

  /** The two pieces around the escaped dot are spaced text. */
  lemma DotPieces(x: string, y: string)
    requires Word(x) && Word(y)
    ensures SpacedText("/" + x) && SpacedText(" " + y) && ' ' in " " + y
  {
    var head := "/" + x;
    var tail := " " + y;
    forall i | 0 <= i < |head| ensures head[i] == ' ' || head[i] == '/' || UrlPath.IsAlnum(head[i] as int) {
      if i > 0 { assert head[i] == x[i - 1]; }
    }
    forall i | 0 <= i < |tail| ensures tail[i] == ' ' || tail[i] == '/' || UrlPath.IsAlnum(tail[i] as int) {
      if i > 0 { assert tail[i] == y[i - 1]; }
    }
    assert tail[0] == ' ';
  }

  /** A rewrite that is not reserved and parses to `out` canonicalises to
      `out`. */
  lemma CanonicalFromParse(path: string, q: string, out: string)
    requires Process(path) == q && !Reserved(q) && UrlPath.Parse(q) == UrlPath.Url(out)
    ensures CanonicalizePath(path) == Ok(out)
  {
    CanonicalizePathParses(path);
  }

  // ---------------------------------------------------------------------
  // A bad escape

  /** `x%y`, where `y` does not begin with a hex digit, holds a `%` that
      starts no escape. The error names the rewritten path; its reason
      quotes that path as the URL parser's error does, then the escape cut
      to three bytes: "a%zz" fails with
      `path is invalid url: parse "/a%zz": invalid URL escape "%zz"`. */
  lemma BadEscapeReason(x: string, y: string)
    requires Word(x) && Word(y) && !UrlPath.IsHex(y[0])
    ensures var q, e := "/" + x + "%" + y, y[..if |y| < 2 then |y| else 2];
            CanonicalizePath(x + "%" + y) ==
            Err(InvalidPath(q, "path is invalid url: parse \"" + q + "\": invalid URL escape \"%" + e + "\""))
  {
    var q := "/" + x + "%" + y;
    PercentRewrite(x, y);
    BadEscapeParse(x, y);
    EscapeSnippet(y);
    BadEscapeText(q, y[..if |y| < 2 then |y| else 2], "%" + y);
    CanonicalFromBadParse(x + "%" + y, q, UrlPath.ParseError(q, UrlPath.EscapeErrorText("%" + y)));
  }

  /** `x%y` is rewritten to `/x%y`, which is not reserved. */
  lemma PercentRewrite(x: string, y: string)
    requires Word(x) && Word(y)
    ensures Process(x + "%" + y) == "/" + x + "%" + y
    ensures !Reserved("/" + x + "%" + y)
  {
    var q := "/" + x + "%" + y;
    PercentChars(x, y);
    NoSlashRewrite(x + "%" + y);
    assert "/" + (x + "%" + y) == q;
    assert q[2] != '/';
  }

  /** The characters of `x%y`: no `_`, `.`, `-` or slash. */
  lemma PercentChars(x: string, y: string)
    requires Word(x) && Word(y)
    ensures forall i :: 0 <= i < |x + "%" + y| ==> !IsSpecial((x + "%" + y)[i]) && (x + "%" + y)[i] != '/'
  {
    var core := x + "%" + y;
    forall i | 0 <= i < |core| ensures !IsSpecial(core[i]) && core[i] != '/' {
      if i < |x| { assert core[i] == x[i]; }
      else if i > |x| { assert core[i] == y[i - |x| - 1]; }
    }
  }

  /** The URL parser gives up on `/x%y` at the `%`. */
  lemma BadEscapeParse(x: string, y: string)
    requires Word(x) && Word(y) && !UrlPath.IsHex(y[0])
    ensures UrlPath.Parse("/" + x + "%" + y) ==
            UrlPath.BadUrl(UrlPath.ParseError("/" + x + "%" + y, UrlPath.EscapeErrorText("%" + y)))
    ensures UrlPath.QuoteBody("/" + x + "%" + y) == "/" + x + "%" + y
  {
    PercentPath(x, y);
    SplitWhole("/" + x + "%" + y);
  }

  /** `/x%y` as the URL parser sees it: one part, no control character, an
      escape that fails at its `%`, and quoted as it stands. */
  lemma PercentPath(x: string, y: string)
    requires Word(x) && Word(y) && !UrlPath.IsHex(y[0])
    ensures '#' !in "/" + x + "%" + y && '?' !in "/" + x + "%" + y
    ensures !UrlPath.HasControl("/" + x + "%" + y)
    ensures !UrlPath.EscapesOk("/" + x + "%" + y) && UrlPath.BadEscape("/" + x + "%" + y) == "%" + y
    ensures UrlPath.QuoteBody("/" + x + "%" + y) == "/" + x + "%" + y
  {
    PercentPathChars(x, y);
    PercentPathPlain("/" + x + "%" + y);
    PercentPathEscape(x, y);
  }

  /** Slashes, `%`, letters and digits: one part, no control character,
      quoted as it stands. */
  lemma PercentPathPlain(q: string)
    requires forall i :: 0 <= i < |q| ==> q[i] == '/' || q[i] == '%' || UrlPath.IsAlnum(q[i] as int)
    ensures '#' !in q && '?' !in q && !UrlPath.HasControl(q)
    ensures UrlPath.QuoteBody(q) == q
  {
    forall i | 0 <= i < |q| ensures ' ' <= q[i] <= '~' && q[i] != '"' && q[i] != '\\' {
      assert q[i] == '/' || q[i] == '%' || UrlPath.IsAlnum(q[i] as int);
    }
    UrlPath.QuotePlainAscii(q);
  }

  lemma PercentPathEscape(x: string, y: string)
    requires Word(y) && !UrlPath.IsHex(y[0]) && '%' !in "/" + x
    ensures !UrlPath.EscapesOk("/" + x + "%" + y) && UrlPath.BadEscape("/" + x + "%" + y) == "%" + y
  {
    var t := "%" + y;
    assert t[1] == y[0];
    assert "/" + x + "%" + y == ("/" + x) + t;
    UrlPath.BadEscapeAfter("/" + x, t);
  }

  lemma PercentPathChars(x: string, y: string)
    requires Word(x) && Word(y)
    ensures forall i :: 0 <= i < |"/" + x + "%" + y| ==>
              var c := ("/" + x + "%" + y)[i]; c == '/' || c == '%' || UrlPath.IsAlnum(c as int)
    ensures '%' !in "/" + x && "/" + x + "%" + y == ("/" + x) + ("%" + y)
  {
    var q := "/" + x + "%" + y;
    var head := "/" + x;
    forall i | 0 <= i < |q| ensures q[i] == '/' || q[i] == '%' || UrlPath.IsAlnum(q[i] as int) {
      if 1 <= i <= |x| { assert q[i] == x[i - 1]; }
      else if i > |x| + 1 { assert q[i] == y[i - |x| - 2]; }
    }
    assert '%' !in head by {
      forall i | 0 <= i < |head| ensures head[i] != '%' {
        if i > 0 { assert head[i] == x[i - 1]; }
      }
    }
  }

  /** The reason assembled from its parts. */
  lemma BadEscapeText(q: string, e: string, t: string)
    requires UrlPath.QuoteBody(q) == q && UrlPath.QuotePrefix(t, 3) == "%" + e
    ensures "path is invalid url: " + UrlPath.ParseError(q, UrlPath.EscapeErrorText(t)) ==
            "path is invalid url: parse \"" + q + "\": invalid URL escape \"%" + e + "\""
  {
    var p, a, b, c, d, f := "path is invalid url: ", "parse ", "\"", ": ", "invalid URL escape \"", "%";
    assert UrlPath.EscapeErrorText(t) == d + (f + e) + b;
    assert UrlPath.ParseError(q, UrlPath.EscapeErrorText(t)) == a + (b + q + b) + c + (d + (f + e) + b);
    RegroupReason(p, a, b, q, c, d, f, e);
    ReasonLiterals();
  }

  lemma ReasonLiterals()
    ensures "path is invalid url: parse \"" == "path is invalid url: " + ("parse " + "\"")
    ensures "\": invalid URL escape \"%" == "\"" + ": " + "invalid URL escape \"" + "%"
  {
  }

  lemma RegroupReason(p: string, a: string, b: string, q: string, c: string, d: string, f: string, e: string)
    ensures p + (a + (b + q + b) + c + (d + (f + e) + b)) == p + (a + b) + q + (b + c + d + f) + e + b
  {
  }

  /** The escape `%y`, cut to three bytes and quoted. */
  lemma EscapeSnippet(y: string)
    requires Word(y)
    ensures UrlPath.QuotePrefix("%" + y, 3) == "%" + y[..if |y| < 2 then |y| else 2]
  {
    PercentSnippet(y);
    WordSnippet(y);
  }

  lemma PercentSnippet(y: string)
    ensures UrlPath.QuotePrefix("%" + y, 3) == "%" + UrlPath.QuotePrefix(y, 2)
  {
    var t := "%" + y;
    assert t[0] == '%' && t[1..] == y;
    UrlPath.QuotePrefixCons(t, 3);
  }

  lemma WordSnippet(y: string)
    requires Word(y)
    ensures UrlPath.QuotePrefix(y, 2) == y[..if |y| < 2 then |y| else 2]
  {
    assert UrlPath.IsAlnum(y[0] as int);
    UrlPath.QuotePrefixCons(y, 2);
    if |y| >= 2 {
      assert UrlPath.IsAlnum(y[1] as int);
      WordSnippetTail(y[1..]);
      assert y[..2] == [y[0]] + y[1..][..1];
    } else {
      assert y[1..] == [];
      assert y[..|y|] == [y[0]];
    }
  }

  lemma WordSnippetTail(z: string)
    requires z != [] && UrlPath.IsAlnum(z[0] as int)
    ensures UrlPath.QuotePrefix(z, 1) == z[..1]
  {
    UrlPath.QuotePrefixCons(z, 1);
    assert z[..1] == [z[0]];
  }

  lemma CanonicalFromBadParse(path: string, q: string, reason: string)
    requires Process(path) == q && !Reserved(q) && UrlPath.Parse(q) == UrlPath.BadUrl(reason)
    ensures CanonicalizePath(path) == Err(InvalidPath(q, "path is invalid url: " + reason))
  {
  }

  // ---------------------------------------------------------------------
  // Not a fixpoint

  /** Trimming runs before `_`, `.` and `-` are dropped, so a special
      character after the last slash leaves a trailing slash behind that a
      second canonicalisation removes ("a/_" gives "/a/", which gives "/a"). */
  lemma TrimBeforeRemovalLeavesSlash(x: string, c: char)
    requires Word(x) && x != "d" && IsSpecial(c)
    ensures CanonicalizePath(x + "/" + [c]) == Ok("/" + x + "/")
    ensures CanonicalizePath("/" + x + "/") == Ok("/" + x)
  {
    TrailingSpecialCanonical(x, c);
    OneWord("/", x, "/");
  }

  lemma TrailingSpecialCanonical(x: string, c: char)
    requires Word(x) && x != "d" && IsSpecial(c)
    ensures CanonicalizePath(x + "/" + [c]) == Ok("/" + x + "/")
  {
    TrailingSpecialRewrite(x, c);
    PlainRewriteIsCanonical(x + "/" + [c]);
  }

  lemma TrailingSpecialRewrite(x: string, c: char)
    requires Word(x) && x != "d" && IsSpecial(c)
    ensures Process(x + "/" + [c]) == "/" + x + "/"
    ensures AllPlain("/" + x + "/") && !Reserved("/" + x + "/")
  {
    TrailingSteps(x, c);
    RegroupTrailing(x, c);
    ProcessSteps(x + "/" + [c], (x + "/") + [c], x + "/", x + "/");
  }

  lemma TrailingSteps(x: string, c: char)
    requires Word(x) && x != "d" && IsSpecial(c)
    ensures Trim((x + "/") + [c], '/') == (x + "/") + [c]
    ensures RemoveSpecial((x + "/") + [c]) == x + "/"
    ensures CollapseSlashes(x + "/") == x + "/"
    ensures AllPlain("/" + x + "/") && !Reserved("/" + x + "/")
  {
    WordThenSlash(x);
    EndsClear(x + "/", c);
    TrailingRemove(x + "/", c);
    TrailingCollapse(x);
  }

  lemma TrailingRemove(kept: string, c: char)
    requires AllPlain(kept) && IsSpecial(c)
    ensures RemoveSpecial(kept + [c]) == kept
  {
    RemoveSpecialAppend(kept, [c]);
    PlainHasNoSpecial(kept);
    assert RemoveSpecial([c]) == [];
    assert kept + [] == kept;
  }

  lemma TrailingCollapse(x: string)
    requires Word(x)
    ensures CollapseSlashes(x + "/") == x + "/"
  {
    CollapseAfterWord(x, "/");
  }

  /** A word and a slash, after a slash: plain, and not reserved if the word
      is not `d`. */
  lemma WordThenSlash(x: string)
    requires Word(x) && x != "d"
    ensures AllPlain(x + "/")
    ensures AllPlain("/" + x + "/") && !Reserved("/" + x + "/")
  {
    var kept := x + "/";
    forall i | 0 <= i < |kept| ensures IsPlainChar(kept[i]) {
      if i < |x| { assert kept[i] == x[i]; }
    }
    var p := "/" + x + "/";
    forall i | 0 <= i < |p| ensures IsPlainChar(p[i]) {
      if 1 <= i <= |x| { assert p[i] == x[i - 1]; }
    }
    if |x| == 1 { assert x == [x[0]]; } else { assert p[2] == x[1]; }
  }

  /** Nothing to trim from `s + [c]` when `s` starts with a word and `c` is
      not a slash. */
  lemma EndsClear(s: string, c: char)
    requires s != [] && s[0] != '/' && c != '/'
    ensures Trim(s + [c], '/') == s + [c]
  {
    var t := s + [c];
    assert t == "" + t + "";
    assert t[0] == s[0] && t[|t| - 1] == c;
    TrimCharacterization("", t, "", '/');
  }

  lemma RegroupTrailing(x: string, c: char)
    ensures x + "/" + [c] == (x + "/") + [c]
    ensures "/" + (x + "/") == "/" + x + "/"
  {
  }

  lemma {:induction false} RemoveSpecialAppend(a: string, b: string)
    ensures RemoveSpecial(a + b) == RemoveSpecial(a) + RemoveSpecial(b)
  {
    if a == [] {
      assert a + b == b;
    } else {
      assert (a + b)[0] == a[0] && (a + b)[1..] == a[1..] + b;
      RemoveSpecialAppend(a[1..], b);
    }
  }
}
