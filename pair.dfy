/** The path -> URL record and its two collection views (pkg/types/pair.go).

    A `*PathUrlPair` is modelled by the value `Pair`; a nil pointer, where the
    Go code tests for one, by `None`. A `PathUrlPairMap` is a
    `map<string, Pair>`, a `PathUrlPairList` a `seq<Pair>`. */
module Pairs {
  import opened Errors

  datatype Pair = Pair(path: string, url: string, mapper: string, useCount: int)

  /** `String`: `'<path>' -> '<url>'`; the backend name and the use count are
      not shown. */
  function String(p: Pair): (s: string)
    ensures |s| == |p.path| + |p.url| + 8
    ensures s[..|p.path| + 2] == "'" + p.path + "'"
    ensures s[|p.path| + 2..|p.path| + 6] == " -> "
    ensures s[|p.path| + 6..] == "'" + p.url + "'"
  {
    "'" + p.path + "' -> '" + p.url + "'"
  }

  /** `Clone`: a new record holding the same four fields. */
  function Clone(p: Pair): (c: Pair)
    ensures c.path == p.path && c.url == p.url && c.mapper == p.mapper && c.useCount == p.useCount
  {
    Pair(p.path, p.url, p.mapper, p.useCount)
  }

  // ---------------------------------------------------------------------
  // The three equality relations

  /** Pair `Equals`: two nil pairs are equal, a nil and a non-nil one are
      not, and two records are equal when path and URL agree. */
  predicate PairEquals(p: Option<Pair>, q: Option<Pair>)
  {
    if p.None? && q.None? then true
    else if p.None? || q.None? then false
    else p.value.path == q.value.path && p.value.url == q.value.url
  }

  /** Map `Equals`: nil equals only nil; otherwise the maps have the same
      size and every key of the first maps to a pair-equal value in the
      second. */
  predicate MapEquals(m: Option<map<string, Pair>>, o: Option<map<string, Pair>>)
  {
    if m.None? && o.None? then true
    else if m.None? || o.None? then false
    else
      |m.value| == |o.value| &&
      forall k :: k in m.value ==> k in o.value && PairEquals(Some(m.value[k]), Some(o.value[k]))
  }

  lemma PairEqualsIsEquivalence(p: Option<Pair>, q: Option<Pair>, r: Option<Pair>)
    ensures PairEquals(p, p)
    ensures PairEquals(p, q) == PairEquals(q, p)
    ensures PairEquals(p, q) && PairEquals(q, r) ==> PairEquals(p, r)
  {
  }

  /** Pair equality ignores the backend name and the use count. */
  lemma PairEqualsIgnoresMetadata(p: Pair, mapper: string, useCount: int)
    ensures PairEquals(Some(p), Some(p.(mapper := mapper, useCount := useCount)))
    ensures p.mapper != mapper ==> p != p.(mapper := mapper, useCount := useCount)
  {
  }

  lemma SubsetOfSameSize<T>(a: set<T>, b: set<T>)
    requires a <= b && |a| == |b|
    ensures a == b
  {
    if a != b {
      var x :| x in b && x !in a;
      assert a <= b - {x};
      assert |b - {x}| == |b| - 1;
      SubsetSize(a, b - {x});
    }
  }

  lemma SubsetSize<T>(a: set<T>, b: set<T>)
    requires a <= b
    ensures |a| <= |b|
  {
    assert b == a + (b - a);
  }

  /** Map `Equals` holds exactly when the two maps have the same keys and
      pair-equal values under every key. */
  lemma MapEqualsIffSameKeys(m: map<string, Pair>, o: map<string, Pair>)
    ensures MapEquals(Some(m), Some(o)) <==>
              m.Keys == o.Keys && forall k :: k in m ==> PairEquals(Some(m[k]), Some(o[k]))
  {
    if MapEquals(Some(m), Some(o)) {
      assert m.Keys <= o.Keys;
      assert |m.Keys| == |m| == |o| == |o.Keys|;
      SubsetOfSameSize(m.Keys, o.Keys);
    }
    if m.Keys == o.Keys {
      assert |m| == |m.Keys| == |o.Keys| == |o|;
    }
  }

  /** Map `Equals` is symmetric, although its loop only walks the first map. */
  lemma MapEqualsSymmetric(m: Option<map<string, Pair>>, o: Option<map<string, Pair>>)
    ensures MapEquals(m, o) == MapEquals(o, m)
  {
    if m.Some? && o.Some? {
      MapEqualsIffSameKeys(m.value, o.value);
      MapEqualsIffSameKeys(o.value, m.value);
    }
  }

  // ---------------------------------------------------------------------
  // Conversions between the two collection views

  /** `keys` lists every key of `m` exactly once. */
  ghost predicate Enumerates(keys: seq<string>, m: map<string, Pair>)
  {
    && (forall i, j :: 0 <= i < j < |keys| ==> keys[i] != keys[j])
    && (forall k :: k in m <==> k in keys)
  }

  /** `l` holds the values of `m`, one per key, in the order `keys` gives. */
  ghost predicate Lists(l: seq<Pair>, m: map<string, Pair>, keys: seq<string>)
  {
    && Enumerates(keys, m)
    && |l| == |keys|
    && forall i :: 0 <= i < |l| ==> keys[i] in m && l[i] == m[keys[i]]
  }

  /** `ToList`: one cloned element per entry of the map, in the map's
      (unspecified) iteration order. */
  method ToList(m: map<string, Pair>) returns (l: seq<Pair>, ghost keys: seq<string>)
    ensures Lists(l, m, keys)
    ensures |l| == |m|
  {
    l, keys := [], [];
    var rest := m.Keys;
    while rest != {}
      invariant rest <= m.Keys
      invariant forall k :: k in m ==> (k in rest <==> k !in keys)
      invariant forall i, j :: 0 <= i < j < |keys| ==> keys[i] != keys[j]
      invariant |l| == |keys| && |keys| + |rest| == |m|
      invariant forall i :: 0 <= i < |l| ==> keys[i] in m && l[i] == m[keys[i]]
      decreases |rest|
    {
      var k :| k in rest;
      var copy := Clone(m[k]);
      assert k !in keys;
      l := l + [copy];
      keys := keys + [k];
      rest := rest - {k};
    }
  }

  /** No element after index `i` has the same path as `l[i]`. */
  ghost predicate LastWithPath(l: seq<Pair>, i: int)
    requires 0 <= i < |l|
  {
    forall j :: i < j < |l| ==> l[j].path != l[i].path
  }

  function Paths(l: seq<Pair>): (ps: set<string>)
    ensures forall i :: 0 <= i < |l| ==> l[i].path in ps
    ensures forall p :: p in ps ==> exists i :: 0 <= i < |l| && l[i].path == p
  {
    set i | 0 <= i < |l| :: l[i].path
  }

  /** The paths of a concatenation are the paths of its parts. */
  lemma PathsAppend(a: seq<Pair>, b: seq<Pair>)
    ensures Paths(a + b) == Paths(a) + Paths(b)
  {
    var l := a + b;
    forall p | p in Paths(l) ensures p in Paths(a) + Paths(b) {
      var i :| 0 <= i < |l| && l[i].path == p;
      if i < |a| { assert a[i] == l[i]; } else { assert b[i - |a|] == l[i]; }
    }
    forall p | p in Paths(a) + Paths(b) ensures p in Paths(l) {
      if p in Paths(a) {
        var i :| 0 <= i < |a| && a[i].path == p;
        assert l[i] == a[i];
      } else {
        var i :| 0 <= i < |b| && b[i].path == p;
        assert l[|a| + i] == b[i];
      }
    }
  }

  lemma PathsSnoc(init: seq<Pair>, last: Pair)
    ensures Paths(init + [last]) == Paths(init) + {last.path}
  {
    var l := init + [last];
    forall p | p in Paths(l) ensures p in Paths(init) + {last.path} {
      var i :| 0 <= i < |l| && l[i].path == p;
      if i < |init| { assert init[i] == l[i]; }
    }
    forall p | p in Paths(init) ensures p in Paths(l) {
      var i :| 0 <= i < |init| && init[i].path == p;
      assert l[i] == init[i];
    }
    assert l[|init|].path == last.path;
  }

  /** The map `ToMap` builds: every element keyed by its path, a later
      element replacing an earlier one with the same path. */
  function ByPath(l: seq<Pair>): (m: map<string, Pair>)
    ensures m.Keys == Paths(l)
  {
    if l == [] then map[]
    else
      var init, last := l[..|l| - 1], l[|l| - 1];
      assert l == init + [last];
      PathsSnoc(init, last);
      ByPath(init)[last.path := last]
  }

  /** Under each path the map holds the last element with that path. */
  lemma {:induction false} ByPathLast(l: seq<Pair>, i: int)
    requires 0 <= i < |l| && LastWithPath(l, i)
    ensures ByPath(l)[l[i].path] == l[i]
  {
    var init, last := l[..|l| - 1], l[|l| - 1];
    if i < |l| - 1 {
      assert init[i] == l[i];
      assert LastWithPath(init, i);
      ByPathLast(init, i);
    }
  }

  /** `ToMap`: a cloned element under each path of the list, the later one
      winning when paths repeat. */
  method ToMap(l: seq<Pair>) returns (m: map<string, Pair>)
    ensures m == ByPath(l)
  {
    m := map[];
    for i := 0 to |l|
      invariant m == ByPath(l[..i])
    {
      assert l[..i + 1][..i] == l[..i];
      m := m[l[i].path := Clone(l[i])];
    }
    assert l[..|l|] == l;
  }

  /** The map `ToMap` builds has exactly one entry per distinct path, and
      that entry is the last element with that path. */
  lemma {:induction false} ByPathHoldsLastElement(l: seq<Pair>, p: string)
    requires p in ByPath(l)
    ensures exists i :: 0 <= i < |l| && l[i].path == p && LastWithPath(l, i) && ByPath(l)[p] == l[i]
  {
    var i :| 0 <= i < |l| && l[i].path == p;
    while !LastWithPath(l, i)
      invariant 0 <= i < |l| && l[i].path == p
      decreases |l| - i
    {
      var j :| i < j < |l| && l[j].path == l[i].path;
      i := j;
    }
    ByPathLast(l, i);
  }

  /** `Clone` of a list: same length, an equal element at every index. */
  method CloneList(l: seq<Pair>) returns (c: seq<Pair>)
    ensures |c| == |l| && forall i :: 0 <= i < |l| ==> c[i] == l[i]
  {
    c := [];
    for i := 0 to |l|
      invariant |c| == i && forall j :: 0 <= j < i ==> c[j] == l[j]
    {
      c := c + [Clone(l[i])];
    }
  }

  /** `Clone` of a map: the same keys, an equal value under each key. */
  method CloneMap(m: map<string, Pair>) returns (c: map<string, Pair>)
    ensures c.Keys == m.Keys && forall k :: k in m ==> c[k] == m[k]
  {
    c := map[];
    var rest := m.Keys;
    while rest != {}
      invariant rest <= m.Keys
      invariant c.Keys == m.Keys - rest
      invariant forall k :: k in c ==> c[k] == m[k]
      decreases |rest|
    {
      var k :| k in rest;
      c := c[k := Clone(m[k])];
      rest := rest - {k};
    }
  }

  // ---------------------------------------------------------------------
  // List `Equals`: a stable sort by path of both arguments, in place, then
  // a comparison of whole records

  /** Go's `<` on strings: lexicographic by character code. */
  predicate StrLess(a: string, b: string)
  {
    if |b| == 0 then false
    else if |a| == 0 then true
    else if a[0] != b[0] then a[0] < b[0]
    else StrLess(a[1..], b[1..])
  }

  lemma {:induction false} StrLessIrreflexive(a: string)
    ensures !StrLess(a, a)
  {
    if |a| > 0 { StrLessIrreflexive(a[1..]); }
  }

  lemma {:induction false} StrLessTransitive(a: string, b: string, c: string)
    requires StrLess(a, b) && StrLess(b, c)
    ensures StrLess(a, c)
  {
    if |a| > 0 && |b| > 0 && |c| > 0 && a[0] == b[0] && b[0] == c[0] {
      StrLessTransitive(a[1..], b[1..], c[1..]);
    }
  }

  lemma {:induction false} StrLessTotal(a: string, b: string)
    ensures a == b || StrLess(a, b) || StrLess(b, a)
  {
    if |a| > 0 && |b| > 0 && a[0] == b[0] {
      StrLessTotal(a[1..], b[1..]);
      if a[1..] == b[1..] {
        assert a == [a[0]] + a[1..] && b == [b[0]] + b[1..];
      }
    }
  }

  lemma StrLessAsymmetric(a: string, b: string)
    ensures !(StrLess(a, b) && StrLess(b, a))
  {
    if StrLess(a, b) && StrLess(b, a) {
      StrLessTransitive(a, b, a);
      StrLessIrreflexive(a);
    }
  }

  ghost predicate SortedByPath(s: seq<Pair>)
  {
    forall i, j :: 0 <= i < j < |s| ==> !StrLess(s[j].path, s[i].path)
  }

  /** Puts `x` after every element of `s` whose path is not greater. */
  function InsertByPath(x: Pair, s: seq<Pair>): seq<Pair>
  {
    if s == [] then [x]
    else if StrLess(x.path, s[0].path) then [x] + s
    else [s[0]] + InsertByPath(x, s[1..])
  }

  /** The order `sort.SliceStable` by path leaves a list in: sorted by path,
      elements with equal paths in their original order. */
  function SortByPath(s: seq<Pair>): seq<Pair>
  {
    if s == [] then [] else InsertByPath(s[|s| - 1], SortByPath(s[..|s| - 1]))
  }

  lemma InsertByPathFacts(x: Pair, s: seq<Pair>)
    ensures multiset(InsertByPath(x, s)) == multiset(s) + multiset{x}
    ensures |InsertByPath(x, s)| == |s| + 1
    ensures SortedByPath(s) ==> SortedByPath(InsertByPath(x, s))
  {
    InsertByPathPerm(x, s);
    if SortedByPath(s) {
      InsertByPathSorted(x, s);
    }
  }

  /** Inserting adds exactly `x`. */
  lemma {:induction false} InsertByPathPerm(x: Pair, s: seq<Pair>)
    ensures multiset(InsertByPath(x, s)) == multiset(s) + multiset{x}
    ensures |InsertByPath(x, s)| == |s| + 1
  {
    if s != [] && !StrLess(x.path, s[0].path) {
      InsertByPathPerm(x, s[1..]);
      assert s == [s[0]] + s[1..];
    }
  }

  /** Inserting into a sorted list keeps it sorted. */
  lemma {:induction false} InsertByPathSorted(x: Pair, s: seq<Pair>)
    requires SortedByPath(s)
    ensures SortedByPath(InsertByPath(x, s))
  {
    if s != [] && !StrLess(x.path, s[0].path) {
      var rest := s[1..];
      assert SortedByPath(rest) by {
        assert forall i :: 0 <= i < |rest| ==> rest[i] == s[i + 1];
      }
      InsertByPathSorted(x, rest);
      InsertByPathPerm(x, rest);
      var t := InsertByPath(x, rest);
      forall k | 0 <= k < |t| ensures !StrLess(t[k].path, s[0].path) {
        assert t[k] in multiset(t);
        if t[k] != x {
          assert t[k] in multiset(rest);
          var m :| 0 <= m < |rest| && rest[m] == t[k];
          assert s[m + 1] == t[k];
        }
      }
      ConsSorted(s[0], t);
    } else if s != [] {
      InsertFrontSorted(x, s);
    }
  }

  /** A sorted list stays sorted under a head no greater than any of it. */
  lemma ConsSorted(h: Pair, t: seq<Pair>)
    requires SortedByPath(t) && forall k :: 0 <= k < |t| ==> !StrLess(t[k].path, h.path)
    ensures SortedByPath([h] + t)
  {
    var r := [h] + t;
    forall i, j | 0 <= i < j < |r| ensures !StrLess(r[j].path, r[i].path) {
      assert r[j] == t[j - 1];
      if i > 0 { assert r[i] == t[i - 1]; }
    }
  }

  /** `x` below the head of a sorted list goes first. */
  lemma InsertFrontSorted(x: Pair, s: seq<Pair>)
    requires s != [] && SortedByPath(s) && StrLess(x.path, s[0].path)
    ensures SortedByPath([x] + s)
  {
    var r := [x] + s;
    forall i, j | 0 <= i < j < |r| ensures !StrLess(r[j].path, r[i].path) {
      if i == 0 {
        if StrLess(r[j].path, x.path) {
          if j == 1 {
            StrLessAsymmetric(x.path, s[0].path);
          } else {
            StrLessTotal(s[0].path, s[j - 1].path);
            if s[0].path == s[j - 1].path {
              StrLessAsymmetric(x.path, s[0].path);
            } else {
              StrLessTransitive(s[j - 1].path, x.path, s[0].path);
            }
          }
        }
      }
    }
  }

  /** The stable sort returns a sorted permutation of its argument. */
  lemma {:induction false} SortByPathFacts(s: seq<Pair>)
    ensures multiset(SortByPath(s)) == multiset(s)
    ensures |SortByPath(s)| == |s|
    ensures SortedByPath(SortByPath(s))
  {
    if s != [] {
      var init, last := s[..|s| - 1], s[|s| - 1];
      SortByPathFacts(init);
      InsertByPathFacts(last, SortByPath(init));
      LastSplit(s);
    }
  }

  /** The elements of `s` whose path is `k`, in their order in `s`. */
  function WithPath(s: seq<Pair>, k: string): seq<Pair>
  {
    if s == [] then [] else (if s[0].path == k then [s[0]] else []) + WithPath(s[1..], k)
  }

  /** Sorting is stable: the elements with any one path keep their order. */
  lemma {:induction false} SortByPathStable(s: seq<Pair>, k: string)
    ensures WithPath(SortByPath(s), k) == WithPath(s, k)
  {
    if s != [] {
      var init, last := s[..|s| - 1], s[|s| - 1];
      var sorted := SortByPath(init);
      assert SortByPath(s) == InsertByPath(last, sorted);
      SortByPathStable(init, k);
      SortByPathFacts(init);
      InsertWithPath(last, sorted, k);
      WithPathSnoc(s, k);
    }
  }

  /** Dropping the last element of `s` drops at most that element. */
  lemma WithPathSnoc(s: seq<Pair>, k: string)
    requires s != []
    ensures WithPath(s, k) == WithPath(s[..|s| - 1], k) + (if s[|s| - 1].path == k then [s[|s| - 1]] else [])
  {
    var init, last := s[..|s| - 1], s[|s| - 1];
    assert s == init + [last];
    WithPathAppend(init, [last], k);
    WithPathCons(last, [], k);
    assert [last] + [] == [last];
  }

  lemma {:induction false} WithPathAppend(a: seq<Pair>, b: seq<Pair>, k: string)
    ensures WithPath(a + b, k) == WithPath(a, k) + WithPath(b, k)
  {
    if a == [] {
      assert a + b == b;
    } else {
      assert a == [a[0]] + a[1..];
      assert a + b == [a[0]] + (a[1..] + b);
      WithPathCons(a[0], a[1..] + b, k);
      WithPathCons(a[0], a[1..], k);
      WithPathAppend(a[1..], b, k);
    }
  }

  lemma WithPathCons(x: Pair, t: seq<Pair>, k: string)
    ensures WithPath([x] + t, k) == (if x.path == k then [x] else []) + WithPath(t, k)
  {
    assert ([x] + t)[0] == x && ([x] + t)[1..] == t;
  }

  /** Inserting `x` into a sorted list puts it after the elements with its path. */
  lemma {:induction false} InsertWithPath(x: Pair, s: seq<Pair>, k: string)
    requires SortedByPath(s)
    ensures WithPath(InsertByPath(x, s), k) == WithPath(s, k) + (if x.path == k then [x] else [])
  {
    var xs := if x.path == k then [x] else [];
    if s == [] {
      WithPathCons(x, [], k);
      assert [x] + [] == [x];
    } else if StrLess(x.path, s[0].path) {
      assert InsertByPath(x, s) == [x] + s;
      WithPathCons(x, s, k);
      if x.path == k {
        NoneAbove(s, k);
      }
    } else {
      var rest := s[1..];
      assert SortedByPath(rest) by {
        assert forall i :: 0 <= i < |rest| ==> rest[i] == s[i + 1];
      }
      InsertWithPath(x, rest, k);
      InsertBehindHead(x, s, k);
    }
  }

  /** The step of `InsertWithPath` past a head no greater than `x`. */
  lemma InsertBehindHead(x: Pair, s: seq<Pair>, k: string)
    requires s != [] && !StrLess(x.path, s[0].path)
    requires WithPath(InsertByPath(x, s[1..]), k) == WithPath(s[1..], k) + (if x.path == k then [x] else [])
    ensures WithPath(InsertByPath(x, s), k) == WithPath(s, k) + (if x.path == k then [x] else [])
  {
    var rest := s[1..];
    var inserted := InsertByPath(x, rest);
    assert InsertByPath(x, s) == [s[0]] + inserted;
    WithPathCons(s[0], inserted, k);
    var wr := WithPath(rest, k);
    if s[0].path == k {
      assert WithPath(s, k) == [s[0]] + wr;
      if x.path == k {
        assert [s[0]] + (wr + [x]) == ([s[0]] + wr) + [x];
      }
    } else {
      assert [] + WithPath(inserted, k) == WithPath(inserted, k);
      assert WithPath(s, k) == wr;
    }
  }

  /** A sorted list whose head is above `k` holds no element with path `k`. */
  lemma NoneAbove(s: seq<Pair>, k: string)
    requires s != [] && SortedByPath(s) && StrLess(k, s[0].path)
    ensures WithPath(s, k) == []
  {
    forall i | 0 <= i < |s| ensures s[i].path != k {
      if i == 0 {
        StrLessIrreflexive(k);
      }
    }
    WithPathNone(s, k);
  }

  lemma {:induction false} WithPathNone(s: seq<Pair>, k: string)
    requires forall i :: 0 <= i < |s| ==> s[i].path != k
    ensures WithPath(s, k) == []
  {
    if s != [] {
      WithPathNone(s[1..], k);
    }
  }

  lemma LastSplit(s: seq<Pair>)
    requires s != []
    ensures multiset(s) == multiset(s[..|s| - 1]) + multiset{s[|s| - 1]}
  {
    assert s == s[..|s| - 1] + [s[|s| - 1]];
  }

  lemma {:induction false} InsertLastByPath(x: Pair, s: seq<Pair>)
    requires forall i :: 0 <= i < |s| ==> !StrLess(x.path, s[i].path)
    ensures InsertByPath(x, s) == s + [x]
  {
    if s != [] {
      InsertLastByPath(x, s[1..]);
    }
  }

  /** Sorting an already sorted list changes nothing; so sorting the same
      slice twice gives the order sorting it once does. */
  lemma {:induction false} SortOfSorted(s: seq<Pair>)
    requires SortedByPath(s)
    ensures SortByPath(s) == s
  {
    if s != [] {
      var init := s[..|s| - 1];
      assert SortedByPath(init);
      SortOfSorted(init);
      InsertLastByPath(s[|s| - 1], init);
      assert s == init + [s[|s| - 1]];
    }
  }

  ghost predicate DistinctPaths(s: seq<Pair>)
  {
    forall i, j :: 0 <= i < j < |s| ==> s[i].path != s[j].path
  }

  /** In a sorted list with distinct paths the first path is below all others. */
  lemma HeadBelow(s: seq<Pair>, m: int)
    requires SortedByPath(s) && DistinctPaths(s) && 0 < m < |s|
    ensures StrLess(s[0].path, s[m].path)
  {
    StrLessTotal(s[0].path, s[m].path);
  }

  lemma HeadsEqual(a: seq<Pair>, b: seq<Pair>)
    requires SortedByPath(a) && SortedByPath(b) && DistinctPaths(a) && DistinctPaths(b)
    requires multiset(a) == multiset(b) && a != []
    ensures b != [] && a[0] == b[0]
  {
    assert a[0] in multiset(b);
    assert b[0] in multiset(a);
    var k :| 0 <= k < |b| && b[k] == a[0];
    var j :| 0 <= j < |a| && a[j] == b[0];
    StrLessAsymmetric(a[0].path, b[0].path);
    StrLessIrreflexive(a[0].path);
    if k > 0 {
      HeadBelow(b, k);
      if j > 0 {
        HeadBelow(a, j);
      }
      assert false;
    }
  }

  lemma TailFacts(s: seq<Pair>)
    requires s != []
    ensures s == [s[0]] + s[1..]
    ensures multiset(s[1..]) == multiset(s) - multiset{s[0]}
    ensures SortedByPath(s) ==> SortedByPath(s[1..])
    ensures DistinctPaths(s) ==> DistinctPaths(s[1..])
  {
    assert s == [s[0]] + s[1..];
  }

  lemma {:induction false} SortedDistinctUnique(a: seq<Pair>, b: seq<Pair>)
    requires SortedByPath(a) && SortedByPath(b) && DistinctPaths(a) && DistinctPaths(b)
    requires multiset(a) == multiset(b)
    ensures a == b
  {
    if a != [] {
      HeadsEqual(a, b);
      TailFacts(a);
      TailFacts(b);
      SortedDistinctUnique(a[1..], b[1..]);
      assert a == [a[0]] + a[1..] && b == [b[0]] + b[1..];
    } else {
      assert |b| == |multiset(b)| == 0;
    }
  }

  /** The sorted order is a permutation of the argument, so sorting cannot
      turn lists with different elements into equal ones; and for lists whose
      paths are distinct, such as the ones `ToList` produces from a map,
      equal multisets of elements give equal sorted orders. */
  lemma SortByPathDecidesPermutation(a: seq<Pair>, b: seq<Pair>)
    ensures SortByPath(a) == SortByPath(b) ==> multiset(a) == multiset(b)
    ensures DistinctPaths(a) && DistinctPaths(b) && multiset(a) == multiset(b) ==>
              SortByPath(a) == SortByPath(b)
  {
    SortByPathFacts(a);
    SortByPathFacts(b);
    if DistinctPaths(a) && DistinctPaths(b) && multiset(a) == multiset(b) {
      DistinctPathsPermutation(a, SortByPath(a));
      DistinctPathsPermutation(b, SortByPath(b));
      SortedDistinctUnique(SortByPath(a), SortByPath(b));
    }
  }

  lemma DistinctPathsPermutation(a: seq<Pair>, b: seq<Pair>)
    requires DistinctPaths(a) && multiset(a) == multiset(b)
    ensures DistinctPaths(b)
  {
    forall i, j | 0 <= i < j < |b| ensures b[i].path != b[j].path {
      if b[i].path == b[j].path {
        assert b[i] in multiset(a) && b[j] in multiset(a);
        var x :| 0 <= x < |a| && a[x] == b[i];
        var y :| 0 <= y < |a| && a[y] == b[j];
        if x == y {
          // b[i] == b[j] then occurs twice in b but once in a
          assert b[i] == b[j];
          var bb := b[..i] + b[i + 1..];
          assert b == b[..i] + [b[i]] + b[i + 1..];
          assert multiset(b)[b[i]] >= 2 by {
            assert b[j] in multiset(b[i + 1..]) by {
              assert b[i + 1..][j - i - 1] == b[j];
            }
          }
          MultiplicityOneInDistinct(a, x);
        }
      }
    }
  }

  lemma MultiplicityOneInDistinct(a: seq<Pair>, x: int)
    requires DistinctPaths(a) && 0 <= x < |a|
    ensures multiset(a)[a[x]] == 1
  {
    assert a == a[..x] + [a[x]] + a[x + 1..];
    assert forall y :: 0 <= y < x ==> a[..x][y].path != a[x].path;
    assert a[x] !in a[..x];
    var tail := a[x + 1..];
    assert forall y :: 0 <= y < |tail| ==> tail[y] == a[x + 1 + y];
    assert a[x] !in tail;
  }

  /** Sorts a slice in place with `sort.SliceStable` keyed by path. */
  method SortSliceByPath(a: array<Pair>)
    modifies a
    ensures a[..] == SortByPath(old(a[..]))
  {
    var sorted := SortByPath(a[..]);
    SortByPathFacts(a[..]);
    forall i | 0 <= i < a.Length {
      a[i] := sorted[i];
    }
  }

  /** List `Equals`: nil equals only nil; lists of different lengths are
      unequal and are left as they are; otherwise both lists are stably
      sorted by path IN PLACE and then compared element by element as whole
      records, use count and backend name included. */
  method ListEquals(l: array?<Pair>, other: array?<Pair>) returns (eq: bool)
    modifies l, other
    ensures l == null || other == null || l.Length != other.Length ==>
              (l != null ==> l[..] == old(l[..])) && (other != null ==> other[..] == old(other[..]))
    ensures l != null && other != null && l.Length == other.Length ==>
              l[..] == SortByPath(old(l[..])) && other[..] == SortByPath(old(other[..]))
    ensures eq <==> (l == null && other == null) ||
                    (l != null && other != null && l.Length == other.Length &&
                     SortByPath(old(l[..])) == SortByPath(old(other[..])))
  {
    if l == null && other == null {
      return true;
    }
    if l == null || other == null {
      return false;
    }
    if l.Length != other.Length {
      return false;
    }
    ghost var l0, o0 := l[..], other[..];
    SortByPathFacts(l0);
    SortByPathFacts(o0);
    SortSliceByPath(l);
    SortSliceByPath(other);
    if l == other {
      SortOfSorted(SortByPath(l0));
    }
    assert l[..] == SortByPath(l0) && other[..] == SortByPath(o0);
    eq := SameElements(l, other);
  }

  /** The element-by-element comparison of two lists of one length. */
  method SameElements(a: array<Pair>, b: array<Pair>) returns (eq: bool)
    requires a.Length == b.Length
    ensures eq <==> a[..] == b[..]
  {
    var i := 0;
    while i < a.Length
      invariant 0 <= i <= a.Length
      invariant a[..i] == b[..i]
    {
      if a[i] != b[i] {
        assert a[..][i] != b[..][i];
        return false;
      }
      assert a[..i + 1] == a[..i] + [a[i]] && b[..i + 1] == b[..i] + [b[i]];
      i := i + 1;
    }
    assert a[..] == a[..a.Length] && b[..] == b[..b.Length];
    return true;
  }

  /** Unlike pair `Equals`, list `Equals` sees the use count: two one-element
      lists whose pairs are pair-equal are list-unequal when the counts differ. */
  lemma ListEqualsSeesUseCount(p: Pair)
    ensures PairEquals(Some(p), Some(p.(useCount := p.useCount + 1)))
    ensures SortByPath([p]) != SortByPath([p.(useCount := p.useCount + 1)])
  {
  }

  /** With two elements on the same path the comparison depends on their
      order, since the stable sort keeps it: the two orders of the same
      elements are list-unequal. */
  lemma ListEqualsOrderSensitiveOnDuplicatePaths(p: Pair, q: Pair)
    requires p.path == q.path && p != q
    ensures multiset([p, q]) == multiset([q, p])
    ensures SortByPath([p, q]) != SortByPath([q, p])
  {
    SortTwoSamePath(p, q);
    SortTwoSamePath(q, p);
  }

  /** Two pairs on the same path stay in the order given. */
  lemma SortTwoSamePath(p: Pair, q: Pair)
    requires p.path == q.path
    ensures SortByPath([p, q]) == [p, q]
  {
    StrLessIrreflexive(p.path);
    assert SortByPath([p]) == [p];
    assert [p, q][..1] == [p];
    assert InsertByPath(q, [p]) == [p] + InsertByPath(q, []);
  }
}
