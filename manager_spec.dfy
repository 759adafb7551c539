/** What the operations of `MapperManager` (pkg/mapper/manager.go) do, as
    functions of the views of its backends, in configured order, and the
    properties of precedence, routing, merging, teardown and validation
    that follow. The class in module `Manager` is proved against these. */
module ManagerSpec {
  import opened Errors
  import opened Pairs
  import Contract
  import opened Backends
  import MemMappers

  type View = Contract.View

  // ---------------------------------------------------------------------
  // Finding a backend by name

  /** The first index at which `name` occurs in `names`. */
  function FirstIndex(names: seq<string>, name: string): (r: Option<nat>)
    ensures r.Some? ==> r.value < |names| && names[r.value] == name &&
                        forall j :: 0 <= j < r.value ==> names[j] != name
    ensures r.None? <==> name !in names
  {
    if names == [] then None
    else if names[0] == name then Some(0)
    else
      match FirstIndex(names[1..], name)
      case None => None
      case Some(i) => Some(i + 1)
  }

  function NamesOf(vs: seq<View>): (names: seq<string>)
    ensures |names| == |vs| && forall i :: 0 <= i < |vs| ==> names[i] == vs[i].name
  {
    seq(|vs|, i requires 0 <= i < |vs| => vs[i].name)
  }

  /** `findMapperIndex` over the views: the first backend with this name. */
  function IndexOfName(vs: seq<View>, name: string): (r: Option<nat>)
    ensures r.Some? ==> r.value < |vs| && vs[r.value].name == name &&
                        forall j :: 0 <= j < r.value ==> vs[j].name != name
    ensures r.None? ==> forall j :: 0 <= j < |vs| ==> vs[j].name != name
  {
    var r := FirstIndex(NamesOf(vs), name);
    assert r.None? ==> forall j :: 0 <= j < |vs| ==> NamesOf(vs)[j] != name;
    r
  }

  /** No two backends share a name (construction guarantees it). */
  ghost predicate DistinctNames(vs: seq<View>)
  {
    forall i, j :: 0 <= i < j < |vs| ==> vs[i].name != vs[j].name
  }

  lemma IndexOfDistinctName(vs: seq<View>, k: nat)
    requires DistinctNames(vs) && k < |vs|
    ensures IndexOfName(vs, vs[k].name) == Some(k)
  {
  }

  // ---------------------------------------------------------------------
  // GetUrl

  /** `GetUrl` from backend `i` on: the first backend whose lookup does not
      miss decides; its error is returned; a hit on a writable backend with
      `inc` set is written back with its use count raised by one, and the
      raised pair is returned whether or not the write succeeds. */
  function GetFrom(vs: seq<View>, path: string, inc: bool, i: nat): (r: (seq<View>, Result<Option<Pair>>))
    requires i <= |vs|
    decreases |vs| - i
  {
    if i == |vs| then (vs, Ok(None))
    else
      match Contract.Lookup(vs[i], path)
      case Err(e) => (vs, Err(e))
      case Ok(None) => GetFrom(vs, path, inc, i + 1)
      case Ok(Some(p)) =>
        if inc && !vs[i].readonly then
          var q := p.(useCount := p.useCount + 1);
          (vs[i := Contract.Put(vs[i], q).0], Ok(Some(q)))
        else (vs, Ok(Some(p)))
  }

  function GetEffect(vs: seq<View>, path: string, inc: bool): (seq<View>, Result<Option<Pair>>)
  {
    GetFrom(vs, path, inc, 0)
  }

  /** The first backend from `i` on whose lookup of `path` does not miss:
      an independent statement of where `GetUrl` stops. */
  function AnswerFrom(vs: seq<View>, path: string, i: nat): (r: Option<nat>)
    requires i <= |vs|
    ensures r.Some? ==> i <= r.value < |vs| && Contract.Lookup(vs[r.value], path) != Ok(None)
    ensures r.Some? ==> forall j :: i <= j < r.value ==> Contract.Lookup(vs[j], path) == Ok(None)
    ensures r.None? ==> forall j :: i <= j < |vs| ==> Contract.Lookup(vs[j], path) == Ok(None)
    decreases |vs| - i
  {
    if i == |vs| then None
    else if Contract.Lookup(vs[i], path) != Ok(None) then Some(i)
    else AnswerFrom(vs, path, i + 1)
  }

  /** What `GetUrl` returns and writes, in terms of the first answering
      backend. */
  ghost predicate AnsweredBy(vs: seq<View>, path: string, inc: bool, a: Option<nat>,
                             r: (seq<View>, Result<Option<Pair>>))
  {
    match a
    case None => r == (vs, Ok(None))
    case Some(k) =>
      && k < |vs|
      && (Contract.Lookup(vs[k], path).Err? ==> r == (vs, Contract.Lookup(vs[k], path)))
      && (Contract.Lookup(vs[k], path).Ok? && Contract.Lookup(vs[k], path).value.Some? ==>
            var p := Contract.Lookup(vs[k], path).value.value;
            var q := p.(useCount := p.useCount + 1);
            if inc && !vs[k].readonly then r == (vs[k := Contract.Put(vs[k], q).0], Ok(Some(q)))
            else r == (vs, Ok(Some(p))))
  }

  lemma {:induction false} GetFromAnswer(vs: seq<View>, path: string, inc: bool, i: nat)
    requires i <= |vs|
    ensures AnsweredBy(vs, path, inc, AnswerFrom(vs, path, i), GetFrom(vs, path, inc, i))
    decreases |vs| - i
  {
    if i < |vs| && Contract.Lookup(vs[i], path) == Ok(None) {
      GetFromAnswer(vs, path, inc, i + 1);
    }
  }

  /** `GetUrl` returns the pair of the earliest backend whose lookup hits;
      an error of an earlier-answering backend aborts the scan and is
      returned; when every backend misses the answer is none, without
      error. */
  lemma GetUrlAnswer(vs: seq<View>, path: string, inc: bool)
    ensures AnsweredBy(vs, path, inc, AnswerFrom(vs, path, 0), GetEffect(vs, path, inc))
    ensures GetEffect(vs, path, inc).1 == Ok(None) <==>
            forall j :: 0 <= j < |vs| ==> Contract.Lookup(vs[j], path) == Ok(None)
  {
    GetFromAnswer(vs, path, inc, 0);
  }

  /** `GetUrl` writes nothing without `inc`, when no backend answers, when
      the answering backend is read-only, or when its lookup fails. */
  lemma GetWritesOnlyOnIncrement(vs: seq<View>, path: string, inc: bool)
    requires || !inc
             || AnswerFrom(vs, path, 0).None?
             || vs[AnswerFrom(vs, path, 0).value].readonly
             || Contract.Lookup(vs[AnswerFrom(vs, path, 0).value], path).Err?
    ensures GetEffect(vs, path, inc).0 == vs
  {
    GetFromAnswer(vs, path, inc, 0);
  }

  lemma GetWithoutIncrement(vs: seq<View>, path: string)
    ensures GetEffect(vs, path, false).0 == vs
  {
    GetFromAnswer(vs, path, false, 0);
  }

  /** Every backend keeps each pair under the pair's own path; a backend
      that only ever stores what `PutUrl` and sanitized starter maps give it
      has this property. */
  ghost predicate KeysArePaths(vs: seq<View>)
  {
    forall i, k :: 0 <= i < |vs| && k in vs[i].pairs ==> vs[i].pairs[k].path == k
  }

  /** With `inc`, a hit on a writable backend is written back to that same
      backend with its use count raised by exactly one, and no other
      backend changes; if the write succeeds the next lookup there sees the
      raised count. */
  lemma IncrementWritesBack(vs: seq<View>, path: string, k: nat, p: Pair)
    requires AnswerFrom(vs, path, 0) == Some(k) && Contract.Lookup(vs[k], path) == Ok(Some(p))
    requires !vs[k].readonly
    ensures var q := p.(useCount := p.useCount + 1);
            GetEffect(vs, path, true) == (vs[k := Contract.Put(vs[k], q).0], Ok(Some(q)))
    ensures KeysArePaths(vs) && Contract.Put(vs[k], p.(useCount := p.useCount + 1)).1.Ok? ==>
              Contract.Lookup(GetEffect(vs, path, true).0[k], path) == Ok(Some(p.(useCount := p.useCount + 1)))
  {
    GetFromAnswer(vs, path, true, 0);
    var q := p.(useCount := p.useCount + 1);
    if KeysArePaths(vs) && Contract.Put(vs[k], q).1.Ok? {
      assert p.path == path;
      Contract.PutThenLookup(vs[k], q, path);
    }
  }

  // ---------------------------------------------------------------------
  // ListUrls

  /** The concatenation of the backends' listings, in backend order. */
  function Flatten(lists: seq<seq<Pair>>): (l: seq<Pair>)
  {
    if lists == [] then [] else Flatten(lists[..|lists| - 1]) + lists[|lists| - 1]
  }

  /** The map `ListUrls` fills: each pair under its path, an earlier pair
      with the same path winning over a later one. */
  function FirstWins(l: seq<Pair>): (m: map<string, Pair>)
    ensures m.Keys == Paths(l)
  {
    if l == [] then map[]
    else
      var init, last := l[..|l| - 1], l[|l| - 1];
      assert l == init + [last];
      PathsSnoc(init, last);
      var m := FirstWins(init);
      if last.path in m then m else m[last.path := last]
  }

  /** One more pair is kept only if its path is new. */
  lemma FirstWinsSnoc(l: seq<Pair>, p: Pair)
    ensures FirstWins(l + [p]) == if p.path in FirstWins(l) then FirstWins(l) else FirstWins(l)[p.path := p]
  {
    assert (l + [p])[..|l|] == l;
  }

  /** No element before index `i` has the path of `l[i]`. */
  ghost predicate FirstWithPath(l: seq<Pair>, i: int)
    requires 0 <= i < |l|
  {
    forall j :: 0 <= j < i ==> l[j].path != l[i].path
  }

  lemma {:induction false} FirstWinsHoldsFirst(l: seq<Pair>, i: int)
    requires 0 <= i < |l| && FirstWithPath(l, i)
    ensures FirstWins(l)[l[i].path] == l[i]
  {
    var init, last := l[..|l| - 1], l[|l| - 1];
    FirstWinsStep(l);
    if i < |l| - 1 {
      assert init[i] == l[i];
      assert FirstWithPath(init, i);
      FirstWinsHoldsFirst(init, i);
    } else {
      PathAbsent(init, l[i].path);
    }
  }

  /** One step of `FirstWins`: the last pair is added only under a new path. */
  lemma FirstWinsStep(l: seq<Pair>)
    requires l != []
    ensures var init, last := l[..|l| - 1], l[|l| - 1];
            FirstWins(l) == if last.path in FirstWins(init) then FirstWins(init) else FirstWins(init)[last.path := last]
  {
  }

  lemma PathAbsent(l: seq<Pair>, p: string)
    requires forall j :: 0 <= j < |l| ==> l[j].path != p
    ensures p !in Paths(l)
  {
  }

  /** `ListUrls` keeps one entry per distinct path across all listings,
      and the entry under each path is its first occurrence. */
  lemma FirstWinsKeepsFirst(l: seq<Pair>, p: string)
    requires p in FirstWins(l)
    ensures exists i :: 0 <= i < |l| && l[i].path == p && FirstWithPath(l, i) && FirstWins(l)[p] == l[i]
  {
    var i :| 0 <= i < |l| && l[i].path == p;
    while !FirstWithPath(l, i)
      invariant 0 <= i < |l| && l[i].path == p
      decreases i
    {
      var j :| 0 <= j < i && l[j].path == l[i].path;
      i := j;
    }
    FirstWinsHoldsFirst(l, i);
  }

  lemma {:induction false} FlattenSnoc(lists: seq<seq<Pair>>, l: seq<Pair>)
    ensures Flatten(lists + [l]) == Flatten(lists) + l
  {
    assert (lists + [l])[..|lists|] == lists;
  }

  /** The paths in the merged listing are exactly the paths some backend
      lists. */
  lemma {:induction false} FlattenPaths(lists: seq<seq<Pair>>)
    ensures forall p :: p in Paths(Flatten(lists)) <==> exists j :: 0 <= j < |lists| && p in Paths(lists[j])
  {
    if lists != [] {
      var init, last := lists[..|lists| - 1], lists[|lists| - 1];
      FlattenPaths(init);
      PathsAppend(Flatten(init), last);
      assert Paths(Flatten(lists)) == Paths(Flatten(init)) + Paths(last);
      forall p | p in Paths(Flatten(lists)) ensures exists j :: 0 <= j < |lists| && p in Paths(lists[j]) {
        if p in Paths(Flatten(init)) {
          var j :| 0 <= j < |init| && p in Paths(init[j]);
          assert lists[j] == init[j];
        } else {
          assert p in Paths(lists[|lists| - 1]);
        }
      }
      forall p, j | 0 <= j < |lists| && p in Paths(lists[j]) ensures p in Paths(Flatten(lists)) {
        if j < |init| {
          assert init[j] == lists[j];
        }
      }
    }
  }

  /** The listing of backend `k` follows those of the backends before it. */
  lemma {:induction false} FlattenPrefix(lists: seq<seq<Pair>>, k: nat)
    requires k < |lists|
    ensures Flatten(lists[..k + 1]) == Flatten(lists[..k]) + lists[k]
    ensures Flatten(lists[..k + 1]) <= Flatten(lists)
  {
    assert lists[..k + 1][..k] == lists[..k];
    if k + 1 < |lists| {
      FlattenPrefix(lists[..|lists| - 1], k);
      assert lists[..|lists| - 1][..k + 1] == lists[..k + 1];
      assert lists[..|lists| - 1][..k] == lists[..k];
    } else {
      assert lists[..k + 1] == lists;
    }
  }

  /** Every element of the concatenation of listings comes from one of them. */
  lemma {:induction false} FlattenMember(lists: seq<seq<Pair>>, t: nat)
    requires t < |Flatten(lists)|
    ensures exists j, s :: 0 <= j < |lists| && 0 <= s < |lists[j]| && lists[j][s] == Flatten(lists)[t]
  {
    var init, last := lists[..|lists| - 1], lists[|lists| - 1];
    if t < |Flatten(init)| {
      FlattenMember(init, t);
      var j, s :| 0 <= j < |init| && 0 <= s < |init[j]| && init[j][s] == Flatten(init)[t];
      assert lists[j] == init[j];
    } else {
      assert Flatten(lists)[t] == last[t - |Flatten(init)|];
    }
  }

  /** The entry `ListUrls` keeps under a path is the first one with that
      path in the listing of the earliest backend that lists it. */
  lemma MergeKeepsEarliestBackend(lists: seq<seq<Pair>>, k: nat, i: nat)
    requires k < |lists| && i < |lists[k]|
    requires forall j :: 0 <= j < k ==> lists[k][i].path !in Paths(lists[j])
    requires forall s :: 0 <= s < i ==> lists[k][s].path != lists[k][i].path
    ensures lists[k][i].path in FirstWins(Flatten(lists))
    ensures FirstWins(Flatten(lists))[lists[k][i].path] == lists[k][i]
  {
    var before := Flatten(lists[..k]);
    FlattenPrefix(lists, k);
    assert lists[k][i].path !in Paths(before) by {
      FlattenPaths(lists[..k]);
      assert forall j :: 0 <= j < k ==> lists[..k][j] == lists[j];
    }
    var flat := Flatten(lists);
    FirstAfterPrefix(flat, before, lists[k], i);
    FirstWinsHoldsFirst(flat, |before| + i);
  }

  /** An element of a middle part `mid` of `flat` is the first with its path
      when no element of the prefix and no earlier element of `mid` has it. */
  lemma FirstAfterPrefix(flat: seq<Pair>, before: seq<Pair>, mid: seq<Pair>, i: nat)
    requires before + mid <= flat && i < |mid|
    requires mid[i].path !in Paths(before)
    requires forall s :: 0 <= s < i ==> mid[s].path != mid[i].path
    ensures flat[|before| + i] == mid[i] && FirstWithPath(flat, |before| + i)
  {
    var t := |before| + i;
    assert flat[t] == (before + mid)[t] == mid[i];
    forall s | 0 <= s < t ensures flat[s].path != flat[t].path {
      assert flat[s] == (before + mid)[s];
      if s < |before| {
        assert flat[s] == before[s];
      } else {
        assert flat[s] == mid[s - |before|];
      }
    }
  }

  /** Some backend cannot list its pairs. */
  predicate ListFault(vs: seq<View>)
  {
    exists j :: 0 <= j < |vs| && vs[j].faults.list
  }

  // ---------------------------------------------------------------------
  // PutUrl and DeleteUrl

  /** `PutUrl`: without a persistor nothing is read or written; otherwise
      the path is looked up without counting; a new path goes to the
      persistor with a use count of 0; an existing one goes to the backend
      the found pair names in its `mapper` field. */
  function PutEffect(vs: seq<View>, persistor: Option<nat>, p: Pair): (r: (seq<View>, Result<Pair>))
    requires persistor.Some? ==> persistor.value < |vs|
  {
    if persistor.None? then (vs, Err(OperationNotSupported("set")))
    else
      match GetEffect(vs, p.path, false).1
      case Err(e) => (vs, Err(e))
      case Ok(found) => PutRoute(vs, persistor.value, p, found)
  }

  /** Where `PutUrl` sends the pair once the lookup has found `found`: a new
      path goes to the persistor with a zero use count, an existing one to
      the backend its `Mapper` field names. */
  function PutRoute(vs: seq<View>, persistor: nat, p: Pair, found: Option<Pair>): (seq<View>, Result<Pair>)
    requires persistor < |vs|
  {
    match found
    case None =>
      var w := Contract.Put(vs[persistor], p.(useCount := 0));
      (vs[persistor := w.0], w.1)
    case Some(q) =>
      match IndexOfName(vs, q.mapper)
      case None => (vs, Err(InvalidMapper(q.mapper)))
      case Some(i) =>
        var w := Contract.Put(vs[i], p);
        (vs[i := w.0], w.1)
  }

  /** `DeleteUrl`: as `PutUrl` for the lookup and the routing; an absent
      path is no error and changes nothing. */
  function DeleteEffect(vs: seq<View>, persistor: Option<nat>, path: string): (r: (seq<View>, Outcome))
    requires persistor.Some? ==> persistor.value < |vs|
  {
    if persistor.None? then (vs, Fail(OperationNotSupported("delete")))
    else
      match GetEffect(vs, path, false).1
      case Err(e) => (vs, Fail(e))
      case Ok(found) => DeleteRoute(vs, path, found)
  }

  /** Where `DeleteUrl` sends the deletion once the lookup has found
      `found`: nothing to do for an absent path, otherwise the backend the
      pair's `Mapper` field names. */
  function DeleteRoute(vs: seq<View>, path: string, found: Option<Pair>): (seq<View>, Outcome)
  {
    match found
    case None => (vs, Pass)
    case Some(q) =>
      match IndexOfName(vs, q.mapper)
      case None => (vs, Fail(InvalidMapper(q.mapper)))
      case Some(i) =>
        var w := Contract.Delete(vs[i], path);
        (vs[i := w.0], w.1)
  }

  /** Without a persistor, writes and deletes fail whatever the backends
      hold, and change nothing. */
  lemma NoPersistorNoWrites(vs: seq<View>, ws: seq<View>, p: Pair, path: string)
    ensures PutEffect(vs, None, p).1 == PutEffect(ws, None, p).1 == Err(OperationNotSupported("set"))
    ensures DeleteEffect(vs, None, path).1 == DeleteEffect(ws, None, path).1 == Fail(OperationNotSupported("delete"))
    ensures PutEffect(vs, None, p).0 == DeleteEffect(vs, None, path).0 == vs
  {
  }

  /** A path no backend holds is created at the persistor with a use count
      of 0, and a lookup afterwards returns the created pair. */
  lemma CreateThenGet(vs: seq<View>, pi: nat, p: Pair)
    requires pi < |vs| && GetEffect(vs, p.path, false).1 == Ok(None)
    ensures var w := Contract.Put(vs[pi], p.(useCount := 0));
            PutEffect(vs, Some(pi), p) == (vs[pi := w.0], w.1)
    ensures var w := Contract.Put(vs[pi], p.(useCount := 0));
            w.1.Ok? && !vs[pi].faults.get ==>
              GetEffect(PutEffect(vs, Some(pi), p).0, p.path, false).1 == Ok(Some(p.(useCount := 0)))
  {
    var q := p.(useCount := 0);
    var w := Contract.Put(vs[pi], q);
    GetUrlAnswer(vs, p.path, false);
    if w.1.Ok? && !vs[pi].faults.get {
      var ws := vs[pi := w.0];
      Contract.PutThenLookup(vs[pi], q, p.path);
      assert AnswerFrom(ws, p.path, 0) == Some(pi) by {
        assert forall j :: 0 <= j < pi ==> Contract.Lookup(ws[j], p.path) == Ok(None) by {
          forall j | 0 <= j < pi ensures Contract.Lookup(ws[j], p.path) == Ok(None) {
            assert ws[j] == vs[j];
          }
        }
        AnswerIsFirst(ws, p.path, pi);
      }
      GetUrlAnswer(ws, p.path, false);
    }
  }

  /** The first non-missing lookup is where `AnswerFrom` stops. */
  lemma AnswerIsFirst(vs: seq<View>, path: string, k: nat)
    requires k < |vs| && Contract.Lookup(vs[k], path) != Ok(None)
    requires forall j :: 0 <= j < k ==> Contract.Lookup(vs[j], path) == Ok(None)
    ensures AnswerFrom(vs, path, 0) == Some(k)
  {
    var a := AnswerFrom(vs, path, 0);
    assert a.Some?;
    if a.value < k {
    } else if a.value > k {
    }
  }

  /** An existing path is written to the backend its found pair names,
      wherever that backend stands in the order; a name no backend has is
      an invalid-mapper error. */
  lemma PutRoutesByMapperField(vs: seq<View>, pi: nat, p: Pair, k: nat, found: Pair)
    requires pi < |vs| && AnswerFrom(vs, p.path, 0) == Some(k)
    requires Contract.Lookup(vs[k], p.path) == Ok(Some(found))
    ensures IndexOfName(vs, found.mapper).None? ==>
              PutEffect(vs, Some(pi), p) == (vs, Err(InvalidMapper(found.mapper)))
    ensures IndexOfName(vs, found.mapper).Some? ==>
              var i := IndexOfName(vs, found.mapper).value;
              PutEffect(vs, Some(pi), p) == (vs[i := Contract.Put(vs[i], p).0], Contract.Put(vs[i], p).1)
  {
    GetUrlAnswer(vs, p.path, false);
  }

  /** Every stored pair names the backend that stores it. */
  ghost predicate Owned(vs: seq<View>)
  {
    forall i, k :: 0 <= i < |vs| && k in vs[i].pairs ==> vs[i].pairs[k].mapper == vs[i].name
  }

  /** When every stored pair names its own backend and names are distinct,
      an update goes to the first backend that holds the path. */
  lemma UpdateGoesToFirstHolder(vs: seq<View>, pi: nat, p: Pair, k: nat)
    requires pi < |vs| && Owned(vs) && DistinctNames(vs)
    requires AnswerFrom(vs, p.path, 0) == Some(k) && !vs[k].faults.get
    ensures PutEffect(vs, Some(pi), p) == (vs[k := Contract.Put(vs[k], p).0], Contract.Put(vs[k], p).1)
  {
    var found := vs[k].pairs[p.path];
    PutRoutesByMapperField(vs, pi, p, k, found);
    IndexOfDistinctName(vs, k);
  }

  /** Deleting a path no backend holds succeeds and changes nothing. */
  lemma DeleteAbsent(vs: seq<View>, pi: nat, path: string)
    requires pi < |vs|
    requires forall j :: 0 <= j < |vs| ==> Contract.Lookup(vs[j], path) == Ok(None)
    ensures DeleteEffect(vs, Some(pi), path) == (vs, Pass)
  {
    GetUrlAnswer(vs, path, false);
  }

  /** A held path is deleted at the backend its found pair names. */
  lemma DeleteRoutesByMapperField(vs: seq<View>, pi: nat, path: string, k: nat, found: Pair)
    requires pi < |vs| && AnswerFrom(vs, path, 0) == Some(k)
    requires Contract.Lookup(vs[k], path) == Ok(Some(found))
    ensures IndexOfName(vs, found.mapper).None? ==>
              DeleteEffect(vs, Some(pi), path) == (vs, Fail(InvalidMapper(found.mapper)))
    ensures IndexOfName(vs, found.mapper).Some? ==>
              var i := IndexOfName(vs, found.mapper).value;
              DeleteEffect(vs, Some(pi), path) == (vs[i := Contract.Delete(vs[i], path).0], Contract.Delete(vs[i], path).1)
  {
    GetUrlAnswer(vs, path, false);
  }

  /** When every stored pair names its own backend, deleting a path at the
      first backend that holds it uncovers whatever the later backends hold
      under it: the next lookup answers as the backends after it would. */
  lemma DeleteUncoversLaterBackends(vs: seq<View>, pi: nat, path: string, k: nat)
    requires pi < |vs| && Owned(vs) && DistinctNames(vs)
    requires AnswerFrom(vs, path, 0) == Some(k) && !vs[k].faults.get
    requires DeleteEffect(vs, Some(pi), path).1.Pass?
    ensures GetEffect(DeleteEffect(vs, Some(pi), path).0, path, false).1 == GetFrom(vs, path, false, k + 1).1
  {
    var found := vs[k].pairs[path];
    DeleteRoutesByMapperField(vs, pi, path, k, found);
    IndexOfDistinctName(vs, k);
    var ws := vs[k := Contract.Delete(vs[k], path).0];
    Contract.DeleteThenLookup(vs[k], path, path);
    forall j | 0 <= j <= k ensures Contract.Lookup(ws[j], path) == Ok(None) {
      if j < k { assert ws[j] == vs[j]; }
    }
    GetFromSkipsMisses(ws, path, k + 1);
    GetFromSameSuffix(vs, ws, path, k + 1);
  }

  /** Backends that miss do not change what `GetUrl` returns. */
  lemma {:induction false} GetFromSkipsMisses(vs: seq<View>, path: string, i: nat)
    requires i <= |vs|
    requires forall j :: 0 <= j < i ==> Contract.Lookup(vs[j], path) == Ok(None)
    ensures GetFrom(vs, path, false, 0).1 == GetFrom(vs, path, false, i).1
  {
    if i > 0 {
      GetFromSkipsMisses(vs, path, i - 1);
      StepPastMiss(vs, path, i - 1);
    }
  }

  lemma StepPastMiss(vs: seq<View>, path: string, j: nat)
    requires j < |vs| && Contract.Lookup(vs[j], path) == Ok(None)
    ensures GetFrom(vs, path, false, j) == GetFrom(vs, path, false, j + 1)
  {
  }

  /** Two sequences of backends that agree from `i` on answer alike from
      `i` on. */
  lemma {:induction false} GetFromSameSuffix(vs: seq<View>, ws: seq<View>, path: string, i: nat)
    requires i <= |vs| == |ws|
    requires forall j :: i <= j < |vs| ==> vs[j] == ws[j]
    ensures GetFrom(vs, path, false, i).1 == GetFrom(ws, path, false, i).1
    decreases |vs| - i
  {
    if i < |vs| {
      GetFromSameSuffix(vs, ws, path, i + 1);
    }
  }

  // ---------------------------------------------------------------------
  // Teardown

  /** `Teardown` from backend `i` on, in order, stopping at the first
      error. */
  function DownFrom(vs: seq<View>, i: nat): (r: (seq<View>, Outcome))
    requires i <= |vs|
    ensures |r.0| == |vs|
    decreases |vs| - i
  {
    if i == |vs| then (vs, Pass)
    else
      var w := Contract.Down(vs[i]);
      if w.1.Fail? then (vs, w.1) else DownFrom(vs[i := w.0], i + 1)
  }

  /** The first backend from `i` on whose teardown fails. */
  function FaultFrom(vs: seq<View>, i: nat): (r: Option<nat>)
    requires i <= |vs|
    ensures r.Some? ==> i <= r.value < |vs| && vs[r.value].faults.teardown
    ensures r.Some? ==> forall j :: i <= j < r.value ==> !vs[j].faults.teardown
    ensures r.None? ==> forall j :: i <= j < |vs| ==> !vs[j].faults.teardown
    decreases |vs| - i
  {
    if i == |vs| then None
    else if vs[i].faults.teardown then Some(i)
    else FaultFrom(vs, i + 1)
  }

  /** `Teardown` tears the backends down in order; it returns the first
      error, and the backends from the failing one on are left untouched. */
  lemma {:induction false} TeardownStopsAtFirstError(vs: seq<View>, i: nat)
    requires i <= |vs|
    ensures var r := DownFrom(vs, i);
            && (forall j :: 0 <= j < i ==> r.0[j] == vs[j])
            && match FaultFrom(vs, i)
               case None =>
                 r.1 == Pass && forall j :: i <= j < |vs| ==> r.0[j] == Contract.Down(vs[j]).0
               case Some(k) =>
                 && r.1 == Fail(StorageFailure("teardown"))
                 && (forall j :: i <= j < k ==> r.0[j] == Contract.Down(vs[j]).0)
                 && (forall j :: k <= j < |vs| ==> r.0[j] == vs[j])
  {
    DownFromPrefix(vs, i);
    DownFromOutcome(vs, i);
    DownFromTorn(vs, i);
    DownFromRest(vs, i);
  }

  /** The first backend from `i` on whose teardown fails, or `|vs|`. */
  function StopAt(vs: seq<View>, i: nat): (k: nat)
    requires i <= |vs|
    ensures i <= k <= |vs|
  {
    match FaultFrom(vs, i)
    case None => |vs|
    case Some(k) => k
  }

  /** Tearing down backend `i` leaves the later backends, and so where
      teardown stops, as they were. */
  lemma StepKeepsStop(vs: seq<View>, i: nat)
    requires i < |vs| && !vs[i].faults.teardown
    ensures StopAt(vs[i := Contract.Down(vs[i]).0], i + 1) == StopAt(vs, i)
  {
    FaultFromSameSuffix(vs, vs[i := Contract.Down(vs[i]).0], i + 1);
  }

  /** `Teardown` from backend `i` on leaves the backends before `i` alone. */
  lemma {:induction false} DownFromPrefix(vs: seq<View>, i: nat)
    requires i <= |vs|
    ensures forall j :: 0 <= j < i ==> DownFrom(vs, i).0[j] == vs[j]
    decreases |vs| - i
  {
    if i < |vs| && !vs[i].faults.teardown {
      DownFromPrefix(vs[i := Contract.Down(vs[i]).0], i + 1);
    }
  }

  /** `Teardown` from backend `i` on fails exactly when some backend's
      teardown fails. */
  lemma {:induction false} DownFromOutcome(vs: seq<View>, i: nat)
    requires i <= |vs|
    ensures DownFrom(vs, i).1 == if FaultFrom(vs, i).None? then Pass else Fail(StorageFailure("teardown"))
    decreases |vs| - i
  {
    if i < |vs| && !vs[i].faults.teardown {
      var ws := vs[i := Contract.Down(vs[i]).0];
      DownFromOutcome(ws, i + 1);
      FaultFromSameSuffix(vs, ws, i + 1);
    }
  }

  /** The backends from `i` up to where teardown stops are torn down. */
  lemma {:induction false} DownFromTorn(vs: seq<View>, i: nat)
    requires i <= |vs|
    ensures forall j :: i <= j < StopAt(vs, i) ==> DownFrom(vs, i).0[j] == Contract.Down(vs[j]).0
    decreases |vs| - i
  {
    if i < |vs| && !vs[i].faults.teardown {
      var ws := vs[i := Contract.Down(vs[i]).0];
      DownFromTorn(ws, i + 1);
      DownFromPrefix(ws, i + 1);
      StepKeepsStop(vs, i);
    }
  }

  /** The backends from where teardown stops on are left untouched. */
  lemma {:induction false} DownFromRest(vs: seq<View>, i: nat)
    requires i <= |vs|
    ensures forall j :: StopAt(vs, i) <= j < |vs| ==> DownFrom(vs, i).0[j] == vs[j]
    decreases |vs| - i
  {
    if i < |vs| && !vs[i].faults.teardown {
      var ws := vs[i := Contract.Down(vs[i]).0];
      DownFromRest(ws, i + 1);
      StepKeepsStop(vs, i);
    }
  }

  lemma {:induction false} FaultFromSameSuffix(vs: seq<View>, ws: seq<View>, i: nat)
    requires i <= |vs| == |ws|
    requires forall j :: i <= j < |vs| ==> vs[j] == ws[j]
    ensures FaultFrom(vs, i) == FaultFrom(ws, i)
    decreases |vs| - i
  {
    if i < |vs| {
      FaultFromSameSuffix(vs, ws, i + 1);
    }
  }

  // ---------------------------------------------------------------------
  // Construction

  /** The checks `validateAndGetMappers` makes of one configurer, given the
      types and names seen before it, in the order it makes them. */
  function StepProblem(c: ConfigInfo, types: set<string>, names: set<string>): Option<SetupProblem>
  {
    if c.isNil then Some(SetupProblem.NilConfigurer)
    else if c.typ in types && c.singleton then Some(DuplicateSingletonType(c.typ))
    else if c.name in names then Some(DuplicateName(c.name))
    else if c.fails then Some(MapperFailed(c.name))
    else None
  }

  /** `validateAndGetMappers` from configurer `i` on, given the types and
      names seen before it: the first problem, if any. */
  function ValidateFrom(cs: seq<ConfigInfo>, i: nat, types: set<string>, names: set<string>): (r: Option<SetupProblem>)
    requires i <= |cs|
    decreases |cs| - i
  {
    if i == |cs| then None
    else
      match StepProblem(cs[i], types, names)
      case Some(problem) => Some(problem)
      case None => ValidateFrom(cs, i + 1, types + {cs[i].typ}, names + {cs[i].name})
  }

  function Validate(cs: seq<ConfigInfo>): Option<SetupProblem>
  {
    if |cs| == 0 then Some(NoMappers) else ValidateFrom(cs, 0, {}, {})
  }

  /** Configurer `i` passes the checks given the ones before it: it is not
      nil, it builds, no earlier one has its name, and if an earlier one has
      its type it does not itself claim to be a singleton. */
  ghost predicate AcceptableAt(cs: seq<ConfigInfo>, i: nat)
    requires i < |cs|
  {
    && !cs[i].isNil && !cs[i].fails
    && forall j :: 0 <= j < i ==> cs[j].name != cs[i].name && (cs[j].typ == cs[i].typ ==> !cs[i].singleton)
  }

  function TypesBefore(cs: seq<ConfigInfo>, i: nat): set<string>
    requires i <= |cs|
  {
    set j | 0 <= j < i :: cs[j].typ
  }

  function NamesBefore(cs: seq<ConfigInfo>, i: nat): set<string>
    requires i <= |cs|
  {
    set j | 0 <= j < i :: cs[j].name
  }

  /** One more configurer adds its type and its name. */
  lemma BeforeSnoc(cs: seq<ConfigInfo>, i: nat)
    requires i < |cs|
    ensures TypesBefore(cs, i + 1) == TypesBefore(cs, i) + {cs[i].typ}
    ensures NamesBefore(cs, i + 1) == NamesBefore(cs, i) + {cs[i].name}
  {
  }

  lemma {:induction false} ValidateFromAccepts(cs: seq<ConfigInfo>, i: nat)
    requires i <= |cs|
    ensures ValidateFrom(cs, i, TypesBefore(cs, i), NamesBefore(cs, i)).None? <==>
            forall j :: i <= j < |cs| ==> AcceptableAt(cs, j)
    decreases |cs| - i
  {
    if i < |cs| {
      var c := cs[i];
      var types, names := TypesBefore(cs, i), NamesBefore(cs, i);
      assert TypesBefore(cs, i + 1) == types + {c.typ};
      assert NamesBefore(cs, i + 1) == names + {c.name};
      ValidateFromAccepts(cs, i + 1);
      if c.typ in types && c.singleton {
        var j :| 0 <= j < i && cs[j].typ == c.typ;
        assert !AcceptableAt(cs, i);
      } else if c.name in names {
        var j :| 0 <= j < i && cs[j].name == c.name;
        assert !AcceptableAt(cs, i);
      } else if !c.isNil && !c.fails {
        assert AcceptableAt(cs, i);
        assert (forall j :: i <= j < |cs| ==> AcceptableAt(cs, j)) <==>
               (forall j :: i + 1 <= j < |cs| ==> AcceptableAt(cs, j));
      } else {
        assert !AcceptableAt(cs, i);
      }
    }
  }

  /** Construction accepts a configuration exactly when it is not empty
      and every configurer is acceptable given those before it. */
  lemma ValidateAccepts(cs: seq<ConfigInfo>)
    ensures Validate(cs).None? <==> |cs| > 0 && forall i :: 0 <= i < |cs| ==> AcceptableAt(cs, i)
  {
    if |cs| > 0 {
      ValidateFromAccepts(cs, 0);
      assert TypesBefore(cs, 0) == {} && NamesBefore(cs, 0) == {};
    }
  }

  /** The singleton check looks only at the later configurer's own flag:
      a singleton followed by a non-singleton of the same type is
      accepted, the other order is not. */
  lemma SingletonCheckIsOrderSensitive(a: ConfigInfo, b: ConfigInfo)
    requires !a.isNil && !b.isNil && !a.fails && !b.fails
    requires a.typ == b.typ && a.name != b.name && a.singleton && !b.singleton
    ensures Validate([a, b]).None?
    ensures Validate([b, a]) == Some(DuplicateSingletonType(a.typ))
  {
    var ab, ba := [a, b], [b, a];
    assert ValidateFrom(ab, 2, {} + {a.typ} + {b.typ}, {} + {a.name} + {b.name}) == None;
    assert ValidateFrom(ab, 1, {} + {a.typ}, {} + {a.name}) == None;
    assert ValidateFrom(ba, 1, {} + {b.typ}, {} + {b.name}) == Some(DuplicateSingletonType(a.typ));
  }

  /** The in-memory configuration is a singleton: a second one, whatever its
      name, is rejected as a duplicate singleton type. */
  lemma SecondMemConfigRejected(a: MemMappers.MemMapperConfig, b: MemMappers.MemMapperConfig)
    ensures Validate([Info(OfMem(a)), Info(OfMem(b))]) == Some(DuplicateSingletonType("MEM"))
  {
    var cs := [Info(OfMem(a)), Info(OfMem(b))];
    assert ValidateFrom(cs, 1, {} + {"MEM"}, {} + {a.name}) == Some(DuplicateSingletonType("MEM"));
  }

  /** The names and the read-only flags of the configurers, in order. */
  function InfoNames(cs: seq<ConfigInfo>): (names: seq<string>)
    ensures |names| == |cs| && forall i :: 0 <= i < |cs| ==> names[i] == cs[i].name
  {
    seq(|cs|, i requires 0 <= i < |cs| => cs[i].name)
  }

  function InfoReadonly(cs: seq<ConfigInfo>): (flags: seq<bool>)
    ensures |flags| == |cs| && forall i :: 0 <= i < |cs| ==> flags[i] == cs[i].readonly
  {
    seq(|cs|, i requires 0 <= i < |cs| => cs[i].readonly)
  }

  /** `getPersistorIndex` over the backends' names and read-only flags: no
      name means no persistor; otherwise the first backend with that name,
      which must exist and be writable. */
  function PersistorIndex(name: string, names: seq<string>, readonly: seq<bool>): (r: Result<Option<nat>>)
    requires |names| == |readonly|
    ensures r.Ok? && r.value.Some? ==>
              r.value.value < |names| && names[r.value.value] == name && !readonly[r.value.value]
    ensures name == "" <==> r == Ok(None)
    ensures r.Err? ==> r.error.MapConfigSetup?
  {
    if name == "" then Ok(None)
    else
      match FirstIndex(names, name)
      case None => Err(MapConfigSetup(PersistorNotFound(name)))
      case Some(i) =>
        if readonly[i] then Err(MapConfigSetup(PersistorReadonly(name)))
        else Ok(Some(i))
  }

  /** `NewMapperManager` without the objects: the first validation
      problem, else the persistor lookup. */
  function Setup(persistorName: string, cs: seq<ConfigInfo>): (r: Result<Option<nat>>)
    ensures Validate(cs).Some? ==> r == Err(MapConfigSetup(Validate(cs).value))
    ensures Validate(cs).None? ==> r == PersistorIndex(persistorName, InfoNames(cs), InfoReadonly(cs))
  {
    match Validate(cs)
    case Some(problem) => Err(MapConfigSetup(problem))
    case None => PersistorIndex(persistorName, InfoNames(cs), InfoReadonly(cs))
  }

  /** An index holding `name` with no earlier one is the first index. */
  lemma FirstIndexAt(names: seq<string>, name: string, k: nat)
    requires k < |names| && names[k] == name && forall j :: 0 <= j < k ==> names[j] != name
    ensures FirstIndex(names, name) == Some(k)
  {
    assert names[k] == name;
  }

  /** A named persistor is the first backend with that name; the name not
      being there, or naming a read-only backend, is a setup error. */
  lemma PersistorResolution(name: string, names: seq<string>, readonly: seq<bool>)
    requires name != "" && |names| == |readonly|
    ensures (forall i :: 0 <= i < |names| ==> names[i] != name) ==>
              PersistorIndex(name, names, readonly) == Err(MapConfigSetup(PersistorNotFound(name)))
    ensures forall k :: 0 <= k < |names| && names[k] == name && (forall j :: 0 <= j < k ==> names[j] != name) ==>
              PersistorIndex(name, names, readonly) ==
                (if readonly[k] then Err(MapConfigSetup(PersistorReadonly(name))) else Ok(Some(k)))
  {
    forall k | 0 <= k < |names| && names[k] == name && (forall j :: 0 <= j < k ==> names[j] != name)
      ensures FirstIndex(names, name) == Some(k)
    {
      FirstIndexAt(names, name, k);
    }
  }
}
