/** `MapperManager` (pkg/mapper/manager.go): an ordered list of backends,
    earlier ones taking precedence, with an optional persistor that
    receives new pairs. Each operation is proved to do to the views of the
    backends exactly what the matching function of `ManagerSpec` says. */
module Manager {
  import opened Errors
  import opened Pairs
  import Contract
  import opened Backends
  import opened ManagerSpec

  /** The objects holding the state of any of the backends. */
  function AllObjs(bs: seq<Backend>): set<object>
  {
    set i, o | 0 <= i < |bs| && o in Objs(bs[i]) :: o
  }

  /** No two backends share state. */
  ghost predicate Disjoint(bs: seq<Backend>)
  {
    forall i, j :: 0 <= i < j < |bs| ==> Objs(bs[i]) !! Objs(bs[j])
  }

  ghost function ViewsOf(bs: seq<Backend>): (vs: seq<View>)
    reads AllObjs(bs)
    ensures |vs| == |bs| && forall i :: 0 <= i < |bs| ==> vs[i] == ViewOf(bs[i])
  {
    seq(|bs|, i requires 0 <= i < |bs| reads AllObjs(bs) => ViewOf(bs[i]))
  }

  /** `findMapperIndex`: the first backend with this name, or -1. */
  method FindMapperIndex(bs: seq<Backend>, name: string) returns (idx: int)
    ensures -1 <= idx < |bs|
    ensures idx == -1 <==> forall j :: 0 <= j < |bs| ==> Name(bs[j]) != name
    ensures idx >= 0 ==> Name(bs[idx]) == name && forall j :: 0 <= j < idx ==> Name(bs[j]) != name
  {
    for i := 0 to |bs|
      invariant forall j :: 0 <= j < i ==> Name(bs[j]) != name
    {
      if Name(bs[i]) == name {
        return i;
      }
    }
    return -1;
  }

  /** `findMapper`: the first backend with this name, if any. */
  method FindMapper(bs: seq<Backend>, name: string) returns (m: Option<Backend>, ghost idx: nat)
    ensures m.None? <==> forall j :: 0 <= j < |bs| ==> Name(bs[j]) != name
    ensures m.Some? ==> idx < |bs| && m.value == bs[idx] && Name(bs[idx]) == name &&
                        forall j :: 0 <= j < idx ==> Name(bs[j]) != name
  {
    var i := FindMapperIndex(bs, name);
    if i < 0 {
      return None, 0;
    }
    return Some(bs[i]), i;
  }

  /** The name search over backends is the name search over their views. */
  lemma IndexOfNameOfViews(bs: seq<Backend>, vs: seq<View>, name: string, idx: nat)
    requires |vs| == |bs| && forall j :: 0 <= j < |bs| ==> vs[j].name == Name(bs[j])
    requires idx < |bs| && Name(bs[idx]) == name && forall j :: 0 <= j < idx ==> Name(bs[j]) != name
    ensures IndexOfName(vs, name) == Some(idx)
  {
    assert vs[idx].name == name;
  }

  /** The inner loop of `ListUrls`: each pair of one listing is added
      unless its path is already there. */
  method MergeListing(ghost before: seq<Pair>, merged: map<string, Pair>, l: seq<Pair>) returns (r: map<string, Pair>)
    requires merged == FirstWins(before)
    ensures r == FirstWins(before + l)
  {
    r := merged;
    assert before + l[..0] == before;
    for t := 0 to |l|
      invariant r == FirstWins(before + l[..t])
    {
      r := MergePair(before, l, t, r);
    }
    assert before + l[..|l|] == before + l;
  }

  /** The body of that loop: the pair is added only if its path is new. */
  method MergePair(ghost before: seq<Pair>, l: seq<Pair>, t: nat, merged: map<string, Pair>) returns (r: map<string, Pair>)
    requires t < |l| && merged == FirstWins(before + l[..t])
    ensures r == FirstWins(before + l[..t + 1])
  {
    TakeOneMore(before, l, t);
    FirstWinsSnoc(before + l[..t], l[t]);
    r := merged;
    if l[t].path !in r {
      r := r[l[t].path := l[t]];
    }
  }

  /** One backend's listing merged into those of the earlier ones. */
  method MergeNext(ghost lists: seq<seq<Pair>>, merged: map<string, Pair>, l: seq<Pair>) returns (r: map<string, Pair>)
    requires merged == FirstWins(Flatten(lists))
    ensures r == FirstWins(Flatten(lists + [l]))
  {
    r := MergeListing(Flatten(lists), merged, l);
    FlattenSnoc(lists, l);
  }

  /** The listings so far, with one more. */
  lemma ListedSnoc(vs: seq<View>, lists: seq<seq<Pair>>, listKeys: seq<seq<string>>, l: seq<Pair>, ks: seq<string>)
    requires |lists| == |listKeys| < |vs|
    requires forall j :: 0 <= j < |lists| ==> Contract.Listing(vs[j], lists[j], listKeys[j])
    requires Contract.Listing(vs[|lists|], l, ks)
    ensures forall j :: 0 <= j < |lists| + 1 ==> Contract.Listing(vs[j], (lists + [l])[j], (listKeys + [ks])[j])
  {
  }

  lemma TakeOneMore(before: seq<Pair>, l: seq<Pair>, t: nat)
    requires t < |l|
    ensures before + l[..t + 1] == (before + l[..t]) + [l[t]]
  {
    assert l[..t + 1] == l[..t] + [l[t]];
  }

  class MapperManager {
    /** The backends, in order of precedence. */
    const mappers: seq<Backend>
    /** The index of the persistor among the backends, if there is one. */
    const persistor: Option<nat>
    ghost const Repr: set<object>

    ghost predicate Valid()
      reads this, Repr
    {
      && Repr == AllObjs(mappers)
      && Disjoint(mappers)
      && (forall i, j :: 0 <= i < j < |mappers| ==> Name(mappers[i]) != Name(mappers[j]))
      && (persistor.Some? ==> persistor.value < |mappers| && !Readonly(mappers[persistor.value]))
    }

    /** What the manager can observe of its backends. */
    ghost function Views(): (vs: seq<View>)
      reads this, Repr
      requires Valid()
      ensures |vs| == |mappers| && DistinctNames(vs)
      ensures persistor.Some? ==> !vs[persistor.value].readonly
    {
      ViewsOf(mappers)
    }

    constructor(mappers: seq<Backend>, persistor: Option<nat>)
      requires Disjoint(mappers) && UniqueNames(mappers) && WritableAt(mappers, persistor)
      ensures this.mappers == mappers && this.persistor == persistor && Valid()
    {
      this.mappers := mappers;
      this.persistor := persistor;
      Repr := AllObjs(mappers);
    }

    /** When only the objects of backend `i` changed, only its view did. */
    twostate lemma OthersUnchanged(i: nat)
      requires old(Valid()) && i < |mappers|
      requires forall o :: o in Repr && o !in Objs(mappers[i]) ==> unchanged(o)
      ensures forall j :: 0 <= j < |mappers| && j != i ==> ViewOf(mappers[j]) == old(ViewOf(mappers[j]))
    {
      forall j | 0 <= j < |mappers| && j != i
        ensures ViewOf(mappers[j]) == old(ViewOf(mappers[j]))
      {
        assert forall o :: o in Objs(mappers[j]) ==> o in Repr && o !in Objs(mappers[i]);
      }
    }

    /** Backend `i` took a write or a teardown, and nothing else changed:
        the manager is still valid, and only the view of backend `i`
        changed. */
    twostate lemma StillValid(i: nat)
      requires old(Valid()) && i < |mappers|
      requires forall o :: o in Repr && o !in Objs(mappers[i]) ==> unchanged(o)
      requires ViewOf(mappers[i]).readonly == old(ViewOf(mappers[i]).readonly)
      ensures Valid() && Views() == old(Views())[i := ViewOf(mappers[i])]
    {
      OthersUnchanged(i);
      if persistor.Some? && persistor.value != i {
        assert ViewOf(mappers[persistor.value]) == old(ViewOf(mappers[persistor.value]));
      }
    }

    /** A call that changed no object of the manager changed no view. */
    twostate lemma ViewsKept()
      requires old(Valid()) && forall o :: o in Repr ==> unchanged(o)
      ensures Valid() && Views() == old(Views())
    {
      forall j | 0 <= j < |mappers| ensures ViewOf(mappers[j]) == old(ViewOf(mappers[j])) {
        assert forall o :: o in Objs(mappers[j]) ==> o in Repr;
      }
    }

    /** `PutUrl` on backend `b`, the `i`th: only its view changes, as `Contract.Put`
        says. */
    method PutAt(b: Backend, ghost i: nat, p: Pair) returns (r: Result<Pair>)
      requires Valid() && i < |mappers| && b == mappers[i]
      modifies Repr
      ensures Valid()
      ensures Views() == old(Views())[i := Contract.Put(old(Views())[i], p).0]
      ensures r == Contract.Put(old(Views())[i], p).1
    {
      ghost var vs := Views();
      label before:
      r := Backends.PutUrl(b, p);
      Contract.WritesKeepIdentity(vs[i], p, "");
      StillValid@before(i);
    }

    /** `DeleteUrl` on backend `b`, the `i`th: only its view changes, as
        `Contract.Delete` says. */
    method DeleteAt(b: Backend, ghost i: nat, path: string) returns (o: Outcome)
      requires Valid() && i < |mappers| && b == mappers[i]
      modifies Repr
      ensures Valid()
      ensures Views() == old(Views())[i := Contract.Delete(old(Views())[i], path).0]
      ensures o == Contract.Delete(old(Views())[i], path).1
    {
      ghost var vs := Views();
      label before:
      o := Backends.DeleteUrl(b, path);
      Contract.WritesKeepIdentity(vs[i], Pair("", "", "", 0), path);
      StillValid@before(i);
    }

    /** `GetUrl`: the backends are asked in order; see `GetFrom`. */
    method GetUrl(path: string, inc: bool) returns (r: Result<Option<Pair>>)
      requires Valid()
      modifies Repr
      ensures Valid()
      ensures (Views(), r) == GetEffect(old(Views()), path, inc)
    {
      ghost var vs := Views();
      var i := 0;
      while i < |mappers|
        invariant 0 <= i <= |mappers|
        invariant Valid() && Views() == vs
        invariant GetFrom(vs, path, inc, 0) == GetFrom(vs, path, inc, i)
      {
        var pair := Backends.GetUrl(mappers[i], path);
        if pair.Err? {
          return Err(pair.error);
        }
        if pair.value.Some? {
          r := Answer(i, path, inc, pair.value.value);
          return;
        }
        i := i + 1;
      }
      return Ok(None);
    }

    /** `GetUrl` once backend `i` has found `found`: with `inc` set and a
        writable backend, the pair is written back with its use count
        raised by one. */
    method Answer(i: nat, path: string, inc: bool, found: Pair) returns (r: Result<Option<Pair>>)
      requires Valid() && i < |mappers| && Contract.Lookup(Views()[i], path) == Ok(Some(found))
      modifies Repr
      ensures Valid()
      ensures (Views(), r) == GetFrom(old(Views()), path, inc, i)
    {
      var mapper := mappers[i];
      if inc && !Backends.Readonly(mapper) {
        var raised := found.(useCount := found.useCount + 1);
        // A failed write of the raised count is only logged.
        var _ := PutAt(mapper, i, raised);
        return Ok(Some(raised));
      }
      return Ok(Some(found));
    }

    /** `ListUrls`: the listings of all backends merged, the first pair
        with a path winning; the first listing error is returned. */
    method ListUrls() returns (r: Result<seq<Pair>>, ghost lists: seq<seq<Pair>>,
                               ghost listKeys: seq<seq<string>>, ghost keys: seq<string>)
      requires Valid()
      ensures r.Err? <==> ListFault(Views())
      ensures r.Err? ==> r.error == StorageFailure("list")
      ensures r.Ok? ==> |lists| == |listKeys| == |mappers|
      ensures r.Ok? ==> forall j :: 0 <= j < |mappers| ==> Contract.Listing(Views()[j], lists[j], listKeys[j])
      ensures r.Ok? ==> Lists(r.value, FirstWins(Flatten(lists)), keys)
    {
      ghost var vs := Views();
      var merged: map<string, Pair> := map[];
      lists, listKeys := [], [];
      var i := 0;
      while i < |mappers|
        invariant 0 <= i <= |mappers| && |lists| == |listKeys| == i
        invariant forall j :: 0 <= j < i ==> Contract.Listing(vs[j], lists[j], listKeys[j])
        invariant merged == FirstWins(Flatten(lists))
        invariant Valid() && Views() == vs
      {
        var step;
        step, lists, listKeys := ListAt(i, lists, listKeys, merged);
        if step.Err? {
          return Err(step.error), lists, listKeys, [];
        }
        merged := step.value;
        i := i + 1;
      }
      assert !ListFault(vs);
      var listed;
      label merging:
      listed, keys := ToList(merged);
      ViewsKept@merging();
      return Ok(listed), lists, listKeys, keys;
    }

    /** One round of `ListUrls`: backend `i` is listed and its listing
        merged into the pairs found so far. */
    method ListAt(i: nat, ghost lists: seq<seq<Pair>>, ghost listKeys: seq<seq<string>>, merged: map<string, Pair>)
        returns (r: Result<map<string, Pair>>, ghost lists': seq<seq<Pair>>, ghost listKeys': seq<seq<string>>)
      requires Valid() && i < |mappers| && |lists| == |listKeys| == i
      requires forall j :: 0 <= j < i ==> Contract.Listing(Views()[j], lists[j], listKeys[j])
      requires merged == FirstWins(Flatten(lists))
      ensures Valid() && Views() == old(Views())
      ensures r.Err? <==> Views()[i].faults.list
      ensures r.Err? ==> r.error == StorageFailure("list")
      ensures r.Ok? ==> |lists'| == |listKeys'| == i + 1 && r.value == FirstWins(Flatten(lists'))
      ensures r.Ok? ==> forall j :: 0 <= j < i + 1 ==> Contract.Listing(Views()[j], lists'[j], listKeys'[j])
    {
      label top:
      var urls, ks := Backends.ListUrls(mappers[i]);
      ViewsKept@top();
      if urls.Err? {
        return Err(urls.error), lists, listKeys;
      }
      var l := urls.value;
      var m := MergeNext(lists, merged, l);
      ListedSnoc(Views(), lists, listKeys, l, ks);
      return Ok(m), lists + [l], listKeys + [ks];
    }

    /** `PutUrl`; see `PutEffect`. */
    method PutUrl(pair: Pair) returns (r: Result<Pair>)
      requires Valid()
      modifies Repr
      ensures Valid()
      ensures (Views(), r) == PutEffect(old(Views()), persistor, pair)
    {
      if persistor.None? {
        return Err(OperationNotSupported("set"));
      }
      ghost var vs := Views();
      var found := GetUrl(pair.path, false);
      GetWithoutIncrement(vs, pair.path);
      if found.Err? {
        return Err(found.error);
      }
      r := PutFound(pair, found.value);
    }

    /** The second half of `PutUrl`, once the lookup has found `found`. */
    method PutFound(pair: Pair, found: Option<Pair>) returns (r: Result<Pair>)
      requires Valid() && persistor.Some?
      modifies Repr
      ensures Valid()
      ensures (Views(), r) == PutRoute(old(Views()), persistor.value, pair, found)
    {
      ghost var vs := Views();
      if found.None? {
        r := PutAt(mappers[persistor.value], persistor.value, pair.(useCount := 0));
        return;
      }
      var owner := found.value.mapper;
      var mapper, idx := FindMapper(mappers, owner);
      if mapper.None? {
        assert IndexOfName(vs, owner).None? by {
          assert forall j :: 0 <= j < |vs| ==> vs[j].name == Name(mappers[j]);
        }
        return Err(InvalidMapper(owner));
      }
      IndexOfNameOfViews(mappers, vs, owner, idx);
      r := PutAt(mapper.value, idx, pair);
    }

    /** `DeleteUrl`: as `PutUrl`, except that an absent path is no error. */
    method DeleteUrl(path: string) returns (o: Outcome)
      requires Valid()
      modifies Repr
      ensures Valid()
      ensures (Views(), o) == DeleteEffect(old(Views()), persistor, path)
    {
      if persistor.None? {
        return Fail(OperationNotSupported("delete"));
      }
      ghost var vs := Views();
      var found := GetUrl(path, false);
      GetWithoutIncrement(vs, path);
      if found.Err? {
        return Fail(found.error);
      }
      o := DeleteFound(path, found.value);
    }

    /** The second half of `DeleteUrl`, once the lookup has found `found`. */
    method DeleteFound(path: string, found: Option<Pair>) returns (o: Outcome)
      requires Valid()
      modifies Repr
      ensures Valid()
      ensures (Views(), o) == DeleteRoute(old(Views()), path, found)
    {
      ghost var vs := Views();
      if found.None? {
        ViewsKept();
        return Pass;
      }
      var owner := found.value.mapper;
      var mapper, idx := FindMapper(mappers, owner);
      if mapper.None? {
        assert IndexOfName(vs, owner).None? by {
          assert forall j :: 0 <= j < |vs| ==> vs[j].name == Name(mappers[j]);
        }
        return Fail(InvalidMapper(owner));
      }
      IndexOfNameOfViews(mappers, vs, owner, idx);
      o := DeleteAt(mapper.value, idx, path);
    }

    /** `Teardown`: the backends in order, stopping at the first error; see
        `DownFrom`. */
    method Teardown() returns (o: Outcome)
      requires Valid()
      modifies Repr
      ensures Valid()
      ensures (Views(), o) == DownFrom(old(Views()), 0)
    {
      var i := 0;
      while i < |mappers|
        invariant 0 <= i <= |mappers|
        invariant Valid()
        invariant DownFrom(old(Views()), 0) == DownFrom(Views(), i)
      {
        ghost var vs := Views();
        label before:
        var err := Backends.Teardown(mappers[i]);
        StillValid@before(i);
        if err.Fail? {
          assert Views() == vs;
          return err;
        }
        assert DownFrom(vs, i) == DownFrom(Views(), i + 1);
        i := i + 1;
      }
      return Pass;
    }
  }

  // ---------------------------------------------------------------------
  // Construction

  /** What validation sees of each configurer. */
  ghost function Infos(cs: seq<Configurer>): (infos: seq<ConfigInfo>)
    ensures |infos| == |cs| && forall i :: 0 <= i < |cs| ==> infos[i] == Info(cs[i])
  {
    seq(|cs|, i requires 0 <= i < |cs| => Info(cs[i]))
  }

  /** `validateAndGetMappers`: the configurers are checked and built in
      order; the first problem is the error. */
  method ValidateAndGetMappers(configs: seq<Configurer>) returns (r: Result<seq<Backend>>)
    ensures r.Err? <==> Validate(Infos(configs)).Some?
    ensures r.Err? ==> r.error == MapConfigSetup(Validate(Infos(configs)).value)
    ensures r.Ok? ==> |r.value| == |configs| && Disjoint(r.value)
    ensures r.Ok? ==> AllBuilt(configs, r.value)
    ensures r.Ok? ==> forall o :: o in AllObjs(r.value) ==> fresh(o)
  {
    ghost var infos := Infos(configs);
    if |configs| == 0 {
      return Err(MapConfigSetup(NoMappers));
    }
    var mappers: seq<Backend> := [];
    var typesAppeared: set<string> := {};
    var namesAppeared: set<string> := {};
    ghost var verdict := Validate(infos);
    for i := 0 to |configs|
      invariant |mappers| == i
      invariant verdict == ValidateFrom(infos, i, typesAppeared, namesAppeared)
      invariant Disjoint(mappers)
      invariant AllBuilt(configs[..i], mappers)
      invariant forall o :: o in AllObjs(mappers) ==> fresh(o)
    {
      var grown;
      grown, typesAppeared, namesAppeared := AdmitNext(configs, i, mappers, typesAppeared, namesAppeared);
      if grown.Err? {
        return Err(grown.error);
      }
      mappers := grown.value;
    }
    assert configs[..|configs|] == configs;
    return Ok(mappers);
  }

  /** The body of that loop: configurer `i` is checked against the types
      and names seen before it, then built. */
  method AdmitNext(configs: seq<Configurer>, i: nat, mappers: seq<Backend>,
                   typesAppeared: set<string>, namesAppeared: set<string>)
      returns (r: Result<seq<Backend>>, types': set<string>, names': set<string>)
    requires i < |configs| && Disjoint(mappers) && AllBuilt(configs[..i], mappers)
    ensures r.Err? <==> StepProblem(Info(configs[i]), typesAppeared, namesAppeared).Some?
    ensures r.Err? ==> && ValidateFrom(Infos(configs), i, typesAppeared, namesAppeared).Some?
                       && r.error == MapConfigSetup(ValidateFrom(Infos(configs), i, typesAppeared, namesAppeared).value)
    ensures r.Ok? ==> ValidateFrom(Infos(configs), i, typesAppeared, namesAppeared) ==
                      ValidateFrom(Infos(configs), i + 1, types', names')
    ensures r.Ok? ==> |r.value| == i + 1 && Disjoint(r.value) && AllBuilt(configs[..i + 1], r.value)
    ensures r.Ok? ==> forall o :: o in AllObjs(r.value) ==> o in AllObjs(mappers) || fresh(o)
  {
    types', names' := typesAppeared, namesAppeared;
    var cfg := configs[i];
    ghost var infos := Infos(configs);
    assert infos[i] == Info(cfg);
    if cfg.NilConfigurer? {
      return Err(MapConfigSetup(SetupProblem.NilConfigurer)), types', names';
    }
    if ConfigType(cfg) in typesAppeared && ConfigSingleton(cfg) {
      return Err(MapConfigSetup(DuplicateSingletonType(ConfigType(cfg)))), types', names';
    }
    if ConfigName(cfg) in namesAppeared {
      return Err(MapConfigSetup(DuplicateName(ConfigName(cfg)))), types', names';
    }
    r := AppendBuilt(configs, i, mappers);
    if r.Err? {
      return Err(MapConfigSetup(MapperFailed(ConfigName(cfg)))), types', names';
    }
    types', names' := typesAppeared + {ConfigType(cfg)}, namesAppeared + {ConfigName(cfg)};
  }

  /** The loop body's `GetMapper` call: builds configurer `i` and appends
      its backend, which shares no object with the earlier ones. */
  method AppendBuilt(configs: seq<Configurer>, i: nat, mappers: seq<Backend>) returns (r: Result<seq<Backend>>)
    requires i < |configs| && !configs[i].NilConfigurer?
    requires Disjoint(mappers) && AllBuilt(configs[..i], mappers)
    ensures r.Err? <==> Info(configs[i]).fails
    ensures r.Ok? ==> Disjoint(r.value) && AllBuilt(configs[..i + 1], r.value)
    ensures r.Ok? ==> forall o :: o in AllObjs(r.value) ==> o in AllObjs(mappers) || fresh(o)
  {
    var mapper := GetMapper(configs[i]);
    if mapper.Err? {
      return Err(mapper.error);
    }
    assert AllBuilt(configs[..i], mappers);
    AppendFresh(mappers, mapper.value);
    AllBuiltSnoc(configs, i, mappers, mapper.value);
    return Ok(mappers + [mapper.value]);
  }

  /** Each backend is what the configurer at its position builds. */
  ghost predicate AllBuilt(cs: seq<Configurer>, bs: seq<Backend>)
    reads AllObjs(bs)
  {
    |cs| == |bs| && forall i :: 0 <= i < |cs| ==> Built(cs[i], bs[i])
  }

  lemma AllBuiltSnoc(cs: seq<Configurer>, i: nat, bs: seq<Backend>, b: Backend)
    requires i < |cs| && AllBuilt(cs[..i], bs) && Built(cs[i], b)
    ensures AllBuilt(cs[..i + 1], bs + [b])
  {
    assert forall j :: 0 <= j < i ==> cs[..i + 1][j] == cs[..i][j];
  }

  /** A backend made of fresh objects shares nothing with older ones. */
  lemma AppendFresh(bs: seq<Backend>, b: Backend)
    requires Disjoint(bs) && forall o :: o in Objs(b) ==> o !in AllObjs(bs)
    ensures Disjoint(bs + [b])
    ensures AllObjs(bs + [b]) == AllObjs(bs) + Objs(b)
  {
    var cs := bs + [b];
    forall i, j | 0 <= i < j < |cs| ensures Objs(cs[i]) !! Objs(cs[j]) {
      if j < |bs| {
        assert cs[i] == bs[i] && cs[j] == bs[j];
      } else {
        assert cs[i] == bs[i];
        assert forall o :: o in Objs(bs[i]) ==> o in AllObjs(bs);
      }
    }
    forall o | o in AllObjs(cs) ensures o in AllObjs(bs) + Objs(b) {
      var i :| 0 <= i < |cs| && o in Objs(cs[i]);
      if i < |bs| { assert cs[i] == bs[i]; }
    }
    forall o | o in AllObjs(bs) ensures o in AllObjs(cs) {
      var i :| 0 <= i < |bs| && o in Objs(bs[i]);
      assert cs[i] == bs[i];
    }
    assert cs[|bs|] == b;
  }

  /** The backends' names and read-only flags, in order. */
  function BackendNames(bs: seq<Backend>): (names: seq<string>)
    ensures |names| == |bs| && forall i :: 0 <= i < |bs| ==> names[i] == Name(bs[i])
  {
    seq(|bs|, i requires 0 <= i < |bs| => Name(bs[i]))
  }

  ghost function ReadonlyFlags(bs: seq<Backend>): (flags: seq<bool>)
    reads AllObjs(bs)
    ensures |flags| == |bs| && forall i :: 0 <= i < |bs| ==> flags[i] == Readonly(bs[i])
  {
    seq(|bs|, i requires 0 <= i < |bs| reads AllObjs(bs) => Readonly(bs[i]))
  }

  /** No two backends share a name. */
  predicate UniqueNames(bs: seq<Backend>)
  {
    forall i, j :: 0 <= i < j < |bs| ==> Name(bs[i]) != Name(bs[j])
  }

  /** The persistor `p`, if any, is a writable backend of `bs`. */
  ghost predicate WritableAt(bs: seq<Backend>, p: Option<nat>)
    reads AllObjs(bs)
  {
    p.Some? ==> p.value < |bs| && !Readonly(bs[p.value])
  }

  /** `getPersistorIndex`, proved against `PersistorIndex` over the
      backends' names and read-only flags `flags`. */
  method GetPersistorIndex(persistorName: string, bs: seq<Backend>, ghost flags: seq<bool>) returns (r: Result<Option<nat>>)
    requires flags == ReadonlyFlags(bs)
    ensures r == PersistorIndex(persistorName, BackendNames(bs), flags)
    ensures r.Ok? ==> WritableAt(bs, r.value)
  {
    if persistorName == "" {
      return Ok(None);
    }
    ghost var names := BackendNames(bs);
    var idx := FindMapperIndex(bs, persistorName);
    if idx < 0 {
      assert persistorName !in names;
      return Err(MapConfigSetup(PersistorNotFound(persistorName)));
    }
    FirstIndexAt(names, persistorName, idx);
    if Readonly(bs[idx]) {
      return Err(MapConfigSetup(PersistorReadonly(persistorName)));
    }
    return Ok(Some(idx));
  }

  /** Backends built from an accepted configuration carry the configurers'
      names and read-only flags, and their names are distinct. */
  lemma BuiltFacts(configs: seq<Configurer>, bs: seq<Backend>)
    requires Validate(Infos(configs)).None? && AllBuilt(configs, bs)
    ensures BackendNames(bs) == InfoNames(Infos(configs))
    ensures ReadonlyFlags(bs) == InfoReadonly(Infos(configs))
    ensures UniqueNames(bs)
  {
    var infos := Infos(configs);
    ValidateAccepts(infos);
    forall j | 0 <= j < |bs|
      ensures Name(bs[j]) == infos[j].name && Readonly(bs[j]) == infos[j].readonly
    {
      BuiltIdentity(configs[j], bs[j]);
    }
    forall i, j | 0 <= i < j < |bs| ensures Name(bs[i]) != Name(bs[j]) {
      assert AcceptableAt(infos, j);
    }
  }

  /** The manager over backends already built and checked. */
  method Assemble(ghost configs: seq<Configurer>, mappers: seq<Backend>, persistor: Option<nat>)
      returns (m: MapperManager)
    requires Disjoint(mappers) && AllBuilt(configs, mappers)
    requires UniqueNames(mappers) && WritableAt(mappers, persistor)
    ensures fresh(m) && m.Valid() && m.mappers == mappers && m.persistor == persistor
    ensures AllBuilt(configs, mappers)
  {
    m := new MapperManager(mappers, persistor);
  }

  /** The second half of `NewMapperManager`: the persistor is looked up by
      name among backends built from an accepted configuration. */
  method ResolvePersistor(persistorName: string, ghost configs: seq<Configurer>, mappers: seq<Backend>)
      returns (r: Result<MapperManager>)
    requires Validate(Infos(configs)).None? && Disjoint(mappers) && AllBuilt(configs, mappers)
    ensures r.Err? ==> Setup(persistorName, Infos(configs)) == Err(r.error)
    ensures r.Ok? ==> Setup(persistorName, Infos(configs)) == Ok(r.value.persistor)
    ensures r.Ok? ==> fresh(r.value) && r.value.Valid() && r.value.mappers == mappers && r.value.Repr == AllObjs(mappers)
    ensures AllBuilt(configs, mappers)
  {
    SetupOfBuilt(persistorName, configs, mappers);
    var pIdx := PersistorOf(persistorName, configs, mappers, ReadonlyFlags(mappers));
    if pIdx.Err? {
      return Err(pIdx.error);
    }
    var manager := Assemble(configs, mappers, pIdx.value);
    return Ok(manager);
  }

  /** The persistor's index among backends built from a configuration,
      looked up without disturbing what they were built from. */
  method PersistorOf(persistorName: string, ghost configs: seq<Configurer>, mappers: seq<Backend>, ghost flags: seq<bool>)
      returns (r: Result<Option<nat>>)
    requires AllBuilt(configs, mappers) && flags == ReadonlyFlags(mappers)
    ensures r == PersistorIndex(persistorName, BackendNames(mappers), flags)
    ensures r.Ok? ==> WritableAt(mappers, r.value)
    ensures AllBuilt(configs, mappers)
  {
    label built:
    r := GetPersistorIndex(persistorName, mappers, flags);
    assert unchanged@built(AllObjs(mappers));
  }

  /** Over backends built from an accepted configuration, `Setup` is the
      persistor lookup over the backends themselves. */
  lemma SetupOfBuilt(persistorName: string, configs: seq<Configurer>, bs: seq<Backend>)
    requires Validate(Infos(configs)).None? && AllBuilt(configs, bs)
    ensures Setup(persistorName, Infos(configs)) == PersistorIndex(persistorName, BackendNames(bs), ReadonlyFlags(bs))
    ensures UniqueNames(bs)
  {
    BuiltFacts(configs, bs);
  }

  /** `NewMapperManager`: validation first, then the persistor by name. */
  method NewMapperManager(persistorName: string, configs: seq<Configurer>) returns (r: Result<MapperManager>)
    ensures r.Err? ==> Setup(persistorName, Infos(configs)) == Err(r.error)
    ensures r.Ok? ==> Setup(persistorName, Infos(configs)) == Ok(r.value.persistor)
    ensures r.Ok? ==> fresh(r.value) && r.value.Valid() && (forall o :: o in r.value.Repr ==> fresh(o))
    ensures r.Ok? ==> |r.value.mappers| == |configs| &&
                      forall i :: 0 <= i < |configs| ==> Built(configs[i], r.value.mappers[i])
  {
    var m := ValidateAndGetMappers(configs);
    if m.Err? {
      return Err(m.error);
    }
    r := ResolvePersistor(persistorName, configs, m.value);
  }
}
