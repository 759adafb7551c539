/** The `Mapper` interface the manager works against (pkg/mapper/manager.go),
    stated over a pure view of one backend: what `GetUrl`, `ListUrls`,
    `PutUrl`, `DeleteUrl` and `Teardown` do to that view, and `Sanitize`,
    the rewrite a backend applies to the pairs it loads at start-up.

    Backends that sit on real storage can fail in any operation; a view
    records which operations of such a backend fail (`Faults`). The
    in-memory backends never fail. */
module Contract {
  import opened Errors
  import opened Pairs
  import Sanitizer

  /** Which implementation a backend is; `GetType` reports it. */
  datatype Kind = MockKind | MemKind | FileKind | StoreKind(typ: string)

  function TypeName(k: Kind): string
  {
    match k
    case MockKind => "mock"
    case MemKind => "MEM"
    case FileKind => "FILE"
    case StoreKind(typ) => typ
  }

  /** The operations of a storage-backed backend that fail. */
  datatype Faults = Faults(get: bool, list: bool, put: bool, delete: bool, teardown: bool)

  const NoFaults := Faults(false, false, false, false, false)

  /** What the manager can observe of one backend: its identity, whether it
      is read-only, the pairs it stores under their keys, the operations
      that fail, and how often its reload ticker has been stopped. */
  datatype View = View(kind: Kind, name: string, readonly: bool, pairs: map<string, Pair>,
                       faults: Faults, hasStop: bool, stops: nat)

  /** `GetUrl`: an exact-key lookup; a miss is not an error. */
  function Lookup(v: View, path: string): (r: Result<Option<Pair>>)
    ensures r.Err? <==> v.faults.get
    ensures r.Ok? ==> (r.value.Some? <==> path in v.pairs)
    ensures r.Ok? && r.value.Some? ==> r.value.value == v.pairs[path]
  {
    if v.faults.get then Err(StorageFailure("get"))
    else if path in v.pairs then Ok(Some(v.pairs[path]))
    else Ok(None)
  }

  /** `ListUrls`: `l` is the full listing of the backend, one element per
      stored pair in the order `keys` gives; listing fails only on a
      backend whose listing fails. */
  ghost predicate Listing(v: View, l: seq<Pair>, keys: seq<string>)
  {
    !v.faults.list && Lists(l, v.pairs, keys)
  }

  /** `PutUrl`: a read-only backend refuses; otherwise the pair is stored
      under its own path and returned. */
  function Put(v: View, p: Pair): (r: (View, Result<Pair>))
    ensures v.readonly || v.faults.put ==> r.0 == v && r.1.Err?
    ensures v.readonly ==> r.1 == Err(OperationNotSupported("put"))
    ensures r.1.Ok? ==> r.1.value == p && r.0 == v.(pairs := v.pairs[p.path := p])
  {
    if v.readonly then (v, Err(OperationNotSupported("put")))
    else if v.faults.put then (v, Err(StorageFailure("put")))
    else (v.(pairs := v.pairs[p.path := p]), Ok(p))
  }

  /** `DeleteUrl`: a read-only backend refuses; otherwise the key is
      removed, and removing a key that is not there succeeds. */
  function Delete(v: View, path: string): (r: (View, Outcome))
    ensures v.readonly || v.faults.delete ==> r.0 == v && r.1.Fail?
    ensures v.readonly ==> r.1 == Fail(OperationNotSupported("delete"))
    ensures r.1.Pass? ==> r.0 == v.(pairs := v.pairs - {path})
  {
    if v.readonly then (v, Fail(OperationNotSupported("delete")))
    else if v.faults.delete then (v, Fail(StorageFailure("delete")))
    else (v.(pairs := v.pairs - {path}), Pass)
  }

  /** `Teardown`: a backend with a reload ticker stops it; only a storage
      backend can fail. */
  function Down(v: View): (r: (View, Outcome))
    ensures r.1.Fail? <==> v.faults.teardown
    ensures r.0.pairs == v.pairs && r.0.name == v.name && r.0.readonly == v.readonly
    ensures r.0.stops == v.stops + (if v.hasStop && !v.faults.teardown then 1 else 0)
  {
    if v.faults.teardown then (v, Fail(StorageFailure("teardown")))
    else if v.hasStop then (v.(stops := v.stops + 1), Pass)
    else (v, Pass)
  }

  /** A successful write is read back by the next lookup, and no other key
      changes. */
  lemma PutThenLookup(v: View, p: Pair, path: string)
    requires Put(v, p).1.Ok?
    ensures Lookup(Put(v, p).0, p.path) == if v.faults.get then Err(StorageFailure("get")) else Ok(Some(p))
    ensures path != p.path ==> Lookup(Put(v, p).0, path) == Lookup(v, path)
  {
  }

  /** After a successful delete the key misses, and no other key changes. */
  lemma DeleteThenLookup(v: View, path: string, other: string)
    requires Delete(v, path).1.Pass?
    ensures Lookup(Delete(v, path).0, path) == if v.faults.get then Err(StorageFailure("get")) else Ok(None)
    ensures other != path ==> Lookup(Delete(v, path).0, other) == Lookup(v, other)
  {
  }

  /** No operation renames a backend, changes its kind or changes whether
      it is read-only. */
  lemma WritesKeepIdentity(v: View, p: Pair, path: string)
    ensures Put(v, p).0.name == v.name && Put(v, p).0.readonly == v.readonly && Put(v, p).0.kind == v.kind
    ensures Delete(v, path).0.name == v.name && Delete(v, path).0.readonly == v.readonly
    ensures Delete(v, path).0.kind == v.kind
    ensures Down(v).0.kind == v.kind
  {
  }

  /** `Sanitize` (manager.go): the pair is stamped with the backend's name,
      its path loses its leading and trailing slashes, and a read-only
      backend reports a use count of 0. */
  function Sanitize(name: string, readonly: bool, p: Pair): (q: Pair)
    ensures q.url == p.url && q.mapper == name
    ensures q.path == Sanitizer.Trim(p.path, '/')
    ensures q.useCount == if readonly then 0 else p.useCount
  {
    Pair(Sanitizer.Trim(p.path, '/'), p.url, name, if readonly then 0 else p.useCount)
  }

  /** Sanitizing twice is sanitizing once, and the result neither begins
      nor ends with a slash. */
  lemma SanitizeIdempotent(name: string, readonly: bool, p: Pair)
    ensures Sanitize(name, readonly, Sanitize(name, readonly, p)) == Sanitize(name, readonly, p)
    ensures var t := Sanitize(name, readonly, p).path; t == [] || (t[0] != '/' && t[|t| - 1] != '/')
  {
    Sanitizer.TrimIdempotent(p.path, '/');
  }

  /** The loop with which the in-memory and file backends sanitize the
      pairs they load: `Sanitize` applied to every stored pair in place, the
      keys left as they are. */
  method SanitizeEach(name: string, readonly: bool, stored: map<string, Pair>) returns (sanitized: map<string, Pair>)
    ensures sanitized.Keys == stored.Keys
    ensures forall k :: k in sanitized ==> sanitized[k] == Sanitize(name, readonly, stored[k])
  {
    var rest := stored.Keys;
    sanitized := stored;
    while rest != {}
      invariant rest <= stored.Keys && sanitized.Keys == stored.Keys
      invariant forall k :: k in sanitized ==>
                  sanitized[k] == if k in rest then stored[k] else Sanitize(name, readonly, stored[k])
      decreases |rest|
    {
      var k :| k in rest;
      sanitized := sanitized[k := Sanitize(name, readonly, sanitized[k])];
      rest := rest - {k};
    }
  }
}
