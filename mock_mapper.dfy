/** The map-backed test backend and its configurer
    (pkg/mapper/manager_mock.go). The mock keeps its pairs in a map that
    `PutUrl` and `DeleteUrl` update in place; its configurer sanitizes a
    starter map into a fresh mock. */
module MockMappers {
  import opened Errors
  import opened Pairs
  import opened Pagination
  import opened Sanitizer
  import Contract

  class MockMapper {
    var pairs: map<string, Pair>
    var isReadOnly: bool
    const name: string

    constructor(name: string, pairs: map<string, Pair>)
      ensures this.name == name && this.pairs == pairs && !isReadOnly
    {
      this.name := name;
      this.pairs := pairs;
      isReadOnly := false;
    }

    function GetType(): string
    {
      Contract.TypeName(Contract.MockKind)
    }

    /** What the manager sees of this mock. */
    function View(): (v: Contract.View)
      reads this
      ensures v.name == name && v.readonly == isReadOnly && v.pairs == pairs && v.faults == Contract.NoFaults
    {
      Contract.View(Contract.MockKind, name, isReadOnly, pairs, Contract.NoFaults, false, 0)
    }

    /** `GetUrl`: the stored pair for exactly this key; never an error. */
    function GetUrl(path: string): (r: Option<Pair>)
      reads this
      ensures Contract.Lookup(View(), path) == Ok(r)
      ensures r.Some? <==> path in pairs
    {
      if path in pairs then Some(pairs[path]) else None
    }

    /** `ListUrls`: one page of the full listing. */
    method ListUrls(page: Page) returns (l: seq<Pair>, ghost full: seq<Pair>, ghost keys: seq<string>)
      ensures Contract.Listing(View(), full, keys) && |full| == |pairs|
      ensures l == Paginate(full, page)
    {
      var listed;
      listed, keys := ToList(pairs);
      full := listed;
      l := Paginate(listed, page);
    }

    /** `PutUrl`: refused on a read-only mock; otherwise the pair is stored
        under its path and returned. */
    method PutUrl(p: Pair) returns (r: Result<Pair>)
      modifies this
      ensures (View(), r) == Contract.Put(old(View()), p)
      ensures isReadOnly ==> r == Err(OperationNotSupported("put")) && pairs == old(pairs)
      ensures !isReadOnly ==> r == Ok(p) && pairs == old(pairs)[p.path := p]
      ensures isReadOnly == old(isReadOnly)
    {
      if isReadOnly {
        return Err(OperationNotSupported("put"));
      }
      pairs := pairs[p.path := p];
      return Ok(p);
    }

    /** `DeleteUrl`: refused on a read-only mock; otherwise the key is
        removed (an absent key is no error). */
    method DeleteUrl(path: string) returns (o: Outcome)
      modifies this
      ensures (View(), o) == Contract.Delete(old(View()), path)
      ensures isReadOnly ==> o == Fail(OperationNotSupported("delete")) && pairs == old(pairs)
      ensures !isReadOnly ==> o == Pass && pairs == old(pairs) - {path}
      ensures isReadOnly == old(isReadOnly)
    {
      if isReadOnly {
        return Fail(OperationNotSupported("delete"));
      }
      pairs := pairs - {path};
      return Pass;
    }

    method Teardown() returns (o: Outcome)
      ensures o == Pass && (View(), o) == Contract.Down(View())
    {
      return Pass;
    }
  }

  class MockMapperConfigurer {
    const name: string
    const isSingleton: bool
    const isReadOnly: bool
    const starterPairs: map<string, Pair>

    constructor(name: string, isSingleton: bool, isReadOnly: bool, starterPairs: map<string, Pair>)
      ensures this.name == name && this.isSingleton == isSingleton && this.isReadOnly == isReadOnly
      ensures this.starterPairs == starterPairs
    {
      this.name := name;
      this.isSingleton := isSingleton;
      this.isReadOnly := isReadOnly;
      this.starterPairs := starterPairs;
    }

    function GetType(): string
    {
      Contract.TypeName(Contract.MockKind)
    }

    function Singleton(): bool
    {
      isSingleton
    }

    /** `GetMapper`: a fresh mock named after the configurer (the name is in
        place before the starter pairs are sanitized under it), holding the
        sanitized starter pairs under their canonical keys; a key or pair
        that does not sanitize is the error. */
    method GetMapper() returns (r: Result<MockMapper>)
      ensures r.Ok? <==> Sanitizable(name, starterPairs)
      ensures r.Err? ==> exists k :: k in starterPairs && EntryError(name, k, starterPairs[k]) == Some(r.error)
      ensures r.Ok? ==> fresh(r.value) && r.value.name == name && r.value.isReadOnly == isReadOnly
      ensures r.Ok? ==> RewrittenCopy(CanonicalizePath, Rewriter(name), starterPairs, starterPairs.Keys, r.value.pairs)
      ensures r.Ok? ==> |r.value.pairs| <= |starterPairs|
    {
      var mapper := new MockMapper(name, starterPairs);
      var sanitized := SanitizeInputMap(mapper.name, mapper.pairs);
      if sanitized.Err? {
        return Err(sanitized.error);
      }
      mapper.pairs := sanitized.value;
      mapper.isReadOnly := isReadOnly;
      return Ok(mapper);
    }
  }

  /** `CloneConfigurers`: fresh configurers, one per input and in the same
      order, with the same name and flags and a map of their own holding a
      copy of every starter pair. */
  method CloneConfigurers(configurers: seq<MockMapperConfigurer>) returns (copied: seq<MockMapperConfigurer>)
    ensures |copied| == |configurers|
    ensures forall i :: 0 <= i < |copied| ==>
              fresh(copied[i]) &&
              copied[i].name == configurers[i].name &&
              copied[i].isSingleton == configurers[i].isSingleton &&
              copied[i].isReadOnly == configurers[i].isReadOnly &&
              copied[i].starterPairs == configurers[i].starterPairs
    ensures forall i, j :: 0 <= i < j < |copied| ==> copied[i] != copied[j]
  {
    copied := [];
    for i := 0 to |configurers|
      invariant |copied| == i
      invariant forall k :: 0 <= k < i ==>
                  fresh(copied[k]) &&
                  copied[k].name == configurers[k].name &&
                  copied[k].isSingleton == configurers[k].isSingleton &&
                  copied[k].isReadOnly == configurers[k].isReadOnly &&
                  copied[k].starterPairs == configurers[k].starterPairs
      invariant forall k, l :: 0 <= k < l < i ==> copied[k] != copied[l]
    {
      var configurer := configurers[i];
      var pairs := CloneMap(configurer.starterPairs);
      assert pairs == configurer.starterPairs;
      var element := new MockMapperConfigurer(configurer.name, configurer.isSingleton, configurer.isReadOnly, pairs);
      copied := copied + [element];
    }
  }
}
