/** The read-only in-memory backend and its configuration
    (pkg/mapper/mem-mapper). The backend never changes once built, so it is
    a value; building it from the configured list of pairs fills a map and
    then sanitizes every stored pair in place. */
module MemMappers {
  import opened Errors
  import opened Pairs
  import opened Pagination
  import Contract
  import Sanitizer

  datatype MemMapper = MemMapper(name: string, pairs: map<string, Pair>)
  {
    function GetName(): string
    {
      name
    }

    function GetType(): string
    {
      Contract.TypeName(Contract.MemKind)
    }

    /** What the manager sees of this backend: it is read-only. */
    function View(): (v: Contract.View)
      ensures v.name == name && v.readonly && v.pairs == pairs && v.faults == Contract.NoFaults
      ensures v.kind == Contract.MemKind && !v.hasStop
    {
      Contract.View(Contract.MemKind, name, true, pairs, Contract.NoFaults, false, 0)
    }

    function Readonly(): (r: bool)
      ensures r == View().readonly
    {
      true
    }

    /** `GetUrl`: the stored pair for exactly this key; never an error. */
    function GetUrl(path: string): (r: Option<Pair>)
      ensures Contract.Lookup(View(), path) == Ok(r)
      ensures r.Some? <==> path in pairs
    {
      if path in pairs then Some(pairs[path]) else None
    }

    /** `ListUrls`: one page of the full listing. */
    method ListUrls(page: Page) returns (l: seq<Pair>, ghost full: seq<Pair>, ghost keys: seq<string>)
      ensures Contract.Listing(View(), full, keys) && |full| == |pairs|
      ensures l == Paginate(full, page)
    {
      var listed;
      listed, keys := ToList(pairs);
      full := listed;
      l := Paginate(listed, page);
    }

    /** `PutUrl` is not supported, whatever the pair. */
    function PutUrl(p: Pair): (r: Result<Pair>)
      ensures r == Err(OperationNotSupported("put"))
      ensures Contract.Put(View(), p) == (View(), r)
    {
      Err(OperationNotSupported("put"))
    }

    /** `DeleteUrl` is not supported, whatever the path. */
    function DeleteUrl(path: string): (o: Outcome)
      ensures o == Fail(OperationNotSupported("delete"))
      ensures Contract.Delete(View(), path) == (View(), o)
    {
      Fail(OperationNotSupported("delete"))
    }

    function Teardown(): (o: Outcome)
      ensures o == Pass && Contract.Down(View()) == (View(), o)
    {
      Pass
    }
  }

  /** The configuration of an in-memory backend: its name and its pairs. */
  datatype MemMapperConfig = MemMapperConfig(name: string, pairs: seq<Pair>)
  {
    function GetName(): string
    {
      name
    }

    function GetType(): string
    {
      Contract.TypeName(Contract.MemKind)
    }

    /** There is at most one in-memory backend kind per manager. */
    function Singleton(): bool
    {
      true
    }

    /** `GetMapper` never fails. The pairs are keyed by the path they were
        configured with (a later pair replacing an earlier one with the
        same path); then each stored pair is sanitized for a read-only
        backend of this name, which trims the slashes off its path but not
        off its key. */
    method GetMapper() returns (r: Result<MemMapper>)
      ensures r.Ok? && r.value.name == name
      ensures r.value.pairs.Keys == Paths(pairs)
      ensures forall k :: k in r.value.pairs ==>
                r.value.pairs[k] == Contract.Sanitize(name, true, ByPath(pairs)[k])
    {
      // The first loop of the source keys each configured pair by its path,
      // as `ToMap` does.
      var stored := ToMap(pairs);
      var mm := MemMapper(name, stored);
      var sanitized := Contract.SanitizeEach(mm.GetName(), mm.Readonly(), stored);
      return Ok(mm.(pairs := sanitized));
    }
  }

  /** Every key of the map of a list is the path of the pair stored under
      it. */
  lemma {:induction false} ByPathKeys(l: seq<Pair>)
    ensures forall k :: k in ByPath(l) ==> ByPath(l)[k].path == k
  {
    if l != [] {
      var init := l[..|l| - 1];
      ByPathKeys(init);
    }
  }

  /** What a built in-memory backend stores: under each configured path, a
      pair stamped with the backend's name, with a use count of 0 and with
      that path stripped of its leading and trailing slashes. A path
      configured with slashes is therefore stored under a key that differs
      from the pair's own path. */
  lemma StoredPairs(config: MemMapperConfig, m: MemMapper)
    requires m.name == config.name && m.pairs.Keys == Paths(config.pairs)
    requires forall k :: k in m.pairs ==> m.pairs[k] == Contract.Sanitize(config.name, true, ByPath(config.pairs)[k])
    ensures forall k :: k in m.pairs ==>
              m.pairs[k].mapper == config.name && m.pairs[k].useCount == 0 &&
              m.pairs[k].path == Sanitizer.Trim(k, '/')
  {
    ByPathKeys(config.pairs);
  }

  /** `p` sanitized `n` times over. */
  function SanitizedTimes(name: string, p: Pair, n: nat): Pair
  {
    if n == 0 then p else Contract.Sanitize(name, true, SanitizedTimes(name, p, n - 1))
  }

  lemma {:induction false} SanitizedTimesOnce(name: string, p: Pair, n: nat)
    requires n > 0
    ensures SanitizedTimes(name, p, n) == Contract.Sanitize(name, true, p)
  {
    if n > 1 {
      SanitizedTimesOnce(name, p, n - 1);
      Contract.SanitizeIdempotent(name, true, p);
    }
  }

  /** The map `GetMapper` builds when `&pair` (config.go:30) is the address
      of a single loop variable shared by all iterations, as before Go 1.22:
      every key then refers to that variable, which ends up holding the last
      configured pair, and the sanitizing loop runs over it once per key. */
  function SharedVariablePairs(config: MemMapperConfig): (m: map<string, Pair>)
    ensures m.Keys == Paths(config.pairs)
  {
    if config.pairs == [] then map[]
    else
      var last := config.pairs[|config.pairs| - 1];
      map k | k in Paths(config.pairs) :: SanitizedTimes(config.name, last, |Paths(config.pairs)|)
  }

  /** `stored` holds, under each configured path, one of the configured
      pairs sanitized for a read-only backend of the config's name. */
  ghost predicate SanitizedFromConfig(config: MemMapperConfig, stored: map<string, Pair>)
  {
    && stored.Keys == Paths(config.pairs)
    && forall k :: k in stored ==>
         exists j :: 0 <= j < |config.pairs| && stored[k] == Contract.Sanitize(config.name, true, config.pairs[j])
  }

  /** With a variable per iteration, as `GetMapper` is modelled. */
  lemma PerIterationReading(config: MemMapperConfig, stored: map<string, Pair>)
    requires stored.Keys == Paths(config.pairs)
    requires forall k :: k in stored ==> stored[k] == Contract.Sanitize(config.name, true, ByPath(config.pairs)[k])
    ensures SanitizedFromConfig(config, stored)
  {
    forall k | k in stored
      ensures exists j :: 0 <= j < |config.pairs| && stored[k] == Contract.Sanitize(config.name, true, config.pairs[j])
    {
      ByPathHoldsLastElement(config.pairs, k);
    }
  }

  /** With one variable shared by all iterations: every key holds the last
      configured pair, sanitized once. */
  lemma SharedVariableReading(config: MemMapperConfig)
    ensures SanitizedFromConfig(config, SharedVariablePairs(config))
    ensures config.pairs != [] ==> forall k :: k in SharedVariablePairs(config) ==>
              SharedVariablePairs(config)[k] == Contract.Sanitize(config.name, true, config.pairs[|config.pairs| - 1])
  {
    if config.pairs != [] {
      var j := |config.pairs| - 1;
      SanitizedTimesOnce(config.name, config.pairs[j], |Paths(config.pairs)|);
    }
  }

  /** Whichever way the loop variable is read, every pair a built in-memory
      backend stores is stamped with its name, has a use count of 0 and a
      path that neither begins nor ends with a slash. */
  lemma StoredPairsEitherReading(config: MemMapperConfig, stored: map<string, Pair>)
    requires SanitizedFromConfig(config, stored)
    ensures forall k :: k in stored ==>
              stored[k].mapper == config.name && stored[k].useCount == 0 && EdgeFree(stored[k].path)
  {
    forall k | k in stored
      ensures stored[k].mapper == config.name && stored[k].useCount == 0 && EdgeFree(stored[k].path)
    {
      var j :| 0 <= j < |config.pairs| && stored[k] == Contract.Sanitize(config.name, true, config.pairs[j]);
      Contract.SanitizeIdempotent(config.name, true, config.pairs[j]);
    }
  }

  /** `t` neither begins nor ends with a slash. */
  predicate EdgeFree(t: string)
  {
    t == [] || (t[0] != '/' && t[|t| - 1] != '/')
  }
}
