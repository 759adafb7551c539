/** The read-only file backend (pkg/mapper/file-mapper): the pairs parsed
    from a file, and an optional function that stops the reload ticker. The
    file itself, its parser and the ticker goroutine are not part of this
    model: the configuration carries what parsing the file yielded, and the
    stop function is tracked by how often it has been called. */
module FileMappers {
  import opened Errors
  import opened Pairs
  import Contract

  class FileMapper {
    const name: string
    var pairs: map<string, Pair>
    const hasStop: bool
    var stops: nat

    constructor(name: string, pairs: map<string, Pair>, hasStop: bool)
      ensures this.name == name && this.pairs == pairs && this.hasStop == hasStop && stops == 0
    {
      this.name := name;
      this.pairs := pairs;
      this.hasStop := hasStop;
      stops := 0;
    }

    function GetType(): string
    {
      Contract.TypeName(Contract.FileKind)
    }

    /** What the manager sees of this backend: it is read-only. */
    function View(): (v: Contract.View)
      reads this
      ensures v.name == name && v.readonly && v.pairs == pairs && v.faults == Contract.NoFaults
      ensures v.hasStop == hasStop && v.stops == stops
    {
      Contract.View(Contract.FileKind, name, true, pairs, Contract.NoFaults, hasStop, stops)
    }

    function Readonly(): (r: bool)
      reads this
      ensures r == View().readonly
    {
      true
    }

    /** `GetUrl`: the stored pair for exactly this key; never an error. */
    function GetUrl(path: string): (r: Option<Pair>)
      reads this
      ensures Contract.Lookup(View(), path) == Ok(r)
      ensures r.Some? <==> path in pairs
    {
      if path in pairs then Some(pairs[path]) else None
    }

    /** `ListUrls`: the whole listing, one element per stored pair. */
    method ListUrls() returns (l: seq<Pair>, ghost keys: seq<string>)
      ensures Contract.Listing(View(), l, keys) && |l| == |pairs|
    {
      l, keys := ToList(pairs);
    }

    /** `PutUrl` is not supported. */
    function PutUrl(p: Pair): (r: Result<Pair>)
      reads this
      ensures r == Err(OperationNotSupported("put"))
      ensures Contract.Put(View(), p) == (View(), r)
    {
      Err(OperationNotSupported("put"))
    }

    /** `DeleteUrl` is not supported. */
    function DeleteUrl(path: string): (o: Outcome)
      reads this
      ensures o == Fail(OperationNotSupported("delete"))
      ensures Contract.Delete(View(), path) == (View(), o)
    {
      Fail(OperationNotSupported("delete"))
    }

    /** `Teardown` calls the stop function when there is one, and never
        fails. */
    method Teardown() returns (o: Outcome)
      modifies this
      ensures (View(), o) == Contract.Down(old(View()))
      ensures o == Pass && pairs == old(pairs)
      ensures stops == old(stops) + (if hasStop then 1 else 0)
    {
      if hasStop {
        stops := stops + 1;
      }
      return Pass;
    }
  }

  /** The configuration of a file backend: its name, what parsing its file
      yields (the pairs, or the parser's error), and the reload interval in
      seconds. */
  datatype FileMapperConfig = FileMapperConfig(name: string, parsed: Result<seq<Pair>>, syncInterval: int)
  {
    function GetName(): string
    {
      name
    }

    function GetType(): string
    {
      Contract.TypeName(Contract.FileKind)
    }

    /** Several file backends may be configured side by side. */
    function Singleton(): bool
    {
      false
    }

    /** `GetMapper`: a parse error is returned as it is; otherwise a fresh
        backend keyed by the parsed paths, with a stop function exactly when
        the reload interval is positive, and every stored pair sanitized for
        a read-only backend of this name. */
    method GetMapper() returns (r: Result<FileMapper>)
      ensures parsed.Err? ==> r == Err(parsed.error)
      ensures parsed.Ok? ==> r.Ok? && fresh(r.value) && r.value.name == name && r.value.stops == 0
      ensures parsed.Ok? ==> r.value.hasStop == (syncInterval > 0)
      ensures parsed.Ok? ==> r.value.pairs.Keys == Paths(parsed.value)
      ensures parsed.Ok? ==> forall k :: k in r.value.pairs ==>
                r.value.pairs[k] == Contract.Sanitize(name, true, ByPath(parsed.value)[k])
    {
      if parsed.Err? {
        return Err(parsed.error);
      }
      var stored := ToMap(parsed.value);
      var mm := new FileMapper(name, stored, syncInterval > 0);
      var sanitized := Contract.SanitizeEach(mm.name, mm.Readonly(), mm.pairs);
      mm.pairs := sanitized;
      return Ok(mm);
    }
  }
}
