/** A backend on persistent storage (the bolt and SQL backends of the
    repository) reduced to what the manager relies on: a name, a type, a
    read-only flag and a stored map, with the storage engine itself left
    out. Which of its operations the engine makes fail is part of its
    state, so that every error path of the manager can be reached. */
module StoreMappers {
  import opened Errors
  import opened Pairs
  import Contract

  class StoreMapper {
    const name: string
    const typ: string
    const readonly: bool
    const faults: Contract.Faults
    var pairs: map<string, Pair>

    constructor(name: string, typ: string, readonly: bool, faults: Contract.Faults, pairs: map<string, Pair>)
      ensures this.name == name && this.typ == typ && this.readonly == readonly
      ensures this.faults == faults && this.pairs == pairs
    {
      this.name := name;
      this.typ := typ;
      this.readonly := readonly;
      this.faults := faults;
      this.pairs := pairs;
    }

    function View(): (v: Contract.View)
      reads this
      ensures v.name == name && v.readonly == readonly && v.pairs == pairs && v.faults == faults
      ensures v.kind == Contract.StoreKind(typ) && !v.hasStop
    {
      Contract.View(Contract.StoreKind(typ), name, readonly, pairs, faults, false, 0)
    }

    /** `GetUrl`: a lookup that fails when the engine fails. */
    function GetUrl(path: string): (r: Result<Option<Pair>>)
      reads this
      ensures r == Contract.Lookup(View(), path)
    {
      if faults.get then Err(StorageFailure("get"))
      else if path in pairs then Ok(Some(pairs[path]))
      else Ok(None)
    }

    /** `ListUrls`: the whole listing, or the engine's error. */
    method ListUrls() returns (r: Result<seq<Pair>>, ghost keys: seq<string>)
      ensures r.Err? <==> faults.list
      ensures r.Err? ==> r.error == StorageFailure("list")
      ensures r.Ok? ==> Contract.Listing(View(), r.value, keys)
    {
      if faults.list {
        return Err(StorageFailure("list")), [];
      }
      var l;
      l, keys := ToList(pairs);
      return Ok(l), keys;
    }

    method PutUrl(p: Pair) returns (r: Result<Pair>)
      modifies this
      ensures (View(), r) == Contract.Put(old(View()), p)
    {
      if readonly {
        return Err(OperationNotSupported("put"));
      }
      if faults.put {
        return Err(StorageFailure("put"));
      }
      pairs := pairs[p.path := p];
      return Ok(p);
    }

    method DeleteUrl(path: string) returns (o: Outcome)
      modifies this
      ensures (View(), o) == Contract.Delete(old(View()), path)
    {
      if readonly {
        return Fail(OperationNotSupported("delete"));
      }
      if faults.delete {
        return Fail(StorageFailure("delete"));
      }
      pairs := pairs - {path};
      return Pass;
    }

    method Teardown() returns (o: Outcome)
      ensures (View(), o) == Contract.Down(View())
      ensures o.Fail? <==> faults.teardown
    {
      if faults.teardown {
        return Fail(StorageFailure("teardown"));
      }
      return Pass;
    }
  }

  /** The configuration of a storage backend: what opening its storage
      yields (the stored pairs, or the engine's error), and the flags of the
      backend it opens. */
  datatype StoreConfig = StoreConfig(name: string, typ: string, singleton: bool, readonly: bool,
                                     faults: Contract.Faults, storage: Result<map<string, Pair>>)
  {
    method GetMapper() returns (r: Result<StoreMapper>)
      ensures storage.Err? ==> r == Err(storage.error)
      ensures storage.Ok? ==> r.Ok? && fresh(r.value)
      ensures storage.Ok? ==>
                r.value.View() == Contract.View(Contract.StoreKind(typ), name, readonly, storage.value, faults, false, 0)
    {
      if storage.Err? {
        return Err(storage.error);
      }
      var s := new StoreMapper(name, typ, readonly, faults, storage.value);
      return Ok(s);
    }
  }
}
