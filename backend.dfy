/** The backends and configurers the manager can be given, as closed sums
    over the implementations of this model, with the interface calls of
    pkg/mapper/manager.go dispatched to each. `ViewOf` is what the manager
    can observe of a backend; every call is proved against the contract
    stated over that view. */
module Backends {
  import opened Errors
  import opened Pairs
  import opened Pagination
  import opened Sanitizer
  import Contract
  import opened MockMappers
  import opened MemMappers
  import opened FileMappers
  import opened StoreMappers

  datatype Backend =
    | Mock(mock: MockMapper)
    | Mem(mem: MemMapper)
    | File(file: FileMapper)
    | Store(store: StoreMapper)

  /** The objects that hold the backend's state. */
  function Objs(b: Backend): set<object>
  {
    match b
    case Mock(m) => {m}
    case Mem(_) => {}
    case File(f) => {f}
    case Store(s) => {s}
  }

  /** `GetName`. */
  function Name(b: Backend): string
  {
    match b
    case Mock(m) => m.name
    case Mem(m) => m.name
    case File(f) => f.name
    case Store(s) => s.name
  }

  /** `GetType`. */
  function GetType(b: Backend): string
  {
    match b
    case Mock(m) => m.GetType()
    case Mem(m) => m.GetType()
    case File(f) => f.GetType()
    case Store(s) => s.typ
  }

  function ViewOf(b: Backend): (v: Contract.View)
    reads Objs(b)
    ensures v.name == Name(b) && Contract.TypeName(v.kind) == GetType(b)
  {
    match b
    case Mock(m) => m.View()
    case Mem(m) => m.View()
    case File(f) => f.View()
    case Store(s) => s.View()
  }

  /** `Readonly`. */
  function Readonly(b: Backend): (r: bool)
    reads Objs(b)
    ensures r == ViewOf(b).readonly
  {
    match b
    case Mock(m) => m.isReadOnly
    case Mem(m) => m.Readonly()
    case File(f) => f.Readonly()
    case Store(s) => s.readonly
  }

  /** `GetUrl`. */
  function GetUrl(b: Backend, path: string): (r: Result<Option<Pair>>)
    reads Objs(b)
    ensures r == Contract.Lookup(ViewOf(b), path)
  {
    match b
    case Mock(m) => Ok(m.GetUrl(path))
    case Mem(m) => Ok(m.GetUrl(path))
    case File(f) => Ok(f.GetUrl(path))
    case Store(s) => s.GetUrl(path)
  }

  /** `ListUrls` as the manager calls it, without a page: the mock and the
      in-memory backend are asked for one page that holds everything. */
  method ListUrls(b: Backend) returns (r: Result<seq<Pair>>, ghost keys: seq<string>)
    ensures r.Err? <==> ViewOf(b).faults.list
    ensures r.Err? ==> r.error == StorageFailure("list")
    ensures r.Ok? ==> Contract.Listing(ViewOf(b), r.value, keys)
  {
    match b
    case Mock(m) =>
      var l, full, ks := m.ListUrls(Page(0, |m.pairs|));
      WholePage(full, |m.pairs|);
      return Ok(l), ks;
    case Mem(m) =>
      var l, full, ks := m.ListUrls(Page(0, |m.pairs|));
      WholePage(full, |m.pairs|);
      return Ok(l), ks;
    case File(f) =>
      var l, ks := f.ListUrls();
      return Ok(l), ks;
    case Store(s) =>
      r, keys := s.ListUrls();
  }

  /** `PutUrl`. */
  method PutUrl(b: Backend, p: Pair) returns (r: Result<Pair>)
    modifies Objs(b)
    ensures (ViewOf(b), r) == Contract.Put(old(ViewOf(b)), p)
  {
    match b
    case Mock(m) => r := m.PutUrl(p);
    case Mem(m) => r := m.PutUrl(p);
    case File(f) => r := f.PutUrl(p);
    case Store(s) => r := s.PutUrl(p);
  }

  /** `DeleteUrl`. */
  method DeleteUrl(b: Backend, path: string) returns (o: Outcome)
    modifies Objs(b)
    ensures (ViewOf(b), o) == Contract.Delete(old(ViewOf(b)), path)
  {
    match b
    case Mock(m) => o := m.DeleteUrl(path);
    case Mem(m) => o := m.DeleteUrl(path);
    case File(f) => o := f.DeleteUrl(path);
    case Store(s) => o := s.DeleteUrl(path);
  }

  /** `Teardown`. */
  method Teardown(b: Backend) returns (o: Outcome)
    modifies Objs(b)
    ensures (ViewOf(b), o) == Contract.Down(old(ViewOf(b)))
  {
    match b
    case Mock(m) => o := m.Teardown();
    case Mem(m) => o := m.Teardown();
    case File(f) => o := f.Teardown();
    case Store(s) => o := s.Teardown();
  }

  // ---------------------------------------------------------------------
  // Configurers

  /** An entry of the manager's configuration list; Go's nil configurer is
      `NilConfigurer`. */
  datatype Configurer =
    | NilConfigurer
    | OfMock(mc: MockMapperConfigurer)
    | OfMem(memc: MemMapperConfig)
    | OfFile(fc: FileMapperConfig)
    | OfStore(sc: StoreConfig)

  /** What validation looks at in a configurer: its type, its name and its
      singleton flag; whether the backend it builds is read-only; and
      whether building it fails. */
  datatype ConfigInfo = ConfigInfo(isNil: bool, typ: string, name: string, singleton: bool,
                                   readonly: bool, fails: bool)

  ghost function Info(c: Configurer): ConfigInfo
  {
    match c
    case NilConfigurer => ConfigInfo(true, "", "", false, false, false)
    case OfMock(mc) =>
      ConfigInfo(false, mc.GetType(), mc.name, mc.Singleton(), mc.isReadOnly, !Sanitizable(mc.name, mc.starterPairs))
    case OfMem(memc) => ConfigInfo(false, memc.GetType(), memc.name, memc.Singleton(), true, false)
    case OfFile(fc) => ConfigInfo(false, fc.GetType(), fc.name, fc.Singleton(), true, fc.parsed.Err?)
    case OfStore(sc) => ConfigInfo(false, sc.typ, sc.name, sc.singleton, sc.readonly, sc.storage.Err?)
  }

  /** `GetType` of a configurer. */
  function ConfigType(c: Configurer): (t: string)
    requires !c.NilConfigurer?
    ensures t == Info(c).typ
  {
    match c
    case OfMock(mc) => mc.GetType()
    case OfMem(memc) => memc.GetType()
    case OfFile(fc) => fc.GetType()
    case OfStore(sc) => sc.typ
  }

  /** `GetName` of a configurer. */
  function ConfigName(c: Configurer): (n: string)
    requires !c.NilConfigurer?
    ensures n == Info(c).name
  {
    match c
    case OfMock(mc) => mc.name
    case OfMem(memc) => memc.name
    case OfFile(fc) => fc.name
    case OfStore(sc) => sc.name
  }

  /** `Singleton` of a configurer. */
  function ConfigSingleton(c: Configurer): (s: bool)
    requires !c.NilConfigurer?
    ensures s == Info(c).singleton
  {
    match c
    case OfMock(mc) => mc.Singleton()
    case OfMem(memc) => memc.Singleton()
    case OfFile(fc) => fc.Singleton()
    case OfStore(sc) => sc.singleton
  }

  /** `b` is what `c.GetMapper()` builds when it succeeds. */
  ghost predicate Built(c: Configurer, b: Backend)
    reads Objs(b)
  {
    match c
    case NilConfigurer => false
    case OfMock(mc) =>
      && b.Mock? && b.mock.name == mc.name && b.mock.isReadOnly == mc.isReadOnly
      && RewrittenCopy(CanonicalizePath, Rewriter(mc.name), mc.starterPairs, mc.starterPairs.Keys, b.mock.pairs)
    case OfMem(memc) =>
      && b.Mem? && b.mem.name == memc.name && b.mem.pairs.Keys == Paths(memc.pairs)
      && forall k :: k in b.mem.pairs ==> b.mem.pairs[k] == Contract.Sanitize(memc.name, true, ByPath(memc.pairs)[k])
    case OfFile(fc) =>
      && fc.parsed.Ok?
      && b.File? && b.file.name == fc.name && b.file.stops == 0 && b.file.hasStop == (fc.syncInterval > 0)
      && b.file.pairs.Keys == Paths(fc.parsed.value)
      && forall k :: k in b.file.pairs ==> b.file.pairs[k] == Contract.Sanitize(fc.name, true, ByPath(fc.parsed.value)[k])
    case OfStore(sc) =>
      && sc.storage.Ok?
      && b.Store? && b.store.View() == Contract.View(Contract.StoreKind(sc.typ), sc.name, sc.readonly, sc.storage.value, sc.faults, false, 0)
  }

  /** A built backend carries the configurer's name and type, is read-only
      exactly when the configurer says so, and has not been torn down. */
  lemma BuiltIdentity(c: Configurer, b: Backend)
    requires Built(c, b)
    ensures Name(b) == Info(c).name && GetType(b) == Info(c).typ
    ensures ViewOf(b).readonly == Info(c).readonly && ViewOf(b).stops == 0
  {
  }

  /** `GetMapper`: fails exactly when the configurer cannot build its
      backend; otherwise the backend is built from fresh objects. */
  method GetMapper(c: Configurer) returns (r: Result<Backend>)
    requires !c.NilConfigurer?
    ensures r.Err? <==> Info(c).fails
    ensures r.Ok? ==> Built(c, r.value) && forall o :: o in Objs(r.value) ==> fresh(o)
  {
    match c
    case OfMock(mc) =>
      var m := mc.GetMapper();
      if m.Err? {
        return Err(m.error);
      }
      return Ok(Mock(m.value));
    case OfMem(memc) =>
      var m := memc.GetMapper();
      return Ok(Mem(m.value));
    case OfFile(fc) =>
      var f := fc.GetMapper();
      if f.Err? {
        return Err(f.error);
      }
      return Ok(File(f.value));
    case OfStore(sc) =>
      var s := sc.GetMapper();
      if s.Err? {
        return Err(s.error);
      }
      return Ok(Store(s.value));
  }
}
