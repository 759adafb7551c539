# golinks mapper layer in Dafny

golinks resolves short paths (`/docs`) to URLs. Path–URL pairs live in
backends called *mappers*. The `MapperManager` of the `mapper` package
holds an ordered list of them, and one optional backend called the
*persistor* takes new links. This project models that layer and proves
what it does:

- `Pairs` (pair.dfy): the `PathUrlPair` record, its list and map forms,
  cloning, and the three equality notions. List equality sorts both
  arrays in place and compares them.
- `Pagination` (pagination.dfy): `Paginate` and `DefaultPagination`.
- `Sanitizer` (sanitizer.dfy), `UrlPath` (url.dfy) and `SanitizerCases`
  (sanitizer_cases.dfy):
  - the canonical form of a path: trim `/`, drop `_ . -`, collapse `/`
    runs, prefix `/`, reject reserved paths, re-encode as `net/url` does;
  - the canonical form of a URL;
  - the rewrite of a pair, or of a whole map of pairs, before storage;
  - `SanitizerCases` states the shapes the sanitizer's tests exercise,
    for arbitrary words.
- `Contract` (contract.dfy): the `Mapper` interface, stated over a pure
  `View` of one backend. A view holds:
  - the backend's identity and read-only flag;
  - its stored map;
  - which of its operations fail;
  - how often its stop function has run.
- Backends, each proved against `Contract`:
  - `MockMappers` (mock_mapper.dfy): the map-backed test mapper, its
    configurer and `CloneConfigurers`;
  - `MemMappers` (mem_mapper.dfy): the in-memory mapper and its config;
  - `FileMappers` (file_mapper.dfy): the file mapper and its config;
  - `StoreMappers` (store_mapper.dfy): a stand-in for the storage-backed
    mappers (bolt, SQL). Any of its operations can be made to fail, so
    every error path of the manager can be reached.
- `Backends` (backend.dfy): the closed sum of those backends and their
  configurers, and the dispatch of every interface call.
- `ManagerSpec` (manager_spec.dfy): what each manager operation does, as
  pure functions over the sequence of backend views. The lemmas about the
  manager's promises are proved over these functions:
  - the earliest backend answers;
  - listing keeps the first pair per path;
  - writes are routed by a pair's `Mapper` field;
  - teardown stops at the first error;
  - configuration is validated, and the persistor resolved.
- `Manager` (manager.dfy): the `MapperManager` class itself. Its fields
  are the backend sequence and the persistor index. Every method's
  `ensures` ties the backends' new views, and the result, to the matching
  `ManagerSpec` function of the old views.

A Go operation that overwrites a `*PathUrlPair` in place is modelled as a
function from the old record to the new one. The pair is then a value.

## Model

| member | source | states |
|---|---|---|
| Pairs.String | pkg/types/pair.go:19-21 | the rendering is the quoted path, ` -> `, and the quoted URL; backend name and use count are not shown |
| Pairs.Clone | pkg/types/pair.go:23-30 | the copy agrees with the original on all four fields |
| Pairs.PairEqualsIsEquivalence | pkg/types/pair.go:64-73 | pair equality (two nils equal, nil vs. non-nil unequal, otherwise path and URL) is reflexive, symmetric and transitive |
| Pairs.PairEqualsIgnoresMetadata | pkg/types/pair.go:64-73 | pairs that differ only in backend name and use count are equal, though they are different records |
| Pairs.MapEqualsIffSameKeys | pkg/types/pair.go:75-92 | two non-nil maps are equal exactly when they have the same keys and pair-equal values under each key |
| Pairs.MapEqualsSymmetric | pkg/types/pair.go:75-92 | map equality, nil cases included, does not depend on argument order |
| Pairs.ToList | pkg/types/pair.go:32-38 | the list holds every stored pair exactly once, in some key order, and has as many elements as the map |
| Pairs.ToMap | pkg/types/pair.go:40-46 | the map keys each pair by its path; a later pair replaces an earlier one with the same path |
| Pairs.ByPathHoldsLastElement | pkg/types/pair.go:40-46 | every entry of the map is the last list element with that path |
| Pairs.ByPathLast | pkg/types/pair.go:40-46 | the last element with a path is what the map stores under it |
| Pairs.CloneList | pkg/types/pair.go:48-54 | the copy has the same length and the same pair at every index |
| Pairs.CloneMap | pkg/types/pair.go:56-62 | the copy has the same keys and the same pair under every key |
| Pairs.SortByPathFacts | pkg/types/pair.go:104-110 | sorting by path yields a sorted permutation of its input |
| Pairs.SortSliceByPath | pkg/types/pair.go:104-110 | the in-place stable sort leaves the array holding its old contents ordered by path, equal paths in their old order (`Pairs.SortByPathStable`) |
| Pairs.SortByPathStable | pkg/types/pair.go:104-110 | the sort is stable: for every path, the elements with that path come out in the order they went in |
| Pairs.ListEquals | pkg/types/pair.go:94-117 | two nils are equal; nil vs. non-nil and different lengths are unequal and leave both arrays untouched; otherwise both arrays are left sorted and are equal exactly when their sorted contents are equal |
| Pairs.SameElements | pkg/types/pair.go:111-116 | the element-by-element comparison is true exactly when the arrays hold the same sequence |
| Pairs.SortByPathDecidesPermutation | pkg/types/pair.go:94-117 | equal sorted forms imply the same multiset; with distinct paths, the same multiset implies equal sorted forms |
| Pairs.ListEqualsSeesUseCount | pkg/types/pair.go:94-117 | unlike pair equality, list equality compares whole records, so a change of use count alone makes lists unequal |
| Pairs.ListEqualsOrderSensitiveOnDuplicatePaths | pkg/types/pair.go:104-110 | with two different pairs on the same path, the stable sort keeps input order, so two permutations of one multiset compare unequal |
| Pagination.Paginate | pkg/utils/pagination.go:5-17 | an offset at or past the end gives the empty page; a negative offset counts as 0; the page is the run of at most `limit` entries starting there |
| Pagination.NegativeOffsetIsZero | pkg/utils/pagination.go:9-11 | every negative offset gives the same page as offset 0 |
| Pagination.ConsecutivePages | pkg/utils/pagination.go:5-17 | the first k entries followed by the next n are the first k+n entries |
| Pagination.WholePage | pkg/utils/pagination.go:12-16 | a page from 0 whose limit covers the list is the whole list |
| Sanitizer.TrimCharacterization | pkg/sanitizer/sanitizer.go:68 | trimming a character strips exactly the padding made of it, when the core neither starts nor ends with it |
| Sanitizer.RemoveSpecialChars | pkg/sanitizer/sanitizer.go:69 | the removal keeps exactly the characters other than `_`, `.` and `-` |
| Sanitizer.CollapseNoDoubleSlash | pkg/sanitizer/sanitizer.go:70 | after collapsing, no two slashes are adjacent |
| Sanitizer.SegmentsOfTrim | pkg/sanitizer/sanitizer.go:68 | trimming slashes keeps the non-empty `/`-separated segments |
| Sanitizer.CanonicalizePath | pkg/sanitizer/sanitizer.go:66-83 | a reserved processed path (`/`, `/d`, `/d/...`) is the "path is reserved" error; every error names the processed path; a result begins with `/` and is not reserved; a failed parse gives "path is invalid url: " and the parser's error text |
| Sanitizer.CanonicalizePathParses | pkg/sanitizer/sanitizer.go:77-82 | the result is the re-encoded URL text when parsing succeeds, and an error when it fails |
| Sanitizer.ProcessChars | pkg/sanitizer/sanitizer.go:67-71 | the processed path holds only slashes and non-special characters of the input |
| Sanitizer.CanonicalizePathNoSpecial | pkg/sanitizer/sanitizer.go:57-83 | for input without `%`, the canonical path holds no `_`, `.` or `-` |
| Sanitizer.PlainRewriteIsCanonical | pkg/sanitizer/sanitizer.go:73-82 | when the processed path is unreserved and needs no escaping, it is itself the result |
| Sanitizer.NormalIsFixpoint | pkg/sanitizer/sanitizer.go:66-83 | a path already in canonical form canonicalizes to itself |
| Sanitizer.CanonicalizePlain | pkg/sanitizer/sanitizer.go:66-83 | for input of letters, digits and slashes that is not reserved: the result is canonical, has the input's segments, and canonicalizing it again changes nothing |
| Sanitizer.CanonicalizeUrl | pkg/sanitizer/sanitizer.go:88-91 | never fails; the result is the URL with surrounding spaces trimmed |
| Sanitizer.SanitizeInput | pkg/sanitizer/sanitizer.go:14-28 | the backend name is stamped first; a bad path is the error and leaves path, URL and use count as they were; otherwise the pair becomes canonical path, trimmed URL, that name, use count 0 |
| Sanitizer.SanitizeInputIdempotent | pkg/sanitizer/sanitizer.go:14-28 | for a pair whose path is letters, digits and slashes and does not rewrite to a reserved path: sanitizing succeeds, and sanitizing the result again succeeds and changes nothing |
| Sanitizer.SanitizeOutput | pkg/sanitizer/sanitizer.go:33-37 | only a read-only backend zeroes the use count; path, URL and name are untouched |
| Sanitizer.SanitizeOutputIdempotent | pkg/sanitizer/sanitizer.go:33-37 | applying it twice is applying it once |
| Sanitizer.RewriteMap | pkg/sanitizer/sanitizer.go:40-55 | succeeds exactly when every key canonicalizes and every pair rewrites; an error belongs to some entry; a success maps each canonical key to a rewritten pair and is no larger than the input |
| Sanitizer.SanitizeInputMap | pkg/sanitizer/sanitizer.go:40-55 | the same, for the path canonicalizer and `SanitizeInput` under the backend's name |
| Sanitizer.SanitizableMeans | pkg/sanitizer/sanitizer.go:40-55 | a map sanitizes exactly when every key canonicalizes and every pair passes `SanitizeInput` |
| Sanitizer.EntryError | pkg/sanitizer/sanitizer.go:43-50 | an entry's error is the key's canonicalization error, checked first, else the pair's own error |
| UrlPath.ParsePlain | pkg/sanitizer/sanitizer.go:77-82 | a `/`-led path of letters, digits and `/` parses to itself |
| UrlPath.ParseKeepsLeadingSlash | pkg/sanitizer/sanitizer.go:77-82 | a successful parse of a `/`-led string keeps the leading `/` |
| UrlPath.ParseAddsNoSpecial | pkg/sanitizer/sanitizer.go:77-82 | without `%` in its input, the parse introduces no `_`, `.` or `-` |
| UrlPath.SplitParts | pkg/sanitizer/sanitizer.go:77 | cutting at the first `#` and `?` loses nothing of the input |
| UrlPath.EscapePlain | pkg/sanitizer/sanitizer.go:77-82 | escaping leaves letters, digits and `/` unchanged |
| SanitizerCases.TwoWords | pkg/sanitizer/sanitizer_test.go:136-143 | any two words with any slash padding and separators canonicalize to `/x/y` when the first word is not `d` (so `/dd/example` passes) |
| SanitizerCases.OneWord | pkg/sanitizer/sanitizer_test.go:135 | a word padded with slashes canonicalizes to `/x` unless it is `d` |
| SanitizerCases.DropsSpecials | pkg/sanitizer/sanitizer_test.go:137 | text of letters, digits and `_ . -` canonicalizes to `/` followed by the text without its special characters |
| SanitizerCases.OnlySlashes | pkg/sanitizer/sanitizer_test.go:140 | any run of slashes, the empty path included, is reserved as `/` |
| SanitizerCases.ReservedD | pkg/sanitizer/sanitizer_test.go:141 | `d` with any slash padding is reserved as `/d` |
| SanitizerCases.ReservedUnderD | pkg/sanitizer/sanitizer_test.go:142 | a path whose first segment is `d` is reserved |
| SanitizerCases.EscapesSpace | pkg/sanitizer/sanitizer_test.go:144 | a space between two words comes out as `%20` |
| SanitizerCases.SpaceParse | pkg/sanitizer/sanitizer.go:77-82 | the URL parser escapes the space and keeps the words |
| SanitizerCases.EscapedDotDecoded | pkg/sanitizer/sanitizer.go:69-82 | `%2E` survives the special-character removal and is decoded to `.` by the parser, so a canonical path can hold a `.` |
| SanitizerCases.BadEscapeReason | pkg/sanitizer/sanitizer.go:77-80 | for `x%y` where `y` does not begin with a hex digit: the invalid-path error for `/x%y`, with the reason `path is invalid url: parse "/x%y": invalid URL escape "%e"`, where `e` is at most the first two characters of `y` ("a%zz" gives `invalid URL escape "%zz"`) |
| SanitizerCases.TrimBeforeRemovalLeavesSlash | pkg/sanitizer/sanitizer.go:68-71 | trimming runs before removal, so `x/_` canonicalizes to `/x/`, which is not canonical: canonicalizing that again gives `/x` |
| Contract.Lookup | pkg/mapper/manager.go:27 | `GetUrl` fails exactly on a failing store; otherwise a pair comes back exactly when the key is stored, and it is the stored pair |
| Contract.Put | pkg/mapper/manager.go:29 | a read-only backend refuses with "operation not supported: put" and a failing one errors, both leaving the store unchanged; success returns the pair and stores it under its path |
| Contract.Delete | pkg/mapper/manager.go:30 | a read-only backend refuses with "delete" and a failing one errors, both unchanged; success removes the key |
| Contract.Down | pkg/mapper/manager.go:32 | teardown fails exactly on a failing backend; it keeps the stored pairs and identity, and counts one stop when a stop function exists and the teardown succeeds |
| Contract.PutThenLookup | pkg/mapper/manager.go:27-29 | after a successful put, the path reads back the pair and every other key reads as before |
| Contract.DeleteThenLookup | pkg/mapper/manager.go:27-30 | after a successful delete, the path reads as absent and every other key reads as before |
| Contract.WritesKeepIdentity | pkg/mapper/manager.go:23-33 | no operation changes a backend's name, kind or read-only flag |
| Contract.Sanitize | pkg/mapper/manager.go:35-41 | the pair gets the backend's name and a path trimmed of slashes, keeps its URL, and has its use count zeroed when the backend is read-only |
| Contract.SanitizeIdempotent | pkg/mapper/manager.go:35-41 | sanitizing twice is sanitizing once, and the path neither starts nor ends with `/` |
| Contract.SanitizeEach | pkg/mapper/mem-mapper/config.go:36-38 | every stored pair is sanitized in place; the keys stay the same |
| MockMappers.MockMapper.GetUrl | pkg/mapper/manager_mock.go:32-37 | the pair stored under exactly that key, if any; never an error; agrees with the interface contract |
| MockMappers.MockMapper.ListUrls | pkg/mapper/manager_mock.go:39-41 | the page taken from a full listing of the stored pairs |
| MockMappers.MockMapper.PutUrl | pkg/mapper/manager_mock.go:43-49 | a read-only mock refuses and stays unchanged; otherwise the pair is stored under its path and returned |
| MockMappers.MockMapper.DeleteUrl | pkg/mapper/manager_mock.go:51-57 | a read-only mock refuses; otherwise the key is removed, an absent key being no error |
| MockMappers.MockMapper.Teardown | pkg/mapper/manager_mock.go:59-61 | never fails and changes nothing |
| MockMappers.MockMapperConfigurer.GetMapper | pkg/mapper/manager_mock.go:83-96 | succeeds exactly when the starter map sanitizes under the configurer's name; on success a fresh mock with that name and read-only flag holds the rewritten copy; an error is some entry's error |
| MockMappers.CloneConfigurers | pkg/mapper/manager_mock.go:104-119 | one fresh, distinct configurer per input, in order, with the same name, flags and starter pairs |
| MemMappers.MemMapper.GetUrl | pkg/mapper/mem-mapper/mapper.go:32-37 | exact-key lookup that never fails |
| MemMappers.MemMapper.ListUrls | pkg/mapper/mem-mapper/mapper.go:39-41 | the page taken from a full listing |
| MemMappers.MemMapper.PutUrl | pkg/mapper/mem-mapper/mapper.go:47-49 | always refused with "operation not supported: put", the backend unchanged |
| MemMappers.MemMapper.DeleteUrl | pkg/mapper/mem-mapper/mapper.go:43-45 | always refused with "delete", the backend unchanged |
| MemMappers.MemMapper.Teardown | pkg/mapper/mem-mapper/mapper.go:28-30 | never fails and changes nothing |
| MemMappers.MemMapper.Readonly | pkg/mapper/mem-mapper/mapper.go:24-26 | the in-memory backend is read-only |
| MemMappers.MemMapperConfig.GetMapper | pkg/mapper/mem-mapper/config.go:27-41 | never fails; the backend keys each configured pair by path (last wins) and stores it sanitized for a read-only backend of the config's name |
| MemMappers.StoredPairs | pkg/mapper/mem-mapper/config.go:27-41 | every stored pair carries the backend's name and use count 0, and its path is its key without slashes, so a configured `/x/` is stored under key `/x/` with path `x` |
| MemMappers.PerIterationReading | pkg/mapper/mem-mapper/config.go:27-41 | with a variable per iteration, each key holds one of the configured pairs, sanitized for the backend |
| MemMappers.SharedVariableReading | pkg/mapper/mem-mapper/config.go:27-41 | with one shared loop variable, every key holds the last configured pair, sanitized once although the loop sanitizes it once per key |
| MemMappers.StoredPairsEitherReading | pkg/mapper/mem-mapper/config.go:27-41 | under either reading, every stored pair carries the backend's name and use count 0, and its path neither begins nor ends with a slash |
| FileMappers.FileMapper.GetUrl | pkg/mapper/file-mapper/mapper.go:31-37 | exact-key lookup that never fails |
| FileMappers.FileMapper.ListUrls | pkg/mapper/file-mapper/mapper.go:39-41 | the full listing, one element per stored pair |
| FileMappers.FileMapper.PutUrl | pkg/mapper/file-mapper/mapper.go:47-49 | always refused as not supported |
| FileMappers.FileMapper.DeleteUrl | pkg/mapper/file-mapper/mapper.go:43-45 | always refused as not supported |
| FileMappers.FileMapper.Teardown | pkg/mapper/file-mapper/mapper.go:24-29 | calls the stop function once when there is one; never fails; the pairs stay |
| FileMappers.FileMapper.Readonly | pkg/mapper/file-mapper/mapper.go:51-53 | the file backend is read-only |
| FileMappers.FileMapperConfig.GetMapper | pkg/mapper/file-mapper/config.go:31-76 | a parse error is returned as is; otherwise a fresh backend keyed by the parsed paths, with a stop function exactly when the interval is positive, never stopped yet, and every pair sanitized read-only under the config's name |
| Backends.GetMapper | pkg/mapper/manager.go:17-21 | building fails exactly when the configurer says it does; success gives a backend built from fresh objects |
| Backends.BuiltIdentity | pkg/mapper/manager.go:12-25 | a built backend has its configurer's name, type and read-only flag, and has never been torn down |
| Backends.ListUrls | pkg/mapper/manager.go:28 | the manager's unpaged listing is a full listing of each backend, failing exactly when the backend's listing fails |
| ManagerSpec.FirstIndex | pkg/mapper/manager.go:225-232 | the index of the first entry with the name, or none exactly when no entry has it |
| ManagerSpec.IndexOfDistinctName | pkg/mapper/manager.go:225-232 | when names are distinct, the name of backend k is found at k |
| ManagerSpec.GetFromAnswer | pkg/mapper/manager.go:96-115 | scanning from any backend is answered by the first one that fails or holds the path; only an increment on a writable answerer writes |
| ManagerSpec.GetUrlAnswer | pkg/mapper/manager.go:92-118 | the earliest backend that errs or holds the path decides the result; "not found" exactly when every backend misses |
| ManagerSpec.GetWritesOnlyOnIncrement | pkg/mapper/manager.go:96-117 | no backend changes unless an increment is asked for and a writable backend answers with a pair: not without the flag, not when every backend misses, not on a read-only hit, not when the answering lookup fails |
| ManagerSpec.GetWithoutIncrement | pkg/mapper/manager.go:92-118 | a lookup without increment changes no backend |
| ManagerSpec.IncrementWritesBack | pkg/mapper/manager.go:105-113 | a writable answerer is asked to store the pair with use count + 1, and that pair is returned even if the write fails; when the write succeeds the new count reads back |
| ManagerSpec.FirstWinsSnoc | pkg/mapper/manager.go:130-134 | a pair is added to the merged map only when its path is not there yet |
| ManagerSpec.FirstWinsHoldsFirst | pkg/mapper/manager.go:124-137 | the merge holds, for a path, the first pair with that path |
| ManagerSpec.FirstWinsKeepsFirst | pkg/mapper/manager.go:124-137 | every merged entry is the first pair with its path |
| ManagerSpec.FlattenPaths | pkg/mapper/manager.go:125-135 | a path is merged exactly when some backend lists it |
| ManagerSpec.MergeKeepsEarliestBackend | pkg/mapper/manager.go:120-138 | a pair of backend k whose path no earlier backend lists, and that comes first in k's own listing, is the merged entry for that path |
| ManagerSpec.NoPersistorNoWrites | pkg/mapper/manager.go:144-148 | without a persistor, put fails with "set" and delete with "delete", whatever the backends hold, and nothing changes |
| ManagerSpec.CreateThenGet | pkg/mapper/manager.go:149-156 | a path no backend holds goes to the persistor with use count 0; after a successful write a lookup returns that pair |
| ManagerSpec.PutRoutesByMapperField | pkg/mapper/manager.go:157-161 | an existing pair is rewritten by the first backend named in its `Mapper` field, not by the backend that returned it; an unknown name is "invalid mapper" |
| ManagerSpec.UpdateGoesToFirstHolder | pkg/mapper/manager.go:149-161 | when each stored pair names its own backend and names are distinct, an update goes to the backend that answered the lookup |
| ManagerSpec.DeleteAbsent | pkg/mapper/manager.go:173-175 | deleting a path no backend holds succeeds and changes nothing |
| ManagerSpec.DeleteRoutesByMapperField | pkg/mapper/manager.go:176-180 | deletion goes to the first backend named in the found pair's `Mapper` field; an unknown name is "invalid mapper" |
| ManagerSpec.DeleteUncoversLaterBackends | pkg/mapper/manager.go:164-181 | after a successful delete, a lookup answers as if starting after the backend that held the path |
| ManagerSpec.TeardownStopsAtFirstError | pkg/mapper/manager.go:80-90 | backends are torn down in order up to the first failing one; its error is returned and later backends are untouched |
| ManagerSpec.ValidateAccepts | pkg/mapper/manager.go:183-209 | validation accepts exactly a non-empty list where every entry is non-nil, is not a singleton of a type seen before, has a fresh name, and builds |
| ManagerSpec.SingletonCheckIsOrderSensitive | pkg/mapper/manager.go:194 | a singleton after a non-singleton of its type is rejected, but not the other way round |
| ManagerSpec.SecondMemConfigRejected | pkg/mapper/mem-mapper/config.go:43-45 | two in-memory configs, whatever their names, are rejected as a duplicate singleton type `MEM` |
| ManagerSpec.PersistorIndex | pkg/mapper/manager.go:211-223 | an empty name means no persistor; a resolved persistor carries the name and is writable; every failure is a setup error |
| ManagerSpec.PersistorResolution | pkg/mapper/manager.go:211-223 | an unknown name is "persistor not found"; otherwise the first backend with the name is the persistor, or "persistor is readonly" |
| ManagerSpec.Setup | pkg/mapper/manager.go:49-61 | validation errors come first; otherwise the result is the persistor resolution over the built backends |
| Manager.FindMapperIndex | pkg/mapper/manager.go:225-232 | -1 exactly when no backend has the name; otherwise the first index with it |
| Manager.FindMapper | pkg/mapper/manager.go:234-240 | none exactly when no backend has the name; otherwise the first backend with it |
| Manager.MergeListing | pkg/mapper/manager.go:130-134 | adding one backend's listing to the merge gives the first-wins merge of everything listed so far |
| Manager.MapperManager.GetUrl | pkg/mapper/manager.go:92-118 | the result and the backends' new views are the lookup function applied to the old views |
| Manager.MapperManager.Answer | pkg/mapper/manager.go:103-114 | once backend i has found the pair: with the counter flag set and a writable backend, the pair goes back with its use count raised by one; the result and new views are those of the lookup function scanning from backend i |
| Manager.MapperManager.ListUrls | pkg/mapper/manager.go:120-138 | fails exactly when some backend's listing fails; otherwise the result lists the first-wins merge of the backends' full listings |
| Manager.MapperManager.ListAt | pkg/mapper/manager.go:126-134 | one round of the listing loop: fails exactly when backend i's listing fails; otherwise the merge so far grows by that backend's full listing, first pair per path winning |
| Manager.MapperManager.PutUrl | pkg/mapper/manager.go:144-162 | the result and the new views are the put function applied to the old views and persistor |
| Manager.MapperManager.PutFound | pkg/mapper/manager.go:153-162 | after the lookup: a new path goes to the persistor with use count 0, an existing one to the backend its mapper field names, and an unknown name is an invalid-mapper error |
| Manager.MapperManager.DeleteUrl | pkg/mapper/manager.go:164-181 | the outcome and the new views are the delete function applied to the old views and persistor |
| Manager.MapperManager.DeleteFound | pkg/mapper/manager.go:173-181 | after the lookup: an absent path passes with nothing changed; otherwise the delete goes to the backend the pair's mapper field names, or fails as an invalid mapper |
| Manager.MapperManager.Teardown | pkg/mapper/manager.go:80-90 | the outcome and the new views are the in-order teardown function of the old views |
| Manager.ValidateAndGetMappers | pkg/mapper/manager.go:183-209 | fails exactly when validation rejects the configuration, with that problem as the setup error; otherwise one freshly built backend per configurer, in order |
| Manager.AdmitNext | pkg/mapper/manager.go:191-207 | one configurer of the validation loop: rejected exactly when the nil, singleton-type, duplicate-name or build check fails, in that order, with that problem as the verdict of validation from this configurer on; otherwise its freshly built backend is appended and its type and name are recorded for the ones after it |
| Manager.GetPersistorIndex | pkg/mapper/manager.go:211-223 | the result is the persistor resolution over the backends' names and read-only flags; a found persistor is a writable backend |
| Manager.PersistorOf | pkg/mapper/manager.go:57-61 | the persistor lookup over the backends' names and read-only flags; a found persistor is a writable backend, and the backends still match the configurers they were built from |
| Manager.SetupOfBuilt | pkg/mapper/manager.go:48-61 | over backends built from an accepted configuration, what setup resolves is the persistor lookup over the backends themselves, and the backends' names are distinct |
| Manager.NewMapperManager | pkg/mapper/manager.go:49-78 | fails exactly with the setup error; otherwise a fresh manager over one built backend per configurer, in order, with the resolved persistor |

## Left out

- Go pointers to pairs are not modelled; pairs are values. So the model does not capture:
  - the in-place sharing between a mock configurer's starter map and the mock built from it;
  - the lookup's increment mutating the stored pair before the write-back;
  - what a failed `SanitizeInputMap` (pkg/sanitizer/sanitizer.go:40-55) leaves behind in the pairs it visited, which in the mock are the configurer's `StarterPairs` (pkg/mapper/manager_mock.go:84-87). The model returns the error and leaves the caller's map as it was. In Go:
    - every entry visited before the failing one has been sanitized in place to completion: canonical path, trimmed URL, use count 0 and the backend's name (sanitizer.go:15-26);
    - an entry whose own path fails keeps only the name stamp (sanitizer.go:15-18);
    - an entry whose key fails is left untouched (sanitizer.go:43-45).
- `pkg/mapper/mem-mapper/config.go:29-30` takes the address of the loop variable. `MemMappers.MemMapperConfig.GetMapper` reads this with per-iteration loop variables, as in Go 1.22 and later, where each stored pointer is to its own pair. `MemMappers.SharedVariablePairs` gives the map under the earlier reading, one variable shared by all iterations. `MemMappers.StoredPairsEitherReading` states what holds under both readings.
- `net/url` is modelled only for strings that begin with one `/`: the path is escaped, the query kept, the fragment escaped. Not covered:
  - paths beginning `//`, which Go parses as an authority;
  - the full rules for mixes of `%`, `?` and `#`.
- The bolt and SQL mappers are not part of this model. `StoreMapper` stands in for them, and its storage errors are parameters of its configuration.
- The file mapper's parser, the file system, the reload ticker goroutine and hot reloading are not modelled. The configuration carries the parse result, and the stop function is tracked by how often it ran.
- `FileMappers.FileMapper.Teardown` counts a stop on every call and never fails. In Go the stop is a send on an unbuffered channel (pkg/mapper/file-mapper/mapper.go:24-29). Once the reload goroutine has received one stop and exited, a second `Teardown` blocks forever. The model does not capture that blocking.
- `Sanitizer.SanitizeInputIdempotent` is proved only for paths of letters, digits and slashes that do not rewrite to a reserved path. Go's sanitizer is not idempotent on every path: `SanitizerCases.TrimBeforeRemovalLeavesSlash` and `SanitizerCases.EscapedDotDecoded` show paths whose second pass changes the first pass's result.
- `UrlPath.IsPrint` follows `strconv.IsPrint` on Latin-1 and takes every character above U+00FF as printable. So the quoted text in a parse error shows a non-printable character above U+00FF as it is, where Go writes a `\u` or `\U` escape.
- Logging is not modelled, including the warning when the persistor is not the first backend.
- `Pagination.Paginate`: Go's `int` overflow in `offset + limit` is not modelled; integers are unbounded.
- The nil-map check in the mock configurer's `GetMapper` (pkg/mapper/manager_mock.go:92-94) is not modelled. It cannot fire after `SanitizeInputMap` succeeds.
- The manager calls `ListUrls` without a page. The mock and in-memory backends take a page, so the model passes one that covers everything (`Backends.ListUrls`).
- Configurer fields are constants: nothing in the core changes them after construction.
- `SetupProblem` keeps what went wrong and the name involved. The rendered message text of `ErrMapConfigSetup` is not modelled.
- `ManagerSpec.Owned`, which says each stored pair names the backend that stores it, is not an invariant of the manager. A read-only backend's pairs satisfy it, but a writable backend can be given a pair naming another backend. The lemmas that need it take it as a precondition.
- `Manager.GetPersistorIndex` takes the backends' read-only flags as a ghost argument. It reads the names from the backends.
- `Sanitizer.CanonicalizePathNoSpecial` requires the input to hold no `%`. The comment on `CanonicalizePath` promises no `_`, `.` or `-` in the result, but `SanitizerCases.EscapedDotDecoded` shows `%2E` decoded to `.` after the removal.
- The manager itself does not canonicalize paths or call `SanitizeOutput`. Callers outside `pkg/mapper` do that, and they are not part of this model.
- `pkg/types/types.go`, `pkg/types/mapper.go` and the `api.go` files hold other declarations of the pair type and of the interfaces. They are not part of this model, which follows `pkg/types/pair.go` and `pkg/mapper/manager.go`.
