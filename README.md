# Generic repository with soft-delete-aware filtering — a Dafny model

This project models the generic repository `BaseRepository<DbType, T>` of
MicroservicesTestingDemo: CRUD over one entity table, a `Filter` that composes
`!IsDeleted && predicate` with a set of dynamic filters and an optional ordering
key, audit-timestamp stamping on `Insert` and `Update`, the `KeyNotFoundException`
of `Get`, and the hard-delete behaviour of `Delete` and `DeleteRange`.

The data context is replaced by the table it holds: `rows`, the entity rows in
an enumeration order the model fixes (new rows at the end, an updated row keeps
its place, removals keep the order of the rest), with `Table()`, its view as a
map from `Id` to row. The primary-key
constraint on `Id` is the class invariant `Valid()`. Entities are values of
`Entity<D>`: the four base fields of `BaseModel` plus `data`, the fields of the
derived entity type. Predicates and filter expressions are Dafny functions
`Entity<D> -> bool`; the ordering key is a function into `int`.

Files, one module each (the repository file holds two):

- `wrappers.dfy` — `Option`, `Result`, `Outcome`.
- `base_model.dfy` — `Guid` (128-bit), `Timestamp` (ticks), `MinValue`, `Entity`,
  and the audit stamps of Insert and Update.
- `queries.dfy` — the query operators: order-preserving `Where`, stable `SortBy`.
- `filter_data.dfy` — `GenericFilterData`, filter sets and their fold `Narrow`.
- `store.dfy` — the table: unique keys, the map view and how the store's add,
  replace and remove act on it.
- `base_repository.dfy` — the class `Repositories.BaseRepository` and the laws
  about its queries (`RepositoryLaws`).
- `scenarios.dfy` — two client runs proved from the contracts.

The clock (`DateTime.Now`) is a parameter: `Insert` reads it twice, so it takes
two readings (`createdNow`, `updatedNow`); `Update` takes one (`now`).
Failures of the store that the repository lets propagate are `Result` errors:
`DuplicateKey` when an insert hits a key already present (or repeated in a
batch), `ConcurrencyFailure` when an update or delete finds no row. The number
of rows the store reports after `InsertRange` is a parameter (`reported`), and
the error the source logs on a mismatch is returned as the flag `countMismatch`.

Four behaviours of the code are easy to miss:

- `Insert` sets `CreatedAt` and `UpdatedAt` from two separate clock readings, so
  they are equal only when the readings are (`BaseModel.InsertStampEqualTimes`),
  not always.
- `InsertRange` does not stamp any timestamp; the rows are stored as given.
- `Update` stores the caller's object, so the creation time Insert recorded
  survives only when that object carries it: an object for the key with another
  `CreatedAt` stores that value, and one whose `CreatedAt` is `MinValue` stores
  the update's clock reading (`Scenarios.UpdateFromFreshObjectScenario`).
- When filters are given, `Filter` first lists the entity type's properties whose
  names contain some filter's `Property`. That scan dereferences every filter it
  reaches, so a null filter makes `Filter` throw before the loop that is meant
  to skip null filters (see Findings). The repository therefore knows the
  entity type's property names (`propertyNames`), and `Filter` returns a
  `Result`: `NullFilter` for the throw, otherwise the query (`Query`).

## Model

| member | source | states |
|---|---|---|
| `BaseModel.InsertStamp` | MicroservicesTestingDemo.Microservices.Common/BaseRepository.cs:90-91 | Insert overwrites `CreatedAt` and `UpdatedAt` with the two clock readings and keeps `Id`, `IsDeleted` and the payload |
| `BaseModel.UpdateStamp` | MicroservicesTestingDemo.Microservices.Common/BaseRepository.cs:120-124 | Update sets `UpdatedAt` to now; `CreatedAt` becomes the new `UpdatedAt` only if it was `DateTime.MinValue`, otherwise it is kept; `Id`, `IsDeleted` and payload unchanged |
| `BaseModel.InsertStampAudited` | MicroservicesTestingDemo.Microservices.Common/BaseRepository.cs:88-95 | with set, non-decreasing clock readings an inserted entity has `CreatedAt` set and not after `UpdatedAt` |
| `BaseModel.InsertStampEqualTimes` | MicroservicesTestingDemo.Microservices.Common/BaseRepository.cs:90-91 | the two stamped times are equal exactly when the two clock readings are |
| `BaseModel.UpdateStampAudited` | MicroservicesTestingDemo.Microservices.Common/BaseRepository.cs:117-127 | an update with a set clock reading not before the creation time leaves `CreatedAt` set and not after `UpdatedAt` |
| `BaseModel.UpdateStampIdempotent` | MicroservicesTestingDemo.Microservices.Common/BaseRepository.cs:120-124 | stamping twice with the same reading equals stamping once |
| `BaseModel.UpdateKeepsInsertTime` | MicroservicesTestingDemo.Microservices.Common/BaseRepository.cs:88-127 | updating the entity value Insert stamped keeps the creation time Insert recorded |
| `Queries.Where` | MicroservicesTestingDemo.Microservices.Common/BaseRepository.cs:40 | the query's `Where`: its result holds exactly the elements that satisfy the predicate, and is no longer than the input |
| `Queries.SortBy` | MicroservicesTestingDemo.Microservices.Common/BaseRepository.cs:55 | the query's `OrderBy`: a permutation of the input (same multiset) in non-decreasing key order |
| `Queries.Ordered` | MicroservicesTestingDemo.Microservices.Common/BaseRepository.cs:53-56 | ordering is applied only when a key is set: without one the input comes back unchanged, with one a permutation of it (same multiset) sorted by the key |
| `Queries.SortByStable` | MicroservicesTestingDemo.Microservices.Common/BaseRepository.cs:55 | rows with equal keys keep their relative order after ordering |
| `Queries.WhereSortBy` | MicroservicesTestingDemo.Microservices.Common/BaseRepository.cs:49-55 | narrowing after ordering equals ordering after narrowing |
| `Queries.WhereWhere` | MicroservicesTestingDemo.Microservices.Common/BaseRepository.cs:40-49 | two chained `Where`s equal one `Where` by the conjunction |
| `Filters.Narrow` | MicroservicesTestingDemo.Microservices.Common/BaseRepository.cs:41-52 | the foreach over the filter set keeps exactly the rows that pass every filter that is non-null and has an `Expression` |
| `Filters.NarrowIsWhere` | MicroservicesTestingDemo.Microservices.Common/BaseRepository.cs:44-51 | the fold of narrowings is one order-preserving selection by the conjunction of all applicable filters |
| `Filters.NarrowSameFilters` | MicroservicesTestingDemo.Microservices.Common/BaseRepository.cs:44-51 | the fold gives the same rows for any two filter sets holding the same filters, whatever their order or repetitions |
| `Filters.ScanWithoutNulls` | MicroservicesTestingDemo.Microservices.Common/BaseRepository.cs:43 | the property scan never reaches a null filter when the filter set has none |
| `Filters.ScanLeadingNull` | MicroservicesTestingDemo.Microservices.Common/BaseRepository.cs:43 | the property scan reaches a null filter that comes first, for any non-empty list of property names |
| `Filters.NarrowSkipsInapplicable` | MicroservicesTestingDemo.Microservices.Common/BaseRepository.cs:46 | null filters and filters whose `Expression` is null leave the query unchanged |
| `Store.ToTable` | MicroservicesTestingDemo.Microservices.Common/BaseModel.cs:11-12 | the table keyed by `Id`: its keys are the rows' ids and each entry is a row with that id |
| `Store.ToTableAppend` | MicroservicesTestingDemo.Microservices.Common/BaseRepository.cs:172 | adding rows after the existing ones adds their entries to the table; Insert and InsertRange use it only under disjoint keys, since a shared key fails the save |
| `Store.ToTableRemove` | MicroservicesTestingDemo.Microservices.Common/BaseRepository.cs:166 | removing the rows with given keys removes exactly those keys from the table |
| `Store.ToTableReplace` | MicroservicesTestingDemo.Microservices.Common/BaseRepository.cs:119 | storing an entity over its row replaces that key's entry and nothing else |
| `Repositories.BaseRepository.constructor` | MicroservicesTestingDemo.Microservices.Common/BaseRepository.cs:8-16 | a repository for an entity type with the base properties, over a context whose table has unique keys, with no ordering key |
| `Repositories.BaseRepository.Query` | MicroservicesTestingDemo.Microservices.Common/BaseRepository.cs:38-42 | a row is in the query iff it is in the table, not soft-deleted, satisfies the predicate and, when filters are given, every applicable filter |
| `Repositories.BaseRepository.Filter` | MicroservicesTestingDemo.Microservices.Common/BaseRepository.cs:36-58 | fails with `NullFilter` iff filters are given and the property scan reaches a null filter; otherwise returns the query, whose rows are exactly the non-deleted rows satisfying the predicate and every applicable filter |
| `Repositories.BaseRepository.FindAsync` | MicroservicesTestingDemo.Microservices.Common/BaseRepository.cs:60-63 | returns a non-deleted row with the key, and none iff every row with the key is soft-deleted or there is none |
| `Repositories.BaseRepository.Get` | MicroservicesTestingDemo.Microservices.Common/BaseRepository.cs:70-86 | returns a row with the key that the condition admits, whatever its `IsDeleted`; fails with `KeyNotFound(id)` iff there is no such row |
| `Repositories.BaseRepository.AnyAsync` | MicroservicesTestingDemo.Microservices.Common/BaseRepository.cs:134-137 | true iff some non-deleted row satisfies the predicate |
| `Repositories.BaseRepository.CountAsync` | MicroservicesTestingDemo.Microservices.Common/BaseRepository.cs:139-142 | positive iff some row, soft-deleted or not, satisfies the predicate; at most the table size |
| `Repositories.BaseRepository.SetOrderBy` | MicroservicesTestingDemo.Microservices.Common/BaseRepository.cs:158-161 | sets the ordering key and leaves the table unchanged |
| `Repositories.BaseRepository.Insert` | MicroservicesTestingDemo.Microservices.Common/BaseRepository.cs:88-95 | on a new key, adds the stamped entity as the last row and to the table under its id, nothing else changes, and Get of the id then returns it; on a taken key fails with `DuplicateKey` and changes nothing |
| `Repositories.BaseRepository.InsertRange` | MicroservicesTestingDemo.Microservices.Common/BaseRepository.cs:170-179 | on new, distinct keys appends the entities unstamped, returns the input unchanged and reports a mismatch iff the store's count differs; otherwise fails with `DuplicateKey` and changes nothing |
| `Repositories.BaseRepository.Update` | MicroservicesTestingDemo.Microservices.Common/BaseRepository.cs:117-127 | on a present key stores the update-stamped entity over its row in place (the rows are `Replace` of the old rows), nothing else changes; on a missing key fails with `ConcurrencyFailure` |
| `Repositories.BaseRepository.Delete` | MicroservicesTestingDemo.Microservices.Common/BaseRepository.cs:21-26 | removes the entity's row, soft-deleted or not, and nothing else, keeping the other rows in order, and returns true; a missing row fails with `ConcurrencyFailure` |
| `Repositories.BaseRepository.DeleteById` | MicroservicesTestingDemo.Microservices.Common/BaseRepository.cs:28-34 | fails with `KeyNotFound(id)` when no row has the key, otherwise removes exactly that row, keeping the other rows in order, and returns true |
| `Repositories.BaseRepository.DeleteRange` | MicroservicesTestingDemo.Microservices.Common/BaseRepository.cs:164-168 | removes exactly the rows of the given entities when all exist, keeping the other rows in order; otherwise fails with `ConcurrencyFailure` and changes nothing |
| `Repositories.BaseRepository.RemoveRows` | MicroservicesTestingDemo.Microservices.Common/BaseRepository.cs:23 | the context's removal: the surviving rows keep their order and the table loses exactly the given keys |
| `Repositories.BaseRepository.SaveChangesAsync` | MicroservicesTestingDemo.Microservices.Common/BaseRepository.cs:102-115 | a store failure is turned into `false` instead of raised |
| `Repositories.GetByKey` | MicroservicesTestingDemo.Microservices.Common/BaseRepository.cs:84-85 | under unique keys Get returns the table's row for the key, even a soft-deleted one, and `KeyNotFound` for an absent key |
| `RepositoryLaws.QueryIsConjunction` | MicroservicesTestingDemo.Microservices.Common/BaseRepository.cs:38-56 | the query is one selection by `!IsDeleted && predicate && every applicable filter`, followed by the ordering |
| `RepositoryLaws.QueryNarrowsByFilters` | MicroservicesTestingDemo.Microservices.Common/BaseRepository.cs:41-52 | the query with filters is exactly the rows of the query without them that pass every applicable filter, in the same order |
| `RepositoryLaws.QueryOrderIndependent` | MicroservicesTestingDemo.Microservices.Common/BaseRepository.cs:44-51 | two filter sets holding the same filters give the same query, whatever their order or repetitions |
| `RepositoryLaws.FilterOrderIndependent` | MicroservicesTestingDemo.Microservices.Common/BaseRepository.cs:43-51 | for filter sets without nulls, Filter succeeds and gives the same rows for any two sets holding the same filters |
| `RepositoryLaws.QuerySkipsInapplicable` | MicroservicesTestingDemo.Microservices.Common/BaseRepository.cs:46 | a filter set of null filters or filters without an expression gives the same query as no filter set |
| `RepositoryLaws.FilterSkipsExpressionless` | MicroservicesTestingDemo.Microservices.Common/BaseRepository.cs:43-46 | as written, Filter with a filter set of non-null filters without an expression equals Filter without filters |
| `RepositoryLaws.NullFilterThrows` | MicroservicesTestingDemo.Microservices.Common/BaseRepository.cs:43 | as written, Filter with a filter set that starts with a null filter fails with `NullFilter` |
| `RepositoryLaws.QueryOrdering` | MicroservicesTestingDemo.Microservices.Common/BaseRepository.cs:53-56 | without an ordering key the matching rows come in table order; with one, sorted by it, ties in table order |
| `RepositoryLaws.FindAsyncByKey` | MicroservicesTestingDemo.Microservices.Common/BaseRepository.cs:60-63 | under unique keys FindAsync returns the key's row unless it is absent or soft-deleted, then none |
| `RepositoryLaws.SoftDeletedRowVisibility` | MicroservicesTestingDemo.Microservices.Common/BaseRepository.cs:60-86 | a soft-deleted row is returned by Get and not by FindAsync |
| `RepositoryLaws.CountIncludesSoftDeleted` | MicroservicesTestingDemo.Microservices.Common/BaseRepository.cs:134-142 | CountAsync equals the number of rows AnyAsync's query sees plus the soft-deleted rows satisfying the predicate |
| `Scenarios.HardDeleteScenario` | MicroservicesTestingDemo.Microservices.Common/BaseRepository.cs:28-34 | after Insert then Delete by key, FindAsync returns none and no row at all remains: the delete is physical |
| `Scenarios.InsertRangeMismatchScenario` | MicroservicesTestingDemo.Microservices.Common/BaseRepository.cs:170-179 | a three-entity batch with the reported count set to two reports the mismatch yet returns the input unchanged (the reported count is a free parameter) |
| `Scenarios.UpdateFromFreshObjectScenario` | MicroservicesTestingDemo.Microservices.Common/BaseRepository.cs:117-127 | after Insert, an Update with a fresh object for the key whose `CreatedAt` is unset stores the update's clock reading as the creation time |

## Left out

- Asynchrony (`Task`, `await`), `CancellationToken` and logging calls are not modelled; the one logged condition that matters, InsertRange's count mismatch, is returned as a flag.
- The real clock: each `DateTime.Now` reading is a parameter.
- Eager loading: the `Includes` field, the `Include` loops in Get and IncludeFilter, and `LoadRelation` are Entity Framework behaviour and do not change which rows are returned. `IncludeFilter` therefore returns the rows of `Filter(p, null)` and has no member of its own.
- Repositories.BaseRepository.Get: the caller's `condition` is an arbitrary query transform in the source; the model admits only a narrowing predicate.
- The `properties` list computed in Filter is never used after it is built; only the null-filter failure of building it is modelled. A filter whose `Property` is null would make that scan throw `ArgumentNullException`; the model's `property` is a string and cannot be null.
- Repositories.BaseRepository.Filter: the source returns a deferred `IQueryable`, whose rows are read from the table when the caller enumerates it while `OrderByProperty` is read at the call; the model evaluates the whole query at the call, so a change to the table between the call and the enumeration is not captured.
- `GetTable`, `GetQueryable`, `GetAllAsync` and `GetEnumerator` only pass the underlying table through.
- `BaseUnitOfWork`, `IBaseUnitOfWork` and everything in `MicroservicesTestingDemo.Testing.Common` (reflection-based construction, database connection and migrations, the test HTTP server, the no-op logger) carry no repository logic. `GlobalFilters` and `FilterData` are not part of this model; a filter set is modelled as the sequence of possibly-null `GenericFilterData` that Filter iterates, and `FilterData`'s fields as strings.
- Entities are values: the source assigns the timestamps on the caller's object (which therefore carries them even when the store then fails) and the change tracker aliases that object; the model returns the stamped entity instead.
- Entity Framework's key generation for an entity whose `Id` is the empty Guid, and its change-tracking conflicts between two objects with the same key, are not modelled; DeleteRange works on the set of given keys.
- Repositories.BaseRepository.InsertRange: entities are values, so a batch that repeats one object cannot be told from two objects with the same key. Entity Framework tracks a repeated object once, saves one row, logs the count mismatch and returns the input; the model fails every batch with a repeated key with `DuplicateKey` and stores nothing.
- Repositories.BaseRepository.SaveChangesAsync: whether the store fails is a parameter, because in the model every mutation is already persisted and the store's failures are outside it.
- Repositories.BaseRepository.Filter: the ordering key is an `int`-valued function standing for the source's `object`-typed key expression; ties are kept in table order (LINQ's stable ordering), which a SQL `ORDER BY` does not promise.
- Store failures other than key conflicts and missing rows (connectivity, other constraints) are not modelled.
- Enumeration order of the table: the model fixes it as insertion order (new rows at the end, an updated row in place). A relational store promises no order for a query without `ORDER BY`, and with a clustered `Guid` key a scan tends to return key order; the ordering statements of `Insert`, `Update`, `RemoveRows` and `RepositoryLaws.QueryOrdering` ("table order") hold for the model's order only, while their statements about `Table()` and membership do not depend on it.
- Pending changes after a failed save: in the source a failed `SaveChangesAsync` (in Insert, Update, Delete, DeleteRange) leaves the added, modified or deleted entry tracked in the context, so the next save in the same context retries it and fails again. The model's context holds no pending changes: every failure leaves `rows` as they were and later operations start from that state, so a failure does not carry over to the next call.

## Findings

| source | as written | input that shows it | evidently intended | confidence | as-written member | corrected member |
|---|---|---|---|---|---|---|
| MicroservicesTestingDemo.Microservices.Common/BaseRepository.cs:43-46 | the property scan `filters.Any(o => i.Name.Contains(o.Property))` dereferences each filter it reaches, so a null filter throws `NullReferenceException` before line 46 skips it | `Filter(p, [null])`, or any filter set whose first filter is null | null filters are skipped, as the check on line 46 means them to be | not executed | `RepositoryLaws.NullFilterThrows` | `RepositoryLaws.QuerySkipsInapplicable` |
