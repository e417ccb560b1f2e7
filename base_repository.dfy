/**
 * The generic repository: CRUD over one entity table, soft-delete-aware filtering
 * with dynamic filters and an optional ordering key.
 */
module Repositories {
  import opened Wrappers
  import opened BaseModel
  import opened Queries
  import opened Filters
  import opened Store

  /** What the repository's operations raise. */
  datatype Error =
    | KeyNotFound(id: Guid)   // Get found no row with the key
    | DuplicateKey            // the store rejected an insert whose key is already taken
    | ConcurrencyFailure      // the store found no row to update or delete
    | NullFilter              // Filter's property scan dereferenced a null filter (NullReferenceException)

  /** The properties every entity type has through `BaseModel`. */
  predicate HasBaseProperties(names: seq<string>)
  {
    "Id" in names && "IsDeleted" in names && "CreatedAt" in names && "UpdatedAt" in names
  }

  /** The row predicate "not soft-deleted and satisfies `p`" that every filter query starts from. */
  function NotDeletedAnd<D>(p: Entity<D> -> bool): Entity<D> -> bool
  {
    (x: Entity<D>) => !x.isDeleted && p(x)
  }

  /** The row predicate "soft-deleted and satisfies `p`". */
  function DeletedAnd<D>(p: Entity<D> -> bool): Entity<D> -> bool
  {
    (x: Entity<D>) => x.isDeleted && p(x)
  }

  /** The single predicate a filter query amounts to. */
  function Matches<D>(p: Entity<D> -> bool, filters: Option<GlobalFilters<Entity<D>>>): Entity<D> -> bool
  {
    (x: Entity<D>) => !x.isDeleted && p(x) && (filters.Some? ==> PassesAll(filters.value, x))
  }

  /** The row is admitted by Get's optional narrowing condition. */
  predicate Admits<D>(condition: Option<Entity<D> -> bool>, x: Entity<D>)
  {
    condition.None? || condition.value(x)
  }

  /** The row predicate Get searches with. */
  function GetMatch<D>(id: Guid, condition: Option<Entity<D> -> bool>): Entity<D> -> bool
  {
    (x: Entity<D>) => Admits(condition, x) && x.id == id
  }

  class BaseRepository<D(!new)> {
    /** The names of the entity type's properties, as reflection lists them. */
    const propertyNames: seq<string>
    /** The table's rows in the order the store enumerates them. */
    var rows: seq<Entity<D>>
    /** The configured ordering key, if any. */
    var orderByProperty: Option<Entity<D> -> int>

    /** The primary-key constraint holds and the entity type has the base properties. */
    ghost predicate Valid()
      reads this
    {
      UniqueIds(rows) && HasBaseProperties(propertyNames)
    }

    /** The table as a map from key to row. */
    function Table(): map<Guid, Entity<D>>
      reads this
    {
      ToTable(rows)
    }

    /** A repository for an entity type with `properties` over a context whose table holds `contents`, with no ordering key. */
    constructor (properties: seq<string>, contents: seq<Entity<D>>)
      requires HasBaseProperties(properties)
      requires UniqueIds(contents)
      ensures Valid()
      ensures propertyNames == properties && rows == contents && orderByProperty == None
    {
      propertyNames := properties;
      rows := contents;
      orderByProperty := None;
    }

    /**
     * The query Filter builds: the rows that are not soft-deleted and satisfy `p`,
     * narrowed by each applicable filter in turn, then ordered.
     */
    function Query(p: Entity<D> -> bool, filters: Option<GlobalFilters<Entity<D>>>): (r: seq<Entity<D>>)
      reads this
      ensures |r| <= |rows|
      ensures forall x :: x in r <==> x in rows && !x.isDeleted && p(x) && (filters.Some? ==> PassesAll(filters.value, x))
    {
      var response := Where(rows, NotDeletedAnd(p));
      var narrowed := if filters.Some? then Narrow(response, filters.value) else response;
      Ordered(narrowed, orderByProperty)
    }

    /**
     * Filter as written: with a filter set, the scan of the entity type's property
     * names against the filters' properties runs first and fails on a null filter
     * it reaches; otherwise the result is the query.
     */
    function Filter(p: Entity<D> -> bool, filters: Option<GlobalFilters<Entity<D>>>): (r: Result<seq<Entity<D>>, Error>)
      reads this
      ensures r.Failure? <==> filters.Some? && ScanReachesNull(propertyNames, filters.value)
      ensures r.Failure? ==> r.error == NullFilter
      ensures r.Success? ==> forall x :: x in r.value <==> x in rows && !x.isDeleted && p(x) && (filters.Some? ==> PassesAll(filters.value, x))
      ensures r.Success? ==> r.value == Query(p, filters)
    {
      if filters.Some? && ScanReachesNull(propertyNames, filters.value) then
        Failure(NullFilter)
      else
        Success(Query(p, filters))
    }

    /** The first non-deleted row with key `pk`, if any. */
    function FindAsync(pk: Guid): (r: Option<Entity<D>>)
      reads this
      ensures r.Some? ==> r.value in rows && r.value.id == pk && !r.value.isDeleted
      ensures r.None? <==> forall x :: x in rows && x.id == pk ==> x.isDeleted
    {
      var found := Query(HasId(pk), None);
      if found == [] then None
      else
        assert found[0] in found;
        Some(found[0])
    }

    /** The first row with key `id` that `condition` admits, soft-deleted or not; KeyNotFound if none. */
    function Get(id: Guid, condition: Option<Entity<D> -> bool>): (r: Result<Entity<D>, Error>)
      reads this
      ensures r.Success? ==> r.value in rows && r.value.id == id && Admits(condition, r.value)
      ensures r.Failure? ==> r.error == KeyNotFound(id)
      ensures r.Failure? <==> forall x :: x in rows && x.id == id ==> !Admits(condition, x)
    {
      var found := Where(rows, GetMatch(id, condition));
      if found == [] then Failure(KeyNotFound(id))
      else
        assert found[0] in found;
        Success(found[0])
    }

    /** Some row that is not soft-deleted satisfies `p`. */
    function AnyAsync(p: Entity<D> -> bool): (r: bool)
      reads this
      ensures r <==> exists x :: x in rows && !x.isDeleted && p(x)
    {
      var found := Query(p, None);
      assert found != [] ==> found[0] in found;
      found != []
    }

    /** The number of rows satisfying `p`, soft-deleted rows included. */
    function CountAsync(p: Entity<D> -> bool): (r: nat)
      reads this
      ensures r <= |rows|
      ensures r > 0 <==> exists x :: x in rows && p(x)
    {
      var found := Where(rows, p);
      assert found != [] ==> found[0] in found;
      |found|
    }

    /** Configures the ordering key for every later Filter. */
    method SetOrderBy(orderBy: Entity<D> -> int)
      modifies this
      ensures orderByProperty == Some(orderBy)
      ensures rows == old(rows)
    {
      orderByProperty := Some(orderBy);
    }

    /** Stamps both audit fields from two clock readings and adds the row; the store rejects a taken key. */
    method Insert(entity: Entity<D>, createdNow: Timestamp, updatedNow: Timestamp) returns (r: Result<Entity<D>, Error>)
      requires Valid()
      modifies this
      ensures Valid() && orderByProperty == old(orderByProperty)
      ensures entity.id in old(Table()) ==> r == Failure(DuplicateKey) && rows == old(rows)
      ensures entity.id !in old(Table()) ==>
                && r == Success(InsertStamp(entity, createdNow, updatedNow))
                && rows == old(rows) + [r.value]
                && Table() == old(Table())[entity.id := r.value]
      ensures r.Success? ==> Get(entity.id, None) == r
    {
      var stamped := InsertStamp(entity, createdNow, updatedNow);
      if stamped.id in Table() {
        return Failure(DuplicateKey);
      }
      ToTableAppendOne(rows, stamped);
      UniqueAppend(rows, [stamped]);
      rows := rows + [stamped];
      r := Success(stamped);
      GetByKey(this, stamped.id);
    }

    /** Adds all entities as given, without stamping; the result is the input, and a count mismatch is only reported. */
    method InsertRange(entities: seq<Entity<D>>, reported: nat) returns (r: Result<seq<Entity<D>>, Error>, countMismatch: bool)
      requires Valid()
      modifies this
      ensures Valid() && orderByProperty == old(orderByProperty)
      ensures !(UniqueIds(entities) && Ids(entities) !! old(Table()).Keys) ==>
                r == Failure(DuplicateKey) && !countMismatch && rows == old(rows)
      ensures UniqueIds(entities) && Ids(entities) !! old(Table()).Keys ==>
                && r == Success(entities)
                && countMismatch == (reported != |entities|)
                && rows == old(rows) + entities
                && Table() == old(Table()) + ToTable(entities)
    {
      if !UniqueIds(entities) || !(Ids(entities) !! Table().Keys) {
        return Failure(DuplicateKey), false;
      }
      ToTableAppend(rows, entities);
      UniqueAppend(rows, entities);
      DisjointUnionCommutes(ToTable(entities), Table());
      rows := rows + entities;
      r := Success(entities);
      countMismatch := reported != |entities|;
    }

    /** Refreshes `UpdatedAt`, backfills an unset `CreatedAt` and stores the entity over its row. */
    method Update(entity: Entity<D>, now: Timestamp) returns (r: Result<Entity<D>, Error>)
      requires Valid()
      modifies this
      ensures Valid() && orderByProperty == old(orderByProperty)
      ensures entity.id !in old(Table()) ==> r == Failure(ConcurrencyFailure) && rows == old(rows)
      ensures entity.id in old(Table()) ==>
                && r == Success(UpdateStamp(entity, now))
                && rows == Replace(old(rows), r.value)
                && Table() == old(Table())[entity.id := r.value]
    {
      if entity.id !in Table() {
        return Failure(ConcurrencyFailure);
      }
      var stamped := UpdateStamp(entity, now);
      ToTableReplace(rows, stamped);
      rows := Replace(rows, stamped);
      r := Success(stamped);
    }

    /** Physically removes the entity's row, whatever its soft-delete flag. */
    method Delete(entity: Entity<D>) returns (r: Result<bool, Error>)
      requires Valid()
      modifies this
      ensures Valid() && orderByProperty == old(orderByProperty)
      ensures entity.id !in old(Table()) ==> r == Failure(ConcurrencyFailure) && rows == old(rows)
      ensures entity.id in old(Table()) ==>
                && r == Success(true)
                && rows == Where(old(rows), IdNotIn({entity.id}))
                && Table() == old(Table()) - {entity.id}
    {
      if entity.id !in Table() {
        return Failure(ConcurrencyFailure);
      }
      RemoveRows({entity.id});
      r := Success(true);
    }

    /** Physically removes the row Get finds for `id`; fails with KeyNotFound when there is none. */
    method DeleteById(id: Guid) returns (r: Result<bool, Error>)
      requires Valid()
      modifies this
      ensures Valid() && orderByProperty == old(orderByProperty)
      ensures id !in old(Table()) ==> r == Failure(KeyNotFound(id)) && rows == old(rows)
      ensures id in old(Table()) ==>
                && r == Success(true)
                && rows == Where(old(rows), IdNotIn({id}))
                && Table() == old(Table()) - {id}
    {
      GetByKey(this, id);
      var model := Get(id, None);
      if model.Failure? {
        return Failure(model.error);
      }
      RemoveRows({model.value.id});
      r := Success(true);
    }

    /** Physically removes the rows of all given entities; the store fails the whole batch if one is missing. */
    method DeleteRange(entities: seq<Entity<D>>) returns (r: Outcome<Error>)
      requires Valid()
      modifies this
      ensures Valid() && orderByProperty == old(orderByProperty)
      ensures !(Ids(entities) <= old(Table()).Keys) ==> r == Fail(ConcurrencyFailure) && rows == old(rows)
      ensures Ids(entities) <= old(Table()).Keys ==>
                && r == Pass
                && rows == Where(old(rows), IdNotIn(Ids(entities)))
                && Table() == old(Table()) - Ids(entities)
    {
      var ids := Ids(entities);
      if !(ids <= Table().Keys) {
        return Fail(ConcurrencyFailure);
      }
      RemoveRows(ids);
      r := Pass;
    }

    /** The store's physical removal of the rows keyed by `ids`. */
    method RemoveRows(ids: set<Guid>)
      requires Valid()
      modifies this
      ensures Valid() && orderByProperty == old(orderByProperty)
      ensures rows == Where(old(rows), IdNotIn(ids))
      ensures Table() == old(Table()) - ids
    {
      ToTableRemove(rows, ids);
      UniqueWhere(rows, IdNotIn(ids));
      rows := Where(rows, IdNotIn(ids));
    }

    /** Flushes pending changes, turning a store failure into `false` instead of raising it. */
    method SaveChangesAsync(storeFails: bool) returns (ok: bool)
      ensures ok <==> !storeFails
    {
      if storeFails {
        return false;
      }
      return true;
    }
  }

  /** Maps with disjoint keys can be joined in either order. */
  lemma DisjointUnionCommutes<K, V>(a: map<K, V>, b: map<K, V>)
    requires a.Keys !! b.Keys
    ensures a + b == b + a
  {
  }

  /** Under unique keys, Get with no condition returns the table's row for the key, soft-deleted or not. */
  lemma GetByKey<D(!new)>(repo: BaseRepository<D>, id: Guid)
    requires repo.Valid()
    ensures repo.Get(id, None) == if id in repo.Table() then Success(repo.Table()[id]) else Failure(KeyNotFound(id))
  {
    var r := repo.Get(id, None);
    if r.Success? {
      RowIsEntry(repo.rows, r.value);
    } else if id in repo.Table() {
      assert repo.Table()[id] in repo.rows;
    }
  }
}

module RepositoryLaws {
  import opened Wrappers
  import opened BaseModel
  import opened Queries
  import opened Filters
  import opened Store
  import opened Repositories

  /** The query amounts to one selection by `!IsDeleted && p && every applicable filter`, then the ordering. */
  lemma QueryIsConjunction<D(!new)>(repo: BaseRepository<D>, p: Entity<D> -> bool, filters: Option<GlobalFilters<Entity<D>>>)
    ensures repo.Query(p, filters) == Ordered(Where(repo.rows, Matches(p, filters)), repo.orderByProperty)
  {
    var base := Where(repo.rows, NotDeletedAnd(p));
    if filters.Some? {
      NarrowIsWhere(base, filters.value);
      WhereWhere(repo.rows, NotDeletedAnd(p), AllPass(filters.value));
      WhereExt(repo.rows, And(NotDeletedAnd(p), AllPass(filters.value)), Matches(p, filters));
    } else {
      WhereExt(repo.rows, NotDeletedAnd(p), Matches(p, filters));
    }
  }

  /** With filters, the query returns exactly the rows of the unfiltered query that pass every applicable filter, in the same order. */
  lemma QueryNarrowsByFilters<D(!new)>(repo: BaseRepository<D>, p: Entity<D> -> bool, fs: GlobalFilters<Entity<D>>)
    ensures repo.Query(p, Some(fs)) == Where(repo.Query(p, None), AllPass(fs))
  {
    var rows := repo.rows;
    QueryIsConjunction(repo, p, Some(fs));
    QueryIsConjunction(repo, p, None);
    WhereWhere(rows, Matches(p, None), AllPass(fs));
    WhereExt(rows, And(Matches(p, None), AllPass(fs)), Matches(p, Some(fs)));
    match repo.orderByProperty {
      case None =>
      case Some(key) =>
        WhereSortBy(Where(rows, Matches(p, None)), key, AllPass(fs));
    }
  }

  /** The query depends only on which filters are given, not on their order or repetition. */
  lemma QueryOrderIndependent<D(!new)>(repo: BaseRepository<D>, p: Entity<D> -> bool, fs: GlobalFilters<Entity<D>>, gs: GlobalFilters<Entity<D>>)
    requires forall f :: f in fs <==> f in gs
    ensures repo.Query(p, Some(fs)) == repo.Query(p, Some(gs))
  {
    NarrowSameFilters(Where(repo.rows, NotDeletedAnd(p)), fs, gs);
  }

  /** For filter sets without nulls, Filter succeeds and depends only on which filters are given. */
  lemma FilterOrderIndependent<D(!new)>(repo: BaseRepository<D>, p: Entity<D> -> bool, fs: GlobalFilters<Entity<D>>, gs: GlobalFilters<Entity<D>>)
    requires forall f :: f in fs <==> f in gs
    requires forall i :: 0 <= i < |fs| ==> fs[i].Some?
    ensures repo.Filter(p, Some(fs)) == repo.Filter(p, Some(gs)) == Success(repo.Query(p, Some(fs)))
  {
    forall i | 0 <= i < |gs|
      ensures gs[i].Some?
    {
      assert gs[i] in fs;
    }
    ScanWithoutNulls(repo.propertyNames, fs);
    ScanWithoutNulls(repo.propertyNames, gs);
    QueryOrderIndependent(repo, p, fs, gs);
  }

  /** Null filters and filters without an expression are skipped by the query: such a filter set changes nothing. */
  lemma QuerySkipsInapplicable<D(!new)>(repo: BaseRepository<D>, p: Entity<D> -> bool, fs: GlobalFilters<Entity<D>>)
    requires forall i :: 0 <= i < |fs| ==> !Applies(fs[i])
    ensures repo.Query(p, Some(fs)) == repo.Query(p, None)
  {
    NarrowSkipsInapplicable(Where(repo.rows, NotDeletedAnd(p)), fs);
  }

  /** As written, Filter skips filters without an expression only when none of them is null. */
  lemma FilterSkipsExpressionless<D(!new)>(repo: BaseRepository<D>, p: Entity<D> -> bool, fs: GlobalFilters<Entity<D>>)
    requires forall i :: 0 <= i < |fs| ==> fs[i].Some? && fs[i].value.expression.None?
    ensures repo.Filter(p, Some(fs)) == repo.Filter(p, None)
  {
    ScanWithoutNulls(repo.propertyNames, fs);
    QuerySkipsInapplicable(repo, p, fs);
  }

  /** As written, a filter set that starts with a null filter makes Filter fail, although the query would skip it. */
  lemma NullFilterThrows<D(!new)>(repo: BaseRepository<D>, p: Entity<D> -> bool, fs: GlobalFilters<Entity<D>>)
    requires repo.Valid()
    requires fs != [] && fs[0].None?
    ensures repo.Filter(p, Some(fs)) == Failure(NullFilter)
  {
    ScanLeadingNull(repo.propertyNames, fs);
  }

  /** Without an ordering key the matching rows come in table order; with one they come sorted by it, ties in table order. */
  lemma QueryOrdering<D(!new)>(repo: BaseRepository<D>, p: Entity<D> -> bool, filters: Option<GlobalFilters<Entity<D>>>)
    ensures repo.orderByProperty.None? ==> repo.Query(p, filters) == Where(repo.rows, Matches(p, filters))
    ensures repo.orderByProperty.Some? ==>
              && SortedBy(repo.Query(p, filters), repo.orderByProperty.value)
              && forall k :: Where(repo.Query(p, filters), KeyIs(repo.orderByProperty.value, k))
                             == Where(Where(repo.rows, Matches(p, filters)), KeyIs(repo.orderByProperty.value, k))
  {
    QueryIsConjunction(repo, p, filters);
    if repo.orderByProperty.Some? {
      var key := repo.orderByProperty.value;
      forall k ensures Where(repo.Query(p, filters), KeyIs(key, k)) == Where(Where(repo.rows, Matches(p, filters)), KeyIs(key, k)) {
        SortByStable(Where(repo.rows, Matches(p, filters)), key, k);
      }
    }
  }

  /** Under unique keys, FindAsync returns the row of the key unless it is absent or soft-deleted. */
  lemma FindAsyncByKey<D(!new)>(repo: BaseRepository<D>, id: Guid)
    requires repo.Valid()
    ensures repo.FindAsync(id) == if id in repo.Table() && !repo.Table()[id].isDeleted then Some(repo.Table()[id]) else None
  {
    var r := repo.FindAsync(id);
    if r.Some? {
      RowIsEntry(repo.rows, r.value);
    } else if id in repo.Table() {
      assert repo.Table()[id] in repo.rows;
    }
  }

  /** A soft-deleted row is still returned by Get but not by FindAsync. */
  lemma SoftDeletedRowVisibility<D(!new)>(repo: BaseRepository<D>, id: Guid)
    requires repo.Valid()
    requires id in repo.Table() && repo.Table()[id].isDeleted
    ensures repo.Get(id, None) == Success(repo.Table()[id])
    ensures repo.FindAsync(id) == None
  {
    GetByKey(repo, id);
    FindAsyncByKey(repo, id);
  }

  /** CountAsync counts the rows AnyAsync would see plus the soft-deleted rows satisfying the predicate. */
  lemma CountIncludesSoftDeleted<D(!new)>(repo: BaseRepository<D>, p: Entity<D> -> bool)
    ensures repo.CountAsync(p) == |repo.Query(p, None)| + |Where(repo.rows, DeletedAnd(p))|
  {
    var rows := repo.rows;
    WhereCountSplit(rows, p, (x: Entity<D>) => x.isDeleted);
    WhereExt(rows, And((x: Entity<D>) => x.isDeleted, p), DeletedAnd(p));
    WhereExt(rows, And(Not((x: Entity<D>) => x.isDeleted), p), NotDeletedAnd(p));
  }
}
