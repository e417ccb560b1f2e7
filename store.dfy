/**
 * The entity table the data context holds: the rows in the order the store
 * enumerates them, and their view as a map from key to row.
 */
module Store {
  import opened BaseModel
  import opened Queries

  /** No two rows share a key (the primary-key constraint on `Id`). */
  predicate UniqueIds<D>(s: seq<Entity<D>>)
  {
    forall i, j :: 0 <= i < j < |s| ==> s[i].id != s[j].id
  }

  /** The keys present in `s`. */
  function Ids<D>(s: seq<Entity<D>>): set<Guid>
  {
    set i | 0 <= i < |s| :: s[i].id
  }

  /** The table as a map from key to the first row with that key. */
  function ToTable<D(!new)>(s: seq<Entity<D>>): (t: map<Guid, Entity<D>>)
    ensures t.Keys == Ids(s)
    ensures forall id :: id in t ==> t[id] in s && t[id].id == id
  {
    if s == [] then map[]
    else
      var rest := ToTable(s[1..]);
      IdsCons(s);
      assert forall x :: x in s[1..] ==> x in s;
      rest[s[0].id := s[0]]
  }

  /** The row predicate "has key `id`". */
  function HasId<D>(id: Guid): Entity<D> -> bool
  {
    (e: Entity<D>) => e.id == id
  }

  /** The row predicate "key not among `ids`": what survives a removal. */
  function IdNotIn<D>(ids: set<Guid>): Entity<D> -> bool
  {
    (e: Entity<D>) => e.id !in ids
  }

  /** The rows with every row keyed `e.id` replaced by `e` (the store's row update). */
  function Replace<D>(s: seq<Entity<D>>, e: Entity<D>): (r: seq<Entity<D>>)
    ensures |r| == |s|
    ensures forall i :: 0 <= i < |s| ==> r[i] == if s[i].id == e.id then e else s[i]
  {
    if s == [] then []
    else [if s[0].id == e.id then e else s[0]] + Replace(s[1..], e)
  }

  /** Under unique keys every row is the table's entry for its key. */
  lemma {:induction false} RowIsEntry<D(!new)>(s: seq<Entity<D>>, x: Entity<D>)
    requires UniqueIds(s)
    requires x in s
    ensures x.id in ToTable(s) && ToTable(s)[x.id] == x
  {
    if s[0] != x {
      assert x in s[1..];
      assert UniqueIds(s[1..]);
      RowIsEntry(s[1..], x);
      var j :| 0 <= j < |s[1..]| && s[1..][j] == x;
      assert s[j + 1] == x;
    }
  }

  /** Appending rows: earlier rows win on a shared key. */
  lemma {:induction false} ToTableAppend<D(!new)>(s: seq<Entity<D>>, t: seq<Entity<D>>)
    ensures ToTable(s + t) == ToTable(t) + ToTable(s)
  {
    if s == [] {
      assert s + t == t;
    } else {
      var a, b := ToTable(t), ToTable(s[1..]);
      assert (s + t)[1..] == s[1..] + t;
      assert (s + t)[0] == s[0];
      ToTableAppend(s[1..], t);
      assert ToTable(s + t) == (a + b)[s[0].id := s[0]];
      UpdateUnion(a, b, s[0].id, s[0]);
    }
  }

  /** The table is empty exactly when there are no rows. */
  lemma EmptyTable<D(!new)>(s: seq<Entity<D>>)
    ensures ToTable(s) == map[] <==> s == []
  {
    if s != [] {
      assert s[0].id in Ids(s);
    }
  }

  /** Appending a row with a new key adds that key's entry and nothing else. */
  lemma ToTableAppendOne<D(!new)>(s: seq<Entity<D>>, e: Entity<D>)
    requires e.id !in Ids(s)
    ensures ToTable(s + [e]) == ToTable(s)[e.id := e]
  {
    ToTableAppend(s, [e]);
    assert [e][1..] == [];
    assert ToTable([e]) == map[e.id := e];
  }

  /** Removing the rows with the given keys removes those keys from the table. */
  lemma {:induction false} ToTableRemove<D(!new)>(s: seq<Entity<D>>, ids: set<Guid>)
    ensures ToTable(Where(s, IdNotIn(ids))) == ToTable(s) - ids
  {
    if s != [] {
      ToTableRemove(s[1..], ids);
    }
  }

  /** Replacing the rows of a present key replaces that key's entry and nothing else. */
  lemma {:induction false} ToTableReplace<D(!new)>(s: seq<Entity<D>>, e: Entity<D>)
    ensures ToTable(Replace(s, e)) == if e.id in Ids(s) then ToTable(s)[e.id := e] else ToTable(s)
  {
    if s != [] {
      var x := s[0];
      var m, m' := ToTable(s[1..]), ToTable(Replace(s[1..], e));
      ToTableReplace(s[1..], e);
      IdsCons(s);
      assert ToTable(s) == m[x.id := x];
      assert Replace(s, e)[1..] == Replace(s[1..], e);
      if x.id == e.id {
        assert ToTable(Replace(s, e)) == m'[e.id := e];
        UpdateTwice(m, e.id, e, e);
        UpdateTwice(m, e.id, x, e);
      } else {
        assert ToTable(Replace(s, e)) == m'[x.id := x];
        if e.id in Ids(s[1..]) {
          UpdateCommute(m, e.id, e, x.id, x);
        }
      }
    }
  }

  /** The keys of a non-empty sequence: its first key and those of the rest. */
  lemma IdsCons<D>(s: seq<Entity<D>>)
    requires s != []
    ensures Ids(s) == Ids(s[1..]) + {s[0].id}
  {
    assert forall i :: 0 < i < |s| ==> s[i] == s[1..][i - 1];
    assert forall i :: 0 <= i < |s| - 1 ==> s[1..][i] == s[i + 1];
  }

  /** A second update of a key overrides the first. */
  lemma UpdateTwice<D>(m: map<Guid, Entity<D>>, k: Guid, a: Entity<D>, b: Entity<D>)
    ensures m[k := a][k := b] == m[k := b]
  {
  }

  /** Updates of distinct keys commute. */
  lemma UpdateCommute<D>(m: map<Guid, Entity<D>>, k1: Guid, a: Entity<D>, k2: Guid, b: Entity<D>)
    requires k1 != k2
    ensures m[k1 := a][k2 := b] == m[k2 := b][k1 := a]
  {
  }

  /** Updating a union at one key is updating its right operand there. */
  lemma UpdateUnion<D>(a: map<Guid, Entity<D>>, b: map<Guid, Entity<D>>, k: Guid, v: Entity<D>)
    ensures (a + b)[k := v] == a + b[k := v]
  {
  }

  /** A selection of rows with unique keys has unique keys. */
  lemma {:induction false} UniqueWhere<D(!new)>(s: seq<Entity<D>>, q: Entity<D> -> bool)
    requires UniqueIds(s)
    ensures UniqueIds(Where(s, q))
  {
    if s != [] {
      assert UniqueIds(s[1..]);
      UniqueWhere(s[1..], q);
      var rest := Where(s[1..], q);
      if q(s[0]) {
        forall j | 0 <= j < |rest| ensures rest[j].id != s[0].id {
          assert rest[j] in s[1..];
          var k :| 0 <= k < |s[1..]| && s[1..][k] == rest[j];
          assert s[k + 1] == rest[j];
        }
        assert Where(s, q) == [s[0]] + rest;
      }
    }
  }

  /** Rows with unique keys followed by new rows with unique, unused keys have unique keys. */
  lemma UniqueAppend<D(!new)>(s: seq<Entity<D>>, t: seq<Entity<D>>)
    requires UniqueIds(s) && UniqueIds(t)
    requires Ids(s) !! Ids(t)
    ensures UniqueIds(s + t)
  {
    var all := s + t;
    forall i, j | 0 <= i < j < |all| ensures all[i].id != all[j].id {
      if j >= |s| && i < |s| {
        assert all[i].id in Ids(s);
        assert all[j] == t[j - |s|];
        assert all[j].id in Ids(t);
      }
    }
  }
}
