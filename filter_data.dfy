/**
 * Dynamic filter conditions: a named comparison together with an optional compiled
 * predicate, and the fold that narrows a query by each of them in turn.
 */
module Filters {
  import opened Wrappers
  import opened Queries

  /** A filter condition; only `expression` affects which rows are returned. */
  datatype GenericFilterData<!T> = GenericFilterData(property: string, filter: string, value: string, expression: Option<T -> bool>)

  /** A filter set: the filters in the order given, any of which may be null. */
  type GlobalFilters<!T> = seq<Option<GenericFilterData<T>>>

  /** The filter is present and carries a compiled expression. */
  predicate Applies<T>(f: Option<GenericFilterData<T>>)
  {
    f.Some? && f.value.expression.Some?
  }

  /** `x` satisfies the expression of every filter of `fs` that applies. */
  predicate PassesAll<T>(fs: GlobalFilters<T>, x: T)
  {
    forall i :: 0 <= i < |fs| && Applies(fs[i]) ==> fs[i].value.expression.value(x)
  }

  /** `PassesAll` as a predicate value. */
  function AllPass<T>(fs: GlobalFilters<T>): T -> bool
  {
    x => PassesAll(fs, x)
  }

  /** The query narrowed by each applicable filter in turn, in the order of `fs`. */
  function Narrow<T(!new)>(s: seq<T>, fs: GlobalFilters<T>): (r: seq<T>)
    ensures |r| <= |s|
    ensures forall x :: x in r <==> x in s && PassesAll(fs, x)
    decreases fs
  {
    if fs == [] then s
    else
      var f := fs[0];
      var narrowed := if Applies(f) then Where(s, f.value.expression.value) else s;
      assert forall x :: PassesAll(fs, x) <==> (Applies(f) ==> f.value.expression.value(x)) && PassesAll(fs[1..], x) by {
        forall x ensures PassesAll(fs, x) <==> (Applies(f) ==> f.value.expression.value(x)) && PassesAll(fs[1..], x) {
          PassesAllCons(fs, x);
        }
      }
      Narrow(narrowed, fs[1..])
  }

  /** Passing a filter set is passing its first filter and the rest. */
  lemma PassesAllCons<T>(fs: GlobalFilters<T>, x: T)
    requires fs != []
    ensures PassesAll(fs, x) <==> (Applies(fs[0]) ==> fs[0].value.expression.value(x)) && PassesAll(fs[1..], x)
  {
    if PassesAll(fs[1..], x) && (Applies(fs[0]) ==> fs[0].value.expression.value(x)) {
      forall i | 0 <= i < |fs| && Applies(fs[i]) ensures fs[i].value.expression.value(x) {
        if i > 0 {
          assert fs[1..][i - 1] == fs[i];
        }
      }
    }
  }

  /** The fold of narrowings is one selection by the conjunction of all applicable filters. */
  lemma {:induction false} NarrowIsWhere<T(!new)>(s: seq<T>, fs: GlobalFilters<T>)
    ensures Narrow(s, fs) == Where(s, AllPass(fs))
    decreases fs
  {
    if fs == [] {
      WhereAlways(s, AllPass(fs));
    } else {
      var f := fs[0];
      var rest := fs[1..];
      forall x ensures AllPass(fs)(x) == ((Applies(f) ==> f.value.expression.value(x)) && AllPass(rest)(x)) {
        PassesAllCons(fs, x);
      }
      if Applies(f) {
        var e := f.value.expression.value;
        NarrowIsWhere(Where(s, e), rest);
        WhereWhere(s, e, AllPass(rest));
        WhereExt(s, And(e, AllPass(rest)), AllPass(fs));
      } else {
        NarrowIsWhere(s, rest);
        WhereExt(s, AllPass(rest), AllPass(fs));
      }
    }
  }

  /** Null filters and filters without an expression leave the query as it is. */
  lemma NarrowSkipsInapplicable<T(!new)>(s: seq<T>, fs: GlobalFilters<T>)
    requires forall i :: 0 <= i < |fs| ==> !Applies(fs[i])
    ensures Narrow(s, fs) == s
  {
    NarrowIsWhere(s, fs);
    WhereAlways(s, AllPass(fs));
  }

  /** The result depends only on which filters are given, not on their order or repetition. */
  lemma NarrowSameFilters<T(!new)>(s: seq<T>, fs: GlobalFilters<T>, gs: GlobalFilters<T>)
    requires forall f :: f in fs <==> f in gs
    ensures Narrow(s, fs) == Narrow(s, gs)
  {
    forall x ensures AllPass(fs)(x) == AllPass(gs)(x) {
      SameFiltersPass(fs, gs, x);
      SameFiltersPass(gs, fs, x);
    }
    NarrowIsWhere(s, fs);
    NarrowIsWhere(s, gs);
    WhereExt(s, AllPass(fs), AllPass(gs));
  }

  /** Every filter of `fs` is one of `gs`: passing `gs` implies passing `fs`. */
  lemma SameFiltersPass<T>(fs: GlobalFilters<T>, gs: GlobalFilters<T>, x: T)
    requires forall f :: f in fs ==> f in gs
    ensures PassesAll(gs, x) ==> PassesAll(fs, x)
  {
    if PassesAll(gs, x) {
      forall i | 0 <= i < |fs| && Applies(fs[i]) ensures fs[i].value.expression.value(x) {
        assert fs[i] in gs;
        var j :| 0 <= j < |gs| && gs[j] == fs[i];
      }
    }
  }

  /** `sub` occurs in `s` (the ordinal `string.Contains`). */
  predicate Contains(s: string, sub: string)
    decreases |s|
  {
    |sub| <= |s| && (s[..|sub|] == sub || Contains(s[1..], sub))
  }

  /**
   * Evaluating `filters.Any(o => name.Contains(o.Property))` dereferences a null
   * filter: one is reached before any filter whose property occurs in `name`.
   */
  predicate AnyReachesNull<T>(name: string, fs: GlobalFilters<T>)
  {
    fs != [] && (fs[0].None? || (!Contains(name, fs[0].value.property) && AnyReachesNull(name, fs[1..])))
  }

  /** The property scan over the entity type's property `names` dereferences a null filter. */
  predicate ScanReachesNull<T>(names: seq<string>, fs: GlobalFilters<T>)
  {
    exists i :: 0 <= i < |names| && AnyReachesNull(names[i], fs)
  }

  /** A filter set without null elements never makes the scan fail. */
  lemma {:induction false} ScanWithoutNulls<T>(names: seq<string>, fs: GlobalFilters<T>)
    requires forall i :: 0 <= i < |fs| ==> fs[i].Some?
    ensures !ScanReachesNull(names, fs)
  {
    forall k | 0 <= k < |names| ensures !AnyReachesNull(names[k], fs) {
      AnyWithoutNulls(names[k], fs);
    }
  }

  /** `Any` over filters that are all present never dereferences null. */
  lemma {:induction false} AnyWithoutNulls<T>(name: string, fs: GlobalFilters<T>)
    requires forall i :: 0 <= i < |fs| ==> fs[i].Some?
    ensures !AnyReachesNull(name, fs)
  {
    if fs != [] {
      assert forall i :: 0 <= i < |fs[1..]| ==> fs[1..][i] == fs[i + 1];
      AnyWithoutNulls(name, fs[1..]);
    }
  }

  /** A null first filter makes the scan fail for any type that has a property. */
  lemma ScanLeadingNull<T>(names: seq<string>, fs: GlobalFilters<T>)
    requires names != []
    requires fs != [] && fs[0].None?
    ensures ScanReachesNull(names, fs)
  {
    assert AnyReachesNull(names[0], fs);
  }
}
