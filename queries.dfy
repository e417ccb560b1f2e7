/**
 * The query operators the repository composes: an order-preserving `Where` and a
 * stable `OrderBy` on an integer key.
 */
module Queries {
  import opened Wrappers

  /** The elements of `s` that satisfy `q`, in the order of `s`. */
  function Where<T(!new)>(s: seq<T>, q: T -> bool): (r: seq<T>)
    ensures |r| <= |s|
    ensures forall x :: x in r <==> x in s && q(x)
  {
    if s == [] then []
    else
      var rest := Where(s[1..], q);
      assert forall x :: x in s <==> x == s[0] || x in s[1..];
      if q(s[0]) then [s[0]] + rest else rest
  }

  /** The conjunction of two predicates. */
  function And<T(!new)>(a: T -> bool, b: T -> bool): T -> bool
  {
    x => a(x) && b(x)
  }

  /** Narrowing twice is narrowing once by the conjunction. */
  lemma {:induction false} WhereWhere<T(!new)>(s: seq<T>, a: T -> bool, b: T -> bool)
    ensures Where(Where(s, a), b) == Where(s, And(a, b))
  {
    if s != [] {
      WhereWhere(s[1..], a, b);
    }
  }

  /** Two predicates that agree on the elements of `s` select the same subsequence. */
  lemma {:induction false} WhereExt<T(!new)>(s: seq<T>, a: T -> bool, b: T -> bool)
    requires forall x :: x in s ==> a(x) == b(x)
    ensures Where(s, a) == Where(s, b)
  {
    if s != [] {
      assert forall x :: x in s[1..] ==> x in s;
      WhereExt(s[1..], a, b);
    }
  }

  /** A predicate that holds everywhere keeps the whole sequence. */
  lemma {:induction false} WhereAlways<T(!new)>(s: seq<T>, q: T -> bool)
    requires forall x :: x in s ==> q(x)
    ensures Where(s, q) == s
  {
    if s != [] {
      assert forall x :: x in s[1..] ==> x in s;
      WhereAlways(s[1..], q);
    }
  }

  /** The size of a selection splits along any second predicate. */
  lemma {:induction false} WhereCountSplit<T(!new)>(s: seq<T>, q: T -> bool, a: T -> bool)
    ensures |Where(s, q)| == |Where(s, And(a, q))| + |Where(s, And(Not(a), q))|
  {
    if s != [] {
      WhereCountSplit(s[1..], q, a);
    }
  }

  /** The negation of a predicate. */
  function Not<T(!new)>(a: T -> bool): T -> bool
  {
    x => !a(x)
  }

  /** `s` is in non-decreasing order of `key`. */
  ghost predicate SortedBy<T(!new)>(s: seq<T>, key: T -> int)
  {
    forall i, j :: 0 <= i < j < |s| ==> key(s[i]) <= key(s[j])
  }

  /** Every element of `s` has a key of at least `k`. */
  ghost predicate LowerBound<T(!new)>(k: int, s: seq<T>, key: T -> int)
  {
    forall x :: x in s ==> k <= key(x)
  }

  /** `x` placed before the first element of the sorted `s` whose key is not smaller. */
  function InsertBy<T(!new)>(x: T, s: seq<T>, key: T -> int): (r: seq<T>)
    ensures |r| == |s| + 1
    ensures multiset(r) == multiset(s) + multiset{x}
    ensures forall y :: y in r <==> y == x || y in s
    ensures SortedBy(s, key) ==> SortedBy(r, key)
  {
    if s == [] || key(x) <= key(s[0]) then
      [x] + s
    else
      assert s == [s[0]] + s[1..];
      var rest := InsertBy(x, s[1..], key);
      assert SortedBy(s, key) ==> LowerBound(key(s[0]), rest, key);
      [s[0]] + rest
  }

  /** The elements of `s` in non-decreasing order of `key`; equal keys keep their order (LINQ OrderBy). */
  function SortBy<T(!new)>(s: seq<T>, key: T -> int): (r: seq<T>)
    ensures |r| == |s|
    ensures multiset(r) == multiset(s)
    ensures forall y :: y in r <==> y in s
    ensures SortedBy(r, key)
  {
    if s == [] then []
    else
      assert s == [s[0]] + s[1..];
      InsertBy(s[0], SortBy(s[1..], key), key)
  }

  /** The sequence ordered by the key when one is configured, untouched otherwise. */
  function Ordered<T(!new)>(s: seq<T>, orderBy: Option<T -> int>): (r: seq<T>)
    ensures |r| == |s|
    ensures forall y :: y in r <==> y in s
    ensures orderBy.None? ==> r == s
    ensures orderBy.Some? ==> multiset(r) == multiset(s) && SortedBy(r, orderBy.value)
  {
    match orderBy
    case None => s
    case Some(key) => SortBy(s, key)
  }

  /** The predicate "has key `k`". */
  function KeyIs<T(!new)>(key: T -> int, k: int): T -> bool
  {
    x => key(x) == k
  }

  /** An element whose key bounds the sorted `s` goes in front. */
  lemma InsertByFront<T(!new)>(x: T, s: seq<T>, key: T -> int)
    requires LowerBound(key(x), s, key)
    ensures InsertBy(x, s, key) == [x] + s
  {
    if s != [] {
      assert s[0] in s;
    }
  }

  /** Selecting after an insertion is inserting into the selection. */
  lemma {:induction false} WhereInsertBy<T(!new)>(x: T, t: seq<T>, key: T -> int, q: T -> bool)
    requires SortedBy(t, key)
    ensures Where(InsertBy(x, t, key), q) == if q(x) then InsertBy(x, Where(t, q), key) else Where(t, q)
  {
    if t == [] {
    } else if key(x) <= key(t[0]) {
      assert InsertBy(x, t, key) == [x] + t;
      assert ([x] + t)[1..] == t;
      if q(x) {
        assert LowerBound(key(x), Where(t, q), key) by {
          forall z | z in Where(t, q) ensures key(x) <= key(z) {
            var j :| 0 <= j < |t| && t[j] == z;
            assert j == 0 || key(t[0]) <= key(t[j]);
          }
        }
        InsertByFront(x, Where(t, q), key);
      }
    } else {
      var y := t[0];
      assert t == [y] + t[1..];
      var inner := InsertBy(x, t[1..], key);
      assert InsertBy(x, t, key) == [y] + inner;
      assert ([y] + inner)[1..] == inner;
      WhereInsertBy(x, t[1..], key, q);
      if q(y) {
        var w := Where(t[1..], q);
        assert Where(t, q) == [y] + w;
        assert ([y] + w)[1..] == w;
      }
    }
  }

  /** Selecting from a sorted sequence is sorting the selection. */
  lemma {:induction false} WhereSortBy<T(!new)>(s: seq<T>, key: T -> int, q: T -> bool)
    ensures Where(SortBy(s, key), q) == SortBy(Where(s, q), key)
  {
    if s != [] {
      var x := s[0];
      WhereSortBy(s[1..], key, q);
      WhereInsertBy(x, SortBy(s[1..], key), key, q);
      if q(x) {
        var w := Where(s[1..], q);
        assert Where(s, q) == [x] + w;
        assert ([x] + w)[1..] == w;
      }
    }
  }

  /** Sorting a sequence whose keys are all equal leaves it as it is. */
  lemma {:induction false} SortByConstant<T(!new)>(s: seq<T>, key: T -> int, k: int)
    requires forall x :: x in s ==> key(x) == k
    ensures SortBy(s, key) == s
  {
    if s != [] {
      assert forall x :: x in s[1..] ==> x in s;
      SortByConstant(s[1..], key, k);
      assert s[0] in s;
      InsertByFront(s[0], s[1..], key);
      assert s == [s[0]] + s[1..];
    }
  }

  /** Stability: the elements with any one key appear in the sorted sequence in their original order. */
  lemma SortByStable<T(!new)>(s: seq<T>, key: T -> int, k: int)
    ensures Where(SortBy(s, key), KeyIs(key, k)) == Where(s, KeyIs(key, k))
  {
    WhereSortBy(s, key, KeyIs(key, k));
    SortByConstant(Where(s, KeyIs(key, k)), key, k);
  }
}
