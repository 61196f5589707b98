/**
 * The plain relational meaning of the SQL the models send: WHERE as a filter,
 * ORDER BY as a sort on a tuple of keys, LIMIT as a prefix and COUNT(*) as a
 * count. A table is a sequence of rows in physical order, which is the order
 * a query without ORDER BY returns them in.
 *
 * Text keys compare by code point (the "C" collation). In ascending order
 * NULL sorts after every value, as PostgreSQL does by default.
 */
module Relational {
  import opened Wrappers

  // ---------------------------------------------------------------- WHERE

  /** `s` keeps some of the elements of `t`, in their order. */
  predicate Subsequence<T(==)>(s: seq<T>, t: seq<T>)
    decreases |t|
  {
    s == [] || (t != [] && ((s[0] == t[0] && Subsequence(s[1..], t[1..])) || Subsequence(s, t[1..])))
  }

  /** The rows of `t` that satisfy `p`, in table order. */
  function Filter<T(==,!new)>(t: seq<T>, p: T -> bool): (r: seq<T>)
    ensures |r| <= |t|
    ensures forall x :: x in r <==> x in t && p(x)
    ensures forall x :: multiset(r)[x] == if p(x) then multiset(t)[x] else 0
    ensures Subsequence(r, t)
  {
    if t == [] then []
    else
      var rest := Filter(t[1..], p);
      assert t == [t[0]] + t[1..];
      if p(t[0]) then
        assert ([t[0]] + rest)[1..] == rest;
        [t[0]] + rest
      else rest
  }

  /** Filtering a sequence extended by one element. */
  lemma {:induction false} FilterAppend<T(!new)>(t: seq<T>, y: T, p: T -> bool)
    ensures Filter(t + [y], p) == Filter(t, p) + (if p(y) then [y] else [])
  {
    var e: seq<T> := if p(y) then [y] else [];
    if t == [] {
      assert t + [y] == [y] && [y][1..] == [];
      FilterCons([y], p);
    } else {
      var u := t + [y];
      assert u[0] == t[0] && u[1..] == t[1..] + [y];
      FilterAppend(t[1..], y, p);
      FilterCons(u, p);
      FilterCons(t, p);
      var c: seq<T> := if p(t[0]) then [t[0]] else [];
      AppendAssoc(c, Filter(t[1..], p), e);
    }
  }

  /** A filter every row passes keeps the whole table. */
  lemma {:induction false} FilterTodos<T(!new)>(t: seq<T>, p: T -> bool)
    requires forall i :: 0 <= i < |t| ==> p(t[i])
    ensures Filter(t, p) == t
  {
    if t != [] {
      FilterTodos(t[1..], p);
      FilterCons(t, p);
      assert t == [t[0]] + t[1..];
    }
  }

  /** One step of `Filter`: the head, when kept, followed by the filtered tail. */
  lemma FilterCons<T(!new)>(t: seq<T>, p: T -> bool)
    requires t != []
    ensures Filter(t, p) == (if p(t[0]) then [t[0]] else []) + Filter(t[1..], p)
  {
  }

  lemma AppendAssoc<T>(a: seq<T>, b: seq<T>, c: seq<T>)
    ensures a + (b + c) == (a + b) + c
  {
  }

  /**
   * The rows a join produces, one per row of `t` that `f` keeps, in table
   * order: an inner join drops the rows `f` maps to `None`.
   */
  function FilterMap<T, U(==,!new)>(t: seq<T>, f: T -> Option<U>): (r: seq<U>)
    ensures |r| <= |t|
    ensures forall u :: u in r <==> exists i :: 0 <= i < |t| && f(t[i]) == Some(u)
  {
    if t == [] then []
    else
      var rest := FilterMap(t[1..], f);
      assert forall i :: 1 <= i < |t| ==> t[i] == t[1..][i - 1];
      assert forall i :: 0 <= i < |t[1..]| ==> t[1..][i] == t[i + 1];
      match f(t[0])
      case None => rest
      case Some(u) => [u] + rest
  }

  /** A join that keeps no row is empty. */
  lemma {:induction false} FilterMapNinguno<T, U(!new)>(t: seq<T>, f: T -> Option<U>)
    requires forall i :: 0 <= i < |t| ==> f(t[i]).None?
    ensures FilterMap(t, f) == []
  {
    if t != [] {
      assert forall i :: 0 <= i < |t[1..]| ==> t[1..][i] == t[i + 1];
      FilterMapNinguno(t[1..], f);
    }
  }

  /** `FilterMap` over rows with one more row at the end. */
  lemma {:induction false} FilterMapAppend<T, U(!new)>(t: seq<T>, y: T, f: T -> Option<U>)
    ensures FilterMap(t + [y], f) == FilterMap(t, f) + (if f(y).Some? then [f(y).value] else [])
  {
    if t == [] {
      assert t + [y] == [y];
    } else {
      assert (t + [y])[1..] == t[1..] + [y];
      FilterMapAppend(t[1..], y, f);
    }
  }

  /** Rows a filter keeps have keys below any bound all the rows' keys are below. */
  lemma BelowFilter<T(!new)>(t: seq<T>, key: T -> int, bound: int, p: T -> bool)
    requires forall i :: 0 <= i < |t| ==> key(t[i]) < bound
    ensures forall i :: 0 <= i < |Filter(t, p)| ==> key(Filter(t, p)[i]) < bound
  {
    var r := Filter(t, p);
    forall i | 0 <= i < |r| ensures key(r[i]) < bound {
      assert r[i] in t;
    }
  }

  /** Rows a filter keeps from a table with unique keys have unique keys. */
  lemma UniqueFilter<T(!new)>(t: seq<T>, key: T -> int, p: T -> bool)
    requires Unique(t, key)
    ensures Unique(Filter(t, p), key)
  {
    UniqueSelection(t, Filter(t, p), key);
  }

  /** `SELECT COUNT(*) ... WHERE p`. */
  function CountWhere<T>(t: seq<T>, p: T -> bool): (n: nat)
    ensures n <= |t|
  {
    if t == [] then 0 else (if p(t[0]) then 1 else 0) + CountWhere(t[1..], p)
  }

  /** The count is the number of rows the filter keeps. */
  lemma {:induction false} CountIsFilterLength<T(!new)>(t: seq<T>, p: T -> bool)
    ensures CountWhere(t, p) == |Filter(t, p)|
  {
    if t != [] {
      CountIsFilterLength(t[1..], p);
    }
  }

  /** A count is positive exactly when some row matches. */
  lemma {:induction false} CountPositiveIff<T>(t: seq<T>, p: T -> bool)
    ensures CountWhere(t, p) > 0 <==> exists i :: 0 <= i < |t| && p(t[i])
  {
    if t != [] {
      CountPositiveIff(t[1..], p);
      if exists i :: 0 <= i < |t| && p(t[i]) {
        var i :| 0 <= i < |t| && p(t[i]);
        if i > 0 {
          assert t[1..][i - 1] == t[i];
        }
      }
      if exists i :: 0 <= i < |t[1..]| && p(t[1..][i]) {
        var i :| 0 <= i < |t[1..]| && p(t[1..][i]);
        assert t[i + 1] == t[1..][i];
      }
    }
  }

  /** The first row that satisfies `p`, as `rows[0]` after a `WHERE`. */
  function First<T(==)>(t: seq<T>, p: T -> bool): (r: Option<T>)
    ensures r.None? <==> forall i :: 0 <= i < |t| ==> !p(t[i])
    ensures r.Some? ==> p(r.value) && exists i :: 0 <= i < |t| && t[i] == r.value && forall j :: 0 <= j < i ==> !p(t[j])
  {
    if t == [] then None
    else if p(t[0]) then Some(t[0])
    else
      var r := First(t[1..], p);
      assert forall i :: 1 <= i < |t| ==> t[i] == t[1..][i - 1];
      if r.Some? then
        var i :| 0 <= i < |t[1..]| && t[1..][i] == r.value && forall j :: 0 <= j < i ==> !p(t[1..][j]);
        assert t[i + 1] == r.value;
        r
      else r
  }

  /** `UPDATE ... SET f WHERE p`: every matching row is rewritten, the others stay. */
  function UpdateWhere<T>(t: seq<T>, p: T -> bool, f: T -> T): (r: seq<T>)
    ensures |r| == |t|
    ensures forall i :: 0 <= i < |t| ==> r[i] == if p(t[i]) then f(t[i]) else t[i]
  {
    if t == [] then [] else [if p(t[0]) then f(t[0]) else t[0]] + UpdateWhere(t[1..], p, f)
  }

  /** An UPDATE whose WHERE matches only row `k` rewrites that row alone. */
  lemma UpdateWhereSingle<T>(t: seq<T>, p: T -> bool, f: T -> T, k: nat)
    requires k < |t| && p(t[k])
    requires forall i :: 0 <= i < |t| && i != k ==> !p(t[i])
    ensures UpdateWhere(t, p, f) == t[k := f(t[k])]
  {
  }

  /** An UPDATE whose WHERE matches nothing changes nothing. */
  lemma UpdateWhereNone<T>(t: seq<T>, p: T -> bool, f: T -> T)
    requires forall i :: 0 <= i < |t| ==> !p(t[i])
    ensures UpdateWhere(t, p, f) == t
  {
  }

  /** Replacing one row changes a count by that row's own contribution only. */
  lemma {:induction false} CountReplace<T>(t: seq<T>, p: T -> bool, k: nat, y: T)
    requires k < |t|
    ensures CountWhere(t[k := y], p) + (if p(t[k]) then 1 else 0) == CountWhere(t, p) + (if p(y) then 1 else 0)
  {
    if k > 0 {
      assert t[k := y][1..] == t[1..][k - 1 := y];
      CountReplace(t[1..], p, k - 1, y);
    } else {
      assert t[k := y][1..] == t[1..];
    }
  }

  /** Appending a row adds its own contribution to a count. */
  lemma {:induction false} CountAppend<T>(t: seq<T>, p: T -> bool, y: T)
    ensures CountWhere(t + [y], p) == CountWhere(t, p) + (if p(y) then 1 else 0)
  {
    if t != [] {
      assert (t + [y])[1..] == t[1..] + [y];
      CountAppend(t[1..], p, y);
    }
  }

  /** A count over the concatenation of two tables is the sum of the counts. */
  lemma {:induction false} CountConcat<T>(a: seq<T>, b: seq<T>, p: T -> bool)
    ensures CountWhere(a + b, p) == CountWhere(a, p) + CountWhere(b, p)
  {
    if a == [] {
      assert a + b == b;
    } else {
      assert (a + b)[1..] == a[1..] + b;
      CountConcat(a[1..], b, p);
    }
  }

  /** Counts agree when the two conditions agree on every row. */
  lemma {:induction false} CountSame<T>(t: seq<T>, p: T -> bool, q: T -> bool)
    requires forall i :: 0 <= i < |t| ==> p(t[i]) == q(t[i])
    ensures CountWhere(t, p) == CountWhere(t, q)
  {
    if t != [] {
      CountSame(t[1..], p, q);
    }
  }

  /** A filter depends only on what its condition says about the rows. */
  lemma {:induction false} FilterSame<T(!new)>(t: seq<T>, p: T -> bool, q: T -> bool)
    requires forall i :: 0 <= i < |t| ==> p(t[i]) == q(t[i])
    ensures Filter(t, p) == Filter(t, q)
  {
    if t != [] {
      FilterSame(t[1..], p, q);
    }
  }

  /** No two rows share a key (a primary key or UNIQUE column). */
  predicate Unique<T>(t: seq<T>, key: T -> int)
  {
    forall i, j :: 0 <= i < j < |t| ==> key(t[i]) != key(t[j])
  }

  /** `First` returns the earliest matching row. */
  lemma {:induction false} FirstAt<T>(t: seq<T>, p: T -> bool, k: nat)
    requires k < |t| && p(t[k])
    requires forall i :: 0 <= i < k ==> !p(t[i])
    ensures First(t, p) == Some(t[k])
  {
    if k > 0 {
      FirstAt(t[1..], p, k - 1);
    }
  }

  /** `First` depends only on what its condition says about the rows. */
  lemma {:induction false} FirstSame<T>(t: seq<T>, p: T -> bool, q: T -> bool)
    requires forall i :: 0 <= i < |t| ==> p(t[i]) == q(t[i])
    ensures First(t, p) == First(t, q)
  {
    if t != [] {
      FirstSame(t[1..], p, q);
    }
  }

  /** `First` depends only on which rows match and what the matching rows are. */
  lemma {:induction false} FirstPointwise<T>(t: seq<T>, u: seq<T>, p: T -> bool)
    requires |t| == |u|
    requires forall i :: 0 <= i < |t| ==> p(t[i]) == p(u[i]) && (p(t[i]) ==> t[i] == u[i])
    ensures First(t, p) == First(u, p)
  {
    if t != [] {
      FirstPointwise(t[1..], u[1..], p);
    }
  }

  /** Appending a row that does not match leaves `First` as it was. */
  lemma {:induction false} FirstAppend<T>(t: seq<T>, y: T, p: T -> bool)
    ensures First(t + [y], p) == if First(t, p).Some? then First(t, p) else if p(y) then Some(y) else None
  {
    if t == [] {
      assert t + [y] == [y];
    } else {
      assert (t + [y])[1..] == t[1..] + [y];
      FirstAppend(t[1..], y, p);
    }
  }

  /** Replacing a row by one with the same key keeps the keys unique. */
  lemma UniqueReplace<T>(t: seq<T>, key: T -> int, k: nat, y: T)
    requires Unique(t, key) && k < |t| && key(y) == key(t[k])
    ensures Unique(t[k := y], key)
  {
    var u := t[k := y];
    forall i, j | 0 <= i < j < |u| ensures key(u[i]) != key(u[j]) {
      assert key(u[i]) == key(t[i]) && key(u[j]) == key(t[j]);
    }
  }

  /** Appending a row with a new key keeps the keys unique. */
  lemma UniqueAppend<T>(t: seq<T>, key: T -> int, y: T)
    requires Unique(t, key)
    requires forall i :: 0 <= i < |t| ==> key(t[i]) != key(y)
    ensures Unique(t + [y], key)
  {
  }

  /** Rows rewritten without touching their keys keep the keys unique. */
  lemma UniqueSameKeys<T>(t: seq<T>, u: seq<T>, key: T -> int)
    requires Unique(t, key) && |u| == |t|
    requires forall i :: 0 <= i < |t| ==> key(u[i]) == key(t[i])
    ensures Unique(u, key)
  {
    forall i, j | 0 <= i < j < |u| ensures key(u[i]) != key(u[j]) {
      assert key(u[i]) == key(t[i]) && key(u[j]) == key(t[j]);
    }
  }

  /** Dropping the first row keeps the keys unique. */
  lemma UniqueTail<T>(t: seq<T>, key: T -> int)
    requires Unique(t, key) && t != []
    ensures Unique(t[1..], key)
  {
    forall i, j | 0 <= i < j < |t[1..]| ensures key(t[1..][i]) != key(t[1..][j]) {
      assert t[1..][i] == t[i + 1] && t[1..][j] == t[j + 1];
    }
  }

  /** Putting a row with a new key in front keeps the keys unique. */
  lemma UniquePrepend<T>(x: T, t: seq<T>, key: T -> int)
    requires Unique(t, key)
    requires forall i :: 0 <= i < |t| ==> key(t[i]) != key(x)
    ensures Unique([x] + t, key)
  {
    var r := [x] + t;
    forall i, j | 0 <= i < j < |r| ensures key(r[i]) != key(r[j]) {
      assert r[j] == t[j - 1];
      if i > 0 {
        assert r[i] == t[i - 1];
      }
    }
  }

  /** Only row `k` matches a condition on a unique key that row `k` satisfies. */
  lemma UniqueOnlyMatch<T>(t: seq<T>, key: T -> int, k: nat)
    requires Unique(t, key) && k < |t|
    ensures forall i :: 0 <= i < |t| && i != k ==> key(t[i]) != key(t[k])
  {
    forall i | 0 <= i < |t| && i != k ensures key(t[i]) != key(t[k]) {
      if i < k {
        assert key(t[i]) != key(t[k]);
      } else {
        assert key(t[k]) != key(t[i]);
      }
    }
  }

  /** No row occurs twice. */
  predicate Distinct<T(==)>(s: seq<T>)
  {
    forall i, j :: 0 <= i < j < |s| ==> s[i] != s[j]
  }

  /** A sequence has no repeated row iff its multiset counts every row at most once. */
  lemma {:induction false} DistinctMultiset<T(!new)>(s: seq<T>)
    ensures Distinct(s) <==> forall x :: multiset(s)[x] <= 1
  {
    if s != [] {
      DistinctMultiset(s[1..]);
      assert s == [s[0]] + s[1..];
      assert forall x :: multiset(s)[x] == (if x == s[0] then 1 else 0) + multiset(s[1..])[x];
      if Distinct(s) {
        assert Distinct(s[1..]) by {
          forall i, j | 0 <= i < j < |s[1..]| ensures s[1..][i] != s[1..][j] {
            assert s[1..][i] == s[i + 1] && s[1..][j] == s[j + 1];
          }
        }
        assert s[0] !in s[1..] by {
          forall j | 0 <= j < |s[1..]| ensures s[1..][j] != s[0] {
            assert s[1..][j] == s[j + 1];
          }
        }
      }
      if forall x :: multiset(s)[x] <= 1 {
        assert s[0] !in multiset(s[1..]);
        forall i, j | 0 <= i < j < |s| ensures s[i] != s[j] {
          assert s[j] == s[1..][j - 1];
          if i > 0 {
            assert s[i] == s[1..][i - 1];
          }
        }
      }
    }
  }

  /** A sequence without repeats has as many elements as the set of its elements. */
  lemma {:induction false} DistinctCard<T>(s: seq<T>)
    requires Distinct(s)
    ensures |(set x | x in s)| == |s|
    decreases |s|
  {
    if s != [] {
      var previas := s[..|s| - 1];
      assert Distinct(previas) by {
        forall i, j | 0 <= i < j < |previas| ensures previas[i] != previas[j] {
          assert previas[i] == s[i] && previas[j] == s[j];
        }
      }
      DistinctCard(previas);
      Snoc(s);
      assert s[|s| - 1] !in previas by {
        forall i | 0 <= i < |previas| ensures previas[i] != s[|s| - 1] {
          assert previas[i] == s[i];
        }
      }
      assert (set x | x in s) == (set x | x in previas) + {s[|s| - 1]};
    }
  }

  /** `SELECT DISTINCT`: each value once, in order of first appearance. */
  function Dedup<T(==,!new)>(s: seq<T>): (r: seq<T>)
    ensures |r| <= |s|
    ensures Distinct(r)
    ensures forall x :: x in r <==> x in s
  {
    if s == [] then []
    else
      var rest := Dedup(s[..|s| - 1]);
      assert s == s[..|s| - 1] + [s[|s| - 1]];
      if s[|s| - 1] in rest then rest else rest + [s[|s| - 1]]
  }

  /** Rows picked from a table with unique keys, none twice, have unique keys. */
  lemma UniqueSelection<T(!new)>(t: seq<T>, s: seq<T>, key: T -> int)
    requires Unique(t, key)
    requires forall x :: multiset(s)[x] <= multiset(t)[x]
    ensures Unique(s, key)
  {
    assert Distinct(t) by {
      forall i, j | 0 <= i < j < |t| ensures t[i] != t[j] {
        assert key(t[i]) != key(t[j]);
      }
    }
    DistinctMultiset(t);
    DistinctMultiset(s);
    forall i, j | 0 <= i < j < |s| ensures key(s[i]) != key(s[j]) {
      assert s[i] in multiset(s) && s[j] in multiset(s);
      assert s[i] in multiset(t) && s[j] in multiset(t);
      var a :| 0 <= a < |t| && t[a] == s[i];
      var b :| 0 <= b < |t| && t[b] == s[j];
      assert a != b;
      if a < b {
        assert key(t[a]) != key(t[b]);
      } else {
        assert key(t[b]) != key(t[a]);
      }
    }
  }

  /** With unique keys, a condition that only rows of one key satisfy matches at most one row. */
  lemma {:induction false} CountUniqueAtMostOne<T>(t: seq<T>, key: T -> int, p: T -> bool)
    requires Unique(t, key)
    requires forall i, j :: 0 <= i < |t| && 0 <= j < |t| && p(t[i]) && p(t[j]) ==> key(t[i]) == key(t[j])
    ensures CountWhere(t, p) <= 1
  {
    if t != [] {
      UniqueTail(t, key);
      forall i, j | 0 <= i < |t[1..]| && 0 <= j < |t[1..]| && p(t[1..][i]) && p(t[1..][j])
        ensures key(t[1..][i]) == key(t[1..][j])
      {
        assert t[1..][i] == t[i + 1] && t[1..][j] == t[j + 1];
      }
      CountUniqueAtMostOne(t[1..], key, p);
      if p(t[0]) {
        forall i | 0 <= i < |t[1..]| ensures !p(t[1..][i]) {
          assert t[1..][i] == t[i + 1];
          assert key(t[0]) != key(t[i + 1]);
        }
        CountPositiveIff(t[1..], p);
      }
    }
  }

  /** `LIMIT n`. */
  function Take<T>(t: seq<T>, n: int): (r: seq<T>)
    ensures |r| == if n <= 0 then 0 else if n < |t| then n else |t|
    ensures r == t[..|r|]
  {
    if n <= 0 then [] else if n < |t| then t[..n] else t
  }

  // ---------------------------------------------------------------- ORDER BY

  /** A sort key: `Low` sorts before everything, `High` after everything (NULL in ascending order). */
  datatype Key = Low | Num(n: int) | Str(s: string) | High

  /** Code-point order on strings. */
  predicate StrLe(a: string, b: string)
    decreases |a|
  {
    a == [] || (b != [] && (a[0] < b[0] || (a[0] == b[0] && StrLe(a[1..], b[1..]))))
  }

  lemma {:induction false} StrLeTotal(a: string, b: string)
    ensures StrLe(a, b) || StrLe(b, a)
    decreases |a|
  {
    if a != [] && b != [] && a[0] == b[0] {
      StrLeTotal(a[1..], b[1..]);
    }
  }

  lemma {:induction false} StrLeTrans(a: string, b: string, c: string)
    requires StrLe(a, b) && StrLe(b, c)
    ensures StrLe(a, c)
    decreases |a|
  {
    if a != [] && b != [] && c != [] && a[0] == b[0] && b[0] == c[0] {
      StrLeTrans(a[1..], b[1..], c[1..]);
    }
  }

  lemma {:induction false} StrLeAntisym(a: string, b: string)
    requires StrLe(a, b) && StrLe(b, a)
    ensures a == b
    decreases |a|
  {
    if a != [] {
      StrLeAntisym(a[1..], b[1..]);
      assert a == [a[0]] + a[1..];
      assert b == [b[0]] + b[1..];
    }
  }

  function Rank(k: Key): nat
  {
    match k
    case Low => 0
    case Num(_) => 1
    case Str(_) => 2
    case High => 3
  }

  predicate KeyLe(a: Key, b: Key)
  {
    if Rank(a) != Rank(b) then Rank(a) < Rank(b)
    else match a
      case Num(m) => m <= b.n
      case Str(s) => StrLe(s, b.s)
      case _ => true
  }

  lemma KeyLeTotal(a: Key, b: Key)
    ensures KeyLe(a, b) || KeyLe(b, a)
  {
    if a.Str? && b.Str? {
      StrLeTotal(a.s, b.s);
    }
  }

  lemma KeyLeTrans(a: Key, b: Key, c: Key)
    requires KeyLe(a, b) && KeyLe(b, c)
    ensures KeyLe(a, c)
  {
    if a.Str? && b.Str? && c.Str? {
      StrLeTrans(a.s, b.s, c.s);
    }
  }

  /** Lexicographic order on key tuples: the columns of an ORDER BY list, most significant first. */
  predicate TupleLe(a: seq<Key>, b: seq<Key>)
    decreases |a|
  {
    a == [] || (b != [] && KeyLe(a[0], b[0]) && (!KeyLe(b[0], a[0]) || TupleLe(a[1..], b[1..])))
  }

  lemma {:induction false} TupleLeTotal(a: seq<Key>, b: seq<Key>)
    ensures TupleLe(a, b) || TupleLe(b, a)
    decreases |a|
  {
    if a != [] && b != [] {
      KeyLeTotal(a[0], b[0]);
      TupleLeTotal(a[1..], b[1..]);
    }
  }

  lemma {:induction false} TupleLeTrans(a: seq<Key>, b: seq<Key>, c: seq<Key>)
    requires TupleLe(a, b) && TupleLe(b, c)
    ensures TupleLe(a, c)
    decreases |a|
  {
    if a != [] {
      KeyLeTrans(a[0], b[0], c[0]);
      if KeyLe(c[0], a[0]) {
        KeyLeTrans(b[0], c[0], a[0]);
        KeyLeTrans(c[0], a[0], b[0]);
        TupleLeTrans(a[1..], b[1..], c[1..]);
      }
    }
  }

  /** Rows in non-decreasing key order. */
  predicate SortedBy<T>(s: seq<T>, key: T -> seq<Key>)
  {
    forall i, j :: 0 <= i < j < |s| ==> TupleLe(key(s[i]), key(s[j]))
  }

  /** A head whose key is at most every key of a sorted tail keeps it sorted. */
  lemma SortedCons<T>(y: T, s: seq<T>, key: T -> seq<Key>)
    requires SortedBy(s, key)
    requires forall j :: 0 <= j < |s| ==> TupleLe(key(y), key(s[j]))
    ensures SortedBy([y] + s, key)
  {
    var r := [y] + s;
    forall i, j | 0 <= i < j < |r| ensures TupleLe(key(r[i]), key(r[j])) {
      assert r[j] == s[j - 1];
      if i > 0 {
        assert r[i] == s[i - 1];
      }
    }
  }

  /** `x` in front of a sorted `s` whose first key is not below it. */
  lemma InsertFrente<T>(x: T, s: seq<T>, key: T -> seq<Key>)
    requires SortedBy(s, key) && s != [] && TupleLe(key(x), key(s[0]))
    ensures SortedBy([x] + s, key)
    ensures multiset([x] + s) == multiset(s) + multiset{x}
  {
    forall j | 0 <= j < |s| ensures TupleLe(key(x), key(s[j])) {
      if j > 0 {
        TupleLeTrans(key(x), key(s[0]), key(s[j]));
      }
    }
    SortedCons(x, s, key);
  }

  /** The head of `s`, when `x` is above it, in front of `x` inserted into the tail. */
  lemma InsertDetras<T>(x: T, s: seq<T>, rest: seq<T>, key: T -> seq<Key>)
    requires SortedBy(s, key) && s != [] && !TupleLe(key(x), key(s[0]))
    requires SortedBy(rest, key) && multiset(rest) == multiset(s[1..]) + multiset{x}
    requires forall i :: 0 <= i < |rest| ==> rest[i] == x || rest[i] in s[1..]
    ensures SortedBy([s[0]] + rest, key)
    ensures multiset([s[0]] + rest) == multiset(s) + multiset{x}
    ensures forall i :: 0 <= i < |[s[0]] + rest| ==> ([s[0]] + rest)[i] == x || ([s[0]] + rest)[i] in s
  {
    TupleLeTotal(key(x), key(s[0]));
    forall i | 0 <= i < |rest| ensures TupleLe(key(s[0]), key(rest[i])) {
      if rest[i] != x {
        var j :| 0 <= j < |s[1..]| && s[1..][j] == rest[i];
        assert s[j + 1] == rest[i];
      }
    }
    SortedCons(s[0], rest, key);
    assert s == [s[0]] + s[1..];
  }

  /** Insert `x` before the first row whose key is not below it. */
  function InsertBy<T(==)>(x: T, s: seq<T>, key: T -> seq<Key>): (r: seq<T>)
    requires SortedBy(s, key)
    ensures SortedBy(r, key)
    ensures multiset(r) == multiset(s) + multiset{x}
    ensures |r| == |s| + 1
    ensures forall i :: 0 <= i < |r| ==> r[i] == x || r[i] in s
  {
    if s == [] then [x]
    else if TupleLe(key(x), key(s[0])) then
      InsertFrente(x, s, key);
      [x] + s
    else
      var rest := InsertBy(x, s[1..], key);
      InsertDetras(x, s, rest, key);
      [s[0]] + rest
  }



  /** `ORDER BY` the key tuple: a sorted permutation of the rows (equal keys keep table order). */
  function SortBy<T(==)>(s: seq<T>, key: T -> seq<Key>): (r: seq<T>)
    ensures SortedBy(r, key)
    ensures multiset(r) == multiset(s)
    ensures |r| == |s|
  {
    if s == [] then []
    else
      assert s == [s[0]] + s[1..];
      InsertBy(s[0], SortBy(s[1..], key), key)
  }

  /** A sort keeps exactly the rows it was given. */
  lemma SortByMembers<T(!new)>(s: seq<T>, key: T -> seq<Key>)
    ensures forall x :: x in SortBy(s, key) <==> x in s
  {
    var r := SortBy(s, key);
    forall x ensures x in r <==> x in s {
      assert x in r <==> x in multiset(r);
      assert x in s <==> x in multiset(s);
    }
  }

  /** Sorting keeps a sequence free of repetitions. */
  lemma SortByDistinct<T(!new)>(s: seq<T>, key: T -> seq<Key>)
    requires Distinct(s)
    ensures Distinct(SortBy(s, key))
  {
    DistinctMultiset(s);
    DistinctMultiset(SortBy(s, key));
  }

  /** The first `n` rows of a sorted sequence are sorted, and are rows of it. */
  lemma TakeSorted<T>(s: seq<T>, key: T -> seq<Key>, n: int)
    requires SortedBy(s, key)
    ensures SortedBy(Take(s, n), key)
    ensures forall i :: 0 <= i < |Take(s, n)| ==> Take(s, n)[i] == s[i]
  {
    var r := Take(s, n);
    assert r == s[..|r|];
    forall i, j | 0 <= i < j < |r| ensures TupleLe(key(r[i]), key(r[j])) {
      assert r[i] == s[i] && r[j] == s[j];
    }
  }

  /** Every element from index `i` on satisfies `ok`. */
  ghost predicate AllFrom<T>(s: seq<T>, i: nat, ok: T -> bool)
  {
    forall k :: i <= k < |s| ==> ok(s[k])
  }

  /** The elements from `i` on are the one at `i` and those after it. */
  lemma AllFromStep<T>(s: seq<T>, i: nat, ok: T -> bool)
    requires i < |s|
    ensures AllFrom(s, i, ok) <==> ok(s[i]) && AllFrom(s, i + 1, ok)
  {
  }

  /**
   * A scan that stops at the first index failing `ok` finds nothing from `i`
   * on exactly when every index from `i` to `n` passes.
   */
  lemma {:induction false} ScanNone<R>(n: nat, i: nat, found: nat -> Option<R>, ok: nat -> bool)
    requires i <= n && found(n).None?
    requires forall k :: i <= k < n ==> (found(k).None? <==> ok(k) && found(k + 1).None?)
    ensures found(i).None? <==> forall k :: i <= k < n ==> ok(k)
    decreases n - i
  {
    if i < n {
      ScanNone(n, i + 1, found, ok);
    }
  }

  /** A non-empty sequence is its prefix followed by its last element. */
  lemma Snoc<T>(s: seq<T>)
    requires s != []
    ensures s == s[..|s| - 1] + [s[|s| - 1]]
  {
  }

  /** A prefix one longer is the prefix and the next element. */
  lemma PrefixSnoc<T>(s: seq<T>, k: nat)
    requires k < |s|
    ensures s[..k + 1] == s[..k] + [s[k]]
  {
  }

  /** A row placed before a sorted sequence whose keys are all at least its own gives a sorted sequence. */
  lemma SortedPrepend<T>(x: T, s: seq<T>, key: T -> seq<Key>)
    requires SortedBy(s, key)
    requires forall i :: 0 <= i < |s| ==> TupleLe(key(x), key(s[i]))
    ensures SortedBy([x] + s, key)
  {
    var r := [x] + s;
    forall i, j | 0 <= i < j < |r| ensures TupleLe(key(r[i]), key(r[j])) {
      assert r[j] == s[j - 1];
      if i > 0 {
        assert r[i] == s[i - 1];
      }
    }
  }

  /** The tail of a sorted sequence is sorted, and its head is at most every row of the tail. */
  lemma SortedTail<T>(s: seq<T>, key: T -> seq<Key>)
    requires SortedBy(s, key) && s != []
    ensures SortedBy(s[1..], key)
    ensures forall i :: 0 <= i < |s[1..]| ==> TupleLe(key(s[0]), key(s[1..][i]))
  {
    forall i, j | 0 <= i < j < |s[1..]| ensures TupleLe(key(s[1..][i]), key(s[1..][j])) {
      assert s[1..][i] == s[i + 1] && s[1..][j] == s[j + 1];
    }
    forall i | 0 <= i < |s[1..]| ensures TupleLe(key(s[0]), key(s[1..][i])) {
      assert s[1..][i] == s[i + 1];
    }
  }

  /** An integer key. */
  function IntKey(n: int): Key
  {
    Num(n)
  }

  /** A nullable text key, ascending with NULL last. */
  function TextKey(s: Option<string>): Key
  {
    match s
    case None => High
    case Some(v) => Str(v)
  }

  /** A nullable integer key in descending order: NULL first, then larger values first. */
  function DescKey(n: Option<int>): Key
  {
    match n
    case None => Low
    case Some(v) => Num(-v)
  }
}
