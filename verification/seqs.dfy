/** Sequence operations behind the SQL `WHERE`, `ORDER BY` and
    `ORDER BY ... LIMIT 1` clauses of the queries. */
module Seqs {
  import opened Wrappers

  predicate Distinct<T(==,!new)>(xs: seq<T>) {
    forall i, j :: 0 <= i < j < |xs| ==> xs[i] != xs[j]
  }

  /** `WHERE p`: the rows satisfying `p`, in their original order. */
  function Filter<T(==,!new)>(xs: seq<T>, p: T -> bool): (r: seq<T>)
    ensures forall x :: x in r <==> x in xs && p(x)
    ensures Distinct(xs) ==> Distinct(r)
  {
    if xs == [] then []
    else
      var rest := Filter(xs[1..], p);
      assert forall x :: x in xs <==> x == xs[0] || x in xs[1..];
      if p(xs[0]) then [xs[0]] + rest else rest
  }

  /** Ascending order on a pair of sort keys, the first one deciding. */
  predicate KeyLe(a: (int, int), b: (int, int)) {
    a.0 < b.0 || (a.0 == b.0 && a.1 <= b.1)
  }

  predicate SortedBy<T>(xs: seq<T>, key: T -> (int, int)) {
    forall i, j :: 0 <= i < j < |xs| ==> KeyLe(key(xs[i]), key(xs[j]))
  }

  function Insert<T(==,!new)>(x: T, ys: seq<T>, key: T -> (int, int)): (r: seq<T>)
    requires SortedBy(ys, key)
    ensures SortedBy(r, key)
    ensures forall z :: z in r <==> z == x || z in ys
    ensures multiset(r) == multiset(ys) + multiset{x}
  {
    if ys == [] then [x]
    else if KeyLe(key(x), key(ys[0])) then [x] + ys
    else
      var rest := Insert(x, ys[1..], key);
      assert ys == [ys[0]] + ys[1..];
      assert forall j :: 0 <= j < |rest| ==> KeyLe(key(ys[0]), key(rest[j])) by {
        forall j | 0 <= j < |rest|
          ensures KeyLe(key(ys[0]), key(rest[j]))
        {
          assert rest[j] in rest;
          if rest[j] != x {
            var k :| 0 <= k < |ys[1..]| && ys[1..][k] == rest[j];
            assert ys[k + 1] == rest[j];
          }
        }
      }
      [ys[0]] + rest
  }

  /** A new element in front of distinct elements keeps them distinct. */
  lemma DistinctCons<T(!new)>(a: T, xs: seq<T>)
    requires Distinct(xs) && a !in xs
    ensures Distinct([a] + xs)
  {
    var r := [a] + xs;
    forall i, j | 0 <= i < j < |r|
      ensures r[i] != r[j]
    {
      if i == 0 {
        assert r[j] == xs[j - 1];
      } else {
        assert r[i] == xs[i - 1] && r[j] == xs[j - 1];
      }
    }
  }

  lemma {:induction false} InsertDistinct<T(!new)>(x: T, ys: seq<T>, key: T -> (int, int))
    requires SortedBy(ys, key) && Distinct(ys) && x !in ys
    ensures Distinct(Insert(x, ys, key))
  {
    if ys == [] {
    } else if KeyLe(key(x), key(ys[0])) {
      DistinctCons(x, ys);
    } else {
      assert ys == [ys[0]] + ys[1..];
      assert Distinct(ys[1..]) by {
        forall i, j | 0 <= i < j < |ys[1..]|
          ensures ys[1..][i] != ys[1..][j]
        {
          assert ys[1..][i] == ys[i + 1] && ys[1..][j] == ys[j + 1];
        }
      }
      assert ys[0] !in ys[1..] by {
        forall k | 0 <= k < |ys[1..]|
          ensures ys[1..][k] != ys[0]
        {
          assert ys[1..][k] == ys[k + 1];
        }
      }
      InsertDistinct(x, ys[1..], key);
      DistinctCons(ys[0], Insert(x, ys[1..], key));
    }
  }

  /** `ORDER BY key`: a permutation of the rows with keys ascending. */
  function SortBy<T(==,!new)>(xs: seq<T>, key: T -> (int, int)): (r: seq<T>)
    ensures SortedBy(r, key)
    ensures multiset(r) == multiset(xs)
    ensures forall z :: z in r <==> z in xs
    ensures Distinct(xs) ==> Distinct(r)
  {
    if xs == [] then []
    else
      var rest := SortBy(xs[1..], key);
      assert xs == [xs[0]] + xs[1..];
      assert Distinct(xs) ==> Distinct(rest) && xs[0] !in rest by {
        if Distinct(xs) {
          assert Distinct(xs[1..]) by {
            forall i, j | 0 <= i < j < |xs[1..]|
              ensures xs[1..][i] != xs[1..][j]
            {
              assert xs[1..][i] == xs[i + 1] && xs[1..][j] == xs[j + 1];
            }
          }
          forall k | 0 <= k < |xs[1..]|
            ensures xs[1..][k] != xs[0]
          {
            assert xs[1..][k] == xs[k + 1];
          }
        }
      }
      assert Distinct(xs) ==> Distinct(Insert(xs[0], rest, key)) by {
        if Distinct(xs) {
          InsertDistinct(xs[0], rest, key);
        }
      }
      Insert(xs[0], rest, key)
  }

  /** `ORDER BY key DESC LIMIT 1`: a row with the greatest key, if any. */
  function MaxBy<T(==,!new)>(xs: seq<T>, key: T -> int): (r: Option<T>)
    ensures r.None? <==> xs == []
    ensures r.Some? ==> r.value in xs && forall x :: x in xs ==> key(x) <= key(r.value)
  {
    if xs == [] then None
    else
      match MaxBy(xs[1..], key)
      case None => Some(xs[0])
      case Some(m) => if key(m) > key(xs[0]) then Some(m) else Some(xs[0])
  }

  /** `ORDER BY key LIMIT 1`: a row with the least key, if any. */
  function MinBy<T(==,!new)>(xs: seq<T>, key: T -> int): (r: Option<T>)
    ensures r.None? <==> xs == []
    ensures r.Some? ==> r.value in xs && forall x :: x in xs ==> key(r.value) <= key(x)
  {
    if xs == [] then None
    else
      match MinBy(xs[1..], key)
      case None => Some(xs[0])
      case Some(m) => if key(m) < key(xs[0]) then Some(m) else Some(xs[0])
  }

  /** A sum over rows: the weight of each row added up. */
  function SumOf<T>(xs: seq<T>, w: T -> int): int {
    if xs == [] then 0 else w(xs[0]) + SumOf(xs[1..], w)
  }

  lemma {:induction false} SumOfAppend<T>(a: seq<T>, b: seq<T>, w: T -> int)
    ensures SumOf(a + b, w) == SumOf(a, w) + SumOf(b, w)
  {
    if a == [] {
      assert a + b == b;
    } else {
      assert (a + b)[1..] == a[1..] + b;
      SumOfAppend(a[1..], b, w);
    }
  }

  lemma {:induction false} SumOfWeightless<T>(xs: seq<T>, w: T -> int)
    requires forall x :: x in xs ==> w(x) == 0
    ensures SumOf(xs, w) == 0
  {
    if xs != [] {
      assert xs[0] in xs;
      SumOfWeightless(xs[1..], w);
    }
  }

  /** Taking out one element of distinct elements leaves the others, still
      distinct. */
  lemma RemoveAt<T(!new)>(ys: seq<T>, i: nat)
    requires Distinct(ys) && i < |ys|
    ensures Distinct(ys[..i] + ys[i + 1..])
    ensures forall y :: y in ys[..i] + ys[i + 1..] <==> y in ys && y != ys[i]
  {
    var r := ys[..i] + ys[i + 1..];
    assert forall j :: 0 <= j < |r| ==> r[j] == ys[if j < i then j else j + 1];
    forall y | y in ys && y != ys[i]
      ensures y in r
    {
      var j :| 0 <= j < |ys| && ys[j] == y;
      assert r[if j < i then j else j - 1] == y;
    }
  }

  /** The order of the rows does not change a sum: two sequences without
      repeats that hold the same rows of non-zero weight have the same sum. */
  lemma {:induction false} SumsAgree<T(!new)>(xs: seq<T>, ys: seq<T>, w: T -> int)
    requires Distinct(xs) && Distinct(ys)
    requires forall x :: w(x) != 0 ==> (x in xs <==> x in ys)
    ensures SumOf(xs, w) == SumOf(ys, w)
    decreases |xs|
  {
    if xs == [] {
      SumOfWeightless(ys, w);
    } else {
      var x := xs[0];
      RemoveAt(xs, 0);
      assert xs[..0] + xs[1..] == xs[1..];
      if w(x) == 0 {
        SumsAgree(xs[1..], ys, w);
      } else {
        var i :| 0 <= i < |ys| && ys[i] == x;
        RemoveAt(ys, i);
        var rest := ys[..i] + ys[i + 1..];
        assert ys == ys[..i] + [x] + ys[i + 1..];
        SumOfAppend(ys[..i] + [x], ys[i + 1..], w);
        SumOfAppend(ys[..i], [x], w);
        SumOfAppend(ys[..i], ys[i + 1..], w);
        assert SumOf([x], w) == w(x) by {
          assert [x][1..] == [];
        }
        SumsAgree(xs[1..], rest, w);
      }
    }
  }
}
