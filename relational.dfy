/**
 The relational building blocks the pipeline's dataframe calls reduce to:
 removing exact-duplicate rows (`dropDuplicates()` with no column list) and
 keeping an order-preserving selection of rows (`filter`).
 */
module Relational {

  /** No row occurs twice. */
  predicate NoDuplicates<T(==)>(s: seq<T>) {
    forall i, j :: 0 <= i < j < |s| ==> s[i] != s[j]
  }

  /** `a` is `b` with some rows dropped and the rest kept in order. */
  predicate IsSubsequence<T(==)>(a: seq<T>, b: seq<T>)
    decreases |b|
  {
    if |a| == 0 then true
    else if |b| == 0 then false
    else if a[|a| - 1] == b[|b| - 1] then IsSubsequence(a[..|a| - 1], b[..|b| - 1])
    else IsSubsequence(a, b[..|b| - 1])
  }

  /**
   Exact-duplicate removal: the first occurrence of every distinct row, in
   input order. The engine does not promise any row order for this
   operation; DistinctDeterminedUpToOrder shows that the contract below
   fixes the result up to order, so choosing one order loses nothing.
   */
  function Distinct<T(==)>(s: seq<T>): (r: seq<T>)
    ensures NoDuplicates(r)
    ensures forall i :: 0 <= i < |r| ==> r[i] in s
    ensures forall i :: 0 <= i < |s| ==> s[i] in r
    ensures IsSubsequence(r, s)
    decreases |s|
  {
    if |s| == 0 then []
    else
      var r' := Distinct(s[..|s| - 1]);
      var x := s[|s| - 1];
      if x in r' then
        SubsequenceExtend(r', s[..|s| - 1], x);
        r'
      else
        assert (r' + [x])[..|r' + [x]| - 1] == r';
        assert s[..|s| - 1] + [x] == s;
        r' + [x]
  }

  /** `select`: every row mapped to its projection, in order. */
  function Project<T, U>(f: T -> U, s: seq<T>): (r: seq<U>)
    ensures |r| == |s|
    ensures forall i :: 0 <= i < |s| ==> r[i] == f(s[i])
  {
    if |s| == 0 then [] else Project(f, s[..|s| - 1]) + [f(s[|s| - 1])]
  }

  /** A projected table holds exactly the projections of the input rows. */
  lemma ProjectMembers<T, U>(f: T -> U, s: seq<T>)
    ensures forall y :: y in Project(f, s) <==> exists x :: x in s && f(x) == y
  {
    var r := Project(f, s);
    forall y
      ensures y in r <==> exists x :: x in s && f(x) == y
    {
      if y in r {
        var i :| 0 <= i < |r| && r[i] == y;
        assert s[i] in s;
      }
      if exists x :: x in s && f(x) == y {
        var x :| x in s && f(x) == y;
        var i :| 0 <= i < |s| && s[i] == x;
        assert r[i] == y;
      }
    }
  }

  /** `filter`: the rows satisfying `p`, in input order. */
  function Filter<T>(p: T -> bool, s: seq<T>): seq<T>
    decreases |s|
  {
    if |s| == 0 then []
    else if p(s[|s| - 1]) then Filter(p, s[..|s| - 1]) + [s[|s| - 1]]
    else Filter(p, s[..|s| - 1])
  }

  /**
   Filtering keeps an order-preserving selection of the input: every row
   satisfying `p` as often as it occurs, and no other row.
   */
  lemma FilterSpec<T(!new)>(p: T -> bool, s: seq<T>)
    ensures var r := Filter(p, s);
      (forall x :: x in r ==> p(x))
      && IsSubsequence(r, s)
      && (forall x :: multiset(r)[x] == if p(x) then multiset(s)[x] else 0)
  {
    FilterSatisfies(p, s);
    FilterSubsequence(p, s);
    FilterCounts(p, s);
  }

  lemma {:induction false} FilterSatisfies<T>(p: T -> bool, s: seq<T>)
    ensures forall x :: x in Filter(p, s) ==> p(x)
    decreases |s|
  {
    if |s| > 0 {
      FilterSatisfies(p, s[..|s| - 1]);
    }
  }

  lemma {:induction false} FilterSubsequence<T>(p: T -> bool, s: seq<T>)
    ensures IsSubsequence(Filter(p, s), s)
    decreases |s|
  {
    if |s| > 0 {
      var s' := s[..|s| - 1];
      var x := s[|s| - 1];
      var r' := Filter(p, s');
      FilterSubsequence(p, s');
      assert s' + [x] == s;
      if p(x) {
        var r := r' + [x];
        assert r[..|r| - 1] == r';
      } else {
        SubsequenceExtend(r', s', x);
      }
    }
  }

  lemma {:induction false} FilterCounts<T(!new)>(p: T -> bool, s: seq<T>)
    ensures var r := Filter(p, s);
      forall x :: multiset(r)[x] == if p(x) then multiset(s)[x] else 0
    decreases |s|
  {
    if |s| > 0 {
      var s' := s[..|s| - 1];
      FilterCounts(p, s');
      assert s' + [s[|s| - 1]] == s;
    }
  }

  lemma {:induction false} FilterConcat<T(!new)>(p: T -> bool, a: seq<T>, b: seq<T>)
    ensures Filter(p, a + b) == Filter(p, a) + Filter(p, b)
    decreases |b|
  {
    if |b| == 0 {
      assert a + b == a;
    } else {
      var b' := b[..|b| - 1];
      var x := b[|b| - 1];
      assert (a + b)[..|a + b| - 1] == a + b';
      assert (a + b)[|a + b| - 1] == x;
      FilterConcat(p, a, b');
      if p(x) {
        assert Filter(p, a + b) == Filter(p, a + b') + [x];
        assert Filter(p, b) == Filter(p, b') + [x];
      } else {
        assert Filter(p, a + b) == Filter(p, a + b');
        assert Filter(p, b) == Filter(p, b');
      }
    }
  }

  /** Every row mapped to a table of rows, the tables concatenated in input order. */
  function FlatMap<T, U>(f: T -> seq<U>, s: seq<T>): seq<U>
    decreases |s|
  {
    if |s| == 0 then [] else FlatMap(f, s[..|s| - 1]) + f(s[|s| - 1])
  }

  /** Each input row contributes its own table: FlatMap distributes over concatenation. */
  lemma {:induction false} FlatMapConcat<T, U>(f: T -> seq<U>, a: seq<T>, b: seq<T>)
    ensures FlatMap(f, a + b) == FlatMap(f, a) + FlatMap(f, b)
    decreases |b|
  {
    if |b| == 0 {
      assert a + b == a;
    } else {
      var b' := b[..|b| - 1];
      assert (a + b)[..|a + b| - 1] == a + b';
      assert (a + b)[|a + b| - 1] == b[|b| - 1];
      FlatMapConcat(f, a, b');
    }
  }

  /** A row of a FlatMap comes from the table of some input row, and every such row is kept. */
  lemma {:induction false} FlatMapMembers<T, U>(f: T -> seq<U>, s: seq<T>)
    ensures forall y :: y in FlatMap(f, s) <==> exists x :: x in s && y in f(x)
    decreases |s|
  {
    if |s| > 0 {
      var s' := s[..|s| - 1];
      var last := s[|s| - 1];
      FlatMapMembers(f, s');
      assert s == s' + [last];
      forall y
        ensures y in FlatMap(f, s) <==> exists x :: x in s && y in f(x)
      {
        if exists x :: x in s && y in f(x) {
          var x :| x in s && y in f(x);
          if x != last {
            assert x in s';
          }
        }
      }
    }
  }

  /**
   A duplicate-free table whose every row is determined by its `key` column
   holds no two rows with the same key.
   */
  lemma DeterminedRowsKeyed<T, K>(rows: seq<T>, key: T -> K, rowOf: K -> T)
    requires NoDuplicates(rows)
    requires forall i :: 0 <= i < |rows| ==> rows[i] == rowOf(key(rows[i]))
    ensures forall i, j :: 0 <= i < j < |rows| ==> key(rows[i]) != key(rows[j])
  {
  }

  /** Tables holding the same rows equally often hold the same rows. */
  lemma PermutationMembers<T>(a: seq<T>, b: seq<T>)
    requires multiset(a) == multiset(b)
    ensures forall x :: x in a <==> x in b
  {
    forall x
      ensures x in a <==> x in b
    {
      assert x in a <==> x in multiset(a);
      assert x in b <==> x in multiset(b);
    }
  }

  /** Exact-duplicate removal keeps exactly the rows of its input. */
  lemma DistinctMembers<T>(s: seq<T>)
    ensures forall x :: x in Distinct(s) <==> x in s
  {
    var r := Distinct(s);
    forall x
      ensures x in r <==> x in s
    {
      if x in r {
        var i :| 0 <= i < |r| && r[i] == x;
      }
      if x in s {
        var i :| 0 <= i < |s| && s[i] == x;
      }
    }
  }

  /** Dropping one more input row at the end keeps a subsequence a subsequence. */
  lemma {:induction false} SubsequenceExtend<T>(a: seq<T>, b: seq<T>, x: T)
    requires IsSubsequence(a, b)
    ensures IsSubsequence(a, b + [x])
    decreases |b|, 1
  {
    var b' := b + [x];
    assert b'[..|b'| - 1] == b;
    if |a| > 0 && a[|a| - 1] == x {
      SubsequenceDropLast(a, b);
    }
  }

  /** A subsequence without its last row is a subsequence of the same input. */
  lemma {:induction false} SubsequenceDropLast<T>(a: seq<T>, b: seq<T>)
    requires |a| > 0 && IsSubsequence(a, b)
    ensures IsSubsequence(a[..|a| - 1], b)
    decreases |b|, 0
  {
    var a' := a[..|a| - 1];
    if |b| == 0 {
    } else if a[|a| - 1] == b[|b| - 1] {
      SubsequenceExtend(a', b[..|b| - 1], b[|b| - 1]);
      assert b[..|b| - 1] + [b[|b| - 1]] == b;
    } else {
      SubsequenceDropLast(a, b[..|b| - 1]);
      SubsequenceExtend(a', b[..|b| - 1], b[|b| - 1]);
      assert b[..|b| - 1] + [b[|b| - 1]] == b;
    }
  }

  /**
   Two duplicate-free tables holding the same rows hold each row exactly
   once, so they are permutations of each other.
   */
  lemma DistinctDeterminedUpToOrder<T>(a: seq<T>, b: seq<T>)
    requires NoDuplicates(a) && NoDuplicates(b)
    requires forall x :: x in a <==> x in b
    ensures multiset(a) == multiset(b)
  {
    forall x
      ensures multiset(a)[x] == multiset(b)[x]
    {
      OccursOnce(a, x);
      OccursOnce(b, x);
    }
  }

  /** In a duplicate-free table every row occurs once or not at all. */
  lemma {:induction false} OccursOnce<T>(s: seq<T>, x: T)
    requires NoDuplicates(s)
    ensures multiset(s)[x] == if x in s then 1 else 0
  {
    if |s| > 0 {
      var s' := s[..|s| - 1];
      var y := s[|s| - 1];
      assert s == s' + [y];
      assert y !in s' by {
        forall i | 0 <= i < |s'|
          ensures s'[i] != y
        {
          assert s'[i] == s[i];
        }
      }
      OccursOnce(s', x);
    }
  }

  /** Filtering a single row keeps it exactly when it satisfies `p`. */
  lemma SingleRowFilter<T>(p: T -> bool, x: T)
    ensures Filter(p, [x]) == if p(x) then [x] else []
  {
    assert [x][..0] == [];
  }

  /** A single row contributes just its own table. */
  lemma SingleRowFlatMap<T, U>(f: T -> seq<U>, x: T)
    ensures FlatMap(f, [x]) == f(x)
  {
    assert [x][..0] == [];
  }

  /** A single row is its own duplicate-free table. */
  lemma SingleRowDistinct<T>(x: T)
    ensures Distinct([x]) == [x]
  {
    assert [x][..0] == [];
  }
}
