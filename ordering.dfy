/**
 The order in which the report lists its rows: Python's `<` on `str`
 (code point by code point, a proper prefix first) lifted to the
 three-field row tuples, and `sorted` on a list of rows, modelled by an
 insertion sort. Any two ascending arrangements of the same rows are equal,
 so the printed order does not depend on the order the set was listed in.
 */
module Ordering {
  import opened TeamCity

  /** Python's `a < b` on strings. */
  predicate StrLess(a: string, b: string)
    ensures StrLess(a, b) ==> a != b
    ensures |a| < |b| && a == b[..|a|] ==> StrLess(a, b)
    decreases |a|
  {
    if a == [] then b != []
    else if b == [] then false
    else if a[0] != b[0] then a[0] < b[0]
    else StrLess(a[1..], b[1..])
  }

  lemma {:induction false} StrLessIrreflexive(a: string)
    ensures !StrLess(a, a)
    decreases |a|
  {
    if a != [] {
      StrLessIrreflexive(a[1..]);
    }
  }

  lemma {:induction false} StrLessTransitive(a: string, b: string, c: string)
    requires StrLess(a, b) && StrLess(b, c)
    ensures StrLess(a, c)
    decreases |a|
  {
    if a != [] && a[0] == b[0] && b[0] == c[0] {
      StrLessTransitive(a[1..], b[1..], c[1..]);
    }
  }

  lemma {:induction false} StrLessTotal(a: string, b: string)
    ensures a == b || StrLess(a, b) || StrLess(b, a)
    decreases |a|
  {
    if a != [] && b != [] && a[0] == b[0] {
      StrLessTotal(a[1..], b[1..]);
      if a[1..] == b[1..] {
        assert a == [a[0]] + a[1..] && b == [b[0]] + b[1..];
      }
    }
  }

  /** Python's `<` on (build id, build name, root name) tuples. */
  predicate RowLess(x: Row, y: Row)
    ensures RowLess(x, y) ==> x != y
    ensures x.buildId != y.buildId ==> (RowLess(x, y) <==> StrLess(x.buildId, y.buildId))
  {
    || StrLess(x.buildId, y.buildId)
    || (x.buildId == y.buildId && StrLess(x.buildName, y.buildName))
    || (x.buildId == y.buildId && x.buildName == y.buildName && StrLess(x.vcsRootName, y.vcsRootName))
  }

  predicate RowLessEq(x: Row, y: Row) {
    x == y || RowLess(x, y)
  }

  /** Tuple `<` is a strict total order on rows. */
  lemma RowLessStrictTotal(x: Row, y: Row, z: Row)
    ensures !RowLess(x, x)
    ensures RowLess(x, y) && RowLess(y, z) ==> RowLess(x, z)
    ensures x == y || RowLess(x, y) || RowLess(y, x)
  {
    StrLessIrreflexive(x.buildId);
    StrLessIrreflexive(x.buildName);
    StrLessIrreflexive(x.vcsRootName);
    if RowLess(x, y) && RowLess(y, z) {
      if StrLess(x.buildId, y.buildId) && StrLess(y.buildId, z.buildId) {
        StrLessTransitive(x.buildId, y.buildId, z.buildId);
      }
      if StrLess(x.buildName, y.buildName) && StrLess(y.buildName, z.buildName) {
        StrLessTransitive(x.buildName, y.buildName, z.buildName);
      }
      if StrLess(x.vcsRootName, y.vcsRootName) && StrLess(y.vcsRootName, z.vcsRootName) {
        StrLessTransitive(x.vcsRootName, y.vcsRootName, z.vcsRootName);
      }
    }
    StrLessTotal(x.buildId, y.buildId);
    StrLessTotal(x.buildName, y.buildName);
    StrLessTotal(x.vcsRootName, y.vcsRootName);
  }

  predicate Ascending(s: seq<Row>) {
    forall i, j :: 0 <= i < j < |s| ==> RowLessEq(s[i], s[j])
  }

  predicate StrictlyAscending(s: seq<Row>) {
    forall i, j :: 0 <= i < j < |s| ==> RowLess(s[i], s[j])
  }

  lemma AscendingCons(x: Row, s: seq<Row>)
    requires Ascending(s) && (s == [] || RowLessEq(x, s[0]))
    ensures Ascending([x] + s)
  {
    forall j | 0 < j < |[x] + s|
      ensures RowLessEq(x, ([x] + s)[j])
    {
      RowLessStrictTotal(x, s[0], s[j - 1]);
    }
  }

  /** Inserts `x` after the rows that are not greater than it. */
  function Insert(x: Row, s: seq<Row>): (r: seq<Row>)
    requires Ascending(s)
    ensures Ascending(r)
    ensures multiset(r) == multiset(s) + multiset{x}
    decreases |s|
  {
    if s == [] then [x]
    else if RowLessEq(x, s[0]) then
      AscendingCons(x, s);
      [x] + s
    else
      assert s == [s[0]] + s[1..];
      var rest := Insert(x, s[1..]);
      assert rest[0] in multiset(rest);
      RowLessStrictTotal(x, s[0], x);
      AscendingCons(s[0], rest);
      [s[0]] + rest
  }

  /** `sorted`: an ascending permutation of its input. */
  function Sort(s: seq<Row>): (r: seq<Row>)
    ensures Ascending(r)
    ensures multiset(r) == multiset(s)
    decreases |s|
  {
    if s == [] then []
    else
      assert s == [s[0]] + s[1..];
      Insert(s[0], Sort(s[1..]))
  }

  /** The first row of an ascending list is not greater than any of its rows. */
  lemma FirstIsLeast(s: seq<Row>, x: Row)
    requires Ascending(s) && x in multiset(s)
    ensures RowLessEq(s[0], x)
  {
    assert x in s;
    var k :| 0 <= k < |s| && s[k] == x;
  }

  /** Two ascending lists with the same non-empty multiset start alike. */
  lemma SameFirst(a: seq<Row>, b: seq<Row>)
    requires Ascending(a) && Ascending(b) && multiset(a) == multiset(b) && a != []
    ensures b != [] && a[0] == b[0]
  {
    assert a[0] in multiset(a);
    assert b != [];
    assert b[0] in multiset(b);
    FirstIsLeast(b, a[0]);
    FirstIsLeast(a, b[0]);
    RowLessStrictTotal(a[0], b[0], a[0]);
  }

  lemma TailMultiset(s: seq<Row>)
    requires s != []
    ensures multiset(s[1..]) == multiset(s) - multiset{s[0]}
  {
    assert s == [s[0]] + s[1..];
  }

  /** There is only one ascending arrangement of a multiset of rows. */
  lemma {:induction false} AscendingUnique(a: seq<Row>, b: seq<Row>)
    requires Ascending(a) && Ascending(b) && multiset(a) == multiset(b)
    ensures a == b
    decreases |a|
  {
    if a == [] {
      assert |multiset(b)| == 0;
    } else {
      SameFirst(a, b);
      TailMultiset(a);
      TailMultiset(b);
      assert Ascending(a[1..]) && Ascending(b[1..]);
      AscendingUnique(a[1..], b[1..]);
      assert a == [a[0]] + a[1..] && b == [b[0]] + b[1..];
    }
  }

  /** In a list without duplicates every element occurs once. */
  lemma {:induction false} NoDuplicatesCount(s: seq<Row>, x: Row)
    requires NoDuplicates(s)
    ensures multiset(s)[x] == if x in s then 1 else 0
    decreases |s|
  {
    if s != [] {
      assert s == [s[0]] + s[1..];
      assert NoDuplicates(s[1..]);
      NoDuplicatesCount(s[1..], x);
    }
  }

  /** A list in which no element occurs twice has no duplicates. */
  lemma CountNoDuplicates(s: seq<Row>)
    requires forall x :: multiset(s)[x] <= 1
    ensures NoDuplicates(s)
  {
    forall i, j | 0 <= i < j < |s|
      ensures s[i] != s[j]
    {
      assert s == s[..j] + s[j..];
      assert s[i] in s[..j] && s[j] in s[j..];
      assert multiset(s)[s[j]] == multiset(s[..j])[s[j]] + multiset(s[j..])[s[j]];
    }
  }

  /** Two lists without duplicates that hold the same rows hold the same
      multiset of rows. */
  lemma SameRowsSameMultiset(a: seq<Row>, b: seq<Row>)
    requires NoDuplicates(a) && NoDuplicates(b)
    requires forall x :: x in a <==> x in b
    ensures multiset(a) == multiset(b)
  {
    forall x
      ensures multiset(a)[x] == multiset(b)[x]
    {
      NoDuplicatesCount(a, x);
      NoDuplicatesCount(b, x);
    }
  }

  /** Sorting a list without duplicates gives a strictly ascending list of
      the same rows. */
  lemma SortWithoutDuplicates(s: seq<Row>)
    requires NoDuplicates(s)
    ensures StrictlyAscending(Sort(s))
    ensures forall x :: x in Sort(s) <==> x in s
  {
    var r := Sort(s);
    forall x
      ensures multiset(r)[x] <= 1
    {
      NoDuplicatesCount(s, x);
    }
    CountNoDuplicates(r);
    forall x
      ensures x in r <==> x in s
    {
      assert x in r <==> x in multiset(r);
      assert x in s <==> x in multiset(s);
    }
  }
}
