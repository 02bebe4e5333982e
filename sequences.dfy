/** Stream-style operations over lists of rows: `filter`, `findFirst`, and an
    ORDER BY on an integer key (a stable insertion sort), with the facts the
    queries built on them need. */
module Seqs {
  import opened Common

  /** `a` is `b` with some rows deleted: the rows of `a` occur in `b`, in the same order. */
  ghost predicate Subsequence<T>(a: seq<T>, b: seq<T>)
    decreases |b|
  {
    a == [] || (b != [] && ((a[0] == b[0] && Subsequence(a[1..], b[1..])) || Subsequence(a, b[1..])))
  }

  /** `r` is `rows` filtered by `p`: `r` keeps the table's order, holds every
      satisfying row as often as the table does and no other row. The
      subsequence and count clauses alone determine `r`; the others are
      their consequences in the form clients use. */
  ghost predicate FilterOf<T>(r: seq<T>, rows: seq<T>, p: T -> bool)
  {
    && |r| <= |rows|
    && Subsequence(r, rows)
    && (forall x {:trigger multiset(r)[x]} :: x in rows ==> multiset(r)[x] == if p(x) then multiset(rows)[x] else 0)
    && (forall k :: 0 <= k < |r| ==> r[k] in rows && p(r[k]))
    && (forall k {:trigger rows[k] in r} :: 0 <= k < |rows| && p(rows[k]) ==> rows[k] in r)
    && (r == [] ==> forall k :: 0 <= k < |rows| ==> !p(rows[k]))
  }

  /** `stream().filter(p).collect(toList())`: the rows satisfying `p`, in
      their original order, each as often as the table holds it. */
  function Filter<T>(rows: seq<T>, p: T -> bool): (r: seq<T>)
    ensures |r| <= |rows|
    ensures Subsequence(r, rows)
    ensures forall x {:trigger multiset(r)[x]} :: x in rows ==> multiset(r)[x] == if p(x) then multiset(rows)[x] else 0
    ensures forall k :: 0 <= k < |r| ==> r[k] in rows && p(r[k])
    ensures forall k {:trigger rows[k] in r} :: 0 <= k < |rows| && p(rows[k]) ==> rows[k] in r
    ensures r == [] ==> forall k :: 0 <= k < |rows| ==> !p(rows[k])
  {
    if rows == [] then []
    else
      var tail := Filter(rows[1..], p);
      assert FilterOf(tail, rows[1..], p);
      FilterStep(rows, p, tail);
      (if p(rows[0]) then [rows[0]] else []) + tail
  }

  /** Filtering the head, then the tail, filters the table. */
  lemma FilterStep<T>(rows: seq<T>, p: T -> bool, tail: seq<T>)
    requires rows != [] && FilterOf(tail, rows[1..], p)
    ensures FilterOf((if p(rows[0]) then [rows[0]] else []) + tail, rows, p)
  {
    var r := (if p(rows[0]) then [rows[0]] else []) + tail;
    assert rows == [rows[0]] + rows[1..];
    SubsequenceStep(rows, p(rows[0]), tail);
    CountStep(rows, p, tail);
    MemberStep(rows, p, tail);
  }

  /** Every satisfying row of the table is kept when every satisfying row of the tail is. */
  lemma MemberStep<T>(rows: seq<T>, p: T -> bool, tail: seq<T>)
    requires rows != []
    requires forall k {:trigger rows[1..][k] in tail} :: 0 <= k < |rows[1..]| && p(rows[1..][k]) ==> rows[1..][k] in tail
    ensures var r := (if p(rows[0]) then [rows[0]] else []) + tail;
      forall k {:trigger rows[k] in r} :: 0 <= k < |rows| && p(rows[k]) ==> rows[k] in r
  {
    var r := (if p(rows[0]) then [rows[0]] else []) + tail;
    forall k | 0 <= k < |rows| && p(rows[k])
      ensures rows[k] in r
    {
      if k > 0 {
        assert rows[k] == rows[1..][k - 1];
        assert rows[1..][k - 1] in tail;
      }
    }
  }

  /** Keeping or dropping the head keeps a subsequence of the tail a subsequence. */
  lemma SubsequenceStep<T>(rows: seq<T>, keep: bool, tail: seq<T>)
    requires rows != [] && Subsequence(tail, rows[1..])
    ensures Subsequence((if keep then [rows[0]] else []) + tail, rows)
  {
    var r := (if keep then [rows[0]] else []) + tail;
    if keep {
      assert r[0] == rows[0] && r[1..] == tail;
    } else {
      assert r == tail;
    }
  }

  /** The count clause of Filter carries over from the tail to the table. */
  lemma CountStep<T>(rows: seq<T>, p: T -> bool, tail: seq<T>)
    requires rows != []
    requires forall x {:trigger multiset(tail)[x]} :: x in rows[1..] ==> multiset(tail)[x] == if p(x) then multiset(rows[1..])[x] else 0
    requires forall k :: 0 <= k < |tail| ==> tail[k] in rows[1..]
    ensures var r := (if p(rows[0]) then [rows[0]] else []) + tail;
      forall x {:trigger multiset(r)[x]} :: x in rows ==> multiset(r)[x] == if p(x) then multiset(rows)[x] else 0
  {
    var r := (if p(rows[0]) then [rows[0]] else []) + tail;
    assert rows == [rows[0]] + rows[1..];
    assert multiset(rows) == multiset{rows[0]} + multiset(rows[1..]);
    assert multiset(r) == multiset(if p(rows[0]) then [rows[0]] else []) + multiset(tail);
    forall x | x in rows
      ensures multiset(r)[x] == if p(x) then multiset(rows)[x] else 0
    {
      if x !in rows[1..] {
        assert multiset(rows[1..])[x] == 0;
      }
    }
  }

  /** Filtering twice is filtering once by the conjunction; used to split a query into its parts. */
  lemma {:induction false} FilterFilter<T>(rows: seq<T>, p: T -> bool, q: T -> bool, pq: T -> bool)
    requires forall x :: pq(x) == (p(x) && q(x))
    ensures Filter(Filter(rows, p), q) == Filter(rows, pq)
  {
    if rows != [] {
      FilterFilter(rows[1..], p, q, pq);
      var rest := Filter(rows[1..], p);
      if p(rows[0]) {
        var fp := [rows[0]] + rest;
        assert Filter(rows, p) == fp;
        assert fp[0] == rows[0] && fp[1..] == rest;
      } else {
        assert Filter(rows, p) == rest;
      }
    }
  }

  /** Filtering depends only on which rows the predicate keeps. */
  lemma {:induction false} FilterCongruent<T>(rows: seq<T>, p: T -> bool, q: T -> bool)
    requires forall k :: 0 <= k < |rows| ==> p(rows[k]) == q(rows[k])
    ensures Filter(rows, p) == Filter(rows, q)
  {
    if rows != [] {
      FilterCongruent(rows[1..], p, q);
    }
  }

  /** The first row satisfying `p`, or None: a lookup by key over a table. */
  function FindFirst<T>(rows: seq<T>, p: T -> bool): (r: Option<T>)
    ensures r.None? <==> forall k :: 0 <= k < |rows| ==> !p(rows[k])
    ensures r.Some? ==> r.value in rows && p(r.value)
  {
    if rows == [] then None
    else if p(rows[0]) then Some(rows[0])
    else FindFirst(rows[1..], p)
  }

  /** When at most one row satisfies `p`, FindFirst returns that row. */
  lemma {:induction false} FindFirstUnique<T>(rows: seq<T>, p: T -> bool, k: nat)
    requires k < |rows| && p(rows[k])
    requires forall i, j :: 0 <= i < j < |rows| && p(rows[i]) ==> !p(rows[j])
    ensures FindFirst(rows, p) == Some(rows[k])
  {
    if k > 0 {
      assert !p(rows[0]);
      FindFirstUnique(rows[1..], p, k - 1);
    }
  }

  predicate InOrder(a: int, b: int, descending: bool)
  {
    if descending then a >= b else a <= b
  }

  /** Every row comes no later than the rows after it under the key's direction. */
  ghost predicate Ordered<T>(s: seq<T>, key: T -> int, descending: bool)
  {
    forall i, j :: 0 <= i < j < |s| ==> InOrder(key(s[i]), key(s[j]), descending)
  }

  /** Neighbouring rows are in order. */
  ghost predicate Chained<T>(s: seq<T>, key: T -> int, descending: bool)
  {
    forall i :: 0 < i < |s| ==> InOrder(key(s[i - 1]), key(s[i]), descending)
  }

  lemma {:induction false} ChainedIsOrdered<T>(s: seq<T>, key: T -> int, descending: bool)
    requires Chained(s, key, descending)
    ensures Ordered(s, key, descending)
  {
    forall i, j | 0 <= i < j < |s|
      ensures InOrder(key(s[i]), key(s[j]), descending)
    {
      var m := i;
      while m < j
        invariant i <= m <= j
        invariant InOrder(key(s[i]), key(s[m]), descending)
      {
        m := m + 1;
      }
    }
  }

  /** Places `x` before the first row it does not come after. */
  function Insert<T>(x: T, s: seq<T>, key: T -> int, descending: bool): (r: seq<T>)
    ensures |r| == |s| + 1
    ensures r[0] == x || (s != [] && r[0] == s[0])
    ensures multiset(r) == multiset(s) + multiset{x}
  {
    if s == [] || InOrder(key(x), key(s[0]), descending) then
      [x] + s
    else
      assert s == [s[0]] + s[1..];
      [s[0]] + Insert(x, s[1..], key, descending)
  }

  /** Inserting into a chained list keeps it chained. */
  lemma {:induction false} InsertChained<T>(x: T, s: seq<T>, key: T -> int, descending: bool)
    requires Chained(s, key, descending)
    ensures Chained(Insert(x, s, key, descending), key, descending)
  {
    if s == [] || InOrder(key(x), key(s[0]), descending) {
    } else {
      var tail := s[1..];
      assert Chained(tail, key, descending);
      InsertChained(x, tail, key, descending);
      var t := Insert(x, tail, key, descending);
      var r := [s[0]] + t;
      assert r == Insert(x, s, key, descending);
      forall i | 0 < i < |r|
        ensures InOrder(key(r[i - 1]), key(r[i]), descending)
      {
        if i == 1 {
          assert r[1] == t[0];
        } else {
          assert r[i - 1] == t[i - 2] && r[i] == t[i - 1];
        }
      }
    }
  }

  /** ORDER BY key (ASC or DESC): an ordered permutation of the rows. */
  function SortBy<T>(s: seq<T>, key: T -> int, descending: bool): (r: seq<T>)
    ensures Ordered(r, key, descending)
    ensures |r| == |s|
  {
    if s == [] then []
    else
      assert s == [s[0]] + s[1..];
      var tail := SortBy(s[1..], key, descending);
      assert Chained(tail, key, descending);
      var r := Insert(s[0], tail, key, descending);
      InsertChained(s[0], tail, key, descending);
      ChainedIsOrdered(r, key, descending);
      r
  }

  /** Sorting permutes the rows: every row keeps its number of occurrences. */
  lemma {:induction false} SortByPermutes<T>(s: seq<T>, key: T -> int, descending: bool)
    ensures multiset(SortBy(s, key, descending)) == multiset(s)
  {
    if s != [] {
      assert s == [s[0]] + s[1..];
      SortByPermutes(s[1..], key, descending);
    }
  }

  /** Every row of a sorted list is a row of its input. */
  lemma SortedFromInput<T>(s: seq<T>, key: T -> int, descending: bool, j: nat)
    requires j < |SortBy(s, key, descending)|
    ensures SortBy(s, key, descending)[j] in s
  {
    SortByPermutes(s, key, descending);
    assert SortBy(s, key, descending)[j] in multiset(SortBy(s, key, descending));
  }

  /** Every row on a page is a row of the list. */
  lemma PageFromRows<T>(rows: seq<T>, page: nat, size: nat, k: nat)
    requires size > 0 && k < |PageOf(rows, page, size)|
    ensures PageOf(rows, page, size)[k] in rows
  {
    assert PageOf(rows, page, size)[k] == rows[page * size + k];
  }

  /** A page of an ordered list is ordered. */
  lemma PageKeepsOrder<T>(s: seq<T>, key: T -> int, descending: bool, page: nat, size: nat)
    requires size > 0 && Ordered(s, key, descending)
    ensures Ordered(PageOf(s, page, size), key, descending)
  {
    var r := PageOf(s, page, size);
    forall i, j | 0 <= i < j < |r|
      ensures InOrder(key(r[i]), key(r[j]), descending)
    {
      assert r[i] == s[page * size + i] && r[j] == s[page * size + j];
    }
  }

  /** Every row on a page of the sorted matches is a row of the table that satisfies `p`. */
  lemma {:induction false} PagedMatches<T>(rows: seq<T>, p: T -> bool, key: T -> int, descending: bool, page: nat, size: nat)
    requires size > 0
    ensures forall k :: 0 <= k < |PageOf(SortBy(Filter(rows, p), key, descending), page, size)| ==>
      PageOf(SortBy(Filter(rows, p), key, descending), page, size)[k] in rows
      && p(PageOf(SortBy(Filter(rows, p), key, descending), page, size)[k])
  {
    var matches := Filter(rows, p);
    var sorted := SortBy(matches, key, descending);
    var r := PageOf(sorted, page, size);
    forall k | 0 <= k < |r|
      ensures r[k] in rows && p(r[k])
    {
      PageFromRows(sorted, page, size, k);
      var j :| 0 <= j < |sorted| && sorted[j] == r[k];
      SortedFromInput(matches, key, descending, j);
    }
  }

  /** When every match fits on one page, the first page holds all of them. */
  lemma FirstPageOfFew<T>(rows: seq<T>, p: T -> bool, key: T -> int, descending: bool, size: nat)
    requires size > 0
    ensures |Filter(rows, p)| <= size ==> multiset(PageOf(SortBy(Filter(rows, p), key, descending), 0, size)) == multiset(Filter(rows, p))
  {
    SortByPermutes(Filter(rows, p), key, descending);
  }

  /** A paged query without ORDER BY: page `page` of the rows satisfying `p`, in table order. */
  function FilteredPage<T>(rows: seq<T>, p: T -> bool, page: nat, size: nat): (r: seq<T>)
    requires size > 0
    ensures |r| <= size
    ensures |r| == PageLength(|Filter(rows, p)|, page, size)
    ensures forall k :: 0 <= k < |r| ==> r[k] in rows && p(r[k])
    ensures forall k :: 0 <= k < |r| ==> r[k] == Filter(rows, p)[page * size + k]
    ensures page == 0 && |Filter(rows, p)| <= size ==> r == Filter(rows, p)
  {
    var hits := Filter(rows, p);
    var r := PageOf(hits, page, size);
    forall k | 0 <= k < |r|
      ensures r[k] in rows && p(r[k])
    {
      assert r[k] == hits[page * size + k];
    }
    r
  }

  /** A paged query with ORDER BY: page `page` of the rows satisfying `p`, sorted by `key`. */
  function SortedPage<T>(rows: seq<T>, p: T -> bool, key: T -> int, descending: bool, page: nat, size: nat): (r: seq<T>)
    requires size > 0
    ensures |r| <= size
    ensures forall k :: 0 <= k < |r| ==> r[k] in rows && p(r[k])
    ensures Ordered(r, key, descending)
    ensures |r| == PageLength(|Filter(rows, p)|, page, size)
    ensures page == 0 && |Filter(rows, p)| <= size ==> multiset(r) == multiset(Filter(rows, p))
  {
    var sorted := SortBy(Filter(rows, p), key, descending);
    PageKeepsOrder(sorted, key, descending, page, size);
    PagedMatches(rows, p, key, descending, page, size);
    if page == 0 then
      FirstPageOfFew(rows, p, key, descending, size);
      PageOf(sorted, page, size)
    else
      PageOf(sorted, page, size)
  }

  /** Pages `0` to `n - 1` of a paged query, read one after another. */
  function Pages<T>(rows: seq<T>, p: T -> bool, key: T -> int, descending: bool, n: nat, size: nat): seq<T>
    requires size > 0
  {
    if n == 0 then [] else Pages(rows, p, key, descending, n - 1, size) + SortedPage(rows, p, key, descending, n - 1, size)
  }

  /** The first `n` pages are the first `n * size` sorted matches. */
  lemma {:induction false} PagesArePrefix<T>(rows: seq<T>, p: T -> bool, key: T -> int, descending: bool, n: nat, size: nat)
    requires size > 0
    ensures Pages(rows, p, key, descending, n, size) == ReadPages(SortBy(Filter(rows, p), key, descending), n, size)
  {
    if n > 0 {
      var sorted := SortBy(Filter(rows, p), key, descending);
      PagesArePrefix(rows, p, key, descending, n - 1, size);
      SortedPageIsSlice(rows, p, key, descending, n - 1, size);
      assert Pages(rows, p, key, descending, n, size)
          == Pages(rows, p, key, descending, n - 1, size) + SortedPage(rows, p, key, descending, n - 1, size);
      assert ReadPages(sorted, n, size) == ReadPages(sorted, n - 1, size) + PageOf(sorted, n - 1, size);
    }
  }

  /** Pages `0` to `n - 1` of an ordered result, read one after another. */
  function ReadPages<T>(s: seq<T>, n: nat, size: nat): seq<T>
    requires size > 0
  {
    if n == 0 then [] else ReadPages(s, n - 1, size) + PageOf(s, n - 1, size)
  }

  /** Reading the first `n` pages reads the first `n * size` rows, or all of them. */
  lemma {:induction false} ReadPagesIsPrefix<T>(s: seq<T>, n: nat, size: nat)
    requires size > 0
    ensures ReadPages(s, n, size) == s[..if n * size < |s| then n * size else |s|]
  {
    if n > 0 {
      ReadPagesIsPrefix(s, n - 1, size);
      PrefixThenPage(s, n, size);
    }
  }

  /** A paged query is the page of the sorted matches. */
  lemma SortedPageIsSlice<T>(rows: seq<T>, p: T -> bool, key: T -> int, descending: bool, page: nat, size: nat)
    requires size > 0
    ensures SortedPage(rows, p, key, descending, page, size) == PageOf(SortBy(Filter(rows, p), key, descending), page, size)
  {
  }

  /** The rows before page `n - 1` followed by page `n - 1` are the rows before page `n`. */
  lemma PrefixThenPage<T>(s: seq<T>, n: nat, size: nat)
    requires size > 0 && n > 0
    ensures s[..if (n - 1) * size < |s| then (n - 1) * size else |s|] + PageOf(s, n - 1, size)
         == s[..if n * size < |s| then n * size else |s|]
  {
    var a := (n - 1) * size;
    var b := n * size;
    assert b == a + size;
    var lo := if a < |s| then a else |s|;
    var hi := if b < |s| then b else |s|;
    var pg := PageOf(s, n - 1, size);
    assert |pg| == hi - lo;
    assert forall k :: 0 <= k < |pg| ==> pg[k] == s[lo + k];
    assert s[..lo] + pg == s[..hi];
  }

  /** Paging through a query from page 0 visits its matches in order and
      each exactly once: the first `n` pages hold `n * size` matches (or all
      of them), they are ordered by the key across page boundaries, and once
      they reach the end they are, row for row, the rows satisfying `p`. */
  lemma PagesCoverMatches<T>(rows: seq<T>, p: T -> bool, key: T -> int, descending: bool, n: nat, size: nat)
    requires size > 0
    ensures var read := Pages(rows, p, key, descending, n, size);
      |read| == (if n * size < |Filter(rows, p)| then n * size else |Filter(rows, p)|)
    ensures Ordered(Pages(rows, p, key, descending, n, size), key, descending)
    ensures |Filter(rows, p)| <= n * size ==> multiset(Pages(rows, p, key, descending, n, size)) == multiset(Filter(rows, p))
  {
    var sorted := SortBy(Filter(rows, p), key, descending);
    PagesArePrefix(rows, p, key, descending, n, size);
    ReadPagesIsPrefix(sorted, n, size);
    var read := Pages(rows, p, key, descending, n, size);
    assert forall k :: 0 <= k < |read| ==> read[k] == sorted[k];
    if |sorted| <= n * size {
      assert read == sorted;
      SortByPermutes(Filter(rows, p), key, descending);
    }
  }

  /** A paged query depends only on which rows its predicate keeps. */
  lemma SortedPageCongruent<T>(rows: seq<T>, p: T -> bool, q: T -> bool, key: T -> int, descending: bool, page: nat, size: nat)
    requires size > 0
    requires forall k :: 0 <= k < |rows| ==> p(rows[k]) == q(rows[k])
    ensures SortedPage(rows, p, key, descending, page, size) == SortedPage(rows, q, key, descending, page, size)
  {
    FilterCongruent(rows, p, q);
  }

  /** `findFirstBy..OrderBy..`: the first row of the sorted matches, hence one
      whose key is extreme among all rows satisfying `p`. */
  function FirstSorted<T>(rows: seq<T>, p: T -> bool, key: T -> int, descending: bool): (r: Option<T>)
    ensures r.None? <==> forall k :: 0 <= k < |rows| ==> !p(rows[k])
    ensures r.Some? ==> r.value in rows && p(r.value)
    ensures r.Some? ==> forall k :: 0 <= k < |rows| && p(rows[k]) ==> InOrder(key(r.value), key(rows[k]), descending)
  {
    var matches := Filter(rows, p);
    var sorted := SortBy(matches, key, descending);
    SortByPermutes(matches, key, descending);
    if sorted == [] then
      None
    else
      SortedFromInput(matches, key, descending, 0);
      forall k | 0 <= k < |rows| && p(rows[k])
        ensures InOrder(key(sorted[0]), key(rows[k]), descending)
      {
        assert rows[k] in matches;
        assert rows[k] in multiset(sorted);
        var j :| 0 <= j < |sorted| && sorted[j] == rows[k];
        if j > 0 {
          assert InOrder(key(sorted[0]), key(sorted[j]), descending);
        }
      }
      Some(sorted[0])
  }

  /** The position `stream().max(comparing(key))` picks: a largest key, the
      first such position when several rows share it (the reduction keeps
      the earlier row on a tie). */
  function MaxIndex<T>(s: seq<T>, key: T -> int): (i: nat)
    requires |s| > 0
    ensures i < |s|
    ensures forall j :: 0 <= j < |s| ==> key(s[j]) <= key(s[i])
    ensures forall j :: 0 <= j < i ==> key(s[j]) < key(s[i])
  {
    if |s| == 1 then 0
    else
      var init := s[..|s| - 1];
      var m := MaxIndex(init, key);
      assert forall j :: 0 <= j < |init| ==> init[j] == s[j];
      if key(s[m]) >= key(s[|s| - 1]) then m else |s| - 1
  }

  /** The position `stream().min(comparing(key))` picks: a smallest key, the first such position on a tie. */
  function MinIndex<T>(s: seq<T>, key: T -> int): (i: nat)
    requires |s| > 0
    ensures i < |s|
    ensures forall j :: 0 <= j < |s| ==> key(s[i]) <= key(s[j])
    ensures forall j :: 0 <= j < i ==> key(s[i]) < key(s[j])
  {
    if |s| == 1 then 0
    else
      var init := s[..|s| - 1];
      var m := MinIndex(init, key);
      assert forall j :: 0 <= j < |init| ==> init[j] == s[j];
      if key(s[m]) <= key(s[|s| - 1]) then m else |s| - 1
  }

  /** `stream().max(comparing(key)).orElse(null)`. */
  function MaxBy<T>(s: seq<T>, key: T -> int): (r: Option<T>)
    ensures r.None? <==> s == []
    ensures r.Some? ==> r.value in s && forall j :: 0 <= j < |s| ==> key(s[j]) <= key(r.value)
  {
    if s == [] then None else Some(s[MaxIndex(s, key)])
  }

  /** `stream().min(comparing(key)).orElse(null)`. */
  function MinBy<T>(s: seq<T>, key: T -> int): (r: Option<T>)
    ensures r.None? <==> s == []
    ensures r.Some? ==> r.value in s && forall j :: 0 <= j < |s| ==> key(r.value) <= key(s[j])
  {
    if s == [] then None else Some(s[MinIndex(s, key)])
  }

  /** The stream maximum over the filtered rows and the first row of the
      matches sorted descending carry the same key. */
  lemma MaxByAgreesWithFirstSorted<T>(rows: seq<T>, p: T -> bool, key: T -> int)
    ensures var m := MaxBy(Filter(rows, p), key);
      var f := FirstSorted(rows, p, key, true);
      m.Some? == f.Some? && (m.Some? ==> key(m.value) == key(f.value))
  {
    var matches := Filter(rows, p);
    var m := MaxBy(matches, key);
    var f := FirstSorted(rows, p, key, true);
    if m.Some? {
      var i :| 0 <= i < |matches| && matches[i] == m.value;
      var k :| 0 <= k < |rows| && rows[k] == m.value;
      var j :| 0 <= j < |rows| && rows[j] == f.value;
      assert rows[j] in matches;
    }
  }

  /** The stream minimum over the filtered rows and the first row of the
      matches sorted ascending carry the same key. */
  lemma MinByAgreesWithFirstSorted<T>(rows: seq<T>, p: T -> bool, key: T -> int)
    ensures var m := MinBy(Filter(rows, p), key);
      var f := FirstSorted(rows, p, key, false);
      m.Some? == f.Some? && (m.Some? ==> key(m.value) == key(f.value))
  {
    var matches := Filter(rows, p);
    var m := MinBy(matches, key);
    var f := FirstSorted(rows, p, key, false);
    if m.Some? {
      var i :| 0 <= i < |matches| && matches[i] == m.value;
      var k :| 0 <= k < |rows| && rows[k] == m.value;
      var j :| 0 <= j < |rows| && rows[j] == f.value;
      assert rows[j] in matches;
    }
  }

  /** `stream().map(f).collect(toList())`, for an `f` defined on every element. */
  function Map<T, U>(s: seq<T>, f: T --> U): (r: seq<U>)
    requires forall x :: x in s ==> f.requires(x)
    ensures |r| == |s|
    ensures forall k :: 0 <= k < |s| ==> r[k] == f(s[k])
  {
    seq(|s|, k requires 0 <= k < |s| => f(s[k]))
  }

  /** Mapping a non-empty sequence maps its head, then its tail. */
  lemma MapCons<T, U>(s: seq<T>, f: T --> U)
    requires s != [] && forall x :: x in s ==> f.requires(x)
    ensures Map(s, f) == [f(s[0])] + Map(s[1..], f)
  {
  }

  /** Mapping then filtering on the mapped value is filtering on the
      original (through `f`) then mapping. */
  lemma {:induction false} FilterMap<T, U>(s: seq<T>, f: T --> U, q: U -> bool, qf: T -> bool)
    requires forall x :: x in s ==> f.requires(x)
    requires forall x :: x in s ==> qf(x) == q(f(x))
    ensures Filter(Map(s, f), q) == Map(Filter(s, qf), f)
  {
    if s != [] {
      var tail := s[1..];
      FilterMap(tail, f, q, qf);
      MapCons(s, f);
      var m := Map(s, f);
      assert m[0] == f(s[0]) && m[1..] == Map(tail, f);
      assert Filter(m, q) == (if q(f(s[0])) then [f(s[0])] else []) + Filter(Map(tail, f), q);
      var kept := Filter(tail, qf);
      if qf(s[0]) {
        assert Filter(s, qf) == [s[0]] + kept;
        MapCons([s[0]] + kept, f);
        assert ([s[0]] + kept)[1..] == kept;
      } else {
        assert Filter(s, qf) == kept;
      }
    }
  }
}
