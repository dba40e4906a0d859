/** The document-store cursor operations the API composes: `find` with a filter (Where),
    `sort` on one field (Sort), `skip` and `limit` (Window), and the paginated envelope
    every list endpoint returns. */
module Cursor {

  /** A value a document is sorted on, in the store's cross-type order:
      a missing or null field sorts before every number, numbers before text. */
  datatype SortKey = Null | Num(x: real) | Text(s: string)

  /** Sort direction: `1` is Ascending, `-1` is Descending. */
  datatype Direction = Ascending | Descending

  /** Lexicographic order on strings, character by character. */
  predicate TextLe(a: string, b: string)
    decreases |a|
  {
    a == [] || (b != [] && (a[0] < b[0] || (a[0] == b[0] && TextLe(a[1..], b[1..]))))
  }

  lemma {:induction false} TextLeTotal(a: string, b: string)
    ensures TextLe(a, b) || TextLe(b, a)
    decreases |a|
  {
    if a != [] && b != [] && a[0] == b[0] {
      TextLeTotal(a[1..], b[1..]);
    }
  }

  lemma {:induction false} TextLeTransitive(a: string, b: string, c: string)
    requires TextLe(a, b) && TextLe(b, c)
    ensures TextLe(a, c)
    decreases |a|
  {
    if a != [] && a[0] == b[0] && b[0] == c[0] {
      TextLeTransitive(a[1..], b[1..], c[1..]);
    }
  }

  /** The store's ascending order on sort keys: a total preorder. */
  predicate KeyLe(a: SortKey, b: SortKey) {
    match a
    case Null => true
    case Num(x) => (b.Num? && x <= b.x) || b.Text?
    case Text(s) => b.Text? && TextLe(s, b.s)
  }

  /** A document with key `a` may come before one with key `b` in direction `dir`. */
  predicate Precedes(a: SortKey, b: SortKey, dir: Direction) {
    if dir == Ascending then KeyLe(a, b) else KeyLe(b, a)
  }

  lemma PrecedesTotal(a: SortKey, b: SortKey, dir: Direction)
    ensures Precedes(a, b, dir) || Precedes(b, a, dir)
  {
    if a.Text? && b.Text? {
      TextLeTotal(a.s, b.s);
    }
  }

  lemma PrecedesTransitive(a: SortKey, b: SortKey, c: SortKey, dir: Direction)
    requires Precedes(a, b, dir) && Precedes(b, c, dir)
    ensures Precedes(a, c, dir)
  {
    if a.Text? && b.Text? && c.Text? {
      if dir == Ascending {
        TextLeTransitive(a.s, b.s, c.s);
      } else {
        TextLeTransitive(c.s, b.s, a.s);
      }
    }
  }

  /** Every document precedes every later one. */
  predicate SortedBy<T>(s: seq<T>, key: T -> SortKey, dir: Direction) {
    forall i, j :: 0 <= i < j < |s| ==> Precedes(key(s[i]), key(s[j]), dir)
  }

  /** `y` may precede every document of `s`. */
  predicate LeadsAll<T>(y: T, s: seq<T>, key: T -> SortKey, dir: Direction) {
    forall i :: 0 <= i < |s| ==> Precedes(key(y), key(s[i]), dir)
  }

  // ---------------------------------------------------------------------------
  // find(filter)

  /** The documents of `s` that satisfy `p`, in store order. */
  function Where<T(!new)>(s: seq<T>, p: T -> bool): (r: seq<T>)
    ensures forall x :: x in r <==> x in s && p(x)
    ensures |r| <= |s|
  {
    if s == [] then []
    else
      assert s == [s[0]] + s[1..];
      (if p(s[0]) then [s[0]] else []) + Where(s[1..], p)
  }

  /** `find` keeps each matching document as often as the store holds it and drops the rest. */
  lemma {:induction false} WhereCounts<T(!new)>(s: seq<T>, p: T -> bool, x: T)
    ensures multiset(Where(s, p))[x] == if p(x) then multiset(s)[x] else 0
  {
    if s != [] {
      WhereCounts(s[1..], p, x);
      assert s == [s[0]] + s[1..];
    }
  }

  lemma {:induction false} WhereAppend<T(!new)>(s: seq<T>, x: T, p: T -> bool)
    ensures Where(s + [x], p) == Where(s, p) + (if p(x) then [x] else [])
  {
    if s != [] {
      var head := if p(s[0]) then [s[0]] else [];
      var tail := if p(x) then [x] else [];
      assert (s + [x])[0] == s[0];
      assert (s + [x])[1..] == s[1..] + [x];
      assert Where(s + [x], p) == head + Where(s[1..] + [x], p);
      WhereAppend(s[1..], x, p);
      var rest := Where(s[1..], p);
      assert Where(s, p) == head + rest;
      assert head + (rest + tail) == (head + rest) + tail;
    }
  }

  /** Two filters that agree on every document select the same documents. */
  lemma {:induction false} WhereCongruent<T(!new)>(s: seq<T>, p: T -> bool, q: T -> bool)
    requires forall x :: x in s ==> p(x) == q(x)
    ensures Where(s, p) == Where(s, q)
  {
    if s != [] {
      assert forall x :: x in s[1..] ==> x in s;
      WhereCongruent(s[1..], p, q);
    }
  }

  // ---------------------------------------------------------------------------
  // sort(field, direction)

  lemma ConsSorted<T>(y: T, s: seq<T>, key: T -> SortKey, dir: Direction)
    requires SortedBy(s, key, dir) && LeadsAll(y, s, key, dir)
    ensures SortedBy([y] + s, key, dir)
  {
    var r := [y] + s;
    forall i, j | 0 <= i < j < |r|
      ensures Precedes(key(r[i]), key(r[j]), dir)
    {
      if i > 0 {
        assert r[i] == s[i - 1] && r[j] == s[j - 1];
      }
    }
  }

  /** Anything a document precedes keeps preceding it after another document is inserted
      that it also precedes. */
  lemma LeadsAllAfterInsert<T>(y: T, x: T, s: seq<T>, r: seq<T>, key: T -> SortKey, dir: Direction)
    requires LeadsAll(y, s, key, dir) && Precedes(key(y), key(x), dir)
    requires multiset(r) == multiset(s) + multiset{x}
    ensures LeadsAll(y, r, key, dir)
  {
    forall i | 0 <= i < |r|
      ensures Precedes(key(y), key(r[i]), dir)
    {
      assert r[i] in multiset(r);
      if r[i] != x {
        assert r[i] in multiset(s);
        var k :| 0 <= k < |s| && s[k] == r[i];
      }
    }
  }

  function Insert<T>(x: T, s: seq<T>, key: T -> SortKey, dir: Direction): (r: seq<T>)
    requires SortedBy(s, key, dir)
    ensures SortedBy(r, key, dir)
    ensures multiset(r) == multiset(s) + multiset{x}
    decreases |s|
  {
    if s == [] then [x]
    else if Precedes(key(x), key(s[0]), dir) then
      assert LeadsAll(x, s, key, dir) by {
        forall i | 0 < i < |s| ensures Precedes(key(x), key(s[i]), dir) {
          PrecedesTransitive(key(x), key(s[0]), key(s[i]), dir);
        }
      }
      ConsSorted(x, s, key, dir);
      [x] + s
    else
      var rest := Insert(x, s[1..], key, dir);
      PrecedesTotal(key(x), key(s[0]), dir);
      assert LeadsAll(s[0], s[1..], key, dir);
      LeadsAllAfterInsert(s[0], x, s[1..], rest, key, dir);
      ConsSorted(s[0], rest, key, dir);
      assert s == [s[0]] + s[1..];
      [s[0]] + rest
  }

  /** The documents of `s` ordered by `key` in direction `dir`: a sorted permutation.
      Among equal keys the store's order is unspecified; this one is insertion order. */
  function Sort<T>(s: seq<T>, key: T -> SortKey, dir: Direction): (r: seq<T>)
    ensures SortedBy(r, key, dir)
    ensures multiset(r) == multiset(s)
  {
    if s == [] then []
    else
      assert s == [s[0]] + s[1..];
      Insert(s[0], Sort(s[1..], key, dir), key, dir)
  }

  lemma SortWithin<T>(s: seq<T>, key: T -> SortKey, dir: Direction)
    ensures forall x :: x in Sort(s, key, dir) <==> x in s
  {
    var r := Sort(s, key, dir);
    forall x ensures x in r <==> x in s {
      assert x in r <==> x in multiset(r);
    }
  }

  // ---------------------------------------------------------------------------
  // skip(n).limit(m) and the paginated envelope

  function Min(a: int, b: int): int { if a <= b then a else b }

  /** `skip(skip).limit(limit)`: the documents from position `skip` on, at most `limit` of
      them. The store reads `limit(0)` as "no limit"; every caller passes at least 1. */
  function Window<T>(s: seq<T>, skip: nat, limit: nat): (r: seq<T>)
    requires limit >= 1
    ensures |r| <= limit
    ensures |r| == limit || skip + |r| >= |s|
    ensures forall k :: 0 <= k < |r| ==> skip + k < |s| && r[k] == s[skip + k]
  {
    if skip >= |s| then [] else s[skip..Min(|s|, skip + limit)]
  }

  lemma WindowKeepsOrder<T>(s: seq<T>, skip: nat, limit: nat, key: T -> SortKey, dir: Direction)
    requires limit >= 1 && SortedBy(s, key, dir)
    ensures SortedBy(Window(s, skip, limit), key, dir)
  {
    var r := Window(s, skip, limit);
    forall i, j | 0 <= i < j < |r| ensures Precedes(key(r[i]), key(r[j]), dir) {
      assert r[i] == s[skip + i] && r[j] == s[skip + j];
    }
  }

  lemma WindowWithin<T>(s: seq<T>, skip: nat, limit: nat)
    requires limit >= 1
    ensures forall x :: x in Window(s, skip, limit) ==> x in s
  {
    var r := Window(s, skip, limit);
    forall x | x in r ensures x in s {
      var k :| 0 <= k < |r| && r[k] == x;
      assert s[skip + k] == x;
    }
  }

  /** `limit(n)` alone, for `n >= 1`. */
  function Take<T>(s: seq<T>, n: nat): seq<T>
    requires n >= 1
  {
    Window(s, 0, n)
  }

  /** The number of documents before page `page` (pages are numbered from 1): never negative
      and zero on the first page. */
  function SkipFor(page: int, pageSize: nat): (skip: nat)
    requires page >= 1
    ensures skip == (page - 1) * pageSize
    ensures page == 1 ==> skip == 0
  {
    var pages: nat := page - 1;
    assert pages * pageSize >= 0;
    pages * pageSize
  }

  /** Consecutive pages are adjacent: the next page starts exactly `pageSize` documents later,
      so the pages leave no gap and do not overlap. */
  lemma PagesAdjacent(page: int, pageSize: nat)
    requires page >= 1
    ensures SkipFor(page + 1, pageSize) == SkipFor(page, pageSize) + pageSize
  {
    assert page * pageSize == (page - 1) * pageSize + pageSize;
  }

  /** The response envelope `{items, page, page_size, total}`. */
  datatype Page<T> = Page(items: seq<T>, page: int, pageSize: int, total: nat)

  /** Every document appears on exactly the page its position says: position `i` is item
      `i % pageSize` of page `i / pageSize + 1`. */
  lemma PageLocates<T>(s: seq<T>, pageSize: nat, i: nat)
    requires pageSize >= 1 && i < |s|
    ensures var w := Window(s, SkipFor(i / pageSize + 1, pageSize), pageSize);
            i % pageSize < |w| && w[i % pageSize] == s[i]
  {
    var skip := SkipFor(i / pageSize + 1, pageSize);
    assert skip == (i / pageSize) * pageSize;
    assert skip + i % pageSize == i;
    assert i % pageSize < pageSize;
  }
}
