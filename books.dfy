/** The book endpoints: `GET /books` (filter, sort, paginate), `GET /authors/{name}/books`
    and `GET /users/{id}/to-read`. */
module BookQueries {
  import opened Wrappers
  import opened Cursor
  import opened Store

  /** A case-insensitive regular-expression test `rx(pattern, subject)`. The regex engine is
      outside the model: every query is stated for an arbitrary matcher. */
  type Matcher = (string, string) -> bool

  /** `{field: {"$regex": pattern, "$options": "i"}}`. */
  datatype RegexClause = RegexClause(field: string, pattern: string)

  /** The filter document list_books passes to `count_documents` and `find`. Each slot is one
      key the document may hold; None means the key is absent. */
  datatype BookFilter = BookFilter(
    anyOf: Option<seq<RegexClause>>,      // "$or"
    minAverage: Option<real>,             // "average_rating": {"$gte": ...}
    yearRange: Option<map<string, int>>)  // "original_publication_year": {"$gte": ..., "$lte": ...}

  predicate ClauseHolds(c: RegexClause, b: Book, rx: Matcher) {
    || (c.field == "title" && rx(c.pattern, b.title))
    || (c.field == "authors" && rx(c.pattern, b.authors))
  }

  /** Range operators on a missing or null year never match. */
  predicate YearWithin(year: Option<int>, bounds: map<string, int>) {
    && year.Some?
    && ("$gte" in bounds ==> year.value >= bounds["$gte"])
    && ("$lte" in bounds ==> year.value <= bounds["$lte"])
  }

  /** How the store evaluates the filter document against one book: every key present must hold.
      An empty `$or` list is never built by the handler (it always supplies the two clauses) and
      the store would reject it; here it is given the value of an empty disjunction. */
  predicate Matches(f: BookFilter, b: Book, rx: Matcher)
    ensures f == BookFilter(None, None, None) ==> Matches(f, b, rx)
    ensures f.anyOf == Some([]) ==> !Matches(f, b, rx)
  {
    && (f.anyOf.Some? ==> exists i :: 0 <= i < |f.anyOf.value| && ClauseHolds(f.anyOf.value[i], b, rx))
    && (f.minAverage.Some? ==> b.averageRating >= f.minAverage.value)
    && (f.yearRange.Some? ==> YearWithin(b.publicationYear, f.yearRange.value))
  }

  /** What list_books promises: the books meeting every condition the caller supplied,
      with the text query tried against the title or the authors. */
  predicate Selected(b: Book, q: Option<string>, minAvg: Option<real>, yearFrom: Option<int>,
                     yearTo: Option<int>, rx: Matcher)
  {
    && (q.Some? && q.value != "" ==> rx(q.value, b.title) || rx(q.value, b.authors))
    && (minAvg.Some? ==> b.averageRating >= minAvg.value)
    && (yearFrom.Some? ==> b.publicationYear.Some? && b.publicationYear.value >= yearFrom.value)
    && (yearTo.Some? ==> b.publicationYear.Some? && b.publicationYear.value <= yearTo.value)
  }

  /** The shape of the filter document for the given parameters: which keys it holds and what
      they carry. */
  predicate Describes(f: BookFilter, q: Option<string>, minAvg: Option<real>,
                      yearFrom: Option<int>, yearTo: Option<int>)
  {
    && (f.anyOf.Some? <==> q.Some? && q.value != "")
    && (f.anyOf.Some? ==> f.anyOf.value == [RegexClause("title", q.value), RegexClause("authors", q.value)])
    && f.minAverage == minAvg
    && (f.yearRange.Some? <==> yearFrom.Some? || yearTo.Some?)
    && (f.yearRange.Some? ==>
          && f.yearRange.value.Keys <= {"$gte", "$lte"}
          && ("$gte" in f.yearRange.value <==> yearFrom.Some?)
          && ("$lte" in f.yearRange.value <==> yearTo.Some?)
          && (yearFrom.Some? ==> f.yearRange.value["$gte"] == yearFrom.value)
          && (yearTo.Some? ==> f.yearRange.value["$lte"] == yearTo.value))
  }

  /** Builds the filter document key by key from the optional query parameters. An empty `q`
      adds no text condition, as an absent one. */
  method BuildFilter(q: Option<string>, minAvg: Option<real>, yearFrom: Option<int>, yearTo: Option<int>)
    returns (f: BookFilter)
    ensures Describes(f, q, minAvg, yearFrom, yearTo)
    ensures forall b, rx :: Matches(f, b, rx) <==> Selected(b, q, minAvg, yearFrom, yearTo, rx)
  {
    f := BookFilter(None, None, None);
    if q.Some? && q.value != "" {
      f := f.(anyOf := Some([RegexClause("title", q.value), RegexClause("authors", q.value)]));
    }
    if minAvg.Some? {
      f := f.(minAverage := Some(minAvg.value));
    }
    var yearFilter: map<string, int> := map[];
    if yearFrom.Some? {
      yearFilter := yearFilter["$gte" := yearFrom.value];
    }
    if yearTo.Some? {
      yearFilter := yearFilter["$lte" := yearTo.value];
    }
    if yearFilter != map[] {
      f := f.(yearRange := Some(yearFilter));
    } else {
      assert "$gte" !in yearFilter && "$lte" !in yearFilter;
    }
    forall b, rx ensures Matches(f, b, rx) <==> Selected(b, q, minAvg, yearFrom, yearTo, rx) {
      FilterMeaning(f, q, minAvg, yearFrom, yearTo, b, rx);
    }
  }

  /** A filter document of the described shape selects exactly the books the parameters ask for:
      the conditions are combined conjunctively and the text query is a disjunction over title
      and authors. */
  lemma FilterMeaning(f: BookFilter, q: Option<string>, minAvg: Option<real>, yearFrom: Option<int>,
                      yearTo: Option<int>, b: Book, rx: Matcher)
    requires Describes(f, q, minAvg, yearFrom, yearTo)
    ensures Matches(f, b, rx) <==> Selected(b, q, minAvg, yearFrom, yearTo, rx)
  {
    if f.anyOf.Some? {
      var cs := f.anyOf.value;
      if rx(q.value, b.title) {
        assert ClauseHolds(cs[0], b, rx);
      } else if rx(q.value, b.authors) {
        assert ClauseHolds(cs[1], b, rx);
      }
    }
  }

  /** The closed mapping from the `sort` parameter to a stored field. */
  const SortMap: map<string, string> := map[
    "avg" := "average_rating",
    "ratings_count" := "ratings_count",
    "year" := "original_publication_year",
    "title" := "title"]

  /** `sort_map.get(sort, "average_rating")`: a parameter outside the closed set falls back to the
      average rating, so no caller-supplied field name ever reaches the store. */
  function SortFieldOf(sort: string): (field: string)
    ensures field in {"average_rating", "ratings_count", "original_publication_year", "title"}
    ensures sort in SortMap ==> field == SortMap[sort]
    ensures sort !in SortMap ==> field == "average_rating"
  {
    if sort in SortMap then SortMap[sort] else "average_rating"
  }

  /** `-1 if order == "desc" else 1`. */
  function DirectionOf(order: string): (dir: Direction)
    ensures dir == Descending <==> order == "desc"
  {
    if order == "desc" then Descending else Ascending
  }

  /** The sort key of a book for a stored field name; a missing year is null. */
  function FieldKey(b: Book, field: string): SortKey {
    if field == "average_rating" then Num(b.averageRating)
    else if field == "ratings_count" then Num(b.ratingsCount as real)
    else if field == "original_publication_year" then
      (if b.publicationYear.Some? then Num(b.publicationYear.value as real) else Null)
    else if field == "title" then Text(b.title)
    else Null
  }

  function KeyFor(field: string): Book -> SortKey {
    b => FieldKey(b, field)
  }

  /** `GET /books`. `total` counts every selected book whatever the page; the items are the
      selected books sorted by the mapped field and direction, skipped by `(page-1)*page_size`
      and limited to `page_size`. Bounds on page and page_size are checked by the framework. */
  method ListBooks(books: seq<Book>, q: Option<string>, minAvg: Option<real>, yearFrom: Option<int>,
                   yearTo: Option<int>, sort: string, order: string, page: int, pageSize: int,
                   rx: Matcher)
    returns (r: Page<Book>)
    requires page >= 1 && 1 <= pageSize <= 100
    ensures r.page == page && r.pageSize == pageSize
    ensures r.total == |Where(books, b => Selected(b, q, minAvg, yearFrom, yearTo, rx))|
    ensures r.items == Window(Sort(Where(books, b => Selected(b, q, minAvg, yearFrom, yearTo, rx)),
                                   KeyFor(SortFieldOf(sort)), DirectionOf(order)),
                              SkipFor(page, pageSize), pageSize)
    ensures |r.items| <= pageSize
    ensures SortedBy(r.items, KeyFor(SortFieldOf(sort)), DirectionOf(order))
    ensures forall b :: b in r.items ==> b in books && Selected(b, q, minAvg, yearFrom, yearTo, rx)
  {
    var filter := BuildFilter(q, minAvg, yearFrom, yearTo);
    var field := SortFieldOf(sort);
    var dir := DirectionOf(order);
    var matching := Where(books, b => Matches(filter, b, rx));
    WhereCongruent(books, b => Matches(filter, b, rx), b => Selected(b, q, minAvg, yearFrom, yearTo, rx));
    var total := |matching|;
    var skip := SkipFor(page, pageSize);
    var sorted := Sort(matching, KeyFor(field), dir);
    var items := Window(sorted, skip, pageSize);
    WindowKeepsOrder(sorted, skip, pageSize, KeyFor(field), dir);
    WindowWithin(sorted, skip, pageSize);
    SortWithin(matching, KeyFor(field), dir);
    r := Page(items, page, pageSize, total);
  }

  /** `GET /authors/{author_name}/books`: books whose authors match, best average rating first,
      with the same pagination contract as list_books. */
  function GetAuthorBooks(books: seq<Book>, authorName: string, page: int, pageSize: int, rx: Matcher)
    : (r: Page<Book>)
    requires page >= 1 && 1 <= pageSize <= 100
    ensures r.page == page && r.pageSize == pageSize
    ensures r.total == |Where(books, (b: Book) => rx(authorName, b.authors))|
    ensures |r.items| <= pageSize
    ensures r.items == Window(Sort(Where(books, (b: Book) => rx(authorName, b.authors)),
                                   KeyFor("average_rating"), Descending),
                              SkipFor(page, pageSize), pageSize)
    ensures SortedBy(r.items, KeyFor("average_rating"), Descending)
    ensures forall b :: b in r.items ==> b in books && rx(authorName, b.authors)
  {
    var matching := Where(books, (b: Book) => rx(authorName, b.authors));
    var sorted := Sort(matching, KeyFor("average_rating"), Descending);
    var items := Window(sorted, SkipFor(page, pageSize), pageSize);
    WindowKeepsOrder(sorted, SkipFor(page, pageSize), pageSize, KeyFor("average_rating"), Descending);
    WindowWithin(sorted, SkipFor(page, pageSize), pageSize);
    SortWithin(matching, KeyFor("average_rating"), Descending);
    Page(items, page, pageSize, |matching|)
  }

  /** The `book_id`s on a user's reading list, in store order. */
  function ToReadIds(toRead: seq<ToRead>, userId: int): (ids: seq<int>)
    ensures forall id :: id in ids <==> ToRead(userId, id) in toRead
  {
    if toRead == [] then []
    else
      assert toRead == [toRead[0]] + toRead[1..];
      (if toRead[0].userId == userId then [toRead[0].bookId] else []) + ToReadIds(toRead[1..], userId)
  }

  /** `GET /users/{user_id}/to-read`: the books, in store order, whose id is on the user's list.
      Each stored book appears at most as often as it is stored, however often the list names it;
      a user with no list gets the empty list, not an error. */
  function GetUserToRead(books: seq<Book>, toRead: seq<ToRead>, userId: int): (r: seq<Book>)
    ensures forall b :: b in r <==> b in books && ToRead(userId, b.bookId) in toRead
    ensures forall b :: multiset(r)[b] <= multiset(books)[b]
    ensures (forall t :: t in toRead ==> t.userId != userId) ==> r == []
  {
    var ids := ToReadIds(toRead, userId);
    var r := Where(books, (b: Book) => b.bookId in ids);
    forall b ensures multiset(r)[b] <= multiset(books)[b] {
      WhereCounts(books, (x: Book) => x.bookId in ids, b);
    }
    assert ids != [] ==> ToRead(userId, ids[0]) in toRead by {
      if ids != [] {
        assert ids[0] in ids;
      }
    }
    r
  }
}
