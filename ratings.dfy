/** The rating endpoints: `GET /books/{book_id}/ratings/summary` and the authenticated
    `POST /ratings` upsert. */
module RatingQueries {
  import opened Wrappers
  import opened Store

  // ---------------------------------------------------------------------------
  // Summary

  /** The `rating` values of the rows for one book, in store order: what `$match` followed by
      `$group` with `$push` collects. */
  function RatingValues(ratings: seq<Rating>, bookId: int): (values: seq<int>)
    ensures forall x :: x in values <==> exists row :: row in ratings && row.bookId == bookId && row.rating == x
    ensures values == [] <==> forall row :: row in ratings ==> row.bookId != bookId
    ensures |values| == RowsFor(ratings, bookId)
  {
    if ratings == [] then []
    else
      assert ratings == [ratings[0]] + ratings[1..];
      var rest := RatingValues(ratings[1..], bookId);
      assert rest != [] ==> rest[0] in rest;
      (if ratings[0].bookId == bookId then [ratings[0].rating] else []) + rest
  }

  /** The number of rating rows of a book, as plain recursion rather than `|Where(...)|` so that
      the proofs by induction over the rows stay small. */
  function RowsFor(ratings: seq<Rating>, bookId: int): nat {
    if ratings == [] then 0
    else (if ratings[0].bookId == bookId then 1 else 0) + RowsFor(ratings[1..], bookId)
  }

  /** The number of rating rows of a book carrying the value `v`. */
  function RowsRated(ratings: seq<Rating>, bookId: int, v: int): nat {
    if ratings == [] then 0
    else (if ratings[0].bookId == bookId && ratings[0].rating == v then 1 else 0) + RowsRated(ratings[1..], bookId, v)
  }

  /** `$push` collects one value per row of the book: each value occurs as often as the book
      has rows carrying it. */
  lemma {:induction false} RatingValueCounts(ratings: seq<Rating>, bookId: int, v: int)
    ensures multiset(RatingValues(ratings, bookId))[v] == RowsRated(ratings, bookId, v)
  {
    if ratings != [] {
      RatingValueCounts(ratings[1..], bookId, v);
      var head := if ratings[0].bookId == bookId then [ratings[0].rating] else [];
      var rest := RatingValues(ratings[1..], bookId);
      assert RatingValues(ratings, bookId) == head + rest;
      assert multiset(head + rest)[v] == multiset(head)[v] + multiset(rest)[v];
    }
  }

  function Sum(values: seq<int>): int {
    if values == [] then 0 else values[0] + Sum(values[1..])
  }

  /** The histogram of a book with no ratings. */
  const ZeroHistogram: map<int, nat> := map[1 := 0, 2 := 0, 3 := 0, 4 := 0, 5 := 0]

  /** Counts each rating value into the buckets 1 to 5. A value outside 1..5 has no bucket:
      the increment fails (an unhandled error), modelled as None. */
  method BuildHistogram(values: seq<int>) returns (h: Option<map<int, nat>>)
    ensures h.Some? <==> forall i :: 0 <= i < |values| ==> 1 <= values[i] <= 5
    ensures h.Some? ==> h.value.Keys == {1, 2, 3, 4, 5}
    ensures h.Some? ==> forall v :: 1 <= v <= 5 ==> h.value[v] == multiset(values)[v]
  {
    var histogram := ZeroHistogram;
    for i := 0 to |values|
      invariant histogram.Keys == {1, 2, 3, 4, 5}
      invariant forall j :: 0 <= j < i ==> 1 <= values[j] <= 5
      invariant forall v :: 1 <= v <= 5 ==> histogram[v] == multiset(values[..i])[v]
    {
      var rating := values[i];
      if rating !in histogram {
        return None;
      }
      assert values[..i + 1] == values[..i] + [rating];
      histogram := histogram[rating := histogram[rating] + 1];
    }
    assert values[..|values|] == values;
    h := Some(histogram);
  }

  /** When every value is a valid rating, the five buckets together hold all of them. */
  lemma {:induction false} BucketsCoverAll(values: seq<int>)
    requires forall i :: 0 <= i < |values| ==> 1 <= values[i] <= 5
    ensures multiset(values)[1] + multiset(values)[2] + multiset(values)[3]
            + multiset(values)[4] + multiset(values)[5] == |values|
  {
    if values != [] {
      assert values == [values[0]] + values[1..];
      BucketsCoverAll(values[1..]);
    }
  }

  function HistogramTotal(h: map<int, nat>): int
    requires h.Keys == {1, 2, 3, 4, 5}
  {
    h[1] + h[2] + h[3] + h[4] + h[5]
  }

  /** The response of the summary endpoint. `averageRating` is the exact mean; the response
      rounds it to two decimals. */
  datatype RatingSummary = RatingSummary(bookId: int, averageRating: real, ratingsCount: nat, histogram: map<int, nat>)

  /** `GET /books/{book_id}/ratings/summary`: 404 for a missing book before any aggregation;
      the zero state for a book without ratings; otherwise the count, the mean and the
      histogram of the book's ratings, whose buckets add up to the count. */
  method GetRatingsSummary(books: seq<Book>, ratings: seq<Rating>, bookId: int) returns (r: Result<RatingSummary>)
    ensures FindBook(books, bookId).None? ==> r == Err(NotFound)
    ensures FindBook(books, bookId).Some? && RatingValues(ratings, bookId) == [] ==>
              r == Ok(RatingSummary(bookId, 0.0, 0, ZeroHistogram))
    ensures FindBook(books, bookId).Some? ==>
              (r.Ok? <==> forall x :: x in RatingValues(ratings, bookId) ==> 1 <= x <= 5)
    ensures r.Err? ==> r.error == (if FindBook(books, bookId).None? then NotFound else Internal)
    ensures r.Ok? ==> var values := RatingValues(ratings, bookId);
              && r.value.bookId == bookId
              && r.value.ratingsCount == |values|
              && r.value.histogram.Keys == {1, 2, 3, 4, 5}
              && (forall v :: 1 <= v <= 5 ==> r.value.histogram[v] == multiset(values)[v])
              && HistogramTotal(r.value.histogram) == r.value.ratingsCount
              && (values != [] ==> r.value.averageRating == Sum(values) as real / |values| as real)
  {
    if FindBook(books, bookId).None? {
      return Err(NotFound);
    }
    var values := RatingValues(ratings, bookId);
    if values == [] {
      return Ok(RatingSummary(bookId, 0.0, 0, ZeroHistogram));
    }
    var histogram := BuildHistogram(values);
    if histogram.None? {
      var i :| 0 <= i < |values| && !(1 <= values[i] <= 5);
      assert values[i] in values;
      return Err(Internal);
    }
    BucketsCoverAll(values);
    r := Ok(RatingSummary(bookId, Sum(values) as real / |values| as real, |values|, histogram.value));
  }

  // ---------------------------------------------------------------------------
  // Upsert

  datatype UpsertStatus = Created | Updated

  /** The unique index on (user_id, book_id): no two rows share a pair. */
  predicate UniquePairs(rows: seq<Rating>) {
    forall i, j :: 0 <= i < j < |rows| ==> rows[i].userId != rows[j].userId || rows[i].bookId != rows[j].bookId
  }

  /** The position of the row for (userId, bookId), if any. */
  function IndexOf(rows: seq<Rating>, userId: int, bookId: int): (k: Option<nat>)
    ensures k.Some? ==> k.value < |rows| && rows[k.value].userId == userId && rows[k.value].bookId == bookId
    ensures k.None? ==> forall i :: 0 <= i < |rows| ==> rows[i].userId != userId || rows[i].bookId != bookId
  {
    if rows == [] then None
    else if rows[0].userId == userId && rows[0].bookId == bookId then Some(0)
    else match IndexOf(rows[1..], userId, bookId)
      case None => None
      case Some(k) => Some(k + 1)
  }

  /** The stored rating of a user for a book: the rows seen as a map keyed by the pair. */
  function LookupIn(rows: seq<Rating>, userId: int, bookId: int): Option<int> {
    match IndexOf(rows, userId, bookId)
    case None => None
    case Some(k) => Some(rows[k].rating)
  }

  /** Under the unique index a stored row determines the lookup of its pair. */
  lemma LookupFindsRow(rows: seq<Rating>, k: nat)
    requires UniquePairs(rows) && k < |rows|
    ensures LookupIn(rows, rows[k].userId, rows[k].bookId) == Some(rows[k].rating)
  {
    var found := IndexOf(rows, rows[k].userId, rows[k].bookId);
    assert found.Some?;
    assert found.value == k;
  }

  /** Replacing the rating on the row of one pair, or appending a row for a pair not yet
      stored, keeps the index unique, sets that pair and leaves every other pair's lookup as
      it was. */
  lemma UpsertRowsLookup(rows: seq<Rating>, rows': seq<Rating>, userId: int, bookId: int, rating: int)
    requires UniquePairs(rows)
    requires || (exists k :: 0 <= k < |rows| && rows[k].userId == userId && rows[k].bookId == bookId
                            && rows' == rows[k := Rating(userId, bookId, rating)])
             || (LookupIn(rows, userId, bookId).None? && rows' == rows + [Rating(userId, bookId, rating)])
    ensures UniquePairs(rows')
    ensures LookupIn(rows', userId, bookId) == Some(rating)
    ensures forall u, b :: u != userId || b != bookId ==> LookupIn(rows', u, b) == LookupIn(rows, u, b)
  {
    assert forall i :: 0 <= i < |rows| ==> rows'[i] == rows[i] || rows'[i] == Rating(userId, bookId, rating);
    assert forall i :: 0 <= i < |rows'| ==> (rows'[i].userId == userId && rows'[i].bookId == bookId) || (i < |rows| && rows'[i] == rows[i]);
    assert UniquePairs(rows') by {
      forall i, j | 0 <= i < j < |rows'|
        ensures rows'[i].userId != rows'[j].userId || rows'[i].bookId != rows'[j].bookId
      {
        if j == |rows| {
          assert IndexOf(rows, userId, bookId).None?;
        }
      }
    }
    var k' :| 0 <= k' < |rows'| && rows'[k'] == Rating(userId, bookId, rating);
    LookupFindsRow(rows', k');
    forall u, b | u != userId || b != bookId
      ensures LookupIn(rows', u, b) == LookupIn(rows, u, b)
    {
      match IndexOf(rows, u, b)
      case Some(i) =>
        assert rows'[i] == rows[i];
        LookupFindsRow(rows', i);
      case None =>
        assert IndexOf(rows', u, b).None?;
    }
  }

  /** The ratings collection, the one collection the API writes. */
  class RatingStore {
    var rows: seq<Rating>

    ghost predicate Valid()
      reads this
    {
      UniquePairs(rows)
    }

    constructor (initial: seq<Rating>)
      requires UniquePairs(initial)
      ensures Valid() && rows == initial
    {
      rows := initial;
    }

    function Lookup(userId: int, bookId: int): Option<int>
      reads this
    {
      LookupIn(rows, userId, bookId)
    }

    /** `POST /ratings`: a rating outside 1..5 is rejected before the store is touched (422);
        a missing book is a 404 and changes nothing; otherwise the pair is mapped to the new
        rating, the status is Created exactly when the pair had no rating before, and every
        other pair keeps its rating. */
    method Upsert(books: seq<Book>, userId: int, bookId: int, rating: int) returns (r: Result<UpsertStatus>)
      requires Valid()
      modifies this
      ensures Valid()
      ensures !(1 <= rating <= 5) ==> r == Err(Unprocessable) && rows == old(rows)
      ensures 1 <= rating <= 5 && FindBook(books, bookId).None? ==> r == Err(NotFound) && rows == old(rows)
      ensures 1 <= rating <= 5 && FindBook(books, bookId).Some? ==>
                && r == Ok(if old(Lookup(userId, bookId)).None? then Created else Updated)
                && Lookup(userId, bookId) == Some(rating)
                && |rows| == |old(rows)| + (if r.value == Created then 1 else 0)
      ensures forall u, b :: u != userId || b != bookId ==> Lookup(u, b) == old(Lookup(u, b))
    {
      if !(1 <= rating <= 5) {
        return Err(Unprocessable);
      }
      if FindBook(books, bookId).None? {
        return Err(NotFound);
      }
      var row := Rating(userId, bookId, rating);
      match IndexOf(rows, userId, bookId)
      case Some(k) =>
        UpsertRowsLookup(rows, rows[k := row], userId, bookId, rating);
        rows := rows[k := row];
        r := Ok(Updated);
      case None =>
        UpsertRowsLookup(rows, rows + [row], userId, bookId, rating);
        rows := rows + [row];
        r := Ok(Created);
    }
  }

  /** Two identical upserts: the second reports Updated, adds no row and leaves the pair's
      rating as the first set it. */
  method UpsertTwice(store: RatingStore, books: seq<Book>, userId: int, bookId: int, rating: int)
    returns (first: Result<UpsertStatus>, second: Result<UpsertStatus>)
    requires store.Valid()
    modifies store
    ensures store.Valid()
    ensures first.Ok? ==> second == Ok(Updated) && |store.rows| == |old(store.rows)| + (if first.value == Created then 1 else 0)
    ensures first.Ok? ==> store.Lookup(userId, bookId) == Some(rating)
    ensures first.Err? ==> second == first && store.rows == old(store.rows)
  {
    first := store.Upsert(books, userId, bookId, rating);
    second := store.Upsert(books, userId, bookId, rating);
  }
}
