/** `GET /users/{user_id}/recommendations`: a two-branch rule over the books and ratings
    collections. */
module Recommendations {
  import opened Cursor
  import opened Store

  datatype Kind = Popular | BasedOnRatings

  /** The response `{recommendations, type}`. */
  datatype Recommendation = Recommendation(books: seq<Book>, kind: Kind)

  function RatingsCountKey(b: Book): SortKey { Num(b.ratingsCount as real) }

  function AverageKey(b: Book): SortKey { Num(b.averageRating) }

  /** `find({"user_id": userId, "rating": {"$gte": 4}})`. */
  function HighlyRated(ratings: seq<Rating>, userId: int): (high: seq<Rating>)
    ensures forall r :: r in high <==> r in ratings && r.userId == userId && r.rating >= 4
    ensures forall r :: multiset(high)[r] == if r.userId == userId && r.rating >= 4 then multiset(ratings)[r] else 0
  {
    var high := Where(ratings, (x: Rating) => x.userId == userId && x.rating >= 4);
    assert forall r :: multiset(high)[r] == if r.userId == userId && r.rating >= 4 then multiset(ratings)[r] else 0 by {
      forall r {
        WhereCounts(ratings, (x: Rating) => x.userId == userId && x.rating >= 4, r);
      }
    }
    high
  }

  /** The `book_id`s of a list of ratings. */
  function BookIds(rs: seq<Rating>): (ids: seq<int>)
    ensures forall id :: id in ids <==> exists r :: r in rs && r.bookId == id
  {
    if rs == [] then []
    else
      assert rs == [rs[0]] + rs[1..];
      [rs[0].bookId] + BookIds(rs[1..])
  }

  /** The user gave this book a rating of at least 4. */
  predicate RatedHighly(ratings: seq<Rating>, userId: int, bookId: int) {
    exists r :: r in ratings && r.userId == userId && r.bookId == bookId && r.rating >= 4
  }

  /** Without a rating of at least 4 by the user: the `topK` most-rated books, type Popular.
      Otherwise: the `topK` best-averaged books among those the user has not rated at least 4,
      type BasedOnRatings. Books the user rated below 4 are not excluded. */
  function Recommend(books: seq<Book>, ratings: seq<Rating>, userId: int, topK: int): (r: Recommendation)
    requires 1 <= topK <= 100
    ensures r.kind == Popular <==> forall x :: x in ratings && x.userId == userId ==> x.rating < 4
    ensures |r.books| <= topK
    ensures forall b :: b in r.books ==> b in books
    ensures r.kind == Popular ==>
              && SortedBy(r.books, RatingsCountKey, Descending)
              && r.books == Take(Sort(books, RatingsCountKey, Descending), topK)
    ensures r.kind == BasedOnRatings ==>
              && SortedBy(r.books, AverageKey, Descending)
              && (forall b :: b in r.books ==> !RatedHighly(ratings, userId, b.bookId))
              && r.books == Take(Sort(Where(books, (b: Book) => !RatedHighly(ratings, userId, b.bookId)),
                                      AverageKey, Descending), topK)
  {
    var high := HighlyRated(ratings, userId);
    if high == [] then
      var sorted := Sort(books, RatingsCountKey, Descending);
      WindowKeepsOrder(sorted, 0, topK, RatingsCountKey, Descending);
      WindowWithin(sorted, 0, topK);
      SortWithin(books, RatingsCountKey, Descending);
      Recommendation(Take(sorted, topK), Popular)
    else
      var rated := BookIds(high);
      var candidates := Where(books, (b: Book) => b.bookId !in rated);
      WhereCongruent(books, (b: Book) => b.bookId !in rated,
                     (b: Book) => !RatedHighly(ratings, userId, b.bookId));
      var sorted := Sort(candidates, AverageKey, Descending);
      WindowKeepsOrder(sorted, 0, topK, AverageKey, Descending);
      WindowWithin(sorted, 0, topK);
      SortWithin(candidates, AverageKey, Descending);
      assert high[0] in high;
      Recommendation(Take(sorted, topK), BasedOnRatings)
  }

  /** The exclusion covers only books rated at least 4: when the catalogue fits in `topK`,
      every book the user did not rate that highly, including one rated 1 to 3, is
      recommended. */
  lemma LowRatedBooksStay(books: seq<Book>, ratings: seq<Rating>, userId: int, topK: int, b: Book)
    requires 1 <= topK <= 100 && |books| <= topK
    requires Recommend(books, ratings, userId, topK).kind == BasedOnRatings
    requires b in books && !RatedHighly(ratings, userId, b.bookId)
    ensures b in Recommend(books, ratings, userId, topK).books
  {
    var candidates := Where(books, (x: Book) => !RatedHighly(ratings, userId, x.bookId));
    var sorted := Sort(candidates, AverageKey, Descending);
    SortWithin(candidates, AverageKey, Descending);
    assert |sorted| == |candidates| by {
      assert |multiset(sorted)| == |multiset(candidates)|;
    }
    assert Take(sorted, topK) == sorted;
  }
}
