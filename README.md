# Book-ratings API: query rules and rate limiter in Dafny

This project models the core logic of a FastAPI + MongoDB service over the goodbooks-10k
data set: books, tags, book–tag links, to-read lists and user ratings. It covers two parts.

* **The sliding-window rate limiter** (`rate_limiter.py`). A `RateLimiter` object keeps a log
  of request timestamps per key. `is_rate_limited` prunes the key's log to the entries
  younger than the window. It refuses the request when the pruned log already holds `limit`
  entries, and otherwise records the request. The middleware keys the limiter by
  `"<client host>:<path>"`, exempts four paths, uses 60 requests per 60 seconds and reports
  the remaining allowance.
* **The query and aggregation rules of the endpoints** (`main.py`), over an in-memory store
  that holds one sequence per collection. The Mongo operators mean what they say:
  * `find` is `Cursor.Where`;
  * `sort` is `Cursor.Sort` by a key and a direction;
  * `skip`/`limit` is `Cursor.Window`;
  * `count_documents` is the length of the filtered sequence;
  * `$lookup` + `$size` counts the matching rows.

Modules:

| file | module | contents |
|---|---|---|
| `wrappers.dfy` | `Wrappers` | `Option`, `Result` and the HTTP error kinds (404, 422, 500) |
| `cursor.dfy` | `Cursor` | filter, sort with a Mongo-like ordering of null < numbers < strings, skip/limit, the paged envelope |
| `store.dfy` | `Store` | the records and `find_one` by `book_id` |
| `books.dfy` | `BookQueries` | `list_books`: filter document, sort mapping, pagination; `get_author_books`; `get_user_to_read` |
| `tags.dfy` | `TagQueries` | `get_book_tags` and `list_tags` |
| `ratings.dfy` | `RatingQueries` | the ratings summary and histogram; `upsert_rating` on a `RatingStore` object |
| `recommendations.dfy` | `Recommendations` | the two-branch recommendation rule |
| `rate_limiter.dfy` | `RateLimiting` | the `RateLimiter` class, its specification function `Check`, and the middleware |

Imperative code in the source is imperative here:
* the limiter is a class whose `requests` map is updated in place;
* the filter document is built key by key in a method;
* the histogram is filled by a loop;
* the upsert mutates a `RatingStore` object.

Each of these methods is proved against a specification function or predicate. Pure rules
are functions.

## Model

| member | source | states |
|---|---|---|
| RateLimiting.Prune | rate_limiter.py:11 | a timestamp survives exactly when it was in the log and `now - t < window`; the log never grows |
| RateLimiting.PruneKeepsOrder | rate_limiter.py:11 | the surviving timestamps keep their original relative order (the pruned log is a subsequence) |
| RateLimiting.PruneCounts | rate_limiter.py:11 | every timestamp younger than the window is kept as often as it occurs; every older one is dropped |
| RateLimiting.PruneKeepsYoung | rate_limiter.py:11 | a log whose entries are all inside the window is left unchanged |
| RateLimiting.Check | rate_limiter.py:9-17 | one call on one key's log: limited iff the pruned log holds at least `limit` entries; the new log holds exactly the surviving entries plus `now` when admitted; it grows by at most one |
| RateLimiting.CheckWindowBound | rate_limiter.py:11-17 | after a check every stored timestamp is younger than the window, and an entry exactly `window` old is gone |
| RateLimiting.CheckOutcome | rate_limiter.py:13-17 | limited iff the pruned log holds at least `limit` entries; a limited check stores exactly the pruned log; an admitted one stores it with `now` appended, one entry longer |
| RateLimiting.CheckKeepsBound | rate_limiter.py:13-17 | "log length at most `limit`" is preserved by every check with that limit |
| RateLimiting.FirstRequestAdmitted | rate_limiter.py:7 | an unseen key behaves as an empty log, so its first request is admitted when `limit >= 1` |
| RateLimiting.BurstWithinWindow | rate_limiter.py:9-17 | for requests at non-decreasing times inside one window, the i-th is refused iff the initial log length plus i reaches `limit` |
| RateLimiting.FreshKeyBurst | rate_limiter.py:9-17 | from a fresh key, the first `limit` requests inside one window are admitted and the next one is refused |
| RateLimiting.RateLimiter.constructor | rate_limiter.py:6-7 | a new limiter holds no logs |
| RateLimiting.RateLimiter.IsRateLimited | rate_limiter.py:9-17 | the key's log becomes the pruned log, plus `now` iff not limited; the result and new log agree with `Check`; no other key changes; the window bound holds and the per-key length bound is kept |
| RateLimiting.Middleware | rate_limiter.py:21-37 | the four exempt paths never touch the limiter; other requests are checked under `"<host or unknown>:<path>"` with limit 60 and window 60; 429 iff limited; the remaining header is `60 - len(log)` and lies in [0, 59] |
| RateLimiting.RateLimitKey | rate_limiter.py:26-27 | the key is the host, a ':' and the path, so it ends with the path; a request without a client address is keyed under `unknown:` |
| RateLimiting.KeyDeterminesClientAndPath | rate_limiter.py:26-27 | distinct (host, path) pairs give distinct keys when hosts have no '/' and paths start with '/' |
| Cursor.Where | main.py:163-167 | `find(filter)`: an element is in the result iff it is in the collection and satisfies the filter; the result is no longer than the collection |
| Cursor.WhereCounts | main.py:167 | each matching element is kept with its multiplicity and each other one dropped |
| Cursor.WhereAppend | main.py:167 | filtering a collection with one more row at the end adds that row iff it matches |
| Cursor.WhereCongruent | main.py:167 | two filters that agree on every element select the same sequence |
| Cursor.Sort | main.py:167 | `sort(field, direction)`: the result is ordered by the key in that direction and is a permutation of the input |
| Cursor.SortWithin | main.py:167 | sorting keeps exactly the same elements |
| Cursor.Window | main.py:166-167 | `skip(n).limit(k)` for `k >= 1` (every caller's page size or `top_k`): at most `k` items, fewer only at the end of the input, and item i is input item `n + i` |
| Cursor.WindowKeepsOrder | main.py:167 | a window of a sorted sequence is sorted |
| Cursor.SkipFor | main.py:166 | `skip = (page-1)*page_size`, never negative for `page >= 1` and zero on the first page |
| Cursor.PagesAdjacent | main.py:166-167 | the skip of page `p+1` is exactly `page_size` more than that of page `p`, so within one fixed sorted result consecutive windows neither overlap nor leave a gap |
| Cursor.PageLocates | main.py:166-167 | within one fixed sorted result, element `i` is item `i % page_size` of the window that page `i / page_size + 1` selects, so those windows cover that result |
| Store.FindBook | main.py:182-185 | `find_one({"book_id": id})`: None iff no book has the id, otherwise a stored book with that id |
| BookQueries.BuildFilter | main.py:129-149 | the filter holds `$or` over title and authors iff `q` is non-empty; the `average_rating` bound iff `min_avg` is given; the year key iff a year bound is given, with `$gte`/`$lte` for exactly the bounds supplied; and it selects exactly the books meeting every supplied condition |
| BookQueries.Matches | main.py:129-149 | how the store evaluates the filter document against one book: every key present must hold; the empty document matches every book; an empty `$or`, which the handler never builds and the store would reject, is read as a false disjunction by model convention |
| BookQueries.FilterMeaning | main.py:129-149 | a filter document of that shape matches a book iff the book meets all supplied conditions, with the text query a disjunction over title and authors |
| BookQueries.SortFieldOf | main.py:152-159 | the sort field is always one of the four stored fields; it is the mapped field for the four names and `average_rating` otherwise |
| BookQueries.DirectionOf | main.py:160 | descending iff `order == "desc"` |
| BookQueries.ListBooks | main.py:116-179 | `total` is the number of selected books whatever the page; items are the selected books sorted by the mapped field and direction, skipped by `(page-1)*page_size` and limited to `page_size`; they are sorted, at most `page_size`, and each is a stored, selected book |
| BookQueries.GetAuthorBooks | main.py:222-241 | the same paging contract for the books whose authors match, best average rating first |
| BookQueries.ToReadIds | main.py:286-288 | an id is collected iff the user has a to-read row for it |
| BookQueries.GetUserToRead | main.py:284-294 | a book is returned iff it is stored and on the user's list; no book is duplicated by repeated list rows; a user without a list gets an empty list |
| TagQueries.LookupTag | main.py:199-210 | `$lookup` + `$unwind` + `$project` of one link row: a view occurs iff a tag with the row's id has its name, and there are exactly as many views as tags with the row's id |
| TagQueries.LookupTagCounts | main.py:199-210 | each view occurs once per tag with its id and name, and only with the row's id and count |
| TagQueries.JoinTags | main.py:199-210 | a view is produced iff some link row and some tag share the tag id |
| TagQueries.JoinTagsCounts | main.py:199-210 | the join yields one view per (link row, tag) pair: a view occurs (rows with its id and count) × (tags with its id and name) times |
| TagQueries.RowsOfBookCounts | main.py:199 | counting a tag id and count among the rows the `$match` selects equals counting the book's rows with them in the whole collection |
| TagQueries.BookJoinCounts | main.py:199-210 | for one book, a view occurs once per pair of a link row of the book with its id and count and a tag with its id and name |
| TagQueries.GetBookTags | main.py:190-220 | 404 iff the book is absent; otherwise exactly the tags linked to the book's Goodreads id, each with the link's count, in descending count; each item occurs once per pair of a matching link row and tag, so duplicated link rows give duplicated items |
| TagQueries.BookWithoutTags | main.py:197-218 | a stored book with no link rows gets an empty list, not an error |
| TagQueries.BookCount | main.py:250-258 | `$lookup` + `$size`: the number of link rows naming the tag, at most the number of rows, and zero iff no row names it |
| TagQueries.CountsEveryRow | main.py:249-257 | `book_count` counts link rows: one more row for a tag adds one, even for a book already linked |
| TagQueries.WithCounts | main.py:256-258 | `$addFields`: every tag exactly once, each item carrying a stored tag's id and name and its true `book_count`, and every stored tag represented |
| TagQueries.ListTags | main.py:244-281 | items are the tags with their `book_count`, in descending count, skipped and limited to the page; each carries its stored name and its true count; `total` is the number of tags whatever the page |
| RatingQueries.RatingValues | main.py:302-313 | `$match` + `$push`: a value is collected iff some rating row of the book carries it; empty iff the book has no ratings; exactly as many values as the book has rating rows |
| RatingQueries.RatingValueCounts | main.py:302-313 | each value occurs as often as the book has rating rows carrying it, so `ratings_count` and each histogram bucket count rows |
| RatingQueries.BuildHistogram | main.py:326-328 | succeeds iff every value is in 1..5; the buckets are exactly 1..5 and bucket v counts the occurrences of v |
| RatingQueries.BucketsCoverAll | main.py:326-328 | when every value is in 1..5 the five bucket counts add up to the number of values |
| RatingQueries.GetRatingsSummary | main.py:296-335 | 404 for a missing book, before any aggregation; the zero summary for a book without ratings; otherwise the count, the mean and the 1..5 histogram, whose buckets sum to the count; a value outside 1..5 is a server error |
| RatingQueries.IndexOf | main.py:344-345 | the position of the row for a (user, book) pair, or None iff no row has it |
| RatingQueries.LookupFindsRow | main.py:344-348 | under the unique (user, book) index a stored row determines its pair's rating |
| RatingQueries.UpsertRowsLookup | main.py:344-348 | replacing the pair's row, or appending one for a new pair, keeps the index unique, sets the pair and leaves every other pair as it was |
| RatingQueries.RatingStore.constructor | load_data.py:17 | a store starts from rows with unique (user, book) pairs |
| RatingQueries.RatingStore.Upsert | main.py:338-353 | rating outside 1..5 is 422 and a missing book is 404, both with no change; otherwise the pair maps to the new rating, the status is Created iff the pair had no rating before, a row is added iff Created, and every other pair keeps its rating |
| RatingQueries.UpsertTwice | main.py:338-353 | repeating an identical successful upsert reports Updated and leaves the pair's rating as set |
| Recommendations.HighlyRated | main.py:362 | `find({user_id, rating >= 4})`: exactly the user's ratings of at least 4, each as often as it is stored |
| Recommendations.BookIds | main.py:374 | an id is collected iff some of the ratings names it |
| Recommendations.Recommend | main.py:356-386 | "popular" iff the user has no rating of at least 4; popular: the first `top_k` of all books by descending `ratings_count`; otherwise: the first `top_k` by descending `average_rating` among books the user did not rate at least 4; never more than `top_k`, all stored books |
| Recommendations.LowRatedBooksStay | main.py:374-379 | books the user rated below 4 are not excluded: when the catalogue fits in `top_k`, each of them is recommended |

## Left out

* Regular expressions. `$regex` with option `i` is the parameter `rx` (pattern, subject). Every
  result is stated for an arbitrary matcher.
* Invalid patterns. When `q` or `author_name` is not a valid regular expression, the store
  raises inside `count_documents`/`find` (main.py:163, 167, 226, 229) and the general
  handler answers 500 (main.py:396-402). The total matcher `rx` always yields a page, so
  `ListBooks` and `GetAuthorBooks` do not model that error path.
* Floating point:
  * averages, `min_avg` and `$avg` are exact reals;
  * `round(average, 2)` of the summary is not modelled, and `GetRatingsSummary` states the exact
    mean.
* `time.time()`. Time is an integer parameter `now`.
* Concurrency. The limiter and the store see single sequential calls. The limiter is a shared
  singleton across async requests, and `update_one(..., upsert=True)` is atomic in the store.
  Neither is modelled.
* Raising `HTTPException(429)` inside the middleware. This is modelled as the outcome
  `TooManyRequests`. How the framework turns it into a response is not modelled.
* `call_next` and the response object of the middleware. The outcome records only whether
  the request is passed on and the two header values.
* `main.py` never registers `rate_limit_middleware` (it registers CORS at main.py:24-30
  and the logging middleware at main.py:47-64). The model treats `rate_limiter.py` on its own.
* Mongo sort tie order. `Cursor.Sort` is an insertion sort, one sorted permutation among those
  the store may return. Ties between equal keys may come back in another order from the store.
  Each page is a separate query, and the store promises no stable order among tied documents
  from one query to the next. So when keys tie (`sort=year`, a tag's `book_count`, a link's
  `count`), pages fetched by separate requests may overlap or leave gaps. `Cursor.PagesAdjacent`
  and `Cursor.PageLocates` hold only for one fixed sorted result.
* Mixed-type keys. Mongo's full cross-type ordering is reduced to null < numbers < strings.
* The `_id` stringification loops (main.py:169-172, 217-218, 231-234, 273-274, 291-292,
  367-370, 381-384) only rewrite the `_id` field. That field is not modelled, so the result lists are the cursor results.
* `get_book`, `/healthz`, `/metrics`, the root route, the logging middleware, CORS and the
  exception handlers. These are I/O and framework glue with no rule beyond `Store.FindBook`.
* The API-key check (`require_api_key`, main.py:41-44, and `auth.py`). It is a single string
  comparison done before `upsert_rating` runs. `RatingStore.Upsert` models the call after it
  has passed.
* `load_data.py`. It is CSV download and collection replacement, which is pure I/O.
* Query-parameter validation by the framework:
  * `page >= 1` and `1 <= page_size <= 100` (and `top_k`) are preconditions;
  * the year and `min_avg` ranges and the `sort`/`order` patterns are not preconditions,
    because the functions behave sensibly on any value, including the default branch of the
    sort map.
* The `tag` parameter of `list_books`. The source accepts it and never uses it, so the model
  has no such parameter.
* The rating bounds `1 <= rating <= 5` are checked by the request model (main.py:67-70)
  before the handler runs. `RatingStore.Upsert` checks them first and answers 422 to stand
  for that rejection.
* Integer widths. All integers are unbounded. Python's are too, but the store encodes only
  64-bit integers: a `book_id`, `user_id` or skip `(page-1)*page_size` of 2^63 or more reaching
  a query or update (main.py:166-167, 183, 192, 227-229, 260, 286, 298, 340, 344, 362) raises
  `OverflowError` in the driver, and the general handler answers 500 (main.py:396-402). The
  model has no such error path: for those inputs it answers as for any other value (a 404 from
  `FindBook`, `GetBookTags`, `GetRatingsSummary` and `RatingStore.Upsert`, an empty to-read
  list, an upsert, a popular list, or an empty page from `ListBooks`, `GetAuthorBooks` and
  `ListTags`).

Where the service's description and the code differ, the model follows the code:
* Recommendations exclude only the books the user rated at least 4, not every book the user
  rated (`Recommendations.LowRatedBooksStay`).
* The recommendation branch ignores tags, although the docstring mentions them.
* `list_tags` reports `total` as the count of all tags. Its pipeline has no filter, so this
  equals the unpaged number of items.
* A stored rating outside 1..5 would make the histogram increment fail. This can only
  happen with data written around the API, and it is modelled as a server error
  (`Err(Internal)`) instead of a response.
