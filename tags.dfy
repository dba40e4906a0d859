/** The tag endpoints: `GET /books/{book_id}/tags` (a join through the Goodreads id) and
    `GET /tags` (tag popularity). */
module TagQueries {
  import opened Wrappers
  import opened Cursor
  import opened Store

  /** One item of a book's tag list: `{tag_id, tag_name, count}`. */
  datatype BookTagView = BookTagView(tagId: int, tagName: string, count: int)

  /** One item of the tag list: `{tag_id, tag_name, book_count}`. */
  datatype TagCount = TagCount(tagId: int, tagName: string, bookCount: nat)

  function CountKey(v: BookTagView): SortKey { Num(v.count as real) }

  function BookCountKey(t: TagCount): SortKey { Num(t.bookCount as real) }

  /** The number of tags with this id and name; at most one under the unique `tag_id` index. */
  function TagsNamed(tags: seq<Tag>, tagId: int, tagName: string): nat {
    |Where(tags, (t: Tag) => t.tagId == tagId && t.tagName == tagName)|
  }

  /** The number of link rows of one book with this tag id and count. Row counts that feed an
      induction are written as plain recursion rather than `|Where(...)|`: the proofs by
      induction stay small that way, while `Where`'s quantified contract slows them down. */
  function LinksOf(bookTags: seq<BookTag>, goodreadsBookId: int, tagId: int, count: int): nat {
    if bookTags == [] then 0
    else
      var row := bookTags[0];
      (if row.goodreadsBookId == goodreadsBookId && row.tagId == tagId && row.count == count then 1 else 0)
        + LinksOf(bookTags[1..], goodreadsBookId, tagId, count)
  }

  /** `$lookup` of one link row into the tags collection by `tag_id`, then `$unwind` and
      `$project`: one view for each tag carrying the row's tag id; none when no tag has it. */
  function LookupTag(row: BookTag, tags: seq<Tag>): (views: seq<BookTagView>)
    ensures forall v :: v in views <==>
      exists tag :: tag in tags && tag.tagId == row.tagId && v == BookTagView(row.tagId, tag.tagName, row.count)
    ensures |views| == |Where(tags, (t: Tag) => t.tagId == row.tagId)|
  {
    if tags == [] then []
    else
      assert tags == [tags[0]] + tags[1..];
      (if tags[0].tagId == row.tagId then [BookTagView(row.tagId, tags[0].tagName, row.count)] else [])
        + LookupTag(row, tags[1..])
  }

  /** `$unwind` emits a view once for every matching tag: a view occurs as often as there are
      tags with its id and name, provided it carries the row's id and count. */
  lemma {:induction false} LookupTagCounts(row: BookTag, tags: seq<Tag>, v: BookTagView)
    ensures multiset(LookupTag(row, tags))[v] ==
              if v.tagId == row.tagId && v.count == row.count then TagsNamed(tags, v.tagId, v.tagName) else 0
  {
    if tags != [] {
      LookupTagCounts(row, tags[1..], v);
      assert tags == [tags[0]] + tags[1..];
    }
  }

  /** The join of link rows with tags, row by row. */
  function JoinTags(rows: seq<BookTag>, tags: seq<Tag>): (views: seq<BookTagView>)
    ensures forall v :: v in views <==>
      exists row, tag :: row in rows && tag in tags && row.tagId == tag.tagId
                         && v == BookTagView(row.tagId, tag.tagName, row.count)
  {
    if rows == [] then []
    else
      assert rows == [rows[0]] + rows[1..];
      LookupTag(rows[0], tags) + JoinTags(rows[1..], tags)
  }

  /** The number of link rows with this tag id and count. */
  function RowsWith(rows: seq<BookTag>, tagId: int, count: int): nat {
    if rows == [] then 0
    else (if rows[0].tagId == tagId && rows[0].count == count then 1 else 0) + RowsWith(rows[1..], tagId, count)
  }

  /** The join yields one view per (link row, tag) pair: a view occurs as often as there are
      rows with its id and count times the tags with its id and name. */
  lemma {:induction false} JoinTagsCounts(rows: seq<BookTag>, tags: seq<Tag>, v: BookTagView)
    ensures multiset(JoinTags(rows, tags))[v] == RowsWith(rows, v.tagId, v.count) * TagsNamed(tags, v.tagId, v.tagName)
  {
    if rows != [] {
      var n := TagsNamed(tags, v.tagId, v.tagName);
      var hit := rows[0].tagId == v.tagId && rows[0].count == v.count;
      JoinTagsCounts(rows[1..], tags, v);
      LookupTagCounts(rows[0], tags, v);
      var head := LookupTag(rows[0], tags);
      var tail := JoinTags(rows[1..], tags);
      assert JoinTags(rows, tags) == head + tail;
      assert multiset(head + tail)[v] == multiset(head)[v] + multiset(tail)[v];
      assert multiset(head)[v] == if hit then n else 0;
      assert RowsWith(rows, v.tagId, v.count) == (if hit then 1 else 0) + RowsWith(rows[1..], v.tagId, v.count);
      CountStep(multiset(head)[v], multiset(tail)[v], RowsWith(rows[1..], v.tagId, v.count),
                RowsWith(rows, v.tagId, v.count), n, hit);
    }
  }

  lemma CountStep(head: nat, tail: nat, rowsTail: nat, rowsAll: nat, n: nat, hit: bool)
    requires head == (if hit then n else 0) && tail == rowsTail * n
    requires rowsAll == (if hit then 1 else 0) + rowsTail
    ensures head + tail == rowsAll * n
  {
    if hit {
      assert (1 + rowsTail) * n == n + rowsTail * n;
    }
  }

  /** The link rows of one book, as the first `$match` stage selects them. */
  function RowsOfBook(bookTags: seq<BookTag>, goodreadsBookId: int): seq<BookTag> {
    Where(bookTags, (row: BookTag) => row.goodreadsBookId == goodreadsBookId)
  }

  /** Counting one tag id and count among a book's rows is counting the book's rows with
      that tag id and count in the whole collection. */
  lemma {:induction false} RowsOfBookCounts(bookTags: seq<BookTag>, goodreadsBookId: int, tagId: int, count: int)
    ensures RowsWith(RowsOfBook(bookTags, goodreadsBookId), tagId, count) == LinksOf(bookTags, goodreadsBookId, tagId, count)
  {
    if bookTags != [] {
      RowsOfBookCounts(bookTags[1..], goodreadsBookId, tagId, count);
      var rest := RowsOfBook(bookTags[1..], goodreadsBookId);
      var row := bookTags[0];
      assert bookTags == [row] + bookTags[1..];
      if row.goodreadsBookId == goodreadsBookId {
        var rows := RowsOfBook(bookTags, goodreadsBookId);
        assert rows == [row] + rest;
        assert rows[0] == row && rows[1..] == rest;
      } else {
        assert RowsOfBook(bookTags, goodreadsBookId) == rest;
      }
    }
  }

  /** The join for one book: a view occurs once per pair of one of the book's link rows with
      its id and count and a tag with its id and name. */
  lemma BookJoinCounts(bookTags: seq<BookTag>, tags: seq<Tag>, goodreadsBookId: int, v: BookTagView)
    ensures multiset(JoinTags(RowsOfBook(bookTags, goodreadsBookId), tags))[v]
            == LinksOf(bookTags, goodreadsBookId, v.tagId, v.count) * TagsNamed(tags, v.tagId, v.tagName)
  {
    JoinTagsCounts(RowsOfBook(bookTags, goodreadsBookId), tags, v);
    RowsOfBookCounts(bookTags, goodreadsBookId, v.tagId, v.count);
  }

  /** `GET /books/{book_id}/tags`: 404 when the book is absent; otherwise the tags linked to the
      book's Goodreads id, each with the link's count, highest count first. Every pair of a
      link row of the book and a tag with its id yields one item, so duplicated link rows
      yield duplicated items. */
  function GetBookTags(books: seq<Book>, bookTags: seq<BookTag>, tags: seq<Tag>, bookId: int)
    : (r: Result<seq<BookTagView>>)
    ensures FindBook(books, bookId).None? <==> r.Err?
    ensures r.Err? ==> r.error == NotFound
    ensures r.Ok? ==> SortedBy(r.value, CountKey, Descending)
    ensures r.Ok? ==> forall v :: v in r.value <==>
      exists row, tag :: && row in bookTags
                         && row.goodreadsBookId == FindBook(books, bookId).value.goodreadsBookId
                         && tag in tags && row.tagId == tag.tagId
                         && v == BookTagView(row.tagId, tag.tagName, row.count)
    ensures r.Ok? ==> forall v ::
              multiset(r.value)[v]
              == LinksOf(bookTags, FindBook(books, bookId).value.goodreadsBookId, v.tagId, v.count)
                 * TagsNamed(tags, v.tagId, v.tagName)
  {
    match FindBook(books, bookId)
    case None => Err(NotFound)
    case Some(book) =>
      var views := JoinTags(RowsOfBook(bookTags, book.goodreadsBookId), tags);
      SortWithin(views, CountKey, Descending);
      assert forall v ::
               multiset(views)[v]
               == LinksOf(bookTags, book.goodreadsBookId, v.tagId, v.count) * TagsNamed(tags, v.tagId, v.tagName) by {
        forall v {
          BookJoinCounts(bookTags, tags, book.goodreadsBookId, v);
        }
      }
      Ok(Sort(views, CountKey, Descending))
  }

  /** A book with no link rows has an empty tag list, not an error. */
  lemma BookWithoutTags(books: seq<Book>, bookTags: seq<BookTag>, tags: seq<Tag>, bookId: int)
    requires FindBook(books, bookId).Some?
    requires forall row :: row in bookTags ==> row.goodreadsBookId != FindBook(books, bookId).value.goodreadsBookId
    ensures GetBookTags(books, bookTags, tags, bookId) == Ok([])
  {
    var book := FindBook(books, bookId).value;
    var rows := RowsOfBook(bookTags, book.goodreadsBookId);
    assert rows == [];
    assert JoinTags(rows, tags) == [];
  }

  /** `$size` of the `$lookup` of link rows by `tag_id`: the number of rows naming the tag. */
  function BookCount(bookTags: seq<BookTag>, tagId: int): (n: nat)
    ensures n <= |bookTags|
    ensures n == 0 <==> forall row :: row in bookTags ==> row.tagId != tagId
  {
    var links := Where(bookTags, (row: BookTag) => row.tagId == tagId);
    assert links != [] ==> links[0] in links;
    |links|
  }

  /** `book_count` counts link rows, not distinct books: one more row for the tag adds one even
      when the same book is already linked to it. */
  lemma CountsEveryRow(bookTags: seq<BookTag>, row: BookTag, tagId: int)
    ensures BookCount(bookTags + [row], tagId) == BookCount(bookTags, tagId) + (if row.tagId == tagId then 1 else 0)
  {
    WhereAppend(bookTags, row, (r: BookTag) => r.tagId == tagId);
  }

  /** `$addFields` of `book_count`: every tag, once and in store order, with its count. */
  function WithCounts(tags: seq<Tag>, bookTags: seq<BookTag>): (counted: seq<TagCount>)
    ensures |counted| == |tags|
    ensures forall t :: t in counted ==> Tag(t.tagId, t.tagName) in tags && t.bookCount == BookCount(bookTags, t.tagId)
    ensures forall tag :: tag in tags ==> TagCount(tag.tagId, tag.tagName, BookCount(bookTags, tag.tagId)) in counted
  {
    var counted := seq(|tags|, i requires 0 <= i < |tags| => TagCount(tags[i].tagId, tags[i].tagName, BookCount(bookTags, tags[i].tagId)));
    assert forall i :: 0 <= i < |tags| ==> counted[i] == TagCount(tags[i].tagId, tags[i].tagName, BookCount(bookTags, tags[i].tagId));
    counted
  }

  /** `GET /tags`: the tags sorted by descending `book_count`, skipped and limited to the page;
      `total` is the number of tags, whatever the page. */
  function ListTags(tags: seq<Tag>, bookTags: seq<BookTag>, page: int, pageSize: int): (r: Page<TagCount>)
    requires page >= 1 && 1 <= pageSize <= 100
    ensures r.page == page && r.pageSize == pageSize
    ensures r.total == |tags|
    ensures |r.items| <= pageSize
    ensures SortedBy(r.items, BookCountKey, Descending)
    ensures forall t :: t in r.items ==> Tag(t.tagId, t.tagName) in tags && t.bookCount == BookCount(bookTags, t.tagId)
    ensures r.items == Window(Sort(WithCounts(tags, bookTags), BookCountKey, Descending), SkipFor(page, pageSize), pageSize)
  {
    var counted := WithCounts(tags, bookTags);
    var sorted := Sort(counted, BookCountKey, Descending);
    var items := Window(sorted, SkipFor(page, pageSize), pageSize);
    WindowKeepsOrder(sorted, SkipFor(page, pageSize), pageSize, BookCountKey, Descending);
    WindowWithin(sorted, SkipFor(page, pageSize), pageSize);
    SortWithin(counted, BookCountKey, Descending);
    Page(items, page, pageSize, |tags|)
  }
}
