/** The five collections of the book-ratings store, as in-memory sequences of documents
    in store order. */
module Store {
  import opened Wrappers

  /** A book. `averageRating` is the dataset's floating-point mean, kept as a real. */
  datatype Book = Book(
    bookId: int,
    goodreadsBookId: int,
    title: string,
    authors: string,
    averageRating: real,
    ratingsCount: int,
    publicationYear: Option<int>)

  datatype Tag = Tag(tagId: int, tagName: string)

  /** A link between a book and a tag; it refers to the book by its Goodreads id, not by `bookId`. */
  datatype BookTag = BookTag(goodreadsBookId: int, tagId: int, count: int)

  datatype ToRead = ToRead(userId: int, bookId: int)

  datatype Rating = Rating(userId: int, bookId: int, rating: int)

  /** `find_one({"book_id": bookId})`: the first book in store order with that id. */
  function FindBook(books: seq<Book>, bookId: int): (r: Option<Book>)
    ensures r.None? <==> forall b :: b in books ==> b.bookId != bookId
    ensures r.Some? ==> r.value in books && r.value.bookId == bookId
  {
    if books == [] then None
    else if books[0].bookId == bookId then Some(books[0])
    else
      assert books == [books[0]] + books[1..];
      FindBook(books[1..], bookId)
  }
}
