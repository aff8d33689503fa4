/**
 * The persisted record and the calls the app makes on the Room DAO
 * (data/local/BookDatabase.kt). The store itself is not modelled: what it is
 * asked to do is recorded as a sequence of `StoreCall`s.
 */
module Local {

  /** A persisted book; `id` is the auto-generated primary key, 0 meaning "let the store assign it". */
  datatype BookEntity = BookEntity(id: int, isbn: string, title: string, author: string, coverUrl: string)

  /** The default of the `id` parameter of `BookEntity`. */
  const DefaultId: int := 0

  /** One DAO call: `insertBook`, `insertAll`, `deleteBook`, `deleteBooks`. */
  datatype StoreCall =
    | InsertBook(book: BookEntity)
    | InsertAll(books: seq<BookEntity>)
    | DeleteBook(book: BookEntity)
    | DeleteBooks(books: seq<BookEntity>)
}
