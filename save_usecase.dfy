/**
 * `SaveBookUseCase` (domain/usecase/SaveBookUseCase.kt): a confirmed summary
 * becomes a new entity, left for the store to number, and is saved with one
 * `insertBook` call.
 */
module SaveBookUseCase {
  import opened Remote
  import opened Local

  /** The conversion of lines 13-18: the four fields copied, the id left at its default. */
  function ToEntity(s: BookSummary): (e: BookEntity)
    ensures e.id == DefaultId
    ensures e.isbn == s.isbn && e.title == s.title && e.author == s.author && e.coverUrl == s.coverUrl
  {
    BookEntity(isbn := s.isbn, title := s.title, author := s.author, coverUrl := s.coverUrl, id := DefaultId)
  }

  /** The summary an entity's four descriptive fields stand for. */
  function ToSummary(e: BookEntity): BookSummary
  {
    BookSummary(e.isbn, e.title, e.author, e.coverUrl)
  }

  /** Converting and projecting back loses nothing. */
  lemma RoundTrip(s: BookSummary)
    ensures ToSummary(ToEntity(s)) == s
  {
  }

  /** Two summaries give the same entity only if they are the same summary. */
  lemma ToEntityInjective(s1: BookSummary, s2: BookSummary)
    requires ToEntity(s1) == ToEntity(s2)
    ensures s1 == s2
  {
    RoundTrip(s1);
    RoundTrip(s2);
  }

  /** `invoke(summary)`: the one store call it makes. */
  function Invoke(s: BookSummary): (c: StoreCall)
    ensures c.InsertBook?
    ensures c.book.id == DefaultId && ToSummary(c.book) == s
  {
    InsertBook(ToEntity(s))
  }
}
