/**
 * `SearchBookByIsbnUseCase` (domain/usecase/SearchBookByIsbnUseCase.kt): a
 * blank isbn is answered with no summary before the repository is asked;
 * any other isbn is looked up by `fetchBookInfo`.
 */
module SearchBookByIsbnUseCase {
  import opened Wrappers
  import opened Remote
  import opened Text
  import Repository

  /**
   * `invoke(isbn)`, where `result` is what the service would answer if asked.
   * For a blank isbn the answer is None whatever `result` is: the service is
   * never consulted.
   */
  function Invoke(isbn: string, result: ServiceResult): (r: Option<BookSummary>)
    ensures IsBlank(isbn) ==> r.None?
    ensures !IsBlank(isbn) ==> r == Repository.FetchBookInfo(isbn, result)
    ensures r.Some? ==> r.value.isbn == isbn
  {
    if IsBlank(isbn) then None
    else Repository.FetchBookInfo(isbn, result)
  }

  /** The outcome for a blank isbn does not depend on the service at all. */
  lemma BlankIgnoresService(isbn: string, r1: ServiceResult, r2: ServiceResult)
    requires IsBlank(isbn)
    ensures Invoke(isbn, r1) == Invoke(isbn, r2) == None
  {
  }

  /** An isbn made only of whitespace (the empty one included) finds nothing. */
  lemma WhitespaceOnlyFindsNothing(isbn: string, result: ServiceResult)
    requires forall i :: 0 <= i < |isbn| ==> IsWhitespace(isbn[i])
    ensures Invoke(isbn, result) == None
  {
  }

  /** A non-blank isbn finds a summary exactly when the service returned at least one item. */
  lemma FoundIffServiceHasItem(isbn: string, result: ServiceResult)
    requires !IsBlank(isbn)
    ensures Invoke(isbn, result).Some?
        <==> result.Responded? && result.response.items.Some? && result.response.items.value != []
  {
  }
}
