/**
 * `BookRepository.fetchBookInfo` (data/BookRepository.kt): the normalisation
 * of a Google Books volumes response into a `BookSummary`. The network call
 * itself is not modelled; its outcome is the `ServiceResult` argument.
 */
module Repository {
  import opened Wrappers
  import opened Remote
  import opened Text

  /** Placeholder title used when the volume has none ("unknown title"). */
  const UnknownTitle: string := "タイトル不明"

  /** Placeholder author used when the volume lists no authors at all ("unknown author"). */
  const UnknownAuthor: string := "著者不明"

  /** Separator placed between author names. */
  const AuthorSeparator: string := ", "

  /** The first item of a response, if it has any. */
  function FirstItem(response: GoogleBooksResponse): (r: Option<GoogleBookItem>)
    ensures r.None? <==> response.items.None? || response.items.value == []
    ensures r.Some? ==> r.value == response.items.value[0]
  {
    match response.items
    case None => None
    case Some(items) => if items == [] then None else Some(items[0])
  }

  /** The raw cover URL: the thumbnail, else the small thumbnail, else "". */
  function RawCoverUrl(links: Option<ImageLinks>): (url: string)
    ensures links.Some? && links.value.thumbnail.Some? ==> url == links.value.thumbnail.value
    ensures links.Some? && links.value.thumbnail.None? && links.value.smallThumbnail.Some?
            ==> url == links.value.smallThumbnail.value
    ensures links.None? || (links.value.thumbnail.None? && links.value.smallThumbnail.None?) ==> url == ""
  {
    match links
    case None => ""
    case Some(l) =>
      match l.thumbnail
      case Some(t) => t
      case None => l.smallThumbnail.GetOr("")
  }

  /** The author field: the names joined with ", ", or the placeholder when the list itself is absent. */
  function AuthorText(authors: Option<seq<string>>): (author: string)
    ensures authors.None? ==> author == UnknownAuthor
    ensures authors == Some([]) ==> author == ""
    ensures authors.Some? && |authors.value| == 1 ==> author == authors.value[0]
  {
    match authors
    case None => UnknownAuthor
    case Some(names) => Join(names, AuthorSeparator)
  }

  /** The summary built from one volume, keyed by the isbn the caller asked for. */
  function Summarize(isbn: string, info: VolumeInfo): (s: BookSummary)
    ensures s.isbn == isbn
    ensures s.title == info.title.GetOr(UnknownTitle)
    ensures s.author == AuthorText(info.authors)
    ensures !Occurs(s.coverUrl, Insecure)
  {
    var rawUrl := RawCoverUrl(info.imageLinks);
    SecureSchemeRemovesInsecure(rawUrl);
    BookSummary(
      isbn := isbn,
      title := info.title.GetOr(UnknownTitle),
      author := AuthorText(info.authors),
      coverUrl := SecureScheme(rawUrl))
  }

  /**
   * `fetchBookInfo`: no summary when the service threw or matched nothing;
   * otherwise the summary of the first item, carrying the requested isbn and a
   * cover URL in which no "http://" remains.
   */
  function FetchBookInfo(isbn: string, result: ServiceResult): (r: Option<BookSummary>)
    ensures r.None? <==> result.Threw? || FirstItem(result.response).None?
    ensures r.Some? ==> r.value.isbn == isbn && !Occurs(r.value.coverUrl, Insecure)
  {
    match result
    case Threw => None
    case Responded(response) =>
      match FirstItem(response)
      case None => None
      case Some(item) => Some(Summarize(isbn, item.volumeInfo))
  }

  /** Only the first item matters: whatever follows it in the response is ignored. */
  lemma FetchUsesFirstItemOnly(isbn: string, first: GoogleBookItem, rest: seq<GoogleBookItem>)
    ensures FetchBookInfo(isbn, Responded(GoogleBooksResponse(Some([first] + rest))))
         == FetchBookInfo(isbn, Responded(GoogleBooksResponse(Some([first]))))
  {
  }

  /** The summary never takes its isbn, or anything else, from the item's own id. */
  lemma FetchIgnoresItemId(isbn: string, id1: string, id2: string, info: VolumeInfo)
    ensures FetchBookInfo(isbn, Responded(GoogleBooksResponse(Some([GoogleBookItem(id1, info)]))))
         == FetchBookInfo(isbn, Responded(GoogleBooksResponse(Some([GoogleBookItem(id2, info)]))))
  {
  }

  /** A cover URL that already has no "http://" is kept exactly. */
  lemma FetchKeepsSecureCover(isbn: string, info: VolumeInfo)
    requires !Occurs(RawCoverUrl(info.imageLinks), Insecure)
    ensures Summarize(isbn, info).coverUrl == RawCoverUrl(info.imageLinks)
  {
    ReplaceAllWithoutMatch(RawCoverUrl(info.imageLinks), Insecure, Secure);
  }

  /** Two authors are joined into one "A, B" string. */
  lemma TwoAuthorsJoined(a: string, b: string)
    ensures AuthorText(Some([a, b])) == a + ", " + b
  {
    assert [a, b][1..] == [b];
    assert Join([b], AuthorSeparator) == b;
  }

  /**
   * The first repository scenario, for any isbn, title, two authors and a
   * thumbnail made of "http://" and a rest holding no further "http://"
   * (the scenario uses "http://example.com/img.jpg"): the summary joins the
   * authors and secures the thumbnail.
   */
  lemma FetchThumbnailScenario(isbn: string, id: string, title: string, a: string, b: string,
                               description: Option<string>, small: Option<string>, path: string)
    requires !Occurs(path, Insecure)
    ensures FetchBookInfo(isbn, Responded(GoogleBooksResponse(Some([
              GoogleBookItem(id, VolumeInfo(Some(title), Some([a, b]), description,
                Some(ImageLinks(small, Some(Insecure + path))))) ]))))
         == Some(BookSummary(isbn, title, a + ", " + b, Secure + path))
  {
    SecureSchemeOfInsecurePrefix(path);
    ReplaceAllWithoutMatch(path, Insecure, Secure);
    TwoAuthorsJoined(a, b);
  }

  /**
   * The second repository scenario, for any isbn and title: no authors, no
   * thumbnail, a small thumbnail made of "http://" and a rest holding no
   * further "http://" (the scenario uses
   * "http://ex.com/small.jpg"): the author placeholder and the secured small
   * thumbnail are used.
   */
  lemma FetchSmallThumbnailScenario(isbn: string, id: string, title: string, path: string)
    requires !Occurs(path, Insecure)
    ensures FetchBookInfo(isbn, Responded(GoogleBooksResponse(Some([
              GoogleBookItem(id, VolumeInfo(Some(title), None, None,
                Some(ImageLinks(Some(Insecure + path), None)))) ]))))
         == Some(BookSummary(isbn, title, UnknownAuthor, Secure + path))
  {
    SecureSchemeOfInsecurePrefix(path);
    ReplaceAllWithoutMatch(path, Insecure, Secure);
  }
}
