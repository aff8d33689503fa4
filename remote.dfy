/**
 * The records exchanged with the Google Books volumes service and the summary
 * the app builds from them (data/remote/GoogleBooksDto.kt).
 */
module Remote {
  import opened Wrappers

  /** The transient lookup result shown to the user before it is saved. */
  datatype BookSummary = BookSummary(isbn: string, title: string, author: string, coverUrl: string)

  /** Root of a volumes response; `items` is absent or empty when nothing matched. */
  datatype GoogleBooksResponse = GoogleBooksResponse(items: Option<seq<GoogleBookItem>>)

  datatype GoogleBookItem = GoogleBookItem(id: string, volumeInfo: VolumeInfo)

  datatype VolumeInfo = VolumeInfo(
    title: Option<string>,
    authors: Option<seq<string>>,
    description: Option<string>,
    imageLinks: Option<ImageLinks>)

  datatype ImageLinks = ImageLinks(smallThumbnail: Option<string>, thumbnail: Option<string>)

  /**
   * What the call `service.searchBook(...)` produced: a decoded response, or an
   * exception (network, HTTP or decoding failure) thrown out of it.
   */
  datatype ServiceResult = Responded(response: GoogleBooksResponse) | Threw
}
