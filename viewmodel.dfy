/**
 * `BookViewModel` (ui/viewmodel/BookViewModel.kt): the scan-and-save state
 * machine. Its four observable fields are the fields of the class below; the
 * coroutines `onIsbnScanned` leaves suspended in the lookup are the field
 * `inFlight`; what it asks of the lookup use case and of the store is the
 * ghost log `log`.
 */
module ViewModel {
  import opened Wrappers
  import opened Remote
  import opened Local
  import SearchBookByIsbnUseCase
  import SaveBookUseCase
  import SaveMultipleBooksUseCase

  /** An Android string resource id. */
  type StringRes = int

  /**
   * Stands for `R.string.scan_not_found`. Its value is assigned by the
   * resource compiler and plays no part in the model.
   */
  const ScanNotFound: StringRes := 1

  /** `ScanUiState`. */
  datatype ScanUiState = Idle | Loading | Success(book: BookSummary) | Error(message: StringRes)

  /**
   * A lookup launched by `onIsbnScanned` and not yet answered: the scanned
   * isbn and whether the batch branch was taken when it was launched.
   */
  datatype Lookup = Lookup(isbn: string, batch: bool)

  /** A request the view model sends to a collaborator. */
  datatype Effect =
    | LookupRequested(isbn: string)   // searchBookByIsbnUseCase(isbn)
    | Store(call: StoreCall)          // the DAO call a save or delete use case makes

  /** `buffer.any { it.isbn == isbn }`. */
  function HasIsbn(buffer: seq<BookSummary>, isbn: string): (b: bool)
    ensures b <==> exists j :: 0 <= j < |buffer| && buffer[j].isbn == isbn
  {
    if buffer == [] then false
    else buffer[0].isbn == isbn || HasIsbn(buffer[1..], isbn)
  }

  /** No two summaries of the buffer share an isbn. */
  ghost predicate DistinctIsbns(buffer: seq<BookSummary>)
  {
    forall j, k :: 0 <= j < k < |buffer| ==> buffer[j].isbn != buffer[k].isbn
  }

  /** Appending a summary whose isbn is not yet buffered keeps the isbns distinct. */
  lemma AppendFreshKeepsDistinct(buffer: seq<BookSummary>, s: BookSummary)
    requires DistinctIsbns(buffer) && !HasIsbn(buffer, s.isbn)
    ensures DistinctIsbns(buffer + [s])
    ensures forall isbn :: HasIsbn(buffer + [s], isbn) <==> HasIsbn(buffer, isbn) || isbn == s.isbn
  {
    var b := buffer + [s];
    forall isbn ensures HasIsbn(b, isbn) <==> HasIsbn(buffer, isbn) || isbn == s.isbn {
      if HasIsbn(buffer, isbn) {
        var j :| 0 <= j < |buffer| && buffer[j].isbn == isbn;
        assert b[j] == buffer[j];
      }
      assert b[|buffer|] == s;
    }
  }

  /** `allBooks.filter { ids.contains(it.id) }`. */
  function SelectedBooks(all: seq<BookEntity>, ids: set<int>): (r: seq<BookEntity>)
    ensures |r| <= |all|
    ensures forall b :: b in r <==> b in all && b.id in ids
  {
    if all == [] then []
    else (if all[0].id in ids then [all[0]] else []) + SelectedBooks(all[1..], ids)
  }

  /** The filter keeps the original order: filtering a concatenation filters each part. */
  lemma {:induction false} SelectedBooksConcat(a: seq<BookEntity>, b: seq<BookEntity>, ids: set<int>)
    ensures SelectedBooks(a + b, ids) == SelectedBooks(a, ids) + SelectedBooks(b, ids)
  {
    if a != [] {
      var head := if a[0].id in ids then [a[0]] else [];
      assert (a + b)[0] == a[0] && (a + b)[1..] == a[1..] + b;
      SelectedBooksConcat(a[1..], b, ids);
      assert SelectedBooks(a + b, ids) == head + SelectedBooks(a[1..] + b, ids);
      assert SelectedBooks(a, ids) == head + SelectedBooks(a[1..], ids);
      assert head + (SelectedBooks(a[1..], ids) + SelectedBooks(b, ids))
          == (head + SelectedBooks(a[1..], ids)) + SelectedBooks(b, ids);
    } else {
      assert a + b == b;
    }
  }

  /** Every book selected: the filter returns the whole list unchanged. */
  lemma {:induction false} SelectedBooksEvery(all: seq<BookEntity>, ids: set<int>)
    requires forall j :: 0 <= j < |all| ==> all[j].id in ids
    ensures SelectedBooks(all, ids) == all
  {
    if all != [] {
      SelectedBooksEvery(all[1..], ids);
    }
  }

  /** `if (ids.contains(id)) ids - id else ids + id`. */
  function Toggle(ids: set<int>, id: int): (r: set<int>)
    ensures id in r <==> id !in ids
    ensures r - {id} == ids - {id}
  {
    if id in ids then ids - {id} else ids + {id}
  }

  /** Toggling the same id twice restores the selection. */
  lemma ToggleTwice(ids: set<int>, id: int)
    ensures Toggle(Toggle(ids, id), id) == ids
  {
  }

  class BookViewModel {
    var isBatchMode: bool
    var scanState: ScanUiState
    var scannedBuffer: seq<BookSummary>
    var selectedBookIds: set<int>
    /** The `viewModelScope.launch` blocks of `onIsbnScanned` still suspended in the lookup. */
    var inFlight: seq<Lookup>
    /** Every request sent to a collaborator so far, in order. */
    ghost var log: seq<Effect>

    /**
     * The coordinator processes one lookup at a time: a lookup is in flight
     * exactly while the state is `Loading`.
     */
    ghost predicate Serialized()
      reads this
    {
      |inFlight| <= 1 && (inFlight != [] <==> scanState == Loading)
    }

    /**
     * The buffer holds distinct isbns, and no outstanding batch lookup could
     * append an isbn that is already buffered or awaited by another.
     */
    ghost predicate BufferConsistent()
      reads this
    {
      && DistinctIsbns(scannedBuffer)
      && (forall j :: 0 <= j < |inFlight| && inFlight[j].batch ==> !HasIsbn(scannedBuffer, inFlight[j].isbn))
      && (forall j, k :: 0 <= j < k < |inFlight| && inFlight[j].batch && inFlight[k].batch
            ==> inFlight[j].isbn != inFlight[k].isbn)
    }

    /**
     * Every outstanding lookup was launched in the current mode, and batch
     * mode only ever shows `Idle` or `Loading`, never a result sheet.
     */
    ghost predicate ModeConsistent()
      reads this
    {
      && (forall j :: 0 <= j < |inFlight| ==> inFlight[j].batch == isBatchMode)
      && (isBatchMode ==> scanState == Idle || scanState == Loading)
    }

    /** Whether scanning `isbn` now launches a lookup (lines 75, 78 and 82). */
    ghost predicate Launches(isbn: string)
      reads this
    {
      scanState == Idle && !(isBatchMode && HasIsbn(scannedBuffer, isbn))
    }

    /** Selection mode is not stored: it is on while some book is selected. */
    function IsSelectionMode(): (b: bool)
      reads this
      ensures b <==> selectedBookIds != {}
    {
      |selectedBookIds| > 0
    }

    constructor ()
      ensures !isBatchMode && scanState == Idle && scannedBuffer == [] && selectedBookIds == {}
      ensures inFlight == [] && log == []
      ensures Serialized() && BufferConsistent() && ModeConsistent()
    {
      isBatchMode := false;
      scanState := Idle;
      scannedBuffer := [];
      selectedBookIds := {};
      inFlight := [];
      log := [];
    }

    /** `setBatchMode`: switching mode always returns to `Idle` with an empty buffer. */
    method SetBatchMode(isBatch: bool)
      modifies this
      ensures isBatchMode == isBatch && scanState == Idle && scannedBuffer == []
      ensures selectedBookIds == old(selectedBookIds) && inFlight == old(inFlight) && log == old(log)
      ensures old(BufferConsistent()) ==> BufferConsistent()
      ensures old(Serialized()) && old(scanState) != Loading ==> Serialized()
      ensures old(Serialized() && ModeConsistent()) && old(scanState) != Loading ==> ModeConsistent()
    {
      isBatchMode := isBatch;
      ResetScanState();
      ClearBuffer();
    }

    /**
     * The first half of `onIsbnScanned`, up to the suspension in the lookup:
     * a busy coordinator drops the scan; in batch mode an isbn already
     * buffered is dropped too; otherwise the state becomes `Loading` and
     * exactly one lookup is requested.
     */
    method OnIsbnScanned(isbn: string)
      modifies this
      ensures !old(Launches(isbn)) ==> unchanged(this)
      ensures old(Launches(isbn)) ==>
                && scanState == Loading
                && inFlight == old(inFlight) + [Lookup(isbn, old(isBatchMode))]
                && log == old(log) + [LookupRequested(isbn)]
                && isBatchMode == old(isBatchMode) && scannedBuffer == old(scannedBuffer)
                && selectedBookIds == old(selectedBookIds)
      ensures old(Serialized()) ==> Serialized()
      ensures old(Serialized() && BufferConsistent()) ==> BufferConsistent()
      ensures old(ModeConsistent()) ==> ModeConsistent()
    {
      if scanState != Idle {
        return;
      }
      if isBatchMode {
        if HasIsbn(scannedBuffer, isbn) {
          return;
        }
        scanState := Loading;
      } else {
        scanState := Loading;
      }
      inFlight := inFlight + [Lookup(isbn, isBatchMode)];
      log := log + [LookupRequested(isbn)];
    }

    /**
     * The second half of `onIsbnScanned`: the `i`-th outstanding lookup
     * resumes with the service's answer `response`. A batch lookup appends a
     * found summary to the buffer and returns to `Idle` either way; a single
     * lookup ends in `Success` or `Error`. Nothing checks whether the state was
     * reset while the lookup was suspended.
     */
    method CompleteLookup(i: nat, response: ServiceResult)
      requires i < |inFlight|
      modifies this
      ensures inFlight == old(inFlight[..i] + inFlight[i + 1..])
      ensures var l := old(inFlight[i]);
              var found := SearchBookByIsbnUseCase.Invoke(l.isbn, response);
              if l.batch then
                && scanState == Idle
                && scannedBuffer == old(scannedBuffer) + (if found.Some? then [found.value] else [])
              else
                && scannedBuffer == old(scannedBuffer)
                && scanState == (if found.Some? then Success(found.value) else Error(ScanNotFound))
      ensures isBatchMode == old(isBatchMode) && selectedBookIds == old(selectedBookIds) && log == old(log)
      ensures old(BufferConsistent()) ==> BufferConsistent()
      ensures old(Serialized()) ==> Serialized()
      ensures old(ModeConsistent()) ==> ModeConsistent()
    {
      var result := SearchBookByIsbnUseCase.Invoke(inFlight[i].isbn, response);
      ApplyResult(i, result);
    }

    /**
     * What the resumed `i`-th lookup does with the use case's `result`
     * (lines 85-90 in batch mode, 101-105 in single mode).
     */
    method ApplyResult(i: nat, result: Option<BookSummary>)
      requires i < |inFlight|
      requires result.Some? ==> result.value.isbn == inFlight[i].isbn
      modifies this
      ensures inFlight == old(inFlight[..i] + inFlight[i + 1..])
      ensures if old(inFlight[i]).batch then
                && scanState == Idle
                && scannedBuffer == old(scannedBuffer) + (if result.Some? then [result.value] else [])
              else
                && scannedBuffer == old(scannedBuffer)
                && scanState == (if result.Some? then Success(result.value) else Error(ScanNotFound))
      ensures isBatchMode == old(isBatchMode) && selectedBookIds == old(selectedBookIds) && log == old(log)
      ensures old(BufferConsistent()) ==> BufferConsistent()
      ensures old(Serialized()) ==> Serialized()
      ensures old(ModeConsistent()) ==> ModeConsistent()
    {
      var lookup := inFlight[i];
      ghost var before := scannedBuffer;
      ghost var wasConsistent := BufferConsistent();
      inFlight := inFlight[..i] + inFlight[i + 1..];
      if lookup.batch {
        if result.Some? {
          scannedBuffer := scannedBuffer + [result.value];
          scanState := Idle;
          if wasConsistent {
            AppendFreshKeepsDistinct(before, result.value);
            RemainingLookupsStayFresh(old(inFlight), i, before, result.value);
          }
        } else {
          scanState := Idle;
        }
      } else {
        if result.Some? {
          scanState := Success(result.value);
        } else {
          scanState := Error(ScanNotFound);
        }
      }
    }

    /**
     * After the `i`-th batch lookup appended `s`, every other outstanding batch
     * lookup still awaits an isbn that is not buffered, and they stay pairwise distinct.
     */
    static lemma RemainingLookupsStayFresh(pending: seq<Lookup>, i: nat, buffer: seq<BookSummary>, s: BookSummary)
      requires i < |pending| && pending[i].batch && s.isbn == pending[i].isbn
      requires DistinctIsbns(buffer) && !HasIsbn(buffer, s.isbn)
      requires forall j :: 0 <= j < |pending| && pending[j].batch ==> !HasIsbn(buffer, pending[j].isbn)
      requires forall j, k :: 0 <= j < k < |pending| && pending[j].batch && pending[k].batch
                 ==> pending[j].isbn != pending[k].isbn
      ensures var rest := pending[..i] + pending[i + 1..];
              && (forall j :: 0 <= j < |rest| && rest[j].batch ==> !HasIsbn(buffer + [s], rest[j].isbn))
              && (forall j, k :: 0 <= j < k < |rest| && rest[j].batch && rest[k].batch
                    ==> rest[j].isbn != rest[k].isbn)
    {
      var rest := pending[..i] + pending[i + 1..];
      AppendFreshKeepsDistinct(buffer, s);
      forall j | 0 <= j < |rest| && rest[j].batch ensures !HasIsbn(buffer + [s], rest[j].isbn) {
        var jj := if j < i then j else j + 1;
        assert rest[j] == pending[jj];
        if jj < i {
          assert pending[jj].isbn != pending[i].isbn;
        } else {
          assert pending[i].isbn != pending[jj].isbn;
        }
      }
      forall j, k | 0 <= j < k < |rest| && rest[j].batch && rest[k].batch
        ensures rest[j].isbn != rest[k].isbn
      {
        var jj := if j < i then j else j + 1;
        var kk := if k < i then k else k + 1;
        assert rest[j] == pending[jj] && rest[k] == pending[kk];
      }
    }

    /** `saveCurrentBook`: in `Success(s)`, one single save of `s` and back to `Idle`; otherwise nothing. */
    method SaveCurrentBook()
      modifies this
      ensures !old(scanState).Success? ==> unchanged(this)
      ensures old(scanState).Success? ==>
                && log == old(log) + [Store(SaveBookUseCase.Invoke(old(scanState).book))]
                && scanState == Idle
                && isBatchMode == old(isBatchMode) && scannedBuffer == old(scannedBuffer)
                && selectedBookIds == old(selectedBookIds) && inFlight == old(inFlight)
      ensures old(Serialized()) ==> Serialized()
      ensures old(BufferConsistent()) ==> BufferConsistent()
      ensures old(ModeConsistent()) ==> ModeConsistent()
    {
      var state := scanState;
      if state.Success? {
        log := log + [Store(SaveBookUseCase.Invoke(state.book))];
        ResetScanState();
      }
    }

    /** `saveBufferedBooks`: with a non-empty buffer, one bulk save of the whole buffer in order, then an empty buffer. */
    method SaveBufferedBooks()
      modifies this
      ensures old(scannedBuffer) == [] ==> unchanged(this)
      ensures old(scannedBuffer) != [] ==>
                && log == old(log) + [Store(SaveMultipleBooksUseCase.Invoke(old(scannedBuffer)))]
                && scannedBuffer == []
                && isBatchMode == old(isBatchMode) && scanState == old(scanState)
                && selectedBookIds == old(selectedBookIds) && inFlight == old(inFlight)
      ensures old(Serialized()) ==> Serialized()
      ensures old(BufferConsistent()) ==> BufferConsistent()
      ensures old(ModeConsistent()) ==> ModeConsistent()
    {
      var books := scannedBuffer;
      if |books| > 0 {
        log := log + [Store(SaveMultipleBooksUseCase.Invoke(books))];
        ClearBuffer();
      }
    }

    /** `deleteBook`: one single delete of `book`. */
    method DeleteBook(book: BookEntity)
      modifies this`log
      ensures log == old(log) + [Store(Local.DeleteBook(book))]
    {
      log := log + [Store(Local.DeleteBook(book))];
    }

    /** `resetScanState`: `Idle` from any state, nothing else touched. */
    method ResetScanState()
      modifies this`scanState
      ensures scanState == Idle
      ensures old(BufferConsistent()) ==> BufferConsistent()
      ensures old(Serialized()) && old(scanState) != Loading ==> Serialized()
      ensures old(ModeConsistent()) ==> ModeConsistent()
    {
      scanState := Idle;
    }

    /** `toggleSelection`: adds the id when absent, removes it when present. */
    method ToggleSelection(bookId: int)
      modifies this`selectedBookIds
      ensures selectedBookIds == Toggle(old(selectedBookIds), bookId)
    {
      var currentIds := selectedBookIds;
      if bookId in currentIds {
        selectedBookIds := currentIds - {bookId};
      } else {
        selectedBookIds := currentIds + {bookId};
      }
    }

    /**
     * `deleteSelectedBooks`: with a non-empty selection, one bulk delete of
     * the given books whose id is selected, in their order, then an empty
     * selection; with an empty selection, nothing.
     */
    method DeleteSelectedBooks(allBooks: seq<BookEntity>)
      modifies this`selectedBookIds, this`log
      ensures old(selectedBookIds) == {} ==> unchanged(this)
      ensures old(selectedBookIds) != {} ==>
                && log == old(log) + [Store(DeleteBooks(SelectedBooks(allBooks, old(selectedBookIds))))]
                && selectedBookIds == {}
    {
      var idsToDelete := selectedBookIds;
      if |idsToDelete| == 0 {
        return;
      }
      var booksToDelete := SelectedBooks(allBooks, idsToDelete);
      log := log + [Store(DeleteBooks(booksToDelete))];
      ClearSelection();
    }

    /** `clearSelection`. */
    method ClearSelection()
      modifies this`selectedBookIds
      ensures selectedBookIds == {}
    {
      selectedBookIds := {};
    }

    /** `clearBuffer`. */
    method ClearBuffer()
      modifies this`scannedBuffer
      ensures scannedBuffer == []
      ensures old(BufferConsistent()) ==> BufferConsistent()
    {
      scannedBuffer := [];
    }
  }
}
