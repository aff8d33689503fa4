/**
 * Verified call sequences on the view model, each driven only through its
 * methods. `ScanWhileBusyIsDropped`, `SingleScanNotFound`,
 * `BatchScanIgnoresDuplicate` and `DeleteOnlySelected` follow unit tests of
 * BookViewModelTest.kt (the last with a third, unselected book);
 * `SingleScanFoundAndSaved` combines two of them. The last ones mirror no
 * test: they show what a completion arriving after a reset does, since no
 * completion checks whether its lookup is still current.
 */
module Scenarios {
  import opened Wrappers
  import opened Remote
  import opened Local
  import opened ViewModel
  import SearchBookByIsbnUseCase
  import SaveBookUseCase

  /** A second scan while the first lookup is pending requests nothing (test lines 263-283). */
  method ScanWhileBusyIsDropped(isbn: string) returns (ghost log: seq<Effect>)
    ensures log == [LookupRequested(isbn)]
  {
    var vm := new BookViewModel();
    vm.OnIsbnScanned(isbn);
    vm.OnIsbnScanned(isbn);
    log := vm.log;
  }

  /** Single mode, found: Loading, then Success with the summary; saving it stores it once (test lines 89-113, 160-178). */
  method SingleScanFoundAndSaved(isbn: string, response: ServiceResult)
    returns (loading: ScanUiState, shown: ScanUiState, ghost saved: seq<Effect>, after: ScanUiState)
    requires SearchBookByIsbnUseCase.Invoke(isbn, response).Some?
    ensures loading == Loading
    ensures shown == Success(SearchBookByIsbnUseCase.Invoke(isbn, response).value)
    ensures saved == [LookupRequested(isbn), Store(InsertBook(SaveBookUseCase.ToEntity(shown.book)))]
    ensures after == Idle
  {
    var vm := new BookViewModel();
    vm.OnIsbnScanned(isbn);
    loading := vm.scanState;
    vm.CompleteLookup(0, response);
    shown := vm.scanState;
    vm.SaveCurrentBook();
    saved := vm.log;
    after := vm.scanState;
  }

  /** Single mode, not found: Loading, then Error; saving then does nothing (test lines 116-136, 286-294). */
  method SingleScanNotFound(isbn: string, response: ServiceResult)
    returns (shown: ScanUiState, ghost log: seq<Effect>)
    requires SearchBookByIsbnUseCase.Invoke(isbn, response).None?
    ensures shown == Error(ScanNotFound)
    ensures log == [LookupRequested(isbn)]
  {
    var vm := new BookViewModel();
    vm.OnIsbnScanned(isbn);
    vm.CompleteLookup(0, response);
    shown := vm.scanState;
    vm.SaveCurrentBook();
    log := vm.log;
  }

  /** Batch mode: a found isbn is buffered once; scanning it again requests nothing (test lines 139-157). */
  method BatchScanIgnoresDuplicate(isbn: string, response: ServiceResult)
    returns (buffer: seq<BookSummary>, ghost log: seq<Effect>)
    requires SearchBookByIsbnUseCase.Invoke(isbn, response).Some?
    ensures buffer == [SearchBookByIsbnUseCase.Invoke(isbn, response).value]
    ensures log == [LookupRequested(isbn)]
  {
    var vm := new BookViewModel();
    vm.SetBatchMode(true);
    vm.OnIsbnScanned(isbn);
    vm.CompleteLookup(0, response);
    assert HasIsbn(vm.scannedBuffer, isbn) by {
      assert vm.scannedBuffer[0].isbn == isbn;
    }
    vm.OnIsbnScanned(isbn);
    buffer := vm.scannedBuffer;
    log := vm.log;
  }

  /** Selecting id 2 of books 1, 2, 3 and deleting deletes book 2 only and clears the selection (test lines 223-239). */
  method DeleteOnlySelected(b1: BookEntity, b2: BookEntity, b3: BookEntity)
    returns (ghost log: seq<Effect>, selection: set<int>)
    requires b1.id == 1 && b2.id == 2 && b3.id == 3
    ensures log == [Store(DeleteBooks([b2]))]
    ensures selection == {}
  {
    var vm := new BookViewModel();
    vm.ToggleSelection(2);
    assert vm.selectedBookIds == {2};
    vm.DeleteSelectedBooks([b1, b2, b3]);
    assert [b1, b2, b3] == [b1] + [b2] + [b3];
    SelectedBooksConcat([b1] + [b2], [b3], {2});
    SelectedBooksConcat([b1], [b2], {2});
    assert SelectedBooks([b1], {2}) == [] && SelectedBooks([b3], {2}) == [];
    assert SelectedBooks([b2], {2}) == [b2];
    assert SelectedBooks([b1, b2, b3], {2}) == [b2];
    log := vm.log;
    selection := vm.selectedBookIds;
  }

  /**
   * The middle of the call sequence below: with one batch lookup for `isbn` pending
   * over an empty buffer, scanning `isbn` again launches a second lookup, and
   * the first completion appends the summary while the second stays pending.
   */
  method RescanWhilePending(vm: BookViewModel, isbn: string, response: ServiceResult)
    requires SearchBookByIsbnUseCase.Invoke(isbn, response).Some?
    requires vm.isBatchMode && vm.scanState == Idle && vm.scannedBuffer == []
    requires vm.inFlight == [Lookup(isbn, true)]
    modifies vm
    ensures vm.scannedBuffer == [SearchBookByIsbnUseCase.Invoke(isbn, response).value]
    ensures vm.inFlight == [Lookup(isbn, true)]
  {
    vm.OnIsbnScanned(isbn);
    assert vm.inFlight == [Lookup(isbn, true), Lookup(isbn, true)];
    vm.CompleteLookup(0, response);
  }

  /**
   * Batch mode, a lookup pending, the batch tab chosen again (which resets
   * the state and empties the buffer), the same isbn scanned again: both
   * lookups complete and the buffer holds the isbn twice.
   */
  method BatchRescanAfterResetDuplicates(isbn: string, response: ServiceResult)
    returns (buffer: seq<BookSummary>)
    requires SearchBookByIsbnUseCase.Invoke(isbn, response).Some?
    ensures |buffer| == 2 && buffer[0].isbn == buffer[1].isbn == isbn
    ensures !DistinctIsbns(buffer)
  {
    var vm := new BookViewModel();
    vm.SetBatchMode(true);
    vm.OnIsbnScanned(isbn);
    vm.SetBatchMode(true);
    RescanWhilePending(vm, isbn, response);
    vm.CompleteLookup(0, response);
    buffer := vm.scannedBuffer;
    assert buffer[0].isbn == buffer[1].isbn;
  }

  /**
   * A single-mode lookup pending, then a switch to batch mode: the late
   * completion still shows `Success`, in batch mode.
   */
  method LateSingleCompletionInBatchMode(isbn: string, response: ServiceResult)
    returns (batch: bool, state: ScanUiState)
    requires SearchBookByIsbnUseCase.Invoke(isbn, response).Some?
    ensures batch && state.Success?
  {
    var vm := new BookViewModel();
    vm.OnIsbnScanned(isbn);
    vm.SetBatchMode(true);
    vm.CompleteLookup(0, response);
    batch := vm.isBatchMode;
    state := vm.scanState;
  }

  /**
   * After a late single-mode result in batch mode, every further scan is
   * dropped by the gate at line 75: batch mode offers no sheet to dismiss,
   * so only another tab tap returns to `Idle`.
   */
  method LateResultBlocksBatchScans(isbn: string, response: ServiceResult, next: string)
    returns (state: ScanUiState, buffer: seq<BookSummary>, ghost log: seq<Effect>)
    requires SearchBookByIsbnUseCase.Invoke(isbn, response).Some?
    ensures state == Success(SearchBookByIsbnUseCase.Invoke(isbn, response).value)
    ensures buffer == []
    ensures log == [LookupRequested(isbn)]
  {
    var vm := new BookViewModel();
    vm.OnIsbnScanned(isbn);
    vm.SetBatchMode(true);
    vm.CompleteLookup(0, response);
    vm.OnIsbnScanned(next);
    vm.OnIsbnScanned(isbn);
    state := vm.scanState;
    buffer := vm.scannedBuffer;
    log := vm.log;
  }
}
