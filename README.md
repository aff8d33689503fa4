# MyBooks scan-and-save core, modelled in Dafny

This project models the core of the MyBooks Android app. A user scans a barcode (an ISBN). The app looks the ISBN up in the Google Books volumes service and shows or buffers the result. It then saves the book to the local Room database, and later deletes it by selection. The model covers:

- **`BookViewModel`** (`viewmodel.dfy`, module `ViewModel`): a class with the four observable fields `isBatchMode`, `scanState`, `scannedBuffer` and `selectedBookIds`. It has one method per state-changing operation, including the private `clearBuffer`. Two more fields record what the source keeps implicitly:
  - `inFlight` holds the `onIsbnScanned` coroutines still suspended in the lookup.
  - the ghost `log` records every request sent to a collaborator: lookups requested, and the DAO calls that the save and delete use cases make.
- **`onIsbnScanned`** is split at its suspension point:
  - `OnIsbnScanned` covers the busy gate, the batch/single branch, the batch duplicate check, setting `Loading` and requesting the lookup.
  - `CompleteLookup(i, response)` resumes the `i`-th suspended lookup with the service's answer. It passes the answer through `SearchBookByIsbnUseCase`, and `ApplyResult` writes the result into the state and the buffer.
- **`BookRepository.fetchBookInfo`** (`repository.dfy`) is a pure function of the service's outcome. That outcome is a decoded `GoogleBooksResponse` or an exception. The function picks the first item, fills in the title and author placeholders, joins the authors, picks the cover URL and rewrites every `http://` to `https://`.
- **The Kotlin string operations** it uses (`text.dfy`) are written out as recursive functions with lemmas: `isBlank`, `joinToString` and `replace`.
- **The three use cases**, one file each: the blank guard of the search, and the summary-to-entity conversions of the single and bulk saves.
- **`scenarios.dfy`** holds verified call sequences on the view model, driven only through its methods:
  - `ScanWhileBusyIsDropped`, `SingleScanNotFound`, `BatchScanIgnoresDuplicate` and `DeleteOnlySelected` follow unit tests of `BookViewModelTest.kt`. `DeleteOnlySelected` adds a third, unselected book.
  - `SingleScanFoundAndSaved` combines the found-scan and save tests.
  - `BatchRescanAfterResetDuplicates`, `LateSingleCompletionInBatchMode` and `LateResultBlocksBatchScans` mirror no test. They show what late completions do.

## Late completions

A completion never checks whether its lookup is still current. So `resetScanState` or `setBatchMode` during `Loading` lets the late answer write the state or the buffer anyway. The user can trigger either one: by dismissing the result sheet, which the UI shows while `Loading`, or by tapping a mode tab.

Once this happens, a second lookup can start while the first is still pending. This is why `inFlight` is a sequence and not a flag.

The model keeps this behaviour. `BookViewModel.Serialized()` states that a lookup is in flight exactly while the state is `Loading`, and at most one at a time. Every operation preserves it, except `ResetScanState` and `SetBatchMode` when they are called during `Loading`.

`BookViewModel.BufferConsistent()` states three things:
- no two buffered summaries share an ISBN;
- no outstanding batch lookup waits for an ISBN that is already buffered;
- no two outstanding batch lookups wait for the same ISBN.

Every operation preserves it on its own, except `OnIsbnScanned`, which needs `Serialized()` as well.

`BookViewModel.ModeConsistent()` states two things:
- every outstanding lookup was launched in the current mode;
- batch mode only ever shows `Idle` or `Loading`, never `Success` or `Error`.

Every operation keeps it on its own, except `SetBatchMode`. A mode switch during `Loading` leaves a lookup from the old mode outstanding, so `SetBatchMode` keeps it only when called outside `Loading` with `Serialized()` holding.

Without serialization the distinct-ISBN property of the buffer fails. `Scenarios.BatchRescanAfterResetDuplicates` proves this: batch mode, scan X, tap the batch tab again, scan X again, both lookups answer, and the buffer holds X twice. `Scenarios.LateSingleCompletionInBatchMode` shows a single-mode lookup that ends in `Success` after the user has switched to batch mode.

That leftover `Success` or `Error` blocks the scanner in batch mode. The batch screen shows no result sheet and so offers no way to reset (ScanScreen.kt:79-88). The gate at BookViewModel.kt:75 therefore drops every later scan until the next tab tap. `Scenarios.LateResultBlocksBatchScans` proves this.

## Model

| member | source | states |
|---|---|---|
| `Text.IsWhitespace` | app/src/main/java/com/example/mybooksapplication/domain/usecase/SearchBookByIsbnUseCase.kt:11 | the JVM whitespace set `isBlank` tests against; its own contract states only that space, tab, LF and CR are whitespace and ASCII digits and letters are not |
| `Text.IsBlank` | app/src/main/java/com/example/mybooksapplication/domain/usecase/SearchBookByIsbnUseCase.kt:11 | a string is blank exactly when every character is Kotlin whitespace, the empty string included |
| `Text.Join` | app/src/main/java/com/example/mybooksapplication/data/BookRepository.kt:38 | `joinToString(sep)`; its own contract states only that the empty list joins to "" and that a non-empty join starts with the first element; the rows for `JoinConcat`, `JoinLength` and `JoinSingle` state its other properties |
| `Text.JoinConcat` | app/src/main/java/com/example/mybooksapplication/data/BookRepository.kt:38 | joining two non-empty lists equals joining each and putting one separator between them |
| `Text.JoinLength` | app/src/main/java/com/example/mybooksapplication/data/BookRepository.kt:38 | for n ≥ 1 names, the join's length is the names' total length plus n − 1 separator lengths |
| `Text.JoinSingle` | app/src/main/java/com/example/mybooksapplication/data/BookRepository.kt:38 | a single name is joined to itself, with no separator |
| `Text.ReplaceAll` | app/src/main/java/com/example/mybooksapplication/data/BookRepository.kt:31 | `replace(from, to)` for a non-empty pattern; its own contract states only that a string shorter than the pattern, or a replacement of the pattern by itself, is unchanged, that a leading match becomes `to`, and that a replacement at least as long as the pattern never shortens the string; the row for `ReplaceAllWithoutMatch` states the rest |
| `Text.ReplaceAllWithoutMatch` | app/src/main/java/com/example/mybooksapplication/data/BookRepository.kt:31 | `replace` leaves a string in which the pattern does not occur unchanged |
| `Text.SecureScheme` | app/src/main/java/com/example/mybooksapplication/data/BookRepository.kt:31 | the `http://` → `https://` rewrite; its own contract states only that it never shortens the URL, that a leading `http://` becomes a leading `https://`, and that a URL shorter than `http://` is unchanged; the rows for `SecureSchemeRemovesInsecure`, `SecureSchemeIdempotent` and `SecureSchemeOfInsecurePrefix` state its main properties |
| `Text.SecureSchemeRemovesInsecure` | app/src/main/java/com/example/mybooksapplication/data/BookRepository.kt:31 | after the `http://` → `https://` rewrite no `http://` remains anywhere in the string, across replacement boundaries included |
| `Text.SecureSchemeIdempotent` | app/src/main/java/com/example/mybooksapplication/data/BookRepository.kt:31 | applying the rewrite twice gives the same result as applying it once |
| `Text.SecureSchemeOfInsecurePrefix` | app/src/main/java/com/example/mybooksapplication/data/BookRepository.kt:31 | a leading `http://` becomes `https://` and the rest is rewritten on its own |
| `Repository.FirstItem` | app/src/main/java/com/example/mybooksapplication/data/BookRepository.kt:26 | there is no item exactly when `items` is null or empty; otherwise it is the first one |
| `Repository.RawCoverUrl` | app/src/main/java/com/example/mybooksapplication/data/BookRepository.kt:30 | the cover URL is the thumbnail if present, else the small thumbnail if present, else "" |
| `Repository.AuthorText` | app/src/main/java/com/example/mybooksapplication/data/BookRepository.kt:38 | absent authors give the "著者不明" placeholder; an empty list gives ""; one author gives that name |
| `Repository.Summarize` | app/src/main/java/com/example/mybooksapplication/data/BookRepository.kt:27-40 | the summary carries the requested isbn, the title or the "タイトル不明" placeholder, the author text, and a cover URL with no `http://` in it |
| `Repository.FetchBookInfo` | app/src/main/java/com/example/mybooksapplication/data/BookRepository.kt:20-45 | the result is null exactly when the service threw or returned no item; a non-null result carries the requested isbn and a cover URL with no `http://` |
| `Repository.FetchUsesFirstItemOnly` | app/src/main/java/com/example/mybooksapplication/data/BookRepository.kt:26 | items after the first never change the result |
| `Repository.FetchIgnoresItemId` | app/src/main/java/com/example/mybooksapplication/data/BookRepository.kt:35 | the item's own id never affects the result; the isbn comes from the argument |
| `Repository.FetchKeepsSecureCover` | app/src/main/java/com/example/mybooksapplication/data/BookRepository.kt:30-31 | a cover URL without `http://` is stored exactly as the service gave it |
| `Repository.TwoAuthorsJoined` | app/src/main/java/com/example/mybooksapplication/data/BookRepository.kt:38 | authors [a, b] become "a, b" |
| `Repository.FetchThumbnailScenario` | app/src/test/java/com/example/mybooksapplication/data/BookRepositoryTest.kt:61-86 | with a title, two authors and a thumbnail `http://` + rest, where the rest holds no further `http://`, the summary is (isbn, title, "a, b", `https://` + rest) |
| `Repository.FetchSmallThumbnailScenario` | app/src/test/java/com/example/mybooksapplication/data/BookRepositoryTest.kt:88-112 | with no authors and only a small thumbnail `http://` + rest, where the rest holds no further `http://`, the summary has the author placeholder and `https://` + rest |
| `SearchBookByIsbnUseCase.Invoke` | app/src/main/java/com/example/mybooksapplication/domain/usecase/SearchBookByIsbnUseCase.kt:10-13 | a blank isbn gives null; any other isbn gives the repository's result; a non-null result always carries the isbn searched for |
| `SearchBookByIsbnUseCase.BlankIgnoresService` | app/src/main/java/com/example/mybooksapplication/domain/usecase/SearchBookByIsbnUseCase.kt:11 | for a blank isbn the result does not depend on what the service would answer, so the service is not consulted |
| `SearchBookByIsbnUseCase.WhitespaceOnlyFindsNothing` | app/src/main/java/com/example/mybooksapplication/domain/usecase/SearchBookByIsbnUseCase.kt:11 | an empty or whitespace-only isbn finds nothing |
| `SearchBookByIsbnUseCase.FoundIffServiceHasItem` | app/src/main/java/com/example/mybooksapplication/domain/usecase/SearchBookByIsbnUseCase.kt:12 | a non-blank isbn finds a summary exactly when the service answered with at least one item |
| `SaveBookUseCase.ToEntity` | app/src/main/java/com/example/mybooksapplication/domain/usecase/SaveBookUseCase.kt:13-18 | the entity copies isbn, title, author and cover URL and keeps the default id 0, so the store assigns the id |
| `SaveBookUseCase.RoundTrip` | app/src/main/java/com/example/mybooksapplication/domain/usecase/SaveBookUseCase.kt:13-18 | projecting the entity's four fields back gives the original summary |
| `SaveBookUseCase.ToEntityInjective` | app/src/main/java/com/example/mybooksapplication/domain/usecase/SaveBookUseCase.kt:13-18 | different summaries never become the same entity |
| `SaveBookUseCase.Invoke` | app/src/main/java/com/example/mybooksapplication/domain/usecase/SaveBookUseCase.kt:11-20 | one `insertBook` call whose entity has id 0 and the summary's four fields |
| `SaveMultipleBooksUseCase.ToEntities` | app/src/main/java/com/example/mybooksapplication/domain/usecase/SaveMultipleBooksUseCase.kt:12-19 | same length, and the i-th entity is the single-save conversion of the i-th summary |
| `SaveMultipleBooksUseCase.RoundTrip` | app/src/main/java/com/example/mybooksapplication/domain/usecase/SaveMultipleBooksUseCase.kt:12-19 | projecting the entities back gives the summaries, in order |
| `SaveMultipleBooksUseCase.ToEntitiesConcat` | app/src/main/java/com/example/mybooksapplication/domain/usecase/SaveMultipleBooksUseCase.kt:12-19 | converting a concatenation converts each part, so order is preserved |
| `SaveMultipleBooksUseCase.Invoke` | app/src/main/java/com/example/mybooksapplication/domain/usecase/SaveMultipleBooksUseCase.kt:11-21 | one `insertAll` call, even for an empty list, with one entity per summary, in order, each with id 0 and the summary's fields |
| `SaveMultipleBooksUseCase.SingletonAgreesWithSingleSave` | app/src/main/java/com/example/mybooksapplication/domain/usecase/SaveMultipleBooksUseCase.kt:12-19 | a bulk save of one summary stores the same entity a single save would |
| `ViewModel.HasIsbn` | app/src/main/java/com/example/mybooksapplication/ui/viewmodel/BookViewModel.kt:82 | the `any` check holds exactly when some buffered summary has the isbn |
| `ViewModel.AppendFreshKeepsDistinct` | app/src/main/java/com/example/mybooksapplication/ui/viewmodel/BookViewModel.kt:82-87 | appending a summary whose isbn is not buffered keeps buffered isbns distinct, and adds exactly that isbn |
| `ViewModel.SelectedBooks` | app/src/main/java/com/example/mybooksapplication/ui/viewmodel/BookViewModel.kt:176 | a book is in the filtered list exactly when it is in the given list and its id is selected |
| `ViewModel.SelectedBooksConcat` | app/src/main/java/com/example/mybooksapplication/ui/viewmodel/BookViewModel.kt:176 | filtering a concatenation filters each part, so the original order is kept |
| `ViewModel.SelectedBooksEvery` | app/src/main/java/com/example/mybooksapplication/ui/viewmodel/BookViewModel.kt:176 | when every id is selected the filter returns the list unchanged |
| `ViewModel.Toggle` | app/src/main/java/com/example/mybooksapplication/ui/viewmodel/BookViewModel.kt:160-164 | the id is in the new set exactly when it was not in the old one, and no other id changes |
| `ViewModel.ToggleTwice` | app/src/main/java/com/example/mybooksapplication/ui/viewmodel/BookViewModel.kt:157-165 | toggling the same id twice restores the selection |
| `ViewModel.BookViewModel.IsSelectionMode` | app/src/main/java/com/example/mybooksapplication/ui/screen/BookListScreen.kt:59 | selection mode is on exactly while the selection is non-empty |
| `ViewModel.BookViewModel.constructor` | app/src/main/java/com/example/mybooksapplication/ui/viewmodel/BookViewModel.kt:48-58 | single mode, `Idle`, empty buffer, empty selection, nothing in flight or requested |
| `ViewModel.BookViewModel.SetBatchMode` | app/src/main/java/com/example/mybooksapplication/ui/viewmodel/BookViewModel.kt:63-68 | sets the mode, returns to `Idle` and empties the buffer from any state; selection, in-flight lookups and log are unchanged; keeps `BufferConsistent()`, and keeps `Serialized()` and `ModeConsistent()` outside `Loading` |
| `ViewModel.BookViewModel.OnIsbnScanned` | app/src/main/java/com/example/mybooksapplication/ui/viewmodel/BookViewModel.kt:74-99 | when not `Idle`, or in batch mode with the isbn already buffered, nothing at all changes; otherwise `Loading`, exactly one lookup requested and one lookup in flight in the branch chosen, nothing else changes; keeps `Serialized()` and `ModeConsistent()`, and keeps `BufferConsistent()` given `Serialized()` |
| `ViewModel.BookViewModel.CompleteLookup` | app/src/main/java/com/example/mybooksapplication/ui/viewmodel/BookViewModel.kt:84-106 | batch: a found summary is appended at the end of the buffer, a null one leaves it as it was, and the state is `Idle` either way; single: `Success(summary)` or `Error(scan_not_found)` with the buffer untouched; no request is sent; keeps all three invariants |
| `ViewModel.BookViewModel.ApplyResult` | app/src/main/java/com/example/mybooksapplication/ui/viewmodel/BookViewModel.kt:85-105 | what a resumed lookup does with the use case's result: the same new state as `CompleteLookup`, for any result carrying the lookup's isbn; keeps all three invariants |
| `ViewModel.BookViewModel.RemainingLookupsStayFresh` | app/src/main/java/com/example/mybooksapplication/ui/viewmodel/BookViewModel.kt:85-87 | after one batch lookup appends its summary, the other outstanding batch lookups still await distinct isbns that are not buffered |
| `ViewModel.BookViewModel.SaveCurrentBook` | app/src/main/java/com/example/mybooksapplication/ui/viewmodel/BookViewModel.kt:113-122 | in `Success(s)`: exactly one `insertBook` of `s`'s entity, then `Idle`; in any other state nothing changes |
| `ViewModel.BookViewModel.SaveBufferedBooks` | app/src/main/java/com/example/mybooksapplication/ui/viewmodel/BookViewModel.kt:127-136 | a non-empty buffer is saved with exactly one `insertAll` of the whole buffer in order, then emptied; an empty buffer changes nothing |
| `ViewModel.BookViewModel.DeleteBook` | app/src/main/java/com/example/mybooksapplication/ui/viewmodel/BookViewModel.kt:141-144 | exactly one `deleteBook` of the given book |
| `ViewModel.BookViewModel.ResetScanState` | app/src/main/java/com/example/mybooksapplication/ui/viewmodel/BookViewModel.kt:149-152 | `Idle` from any state, and no other field may change |
| `ViewModel.BookViewModel.ToggleSelection` | app/src/main/java/com/example/mybooksapplication/ui/viewmodel/BookViewModel.kt:157-165 | the selection becomes `Toggle(old selection, id)`, and no other field may change |
| `ViewModel.BookViewModel.DeleteSelectedBooks` | app/src/main/java/com/example/mybooksapplication/ui/viewmodel/BookViewModel.kt:170-181 | with an empty selection, nothing; otherwise one `deleteBooks` of exactly the given books whose id is selected, in their order, then an empty selection |
| `ViewModel.BookViewModel.ClearSelection` | app/src/main/java/com/example/mybooksapplication/ui/viewmodel/BookViewModel.kt:186-189 | the selection is empty, and no other field may change |
| `ViewModel.BookViewModel.ClearBuffer` | app/src/main/java/com/example/mybooksapplication/ui/viewmodel/BookViewModel.kt:198-201 | the buffer is empty, and no other field may change |
| `Scenarios.ScanWhileBusyIsDropped` | app/src/test/java/com/example/mybooksapplication/ui/viewmodel/BookViewModelTest.kt:262-283 | two scans before the lookup answers request exactly one lookup |
| `Scenarios.SingleScanFoundAndSaved` | app/src/main/java/com/example/mybooksapplication/ui/viewmodel/BookViewModel.kt:96-122 | single mode: `Loading`, then `Success(result)`, then one save of that result and `Idle` |
| `Scenarios.SingleScanNotFound` | app/src/test/java/com/example/mybooksapplication/ui/viewmodel/BookViewModelTest.kt:115-136 | single mode, nothing found: `Error(scan_not_found)`, and a save afterwards requests nothing |
| `Scenarios.BatchScanIgnoresDuplicate` | app/src/test/java/com/example/mybooksapplication/ui/viewmodel/BookViewModelTest.kt:138-157 | batch mode: the found summary is buffered once, and scanning its isbn again requests nothing |
| `Scenarios.DeleteOnlySelected` | app/src/test/java/com/example/mybooksapplication/ui/viewmodel/BookViewModelTest.kt:222-239 | of books 1, 2 and 3 with 2 selected, only book 2 is deleted, and the selection is emptied |
| `Scenarios.BatchRescanAfterResetDuplicates` | app/src/main/java/com/example/mybooksapplication/ui/viewmodel/BookViewModel.kt:82-87 | a mode reset while a batch lookup is pending lets the same isbn into the buffer twice |
| `Scenarios.LateSingleCompletionInBatchMode` | app/src/main/java/com/example/mybooksapplication/ui/viewmodel/BookViewModel.kt:96-105 | a single-mode lookup that answers after the switch to batch mode still produces `Success` |
| `Scenarios.LateResultBlocksBatchScans` | app/src/main/java/com/example/mybooksapplication/ui/viewmodel/BookViewModel.kt:75 | after that late `Success` in batch mode, further scans request nothing and the buffer stays empty |

## Modelling choices

- `OnIsbnScanned` treats the gate at line 75 and the body of the `launch` up to the lookup as one step. This is sound for two reasons. `viewModelScope` dispatches on `Dispatchers.Main.immediate`, and ML Kit's success listener runs on the main thread (CameraComponents.kt:105-113). So the `launch` body runs up to its first suspension before `onIsbnScanned` returns. The second `Idle` check at line 96 then always passes, so it is not written out.
- `CompleteLookup` uses the branch recorded when the lookup was launched, as the suspended coroutine does. It does not use the current mode.
- `R.string.scan_not_found` is the constant `ViewModel.ScanNotFound`. Its numeric value plays no part.
- Strings are sequences of Unicode characters. `Text.IsWhitespace` lists the characters Kotlin's `Char.isWhitespace` accepts on the JVM.

## Left out

- The network call (`service.searchBook("isbn:<isbn>", apiKey)`), JSON decoding and the API key: the outcome of the call is the `ServiceResult` argument. Its `Threw` case covers every exception, including decoding failures.
- The Room database: its `ORDER BY id DESC` query, replace-on-conflict inserts and id assignment. The model records the DAO calls in the ghost log and does not model a store.
- The `savedBooks` and `getBookDetail` flows, and `GetSavedBooksUseCase`/`GetBookDetailUseCase`: asynchronous observation with no logic.
- The `DeleteBookUseCase`, `DeleteMultipleBooksUseCase` and repository forwarders: each is folded into the one DAO call it makes.
- Coroutine scheduling other than the lookup: `saveCurrentBook`, `saveBufferedBooks` and `deleteSelectedBooks` each run as one step. In the source each suspends in its store call before it resets. So a second `saveCurrentBook` during that suspension could save twice, and `clearBuffer` after a bulk save also drops any summary appended while the save was suspended. The model does not capture either interleaving.
- `Text.ReplaceAll`: defined only for a non-empty pattern. Kotlin's `replace` also accepts an empty one, but line 31 never passes it.
- Camera, barcode filtering, Compose screens, navigation, dependency injection and logging: UI and platform plumbing with no core logic.
- The stale files `GoogleBooksApi.kt`, `OpenBdApi.kt` and `MainActivity.kt` are not modelled. The data types follow `GoogleBooksDto.kt`.
