/**
 * `SaveMultipleBooksUseCase` (domain/usecase/SaveMultipleBooksUseCase.kt):
 * every summary is converted as a single save would convert it, in order, and
 * the whole list is saved with one `insertAll` call, even when it is empty.
 */
module SaveMultipleBooksUseCase {
  import opened Remote
  import opened Local
  import SaveBookUseCase

  /** The `map` of lines 12-19. */
  function ToEntities(ss: seq<BookSummary>): (es: seq<BookEntity>)
    ensures |es| == |ss|
    ensures forall i :: 0 <= i < |ss| ==> es[i] == SaveBookUseCase.ToEntity(ss[i])
  {
    if ss == [] then []
    else [SaveBookUseCase.ToEntity(ss[0])] + ToEntities(ss[1..])
  }

  /** The four descriptive fields of every entity, in order. */
  function ToSummaries(es: seq<BookEntity>): (ss: seq<BookSummary>)
    ensures |ss| == |es|
    ensures forall i :: 0 <= i < |es| ==> ss[i] == SaveBookUseCase.ToSummary(es[i])
  {
    if es == [] then []
    else [SaveBookUseCase.ToSummary(es[0])] + ToSummaries(es[1..])
  }

  /** The list conversion round-trips, so neither order nor content is lost. */
  lemma RoundTrip(ss: seq<BookSummary>)
    ensures ToSummaries(ToEntities(ss)) == ss
  {
  }

  /** Converting a concatenation converts each part. */
  lemma {:induction false} ToEntitiesConcat(a: seq<BookSummary>, b: seq<BookSummary>)
    ensures ToEntities(a + b) == ToEntities(a) + ToEntities(b)
  {
    if a != [] {
      assert (a + b)[1..] == a[1..] + b;
      ToEntitiesConcat(a[1..], b);
    }
  }

  /** `invoke(summaries)`: the one store call it makes. */
  function Invoke(ss: seq<BookSummary>): (c: StoreCall)
    ensures c.InsertAll?
    ensures |c.books| == |ss|
    ensures forall i :: 0 <= i < |ss| ==> c.books[i].id == DefaultId && SaveBookUseCase.ToSummary(c.books[i]) == ss[i]
  {
    InsertAll(ToEntities(ss))
  }

  /** Saving one summary in bulk stores the same entity a single save would. */
  lemma SingletonAgreesWithSingleSave(s: BookSummary)
    ensures Invoke([s]).books == [SaveBookUseCase.Invoke(s).book]
  {
  }
}
