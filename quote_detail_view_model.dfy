/** The quote-detail screen's view-model: one quote, whether it is a favourite, and the
    loading and error flags. */
module QuoteDetail {
  import opened Outcomes
  import opened QuoteModel
  import opened ViewState

  class QuoteDetailViewModel {
    var quote: Option<Quote>
    var isFavorite: bool
    var isLoading: bool
    var error: Option<string>

    constructor ()
      ensures quote == None && !isFavorite && !isLoading && error == None
    {
      quote := None;
      isFavorite := false;
      isLoading := false;
      error := None;
    }

    /** `loadQuote`: clears the error, fetches the quote by id and, only when that call succeeds,
        reads the favourite ids to set `isFavorite`. A successful lookup that finds nothing
        stores null. `emitted` is what the favourites flow emits (nothing when signed out). */
    method LoadQuote(quoteId: string, outcome: Call<Option<Quote>>, emitted: Option<seq<string>>)
      returns (requests: seq<Request>)
      modifies this
      ensures outcome.Succeeded() ==> requests == [GetQuoteById(quoteId), GetUserFavorites]
      ensures !outcome.Succeeded() ==> requests == [GetQuoteById(quoteId)]
      ensures !isLoading
      ensures outcome.Succeeded() ==> quote == outcome.result.value && error == None
      ensures outcome.Succeeded() && emitted.Some? ==> (isFavorite <==> quoteId in emitted.value)
      ensures outcome.Succeeded() && emitted.None? ==> isFavorite == old(isFavorite)
      ensures !outcome.Succeeded() ==> quote == old(quote) && isFavorite == old(isFavorite)
      ensures !outcome.Succeeded() ==> error == outcome.FailureMessage()
    {
      isLoading := true;
      error := None;
      requests := [GetQuoteById(quoteId)];
      match outcome {
      case Returned(Ok(found)) =>
        quote := found;
        requests := requests + [GetUserFavorites];
        if emitted.Some? {
          isFavorite := quoteId in emitted.value;
        }
      case Returned(Err(message)) =>
        error := message;
      case Threw(message) =>
        error := message;
      }
      isLoading := false;
    }

    /** `toggleFavorite`: without a loaded quote nothing happens; otherwise the flag flips
        exactly when the repository call succeeds, and a failure or exception is swallowed. */
    method ToggleFavorite(outcome: Call<()>) returns (requests: seq<Request>)
      modifies this
      ensures old(quote).None? ==> requests == [] && isFavorite == old(isFavorite)
      ensures old(quote).Some? && old(isFavorite) ==> requests == [RemoveFromFavorites(old(quote).value.id)]
      ensures old(quote).Some? && !old(isFavorite) ==> requests == [AddToFavorites(old(quote).value.id)]
      ensures old(quote).Some? && outcome.Succeeded() ==> isFavorite == !old(isFavorite)
      ensures !outcome.Succeeded() ==> isFavorite == old(isFavorite)
      ensures quote == old(quote) && isLoading == old(isLoading) && error == old(error)
    {
      if quote.None? {
        return [];
      }
      var quoteId := quote.value.id;
      var currentlyFavorite := isFavorite;
      if currentlyFavorite {
        requests := [RemoveFromFavorites(quoteId)];
        if outcome.Succeeded() {
          isFavorite := false;
        }
      } else {
        requests := [AddToFavorites(quoteId)];
        if outcome.Succeeded() {
          isFavorite := true;
        }
      }
    }
  }
}
