/** The search screen's view-model: the results of the last search, the loading and error
    flags, and the favourite ids. */
module Search {
  import opened Outcomes
  import opened QuoteModel
  import opened ViewState

  class SearchViewModel {
    var searchResults: seq<Quote>
    var isLoading: bool
    var error: Option<string>
    var favorites: set<string>

    /** The field initialisers, then `init`: loadFavorites. */
    constructor (emitted: Option<seq<string>>)
      ensures searchResults == [] && !isLoading && error == None
      ensures favorites == (if emitted.Some? then ToSet(emitted.value) else {})
    {
      searchResults := [];
      isLoading := false;
      error := None;
      favorites := {};
      new;
      var _ := LoadFavorites(emitted);
    }

    /** `loadFavorites`: the emitted ids as a set; no emission leaves the set as it was. */
    method LoadFavorites(emitted: Option<seq<string>>) returns (requests: seq<Request>)
      modifies this
      ensures requests == [GetUserFavorites]
      ensures emitted.Some? ==> forall id :: id in favorites <==> id in emitted.value
      ensures emitted.None? ==> favorites == old(favorites)
      ensures searchResults == old(searchResults) && isLoading == old(isLoading) && error == old(error)
    {
      requests := [GetUserFavorites];
      if emitted.Some? {
        favorites := ToSet(emitted.value);
      }
    }

    /** `searchQuotes`: an empty query clears the results without calling the repository and
        without touching the error; otherwise the error is cleared before the call, so after a
        successful search it is null. */
    method SearchQuotes(query: string, outcome: Call<seq<Quote>>) returns (requests: seq<Request>)
      modifies this
      ensures query == "" ==> requests == [] && searchResults == []
      ensures query == "" ==> isLoading == old(isLoading) && error == old(error)
      ensures query != "" ==> requests == [Request.SearchQuotes(query)] && !isLoading
      ensures query != "" && outcome.Succeeded() ==> searchResults == outcome.result.value && error == None
      ensures query != "" && !outcome.Succeeded() ==> searchResults == old(searchResults) && error == outcome.FailureMessage()
      ensures favorites == old(favorites)
    {
      if query == "" {
        searchResults := [];
        return [];
      }
      requests := [Request.SearchQuotes(query)];
      isLoading := true;
      error := None;
      match outcome {
      case Returned(Ok(found)) =>
        searchResults := found;
      case Returned(Err(message)) =>
        error := message;
      case Threw(message) =>
        error := message;
      }
      isLoading := false;
    }

    /** `toggleFavorite`: like the home screen's, except that a failed result is ignored
        silently; only an exception sets the error. */
    method ToggleFavorite(quoteId: string, outcome: Call<()>) returns (requests: seq<Request>)
      modifies this
      ensures quoteId in old(favorites) ==> requests == [RemoveFromFavorites(quoteId)]
      ensures quoteId !in old(favorites) ==> requests == [AddToFavorites(quoteId)]
      ensures outcome.Succeeded() ==> favorites == Toggled(old(favorites), quoteId)
      ensures !outcome.Succeeded() ==> favorites == old(favorites)
      ensures outcome.Threw? ==> error == Some(UpdateFailed)
      ensures outcome.Returned? ==> error == old(error)
      ensures searchResults == old(searchResults) && isLoading == old(isLoading)
    {
      if quoteId in favorites {
        requests := [RemoveFromFavorites(quoteId)];
        match outcome {
        case Returned(result) =>
          if result.Ok? {
            favorites := favorites - {quoteId};
          }
        case Threw(_) =>
          error := Some(UpdateFailed);
        }
      } else {
        requests := [AddToFavorites(quoteId)];
        match outcome {
        case Returned(result) =>
          if result.Ok? {
            favorites := favorites + {quoteId};
          }
        case Threw(_) =>
          error := Some(UpdateFailed);
        }
      }
    }
  }
}
