/** The favourites screen's view-model: the favourite quotes, and the loading and error flags. */
module Favorites {
  import opened Outcomes
  import opened QuoteModel
  import opened ViewState

  class FavoritesViewModel {
    var favorites: seq<Quote>
    var isLoading: bool
    var error: Option<string>

    constructor ()
      ensures favorites == [] && !isLoading && error == None
    {
      favorites := [];
      isLoading := false;
      error := None;
    }

    /** `loadFavorites`: clears the error, then stores the favourite quotes or the failure's
        message; loading always ends. */
    method LoadFavorites(outcome: Call<seq<Quote>>) returns (requests: seq<Request>)
      modifies this
      ensures requests == [GetFavoriteQuotes]
      ensures !isLoading
      ensures outcome.Succeeded() ==> favorites == outcome.result.value && error == None
      ensures !outcome.Succeeded() ==> favorites == old(favorites) && error == outcome.FailureMessage()
    {
      requests := [GetFavoriteQuotes];
      isLoading := true;
      error := None;
      match outcome {
      case Returned(Ok(found)) =>
        favorites := found;
      case Returned(Err(message)) =>
        error := message;
      case Threw(message) =>
        error := message;
      }
      isLoading := false;
    }

    /** `removeFromFavorites`: a successful removal reloads the list (answered by `reload`); a
        failed one reports it and reloads nothing; an exception stores its own message. */
    method RemoveFromFavorites(quoteId: string, outcome: Call<()>, reload: Call<seq<Quote>>)
      returns (requests: seq<Request>)
      modifies this
      ensures outcome.Succeeded() ==> requests == [Request.RemoveFromFavorites(quoteId), GetFavoriteQuotes]
      ensures !outcome.Succeeded() ==> requests == [Request.RemoveFromFavorites(quoteId)]
      ensures outcome.Succeeded() && reload.Succeeded() ==> favorites == reload.result.value && error == None
      ensures outcome.Succeeded() && !reload.Succeeded() ==> favorites == old(favorites) && error == reload.FailureMessage()
      ensures outcome.Succeeded() ==> !isLoading
      ensures outcome.Returned? && outcome.result.Err? ==> error == Some(RemoveFailed)
      ensures outcome.Threw? ==> error == outcome.message
      ensures !outcome.Succeeded() ==> favorites == old(favorites) && isLoading == old(isLoading)
    {
      requests := [Request.RemoveFromFavorites(quoteId)];
      match outcome {
      case Returned(Ok(_)) =>
        var reloaded := LoadFavorites(reload);
        requests := requests + reloaded;
      case Returned(Err(_)) =>
        error := Some(RemoveFailed);
      case Threw(message) =>
        error := message;
      }
    }
  }
}
