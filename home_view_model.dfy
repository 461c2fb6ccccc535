/** The home screen's view-model: the selected category, the search text, the quote list,
    the quote of the day, the loading and error flags, and the set of favourite ids. Each
    launched coroutine is one transition; the repository's answer is a parameter. */
module Home {
  import opened Outcomes
  import opened QuoteModel
  import opened ViewState

  class HomeViewModel {
    var selectedCategory: QuoteCategory
    var searchQuery: string
    var quotes: seq<Quote>
    var dailyQuote: Option<Quote>
    var isLoading: bool
    var error: Option<string>
    var favorites: set<string>

    /** The field initialisers, then `init`: loadDailyQuote, loadQuotes, loadFavorites. */
    constructor (daily: Call<Option<Quote>>, all: Call<seq<Quote>>, emitted: Option<seq<string>>)
      ensures selectedCategory == Motivation && searchQuery == "" && !isLoading
      ensures dailyQuote == (if daily.Succeeded() then daily.result.value else None)
      ensures quotes == (if all.Succeeded() then all.result.value else [])
      ensures error == (if !all.Succeeded() then all.FailureMessage()
                        else if !daily.Succeeded() then daily.FailureMessage()
                        else None)
      ensures favorites == (if emitted.Some? then ToSet(emitted.value) else {})
    {
      selectedCategory := Motivation;
      searchQuery := "";
      quotes := [];
      dailyQuote := None;
      isLoading := false;
      error := None;
      favorites := {};
      new;
      var _ := LoadDailyQuote(daily);
      var _ := LoadQuotes(all);
      var _ := LoadFavorites(emitted);
    }

    /** `selectCategory`: records the category, then loads it. */
    method SelectCategory(category: QuoteCategory, outcome: Call<seq<Quote>>) returns (requests: seq<Request>)
      modifies this
      ensures requests == [GetQuotesByCategory(category)]
      ensures selectedCategory == category
      ensures !isLoading
      ensures outcome.Succeeded() ==> quotes == outcome.result.value && error == old(error)
      ensures !outcome.Succeeded() ==> quotes == old(quotes) && error == outcome.FailureMessage()
      ensures searchQuery == old(searchQuery) && dailyQuote == old(dailyQuote) && favorites == old(favorites)
    {
      selectedCategory := category;
      requests := LoadQuotesByCategory(category, outcome);
    }

    /** `searchQuotes`: records the query; a non-empty query searches, an empty one reloads
        every quote instead and never calls search. `outcome` answers whichever call is made. */
    method SearchQuotes(query: string, outcome: Call<seq<Quote>>) returns (requests: seq<Request>)
      modifies this
      ensures searchQuery == query
      ensures query != "" ==> requests == [Request.SearchQuotes(query)]
      ensures query == "" ==> requests == [GetQuotes]
      ensures !isLoading
      ensures outcome.Succeeded() ==> quotes == outcome.result.value && error == old(error)
      ensures !outcome.Succeeded() ==> quotes == old(quotes) && error == outcome.FailureMessage()
      ensures selectedCategory == old(selectedCategory) && dailyQuote == old(dailyQuote) && favorites == old(favorites)
    {
      searchQuery := query;
      if query != "" {
        requests := [Request.SearchQuotes(query)];
        isLoading := true;
        match outcome {
        case Returned(Ok(found)) =>
          quotes := found;
        case Returned(Err(message)) =>
          error := message;
        case Threw(message) =>
          error := message;
        }
        isLoading := false;
      } else {
        requests := LoadQuotes(outcome);
      }
    }

    /** `loadDailyQuote`: the quote of the day, which may be null. */
    method LoadDailyQuote(outcome: Call<Option<Quote>>) returns (requests: seq<Request>)
      modifies this
      ensures requests == [GetQuoteOfTheDay]
      ensures !isLoading
      ensures outcome.Succeeded() ==> dailyQuote == outcome.result.value && error == old(error)
      ensures !outcome.Succeeded() ==> dailyQuote == old(dailyQuote) && error == outcome.FailureMessage()
      ensures selectedCategory == old(selectedCategory) && searchQuery == old(searchQuery)
      ensures quotes == old(quotes) && favorites == old(favorites)
    {
      requests := [GetQuoteOfTheDay];
      isLoading := true;
      match outcome {
      case Returned(Ok(quote)) =>
        dailyQuote := quote;
      case Returned(Err(message)) =>
        error := message;
      case Threw(message) =>
        error := message;
      }
      isLoading := false;
    }

    /** `loadQuotes`: every quote. */
    method LoadQuotes(outcome: Call<seq<Quote>>) returns (requests: seq<Request>)
      modifies this
      ensures requests == [GetQuotes]
      ensures !isLoading
      ensures outcome.Succeeded() ==> quotes == outcome.result.value && error == old(error)
      ensures !outcome.Succeeded() ==> quotes == old(quotes) && error == outcome.FailureMessage()
      ensures selectedCategory == old(selectedCategory) && searchQuery == old(searchQuery)
      ensures dailyQuote == old(dailyQuote) && favorites == old(favorites)
    {
      requests := [GetQuotes];
      isLoading := true;
      match outcome {
      case Returned(Ok(found)) =>
        quotes := found;
      case Returned(Err(message)) =>
        error := message;
      case Threw(message) =>
        error := message;
      }
      isLoading := false;
    }

    /** `loadQuotesByCategory`: the quotes of one category. */
    method LoadQuotesByCategory(category: QuoteCategory, outcome: Call<seq<Quote>>) returns (requests: seq<Request>)
      modifies this
      ensures requests == [GetQuotesByCategory(category)]
      ensures !isLoading
      ensures outcome.Succeeded() ==> quotes == outcome.result.value && error == old(error)
      ensures !outcome.Succeeded() ==> quotes == old(quotes) && error == outcome.FailureMessage()
      ensures selectedCategory == old(selectedCategory) && searchQuery == old(searchQuery)
      ensures dailyQuote == old(dailyQuote) && favorites == old(favorites)
    {
      requests := [GetQuotesByCategory(category)];
      isLoading := true;
      match outcome {
      case Returned(Ok(found)) =>
        quotes := found;
      case Returned(Err(message)) =>
        error := message;
      case Threw(message) =>
        error := message;
      }
      isLoading := false;
    }

    /** `loadFavorites`: the favourite ids the repository emits, as a set; no emission (no
        signed-in user) leaves the set as it was. */
    method LoadFavorites(emitted: Option<seq<string>>) returns (requests: seq<Request>)
      modifies this
      ensures requests == [GetUserFavorites]
      ensures emitted.Some? ==> forall id :: id in favorites <==> id in emitted.value
      ensures emitted.None? ==> favorites == old(favorites)
      ensures selectedCategory == old(selectedCategory) && searchQuery == old(searchQuery)
      ensures quotes == old(quotes) && dailyQuote == old(dailyQuote)
      ensures isLoading == old(isLoading) && error == old(error)
    {
      requests := [GetUserFavorites];
      if emitted.Some? {
        favorites := ToSet(emitted.value);
      }
    }

    /** `toggleFavorite`: removes a favourite or adds a new one; the set changes only when the
        repository call succeeds, and a failure says which direction failed. */
    method ToggleFavorite(quoteId: string, outcome: Call<()>) returns (requests: seq<Request>)
      modifies this
      ensures quoteId in old(favorites) ==> requests == [RemoveFromFavorites(quoteId)]
      ensures quoteId !in old(favorites) ==> requests == [AddToFavorites(quoteId)]
      ensures outcome.Succeeded() ==> favorites == Toggled(old(favorites), quoteId) && error == old(error)
      ensures !outcome.Succeeded() ==> favorites == old(favorites)
      ensures outcome.Returned? && outcome.result.Err? && quoteId in old(favorites) ==> error == Some(RemoveFailed)
      ensures outcome.Returned? && outcome.result.Err? && quoteId !in old(favorites) ==> error == Some(AddFailed)
      ensures outcome.Threw? ==> error == Some(UpdateFailed)
      ensures selectedCategory == old(selectedCategory) && searchQuery == old(searchQuery)
      ensures quotes == old(quotes) && dailyQuote == old(dailyQuote) && isLoading == old(isLoading)
    {
      var isFavorite := quoteId in favorites;
      if isFavorite {
        requests := [RemoveFromFavorites(quoteId)];
        match outcome {
        case Returned(Ok(_)) =>
          favorites := favorites - {quoteId};
        case Returned(Err(_)) =>
          error := Some(RemoveFailed);
        case Threw(_) =>
          error := Some(UpdateFailed);
        }
      } else {
        requests := [AddToFavorites(quoteId)];
        match outcome {
        case Returned(Ok(_)) =>
          favorites := favorites + {quoteId};
        case Returned(Err(_)) =>
          error := Some(AddFailed);
        case Threw(_) =>
          error := Some(UpdateFailed);
        }
      }
    }

    /** `refresh`: loadQuotes, then loadDailyQuote; the later failure's message wins. */
    method Refresh(all: Call<seq<Quote>>, daily: Call<Option<Quote>>) returns (requests: seq<Request>)
      modifies this
      ensures requests == [GetQuotes, GetQuoteOfTheDay]
      ensures !isLoading
      ensures quotes == (if all.Succeeded() then all.result.value else old(quotes))
      ensures dailyQuote == (if daily.Succeeded() then daily.result.value else old(dailyQuote))
      ensures !daily.Succeeded() ==> error == daily.FailureMessage()
      ensures daily.Succeeded() && !all.Succeeded() ==> error == all.FailureMessage()
      ensures daily.Succeeded() && all.Succeeded() ==> error == old(error)
      ensures selectedCategory == old(selectedCategory) && searchQuery == old(searchQuery) && favorites == old(favorites)
    {
      var first := LoadQuotes(all);
      var second := LoadDailyQuote(daily);
      requests := first + second;
    }
  }
}
