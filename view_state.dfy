/** What the view-models share: the repository calls a transition can issue, and the
    favourites-set update that a successful add or remove performs. */
module ViewState {
  import opened QuoteModel

  /** A call a view-model makes on its QuoteRepository. A transition returns the calls it
      issued, in order, so "makes no call" and "reloads" can be stated. */
  datatype Request =
    | GetQuotes
    | GetQuotesByCategory(category: QuoteCategory)
    | SearchQuotes(query: string)
    | GetQuoteOfTheDay
    | GetQuoteById(quoteId: string)
    | GetUserFavorites
    | GetFavoriteQuotes
    | AddToFavorites(quoteId: string)
    | RemoveFromFavorites(quoteId: string)
    | GetCurrentUser
    | SignIn(email: string, password: string)
    | SignUp(email: string, password: string, name: string)
    | ResetPassword(email: string)

  /** The messages a failed favourites call leaves in a view-model's error field. */
  const RemoveFailed := "Failed to remove from favorites"
  const AddFailed := "Failed to add to favorites"
  const UpdateFailed := "Failed to update favorites"

  /** The favourites set after a successful toggle: `favorites - id` when `id` was a member,
      `favorites + id` otherwise. */
  function Toggled(favorites: set<string>, id: string): (r: set<string>)
    ensures id in r <==> id !in favorites
    ensures forall other :: other != id ==> (other in r <==> other in favorites)
  {
    if id in favorites then favorites - {id} else favorites + {id}
  }

  /** Two successful toggles of the same id restore the set. */
  lemma ToggleTwice(favorites: set<string>, id: string)
    ensures Toggled(Toggled(favorites, id), id) == favorites
  {
  }

  /** `toSet()`: duplicates collapse, order is forgotten. */
  function ToSet(ids: seq<string>): (r: set<string>)
    ensures forall id :: id in r <==> id in ids
    ensures |r| <= |ids|
    decreases |ids|
  {
    if ids == [] then {}
    else
      var rest := ToSet(ids[1..]);
      assert forall id :: id in ids <==> id == ids[0] || id in ids[1..];
      {ids[0]} + rest
  }
}
