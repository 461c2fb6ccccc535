/** The Supabase-backed repository. The back end is the `quotes` and `user_favorites` tables,
    each a list of rows in table order, and the signed-in user, if any. Reads of the quotes
    table succeed whoever is signed in; favourites need a user. No select has an ORDER BY;
    the model fixes one row order, the order of the table's list, for every select. */
module SupabaseRemote {
  import opened Outcomes
  import opened QuoteModel
  import Text
  import Tables

  /** A row of `user_favorites`: columns `user_id` and `quote_id`. */
  datatype FavoriteRow = FavoriteRow(userId: string, quoteId: string)

  const NotLoggedIn := "User not logged in"

  /** `mapNotNull { it["quote_id"] }` over a user's rows: their quote ids, in table order. */
  function QuoteIdsOf(rows: seq<FavoriteRow>, userId: string): (ids: seq<string>)
    ensures forall id :: id in ids <==> FavoriteRow(userId, id) in rows
    ensures |ids| <= |rows|
  {
    if rows == [] then []
    else if rows[0].userId == userId then [rows[0].quoteId] + QuoteIdsOf(rows[1..], userId)
    else QuoteIdsOf(rows[1..], userId)
  }

  /** The first row satisfying `p`, as `limit(1)` followed by `firstOrNull()` returns it. */
  function FirstWhere(rows: seq<Quote>, p: Quote -> bool): (r: Option<Quote>)
    ensures r.None? <==> forall q :: q in rows ==> !p(q)
    ensures r.Some? ==> r.value in rows && p(r.value)
    ensures r.Some? ==> exists k :: 0 <= k < |rows| && rows[k] == r.value && forall j :: 0 <= j < k ==> !p(rows[j])
  {
    if rows == [] then None
    else if p(rows[0]) then Some(rows[0])
    else
      var r := FirstWhere(rows[1..], p);
      assert r.Some? ==> exists k :: 0 <= k < |rows| && rows[k] == r.value && forall j :: 0 <= j < k ==> !p(rows[j]) by {
        if r.Some? {
          var k :| 0 <= k < |rows[1..]| && rows[1..][k] == r.value && forall j :: 0 <= j < k ==> !p(rows[1..][j]);
          assert rows[k + 1] == r.value;
          forall j | 0 <= j < k + 1 ensures !p(rows[j]) {
            if j > 0 {
              assert rows[j] == rows[1..][j - 1];
            }
          }
        }
      }
      r
  }

  /** With no wildcard in `query`, `ilike '%query%'` is a case-insensitive substring test. */
  lemma IlikeIsContains(rows: seq<Quote>, query: string)
    ensures Text.NoWildcards(query) ==>
      forall q :: q in rows ==> (Text.Like(q.content, "%" + query + "%") <==> Text.ContainsFold(q.content, query))
  {
    forall q | q in rows && Text.NoWildcards(query) ensures Text.Like(q.content, "%" + query + "%") <==> Text.ContainsFold(q.content, query) {
      Text.LikeContains(q.content, query);
    }
  }

  class QuoteRepositoryImpl {
    var quotes: seq<Quote>
    var userFavorites: seq<FavoriteRow>
    var currentUser: Option<string>

    constructor (user: Option<string>)
      ensures quotes == [] && userFavorites == [] && currentUser == user
    {
      quotes := [];
      userFavorites := [];
      currentUser := user;
    }

    // ------------------------------------------------------------ quotes

    /** `getQuotes`: every row of `quotes`. */
    function GetQuotes(): (r: Result<seq<Quote>>)
      reads this
      ensures r.Ok? && |r.value| == |quotes|
      ensures r.Ok? ==> forall q :: q in r.value <==> q in quotes
    {
      Ok(quotes)
    }

    /** `getQuotesByCategory`: `eq("category", category.name)`. */
    function GetQuotesByCategory(category: QuoteCategory): (r: Result<seq<Quote>>)
      reads this
      ensures r.Ok?
      ensures forall q :: q in r.value <==> q in quotes && q.category == Name(category)
    {
      Ok(Tables.Filter(quotes, (q: Quote) => q.category == Name(category)))
    }

    /** `searchQuotes`: `ilike("content", "%query%")`; the author column is not consulted. */
    function SearchQuotes(query: string): (r: Result<seq<Quote>>)
      reads this
      ensures r.Ok?
      ensures forall q :: q in r.value <==> q in quotes && Text.Like(q.content, "%" + query + "%")
      ensures Text.NoWildcards(query) ==>
        forall q :: q in r.value <==> q in quotes && Text.ContainsFold(q.content, query)
    {
      IlikeIsContains(quotes, query);
      Ok(Tables.Filter(quotes, (q: Quote) => Text.Like(q.content, "%" + query + "%")))
    }

    /** `getQuoteOfTheDay`: the first featured row, or null (still a success) when none is featured. */
    function GetQuoteOfTheDay(): (r: Result<Option<Quote>>)
      reads this
      ensures r.Ok?
      ensures r.value.None? <==> forall q :: q in quotes ==> !q.isFeatured
      ensures r.value.Some? ==> r.value.value in quotes && r.value.value.isFeatured
    {
      Ok(FirstWhere(quotes, (q: Quote) => q.isFeatured))
    }

    /** `getQuoteById`: the first row with that id, or null (still a success) when there is none. */
    function GetQuoteById(quoteId: string): (r: Result<Option<Quote>>)
      reads this
      ensures r.Ok?
      ensures r.value.None? <==> forall q :: q in quotes ==> q.id != quoteId
      ensures r.value.Some? ==> r.value.value in quotes && r.value.value.id == quoteId
    {
      Ok(FirstWhere(quotes, (q: Quote) => q.id == quoteId))
    }

    // ------------------------------------------------------------ favourites

    /** `getUserFavorites`: emits nothing when signed out, else the user's quote ids. */
    function GetUserFavorites(): (r: Option<seq<string>>)
      reads this
      ensures r.None? <==> currentUser.None?
      ensures r.Some? ==> forall id :: id in r.value <==> FavoriteRow(currentUser.value, id) in userFavorites
    {
      match currentUser
      case None => None
      case Some(userId) => Some(QuoteIdsOf(userFavorites, userId))
    }

    /** `getFavoriteQuotes`: the quote rows whose id is among the user's favourite ids, in
        `quotes` table order; a favourite id with no quote row yields nothing. */
    function GetFavoriteQuotes(): (r: Result<seq<Quote>>)
      reads this
      ensures r.Err? <==> currentUser.None?
      ensures r.Err? ==> r == Fail(NotLoggedIn)
      ensures r.Ok? ==> forall q :: q in r.value <==> q in quotes && FavoriteRow(currentUser.value, q.id) in userFavorites
      ensures r.Ok? ==> Tables.SubsequenceOf(r.value, quotes)
      ensures r.Ok? ==> forall q ::
        multiset(r.value)[q] == (if FavoriteRow(currentUser.value, q.id) in userFavorites then multiset(quotes)[q] else 0)
      ensures r.Ok? && QuoteIdsOf(userFavorites, currentUser.value) == [] ==> r.value == []
    {
      match currentUser
      case None => Fail(NotLoggedIn)
      case Some(userId) =>
        var ids := QuoteIdsOf(userFavorites, userId);
        if ids == [] then Ok([])
        else Ok(Tables.Filter(quotes, (q: Quote) => q.id in ids))
    }

    /** `addToFavorites`: inserts a (user, quote) row; signed out it fails and inserts nothing. */
    method AddToFavorites(quoteId: string) returns (r: Result<()>)
      modifies this
      ensures quotes == old(quotes) && currentUser == old(currentUser)
      ensures r.Err? <==> currentUser.None?
      ensures r.Err? ==> r == Fail(NotLoggedIn) && userFavorites == old(userFavorites)
      ensures r.Ok? ==> userFavorites == old(userFavorites) + [FavoriteRow(currentUser.value, quoteId)]
      ensures r.Ok? ==> quoteId in GetUserFavorites().value
    {
      if currentUser.None? {
        return Fail(NotLoggedIn);
      }
      userFavorites := userFavorites + [FavoriteRow(currentUser.value, quoteId)];
      r := Ok(());
    }

    /** `removeFromFavorites`: deletes the rows matching both the user and the quote id, and
        only those; signed out it fails and deletes nothing. */
    method RemoveFromFavorites(quoteId: string) returns (r: Result<()>)
      modifies this
      ensures quotes == old(quotes) && currentUser == old(currentUser)
      ensures r.Err? <==> currentUser.None?
      ensures r.Err? ==> r == Fail(NotLoggedIn) && userFavorites == old(userFavorites)
      ensures r.Ok? ==> forall row :: row in userFavorites <==>
        row in old(userFavorites) && !(row.userId == currentUser.value && row.quoteId == quoteId)
      ensures r.Ok? ==> Tables.SubsequenceOf(userFavorites, old(userFavorites))
      ensures r.Ok? ==> forall row ::
        multiset(userFavorites)[row] == (if row.userId == currentUser.value && row.quoteId == quoteId then 0 else multiset(old(userFavorites))[row])
      ensures r.Ok? ==> quoteId !in GetUserFavorites().value
    {
      if currentUser.None? {
        return Fail(NotLoggedIn);
      }
      var userId := currentUser.value;
      userFavorites := Tables.Filter(userFavorites, (row: FavoriteRow) => !(row.userId == userId && row.quoteId == quoteId));
      r := Ok(());
    }
  }
}
