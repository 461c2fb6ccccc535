/** The Room DAO over the two cache tables: `quotes` keyed by id and `favorites` keyed by
    (userId, quoteId). Writes are upserts and deletes by key; each query is a selection
    over the current table contents (a Flow is modelled by its current snapshot). */
module Cache {
  import opened Outcomes
  import opened QuoteEntities
  import Tables
  import Text

  /** ORDER BY createdAt DESC: a newer row may precede an older one; equal timestamps in any order. */
  predicate NewestFirst(a: QuoteEntity, b: QuoteEntity) {
    a.createdAt >= b.createdAt
  }

  /** No ORDER BY: any order. */
  predicate AnyOrder<V>(a: V, b: V) {
    true
  }

  /** `content LIKE '%' || q || '%' OR author LIKE '%' || q || '%'`. */
  predicate MatchesSearch(e: QuoteEntity, query: string) {
    Text.Like(e.content, "%" + query + "%") || Text.Like(e.author, "%" + query + "%")
  }

  /** The quotes table after upserting `qs` one after another. */
  function UpsertAll(m: map<string, QuoteEntity>, qs: seq<QuoteEntity>): map<string, QuoteEntity>
    decreases |qs|
  {
    if qs == [] then m
    else
      var last := qs[|qs| - 1];
      UpsertAll(m, qs[..|qs| - 1])[last.id := last]
  }

  /** The last element of `qs` carrying `id`, if any. */
  function LastWithId(qs: seq<QuoteEntity>, id: string): (r: Option<QuoteEntity>)
    ensures r.None? <==> forall k :: 0 <= k < |qs| ==> qs[k].id != id
    ensures r.Some? ==> r.value.id == id
    ensures r.Some? ==> exists k :: 0 <= k < |qs| && qs[k] == r.value && forall j :: k < j < |qs| ==> qs[j].id != id
    decreases |qs|
  {
    if qs == [] then None
    else if qs[|qs| - 1].id == id then Some(qs[|qs| - 1])
    else LastWithId(qs[..|qs| - 1], id)
  }

  /** Batch upsert is last-write-wins: a key written by the batch holds the last row written
      with it, and every other key keeps its old row (or stays absent). */
  lemma {:induction false} UpsertAllLastWriteWins(m: map<string, QuoteEntity>, qs: seq<QuoteEntity>, id: string)
    ensures LastWithId(qs, id).Some? ==> id in UpsertAll(m, qs) && UpsertAll(m, qs)[id] == LastWithId(qs, id).value
    ensures LastWithId(qs, id).None? ==> (id in UpsertAll(m, qs) <==> id in m)
    ensures LastWithId(qs, id).None? && id in m ==> UpsertAll(m, qs)[id] == m[id]
    decreases |qs|
  {
    if qs != [] {
      UpsertAllLastWriteWins(m, qs[..|qs| - 1], id);
    }
  }

  class QuoteDao {
    var quotes: map<string, QuoteEntity>
    var favorites: map<(string, string), FavoriteEntity>

    /** Each row is stored under its own primary key. */
    ghost predicate Valid()
      reads this
    {
      && (forall id :: id in quotes ==> quotes[id].id == id)
      && (forall k :: k in favorites ==> favorites[k].userId == k.0 && favorites[k].quoteId == k.1)
    }

    constructor ()
      ensures Valid() && quotes == map[] && favorites == map[]
    {
      quotes := map[];
      favorites := map[];
    }

    // ---------------------------------------------------------------- quotes

    /** @Upsert: insert, or replace the row with the same id; nothing else changes. */
    method UpsertQuote(quote: QuoteEntity)
      requires Valid()
      modifies this
      ensures Valid()
      ensures quotes == old(quotes)[quote.id := quote]
      ensures favorites == old(favorites)
    {
      quotes := quotes[quote.id := quote];
    }

    /** @Upsert of a list: the rows are upserted in list order. */
    method UpsertQuotes(qs: seq<QuoteEntity>)
      requires Valid()
      modifies this
      ensures Valid()
      ensures quotes == UpsertAll(old(quotes), qs)
      ensures favorites == old(favorites)
    {
      var i := 0;
      while i < |qs|
        invariant 0 <= i <= |qs|
        invariant Valid()
        invariant quotes == UpsertAll(old(quotes), qs[..i])
        invariant favorites == old(favorites)
      {
        assert qs[..i + 1][..i] == qs[..i];
        UpsertQuote(qs[i]);
        i := i + 1;
      }
      assert qs[..|qs|] == qs;
    }

    /** SELECT * FROM quotes ORDER BY createdAt DESC */
    method GetAllQuotes() returns (r: seq<QuoteEntity>)
      ensures forall e :: e in r <==> e in quotes.Values
      ensures Tables.Distinct(r)
      ensures Tables.SortedBy(r, NewestFirst)
    {
      r := Tables.SelectOrdered(quotes.Values, (e: QuoteEntity) => true, NewestFirst);
    }

    /** SELECT * FROM quotes WHERE category = :category ORDER BY createdAt DESC */
    method GetQuotesByCategory(category: string) returns (r: seq<QuoteEntity>)
      ensures forall e :: e in r <==> e in quotes.Values && e.category == category
      ensures Tables.Distinct(r)
      ensures Tables.SortedBy(r, NewestFirst)
    {
      r := Tables.SelectOrdered(quotes.Values, (e: QuoteEntity) => e.category == category, NewestFirst);
    }

    /** SELECT * FROM quotes WHERE content LIKE '%q%' OR author LIKE '%q%' (no order) */
    method SearchQuotes(query: string) returns (r: seq<QuoteEntity>)
      ensures forall e :: e in r <==> e in quotes.Values && MatchesSearch(e, query)
      ensures Tables.Distinct(r)
    {
      r := Tables.SelectOrdered(quotes.Values, (e: QuoteEntity) => MatchesSearch(e, query), AnyOrder);
    }

    /** SELECT * FROM quotes WHERE isFeatured = 1 ORDER BY RANDOM() LIMIT 1:
        any featured row, or none when no row is featured. */
    method GetDailyQuote() returns (r: Option<QuoteEntity>)
      ensures r.None? <==> forall e :: e in quotes.Values ==> !e.isFeatured
      ensures r.Some? ==> r.value in quotes.Values && r.value.isFeatured
    {
      var featured := Tables.SelectOrdered(quotes.Values, (e: QuoteEntity) => e.isFeatured, AnyOrder);
      if featured == [] {
        assert forall e :: e in quotes.Values ==> e !in featured;
        r := None;
      } else {
        var i :| 0 <= i < |featured|;
        r := Some(featured[i]);
        assert featured[i] in featured;
      }
    }

    /** SELECT * FROM quotes WHERE id = :quoteId */
    function GetQuoteById(quoteId: string): (r: Option<QuoteEntity>)
      requires Valid()
      reads this
      ensures r.Some? ==> r.value in quotes.Values && r.value.id == quoteId
      ensures r.None? <==> forall e :: e in quotes.Values ==> e.id != quoteId
    {
      if quoteId in quotes then Some(quotes[quoteId]) else None
    }

    // ---------------------------------------------------------------- favorites

    /** @Upsert on favorites: at most one row per (userId, quoteId); the quotes table is untouched. */
    method UpsertFavorite(favorite: FavoriteEntity)
      requires Valid()
      modifies this
      ensures Valid()
      ensures favorites == old(favorites)[(favorite.userId, favorite.quoteId) := favorite]
      ensures favorites.Keys == old(favorites.Keys) + {(favorite.userId, favorite.quoteId)}
      ensures IsFavorite(favorite.userId, favorite.quoteId) == 1
      ensures quotes == old(quotes)
    {
      favorites := favorites[(favorite.userId, favorite.quoteId) := favorite];
    }

    /** DELETE FROM favorites WHERE userId = :userId AND quoteId = :quoteId */
    method RemoveFavorite(userId: string, quoteId: string)
      requires Valid()
      modifies this
      ensures Valid()
      ensures favorites == old(favorites) - {(userId, quoteId)}
      ensures (userId, quoteId) !in old(favorites) ==> favorites == old(favorites)
      ensures IsFavorite(userId, quoteId) == 0
      ensures quotes == old(quotes)
    {
      favorites := favorites - {(userId, quoteId)};
    }

    /** SELECT quoteId FROM favorites WHERE userId = :userId (no order) */
    method GetUserFavorites(userId: string) returns (ids: seq<string>)
      requires Valid()
      ensures forall q :: q in ids <==> (userId, q) in favorites
      ensures Tables.Distinct(ids)
    {
      var rows := Tables.SelectOrdered(favorites.Values, (f: FavoriteEntity) => f.userId == userId, AnyOrder);
      ids := seq(|rows|, i requires 0 <= i < |rows| => rows[i].quoteId);
      forall i | 0 <= i < |ids| ensures (userId, ids[i]) in favorites {
        assert rows[i] in rows;
        RowIsStoredUnderItsKey(rows[i]);
      }
      forall q | (userId, q) in favorites ensures q in ids {
        var f := favorites[(userId, q)];
        assert f in favorites.Values;
        var i :| 0 <= i < |rows| && rows[i] == f;
        assert ids[i] == q;
      }
      forall i, j | 0 <= i < j < |ids| ensures ids[i] != ids[j] {
        assert rows[i] == favorites[(userId, ids[i])] && rows[j] == favorites[(userId, ids[j])] by {
          RowIsStoredUnderItsKey(rows[i]);
          RowIsStoredUnderItsKey(rows[j]);
        }
      }
    }

    /** SELECT * FROM quotes WHERE id IN (SELECT quoteId FROM favorites WHERE userId = :userId):
        cached quotes the user marked; favourites whose quote is not cached are not returned. */
    method GetFavoriteQuotes(userId: string) returns (r: seq<QuoteEntity>)
      ensures forall e :: e in r <==> e in quotes.Values && (userId, e.id) in favorites
      ensures Tables.Distinct(r)
    {
      var favs := favorites;
      r := Tables.SelectOrdered(quotes.Values, (e: QuoteEntity) => (userId, e.id) in favs, AnyOrder);
    }

    /** SELECT COUNT(*) FROM favorites WHERE userId = :userId AND quoteId = :quoteId */
    function IsFavorite(userId: string, quoteId: string): (count: int)
      reads this
      ensures count == 0 || count == 1
      ensures count == 1 <==> (userId, quoteId) in favorites
    {
      if (userId, quoteId) in favorites then 1 else 0
    }

    lemma RowIsStoredUnderItsKey(f: FavoriteEntity)
      requires Valid() && f in favorites.Values
      ensures (f.userId, f.quoteId) in favorites && favorites[(f.userId, f.quoteId)] == f
    {
      var k :| k in favorites && favorites[k] == f;
      assert k == (f.userId, f.quoteId);
    }
  }
}
