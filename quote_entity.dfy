/** The rows of the on-device cache and their mapping to and from the domain quote. */
module QuoteEntities {
  import opened Outcomes
  import opened QuoteModel

  /** The domain quote as the cache mapping sees it: the category is the enum itself and
      `createdAt` is an optional timestamp, in milliseconds. */
  datatype DomainQuote = DomainQuote(
    id: string,
    content: string,
    author: string,
    category: QuoteCategory,
    tags: seq<string>,
    likes: int,
    isFeatured: bool,
    createdAt: Option<int>)

  /** A row of the `quotes` table, primary key `id`; the category is stored as its enum name. */
  datatype QuoteEntity = QuoteEntity(
    id: string,
    content: string,
    author: string,
    category: string,
    tags: seq<string>,
    likes: int,
    isFeatured: bool,
    createdAt: int,
    lastUpdated: int)

  /** A row of the `favorites` table, primary key `(userId, quoteId)`. */
  datatype FavoriteEntity = FavoriteEntity(userId: string, quoteId: string, addedAt: int)

  /** `QuoteEntity.fromDomain`. The two reads of the clock are parameters: `clock` replaces a
      missing `createdAt`, `updateClock` is the default `lastUpdated`. */
  function FromDomain(q: DomainQuote, clock: int, updateClock: int): (e: QuoteEntity)
    ensures ValueOf(e.category) == Some(q.category)
  {
    ValueOfName(q.category);
    QuoteEntity(q.id, q.content, q.author, Name(q.category), q.tags, q.likes, q.isFeatured,
                q.createdAt.GetOr(clock), updateClock)
  }

  /** `toDomain`: `valueOf` on the stored category, which throws on a string that is not
      exactly an enum name; `createdAt` is left unset. */
  function ToDomain(e: QuoteEntity): (r: Result<DomainQuote>)
  {
    match ValueOf(e.category)
    case Some(c) => Ok(DomainQuote(e.id, e.content, e.author, c, e.tags, e.likes, e.isFeatured, None))
    case None => Fail("No enum constant com.example.quotevault.data.model.QuoteCategory." + e.category)
  }

  /** Storing a quote and reading it back gives the same quote except for `createdAt`,
      which the read does not restore. */
  lemma DomainRoundTrip(q: DomainQuote, clock: int, updateClock: int)
    ensures ToDomain(FromDomain(q, clock, updateClock)) == Ok(q.(createdAt := None))
  {
    ValueOfName(q.category);
  }

  /** A row whose category is an enum name maps to a domain quote and back to the same row,
      except that the timestamps are taken afresh from the clock. */
  lemma EntityRoundTrip(e: QuoteEntity, clock: int, updateClock: int)
    requires ToDomain(e).Ok?
    ensures FromDomain(ToDomain(e).value, clock, updateClock) == e.(createdAt := clock, lastUpdated := updateClock)
  {
  }

  /** toDomain fails exactly when the stored category is not an exact enum name: the
      comparison is case-sensitive. */
  lemma ToDomainFailsOnUnknownCategory(e: QuoteEntity)
    ensures ToDomain(e).Err? <==> forall c :: Name(c) != e.category
    ensures ToDomain(e).Err? ==> ToDomain(e).message.Some?
  {
  }

  /** A present `createdAt` is kept; a missing one becomes the clock reading, and `lastUpdated`
      is always the clock. */
  lemma FromDomainTimestamps(q: DomainQuote, clock: int, updateClock: int)
    ensures q.createdAt.Some? ==> FromDomain(q, clock, updateClock).createdAt == q.createdAt.value
    ensures q.createdAt.None? ==> FromDomain(q, clock, updateClock).createdAt == clock
    ensures FromDomain(q, clock, updateClock).lastUpdated == updateClock
  {
  }
}
