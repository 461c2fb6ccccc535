/** The Firestore-backed repository. The back end is two in-memory collections: `quotes`,
    documents keyed by document id, and the users' `favorites` sub-collections, keyed here by
    (userId, quoteId). A read returns a document's fields with `id` replaced by the document
    id, as `toObject<Quote>()?.copy(id = it.id)` does. */
module FirebaseRemote {
  import opened Outcomes
  import opened QuoteModel
  import Text
  import Tables

  /** A document of a favourites sub-collection: fields `quoteId` and `addedAt`. */
  datatype FavoriteDoc = FavoriteDoc(quoteId: string, addedAt: int)

  /** One path segment: a plain document id. */
  predicate IsSegment(id: string) {
    id != [] && '/' !in id
  }

  predicate HasDoubleSlash(path: string) {
    exists i :: 0 <= i < |path| - 1 && path[i] == '/' && path[i + 1] == '/'
  }

  function SlashCount(path: string): nat {
    if path == [] then 0 else (if path[0] == '/' then 1 else 0) + SlashCount(path[1..])
  }

  /** The path with one leading and one trailing '/' dropped: the empty segments the client
      skips when it splits a path that has no "//". */
  function Trimmed(path: string): (p: string)
    ensures |p| <= |path|
  {
    var tail := if path != [] && path[0] == '/' then path[1..] else path;
    if tail != [] && tail[|tail| - 1] == '/' then tail[..|tail| - 1] else tail
  }

  /** `collection(c).document(path)`: the path below the collection that the client resolves
      `path` to, or None when it throws. It throws on "//" and when the full path would have
      an odd number of segments, i.e. when the trimmed path is empty or has an odd number of
      '/'. A resolved path without '/' is a document of the collection itself; one with '/'
      names a document in a sub-collection further down. */
  function DocumentPath(path: string): (r: Option<string>)
    ensures r.Some? ==> r.value != [] && SlashCount(r.value) % 2 == 0 && !HasDoubleSlash(r.value)
    ensures r.Some? ==> r.value[0] != '/' && r.value[|r.value| - 1] != '/'
  {
    if HasDoubleSlash(path) then None
    else
      var p := Trimmed(path);
      TrimmedKeepsNoDoubleSlash(path);
      if p == [] || SlashCount(p) % 2 == 1 then None
      else
        TrimmedEnds(path);
        Some(p)
  }

  lemma TrimmedKeepsNoDoubleSlash(path: string)
    ensures !HasDoubleSlash(path) ==> !HasDoubleSlash(Trimmed(path))
  {
    if !HasDoubleSlash(path) {
      var p := Trimmed(path);
      var off := if path != [] && path[0] == '/' then 1 else 0;
      forall i | 0 <= i < |p| - 1 ensures !(p[i] == '/' && p[i + 1] == '/') {
        assert p[i] == path[i + off] && p[i + 1] == path[i + 1 + off];
      }
    }
  }

  lemma TrimmedEnds(path: string)
    requires !HasDoubleSlash(path) && Trimmed(path) != []
    ensures Trimmed(path)[0] != '/' && Trimmed(path)[|Trimmed(path)| - 1] != '/'
  {
    var tail := if path != [] && path[0] == '/' then path[1..] else path;
    var p := Trimmed(path);
    if path != [] && path[0] == '/' {
      assert tail[0] == path[1];
      assert !(path[0] == '/' && path[1] == '/');
    }
    if tail != [] && tail[|tail| - 1] == '/' {
      var off := if path != [] && path[0] == '/' then 1 else 0;
      assert |tail| >= 2;
      assert tail[|tail| - 2] == path[|tail| - 2 + off] && tail[|tail| - 1] == path[|tail| - 1 + off];
    }
  }

  lemma {:induction false} SlashCountAppend(a: string, b: string)
    ensures SlashCount(a + b) == SlashCount(a) + SlashCount(b)
  {
    if a != [] {
      assert (a + b)[1..] == a[1..] + b;
      SlashCountAppend(a[1..], b);
    } else {
      assert a + b == b;
    }
  }

  lemma {:induction false} SegmentHasNoSlash(id: string)
    requires '/' !in id
    ensures SlashCount(id) == 0
  {
    if id != [] {
      assert id[0] in id;
      assert forall c :: c in id[1..] ==> c in id;
      SegmentHasNoSlash(id[1..]);
    }
  }

  /** Segments joined by single slashes: no "//", and one '/' per join. */
  lemma JoinedSegments(a: string, b: string)
    requires IsSegment(a) && IsSegment(b)
    ensures !HasDoubleSlash(a + "/" + b)
    ensures SlashCount(a + "/" + b) == 1
  {
    var s := a + "/" + b;
    forall i | 0 <= i < |s| - 1 ensures !(s[i] == '/' && s[i + 1] == '/') {
      if i < |a| {
        assert s[i] == a[i] && a[i] in a;
      } else {
        assert s[i + 1] == b[i - |a|] && b[i - |a|] in b;
      }
    }
    SegmentHasNoSlash(a);
    SegmentHasNoSlash(b);
    SlashCountAppend(a, "/");
    SlashCountAppend(a + "/", b);
    assert SlashCount("/") == 1 + SlashCount("/"[1..]);
  }

  /** A plain id with at most one character before and after it has no "//". */
  lemma NoDoubleSlashAround(pre: string, id: string, post: string)
    requires IsSegment(id) && |pre| <= 1 && |post| <= 1
    ensures !HasDoubleSlash(pre + id + post)
  {
    var path := pre + id + post;
    forall i | 0 <= i < |path| - 1 ensures !(path[i] == '/' && path[i + 1] == '/') {
      if i < |pre| {
        assert path[i + 1] == id[0] && id[0] in id;
      } else {
        assert path[i] == id[i - |pre|] && id[i - |pre|] in id;
      }
    }
  }

  /** A plain id with an optional '/' on either side resolves to the id. */
  lemma PlainIdAround(pre: string, id: string, post: string)
    requires IsSegment(id) && (pre == "" || pre == "/") && (post == "" || post == "/")
    ensures DocumentPath(pre + id + post) == Some(id)
  {
    NoDoubleSlashAround(pre, id, post);
    SegmentHasNoSlash(id);
    var path := pre + id + post;
    var tail := if path != [] && path[0] == '/' then path[1..] else path;
    assert id[0] in id && id[|id| - 1] in id;
    if pre == "/" {
      assert path[0] == '/' && path[1..] == id + post;
    } else {
      assert path[0] == id[0] && path == id + post;
    }
    assert tail == id + post;
    if post == "/" {
      assert tail[|tail| - 1] == '/' && tail[..|tail| - 1] == id;
    } else {
      assert tail == id && tail[|tail| - 1] == id[|id| - 1];
    }
  }

  /** A plain document id is its own path, with or without a leading or trailing '/'. */
  lemma PlainIdResolves(id: string)
    requires IsSegment(id)
    ensures DocumentPath(id) == Some(id)
    ensures DocumentPath("/" + id) == Some(id)
    ensures DocumentPath(id + "/") == Some(id)
    ensures DocumentPath("/" + id + "/") == Some(id)
  {
    PlainIdAround("", id, "");
    assert "" + id + "" == id;
    PlainIdAround("/", id, "");
    assert "/" + id + "" == "/" + id;
    PlainIdAround("", id, "/");
    assert "" + id + "/" == id + "/";
    PlainIdAround("/", id, "/");
  }

  /** Paths the client refuses: the empty path, a lone '/', a path with "//", and two
      segments, which would name a collection rather than a document. */
  lemma RejectedPaths(a: string, b: string)
    requires IsSegment(a) && IsSegment(b)
    ensures DocumentPath("") == None && DocumentPath("/") == None
    ensures DocumentPath(a + "//" + b) == None
    ensures DocumentPath(a + "/" + b) == None
  {
    assert Trimmed("/") == [];
    var d := a + "//" + b;
    assert d[|a|] == '/' && d[|a| + 1] == '/';
    JoinedSegments(a, b);
    var s := a + "/" + b;
    assert s[0] == a[0] && a[0] in a;
    assert s[|s| - 1] == b[|b| - 1] && b[|b| - 1] in b;
    assert Trimmed(s) == s;
  }

  /** Three segments name a document one sub-collection down, and resolve to that path. */
  lemma NestedPathResolves(a: string, b: string, c: string)
    requires IsSegment(a) && IsSegment(b) && IsSegment(c)
    ensures DocumentPath(a + "/" + b + "/" + c) == Some(a + "/" + b + "/" + c)
  {
    var ab := a + "/" + b;
    var s := ab + "/" + c;
    JoinedSegments(a, b);
    forall i | 0 <= i < |s| - 1 ensures !(s[i] == '/' && s[i + 1] == '/') {
      if i < |ab| - 1 {
        assert s[i] == ab[i] && s[i + 1] == ab[i + 1];
      } else if i == |ab| - 1 {
        assert s[i] == b[|b| - 1] && b[|b| - 1] in b;
      } else {
        assert s[i + 1] == c[i - |ab|] && c[i - |ab|] in c;
      }
    }
    SegmentHasNoSlash(c);
    SlashCountAppend(ab, "/");
    SlashCountAppend(ab + "/", c);
    assert SlashCount("/") == 1 + SlashCount("/"[1..]);
    assert s[0] == a[0] && a[0] in a;
    assert s[|s| - 1] == c[|c| - 1] && c[|c| - 1] in c;
    assert Trimmed(s) == s;
  }

  const InvalidReference := "Invalid document reference"
  const QuoteNotFound := "Quote not found"
  const NoFeaturedQuote := "No featured quote found"
  const InvalidLimit := "Invalid Query. Query limit is invalid. Limit must be positive."
  const MissingCursor := "Can't use a DocumentSnapshot that doesn't exist for startAfter()."

  /** The page size `getQuotes` and `getQuotesByCategory` use by default. */
  const DefaultLimit := 20

  /** The most ids one `whereIn` query may carry. */
  const ChunkSize := 10

  // ---------------------------------------------------------------- query orders

  /** orderBy("createdAt", DESCENDING): newer first, ties broken by document id, also descending. */
  predicate NewestFirst(a: Quote, b: Quote) {
    Text.PairLessEq(b.createdAt, b.id, a.createdAt, a.id)
  }

  /** A range filter on `content` orders by `content` ascending, ties by document id. */
  predicate ByContent(a: Quote, b: Quote) {
    Text.PairLessEq(a.content, a.id, b.content, b.id)
  }

  /** A range filter on `author` orders by `author` ascending, ties by document id. */
  predicate ByAuthor(a: Quote, b: Quote) {
    Text.PairLessEq(a.author, a.id, b.author, b.id)
  }

  /** No range filter and no orderBy: ascending document id. */
  predicate ById(a: Quote, b: Quote) {
    Text.LessEq(a.id, b.id)
  }

  lemma OrdersAreTotalPreorders(rows: set<Quote>)
    ensures Tables.TotalPreorderOn(rows, NewestFirst)
    ensures Tables.TotalPreorderOn(rows, ByContent)
    ensures Tables.TotalPreorderOn(rows, ByAuthor)
    ensures Tables.TotalPreorderOn(rows, ById)
  {
    forall a, b | a in rows && b in rows
      ensures NewestFirst(a, b) || NewestFirst(b, a)
      ensures ByContent(a, b) || ByContent(b, a)
      ensures ByAuthor(a, b) || ByAuthor(b, a)
      ensures ById(a, b) || ById(b, a)
    {
      Text.PairLessEqTotal(a.createdAt, a.id, b.createdAt, b.id);
      Text.PairLessEqTotal(a.content, a.id, b.content, b.id);
      Text.PairLessEqTotal(a.author, a.id, b.author, b.id);
      Text.LessEqTotal(a.id, b.id);
    }
    forall a, b, c | a in rows && b in rows && c in rows
      ensures NewestFirst(a, b) && NewestFirst(b, c) ==> NewestFirst(a, c)
      ensures ByContent(a, b) && ByContent(b, c) ==> ByContent(a, c)
      ensures ByAuthor(a, b) && ByAuthor(b, c) ==> ByAuthor(a, c)
      ensures ById(a, b) && ById(b, c) ==> ById(a, c)
    {
      if NewestFirst(a, b) && NewestFirst(b, c) {
        Text.PairLessEqTransitive(c.createdAt, c.id, b.createdAt, b.id, a.createdAt, a.id);
      }
      if ByContent(a, b) && ByContent(b, c) {
        Text.PairLessEqTransitive(a.content, a.id, b.content, b.id, c.content, c.id);
      }
      if ByAuthor(a, b) && ByAuthor(b, c) {
        Text.PairLessEqTransitive(a.author, a.id, b.author, b.id, c.author, c.id);
      }
      if ById(a, b) && ById(b, c) {
        Text.LessEqTransitive(a.id, b.id, c.id);
      }
    }
  }

  lemma StringOrderIsTotalPreorder(rows: set<string>)
    ensures Tables.TotalPreorderOn(rows, Text.LessEq)
  {
    Text.LessEqIsTotalOrder();
  }

  /** Strictly after the `startAfter` cursor, if there is one, in newest-first order. */
  predicate PastCursor(cursor: Option<Quote>, q: Quote) {
    cursor.None? || (NewestFirst(cursor.value, q) && !(q.createdAt == cursor.value.createdAt && q.id == cursor.value.id))
  }

  function PastCursorOf(cursor: Option<Quote>): Quote -> bool {
    (q: Quote) => PastCursor(cursor, q)
  }

  function InCategory(name: string): Quote -> bool {
    (q: Quote) => q.category == name
  }

  function IdOf(q: Quote): string {
    q.id
  }

  /** The content lies in the range [query, query + U+F8FF]. */
  predicate ContentHit(query: string, q: Quote) {
    Text.InPrefixRange(q.content, query)
  }

  /** The author lies in the range [query, query + U+F8FF]. */
  predicate AuthorHit(query: string, q: Quote) {
    Text.InPrefixRange(q.author, query)
  }

  ghost predicate UniqueIds(docs: set<Quote>) {
    forall x, y :: x in docs && y in docs && x.id == y.id ==> x == y
  }

  // ---------------------------------------------------------------- the repository

  class FirebaseRepository {
    var quotes: map<string, Quote>
    var favorites: map<(string, string), FavoriteDoc>

    constructor ()
      ensures quotes == map[] && favorites == map[]
    {
      quotes := map[];
      favorites := map[];
    }

    /** The `quotes` documents as reads return them: each one's fields with its document id. */
    function Docs(): (r: set<Quote>)
      reads this
      ensures forall q :: q in r <==> q.id in quotes && q == quotes[q.id].(id := q.id)
    {
      set id | id in quotes :: quotes[id].(id := id)
    }

    /** The `quotes` document a path resolves to, when it exists. A resolved path with
        further segments names a document in a sub-collection of a quote, and the model's
        quotes have no sub-collections, so such a document never exists. */
    function QuoteAt(path: string): (r: Option<Quote>)
      reads this
      ensures r.Some? <==> DocumentPath(path).Some? && IsSegment(DocumentPath(path).value)
                           && DocumentPath(path).value in quotes
      ensures r.Some? ==> r.value in Docs() && r.value.id == DocumentPath(path).value
    {
      var resolved := DocumentPath(path);
      if resolved.Some? && IsSegment(resolved.value) && resolved.value in quotes
      then Some(quotes[resolved.value].(id := resolved.value))
      else None
    }

    /** The document a `startAfter` cursor id names, when it exists. */
    function CursorDoc(lastDocumentId: Option<string>): Option<Quote>
      reads this
    {
      if lastDocumentId.Some? then QuoteAt(lastDocumentId.value) else None
    }

    /** `getQuoteById`: the document the id resolves to, or "Quote not found" when it does not
        exist; an id the client cannot resolve throws. */
    function GetQuoteById(quoteId: string): (r: Result<Quote>)
      reads this
      ensures DocumentPath(quoteId).None? <==> r == Fail(InvalidReference)
      ensures DocumentPath(quoteId).Some? && QuoteAt(quoteId).None? <==> r == Fail(QuoteNotFound)
      ensures r.Ok? <==> QuoteAt(quoteId).Some?
      ensures r.Ok? ==> r.value in Docs() && r.value.id == DocumentPath(quoteId).value
    {
      if DocumentPath(quoteId).None? then Fail(InvalidReference)
      else if QuoteAt(quoteId).None? then Fail(QuoteNotFound)
      else Ok(QuoteAt(quoteId).value)
    }

    /** A plain document id finds the quote stored under it, and a leading or trailing '/'
        around it finds the same quote. */
    lemma GetQuoteByPlainId(quoteId: string)
      requires IsSegment(quoteId)
      ensures GetQuoteById(quoteId).Ok? <==> quoteId in quotes
      ensures GetQuoteById(quoteId).Ok? ==> GetQuoteById(quoteId).value == quotes[quoteId].(id := quoteId)
      ensures GetQuoteById("/" + quoteId) == GetQuoteById(quoteId) == GetQuoteById(quoteId + "/")
    {
      PlainIdResolves(quoteId);
    }

    /** `getQuotes(limit, lastDocumentId)`: the first `limit` documents, newest first, strictly
        after the cursor document when one is given. A non-positive limit and a cursor id with
        no document fail. */
    method GetQuotes(limit: int := DefaultLimit, lastDocumentId: Option<string> := None) returns (r: Result<seq<Quote>>)
      ensures limit <= 0 ==> r == Fail(InvalidLimit)
      ensures limit > 0 && lastDocumentId.Some? && DocumentPath(lastDocumentId.value).None? ==> r == Fail(InvalidReference)
      ensures limit > 0 && lastDocumentId.Some? && DocumentPath(lastDocumentId.value).Some? && CursorDoc(lastDocumentId).None?
              ==> r == Fail(MissingCursor)
      ensures r.Ok? <==> limit > 0 && (lastDocumentId.Some? ==> CursorDoc(lastDocumentId).Some?)
      ensures r.Ok? ==> Tables.IsFirstPage(r.value, Docs(), PastCursorOf(CursorDoc(lastDocumentId)), NewestFirst, limit)
    {
      if limit <= 0 {
        return Fail(InvalidLimit);
      }
      if lastDocumentId.Some? {
        if DocumentPath(lastDocumentId.value).None? {
          return Fail(InvalidReference);
        }
        if CursorDoc(lastDocumentId).None? {
          return Fail(MissingCursor);
        }
      }
      OrdersAreTotalPreorders(Docs());
      var page := Tables.SelectFirst(Docs(), PastCursorOf(CursorDoc(lastDocumentId)), NewestFirst, limit);
      r := Ok(page);
    }

    /** `getQuotesByCategory(category, limit)`: the first `limit` documents of that category,
        newest first. */
    method GetQuotesByCategory(category: QuoteCategory, limit: int := DefaultLimit) returns (r: Result<seq<Quote>>)
      ensures r.Err? <==> limit <= 0
      ensures limit <= 0 ==> r == Fail(InvalidLimit)
      ensures r.Ok? ==> Tables.IsFirstPage(r.value, Docs(), InCategory(Name(category)), NewestFirst, limit)
    {
      if limit <= 0 {
        return Fail(InvalidLimit);
      }
      OrdersAreTotalPreorders(Docs());
      var page := Tables.SelectFirst(Docs(), InCategory(Name(category)), NewestFirst, limit);
      r := Ok(page);
    }

    /** `searchQuotes(query)`: the documents whose content lies in [query, query + U+F8FF],
        then those whose author does, each document once (the first time it appears). */
    method SearchQuotes(query: string) returns (r: seq<Quote>)
      ensures forall q :: q in r <==> q in Docs() && (ContentHit(query, q) || AuthorHit(query, q))
      ensures Tables.KeysDistinct(r, IdOf)
      ensures forall i, j :: 0 <= i < j < |r| && ContentHit(query, r[j]) ==>
        ContentHit(query, r[i]) && ByContent(r[i], r[j])
      ensures forall i, j :: 0 <= i < j < |r| && !ContentHit(query, r[i]) ==>
        !ContentHit(query, r[j]) && ByAuthor(r[i], r[j])
    {
      var docs := Docs();
      OrdersAreTotalPreorders(docs);
      var byContent := Tables.SelectOrdered(docs, (q: Quote) => ContentHit(query, q), ByContent);
      var byAuthor := Tables.SelectOrdered(docs, (q: Quote) => AuthorHit(query, q), ByAuthor);
      r := Tables.DistinctBy(byContent + byAuthor, IdOf);
      SearchMerge(docs, query, byContent, byAuthor);
    }

    /** `getQuoteOfTheDay`: `whereEqualTo("isFeatured", true).limit(1)`, which without an
        orderBy yields the featured document with the smallest id; fails when none is featured. */
    method GetQuoteOfTheDay() returns (r: Result<Quote>)
      ensures r.Err? <==> forall q :: q in Docs() ==> !q.isFeatured
      ensures r.Err? ==> r == Fail(NoFeaturedQuote)
      ensures r.Ok? ==> r.value in Docs() && r.value.isFeatured
      ensures r.Ok? ==> forall q :: q in Docs() && q.isFeatured ==> Text.LessEq(r.value.id, q.id)
    {
      var docs := Docs();
      OrdersAreTotalPreorders(docs);
      var page := Tables.SelectFirst(docs, (q: Quote) => q.isFeatured, ById, 1);
      if page == [] {
        r := Fail(NoFeaturedQuote);
      } else {
        r := Ok(page[0]);
        assert page[0] in page;
        Text.LessEqReflexive(page[0].id);
      }
    }

    // ---------------------------------------------------------------- favourites

    /** `addToFavorites`: writes the document `users/{userId}/favorites/{quoteId}`; a second
        add overwrites it, so each (user, quote) pair has at most one document. The user's
        document is keyed by the path `userId` resolves to. A `quoteId` that resolves to more
        than one segment writes a document below a favourite, outside every favourites
        collection, so the favourites stay as they were. */
    method AddToFavorites(userId: string, quoteId: string, now: int) returns (r: Result<()>)
      modifies this
      ensures r.Ok? <==> DocumentPath(userId).Some? && DocumentPath(quoteId).Some?
      ensures r.Err? ==> r == Fail(InvalidReference) && favorites == old(favorites)
      ensures r.Ok? && IsSegment(DocumentPath(quoteId).value) ==>
        var key := (DocumentPath(userId).value, DocumentPath(quoteId).value);
        && favorites == old(favorites)[key := FavoriteDoc(quoteId, now)]
        && favorites.Keys == old(favorites.Keys) + {key}
      ensures r.Ok? && !IsSegment(DocumentPath(quoteId).value) ==> favorites == old(favorites)
      ensures quotes == old(quotes)
    {
      var user, doc := DocumentPath(userId), DocumentPath(quoteId);
      if user.None? || doc.None? {
        return Fail(InvalidReference);
      }
      if IsSegment(doc.value) {
        favorites := favorites[(user.value, doc.value) := FavoriteDoc(quoteId, now)];
      }
      r := Ok(());
    }

    /** `removeFromFavorites`: deletes that one document; deleting a missing document succeeds
        and changes nothing. Paths resolve as in `addToFavorites`. */
    method RemoveFromFavorites(userId: string, quoteId: string) returns (r: Result<()>)
      modifies this
      ensures r.Ok? <==> DocumentPath(userId).Some? && DocumentPath(quoteId).Some?
      ensures r.Err? ==> r == Fail(InvalidReference) && favorites == old(favorites)
      ensures r.Ok? && IsSegment(DocumentPath(quoteId).value) ==>
        favorites == old(favorites) - {(DocumentPath(userId).value, DocumentPath(quoteId).value)}
      ensures r.Ok? && !IsSegment(DocumentPath(quoteId).value) ==> favorites == old(favorites)
      ensures quotes == old(quotes)
    {
      var user, doc := DocumentPath(userId), DocumentPath(quoteId);
      if user.None? || doc.None? {
        return Fail(InvalidReference);
      }
      if IsSegment(doc.value) {
        favorites := favorites - {(user.value, doc.value)};
      }
      r := Ok(());
    }

    /** The document ids of a user's favourites sub-collection, in id order; `user` is the
        path the user's id resolves to. */
    method FavoriteIds(user: string) returns (ids: seq<string>)
      ensures forall id :: id in ids <==> (user, id) in favorites
      ensures Tables.Distinct(ids) && Tables.SortedBy(ids, Text.LessEq)
    {
      var owned := set k | k in favorites && k.0 == user :: k.1;
      StringOrderIsTotalPreorder(owned);
      ids := Tables.SelectOrdered(owned, (id: string) => true, Text.LessEq);
      forall id | (user, id) in favorites ensures id in owned {
        var k := (user, id);
        assert k in favorites && k.0 == user;
      }
    }

    /** `getUserFavorites`, one snapshot of the listener: the ids of the user's favourites. */
    method GetUserFavorites(userId: string) returns (r: Result<seq<string>>)
      ensures r.Err? <==> DocumentPath(userId).None?
      ensures r.Ok? ==> forall id :: id in r.value <==> (DocumentPath(userId).value, id) in favorites
      ensures r.Ok? ==> Tables.Distinct(r.value)
    {
      var user := DocumentPath(userId);
      if user.None? {
        return Fail(InvalidReference);
      }
      var ids := FavoriteIds(user.value);
      r := Ok(ids);
    }

    /** `getFavoriteQuotes`: the user's favourite ids, fetched ten at a time with `whereIn`;
        the answers are appended chunk after chunk. A favourite whose quote document is gone
        is skipped. */
    method GetFavoriteQuotes(userId: string) returns (r: Result<seq<Quote>>)
      ensures r.Err? <==> DocumentPath(userId).None?
      ensures r.Ok? ==> forall q :: q in r.value <==> q in Docs() && (DocumentPath(userId).value, q.id) in favorites
      ensures r.Ok? ==> Tables.Distinct(r.value) && Tables.SortedBy(r.value, ById)
    {
      var user := DocumentPath(userId);
      if user.None? {
        return Fail(InvalidReference);
      }
      var ids := FavoriteIds(user.value);
      if ids == [] {
        return Ok([]);
      }
      var docs := Docs();
      var found := FetchInChunks(docs, ids);
      r := Ok(found);
    }
  }

  /** `quoteIds.chunked(10).forEach { ... quotes.addAll(...) }`: one `whereIn(documentId, chunk)`
      query per chunk of the sorted id list, each answering in id order, appended in turn. */
  method FetchInChunks(docs: set<Quote>, ids: seq<string>) returns (found: seq<Quote>)
    requires Tables.Distinct(ids) && Tables.SortedBy(ids, Text.LessEq)
    ensures forall q :: q in found <==> q in docs && q.id in ids
    ensures Tables.Distinct(found) && Tables.SortedBy(found, ById)
  {
    OrdersAreTotalPreorders(docs);
    var chunks := Tables.Chunked(ids, ChunkSize);
    Tables.ChunkedFlatten(ids, ChunkSize);
    found := [];
    var k, done := 0, 0;
    while k < |chunks|
      invariant 0 <= k <= |chunks|
      invariant 0 <= done <= |ids| && Tables.Flatten(chunks[..k]) == ids[..done]
      invariant forall q :: q in found <==> q in docs && q.id in ids[..done]
      invariant Tables.Distinct(found) && Tables.SortedBy(found, ById)
    {
      var chunk := chunks[k];
      NextChunk(chunks, k, ids, done);
      var hits := Tables.SelectOrdered(docs, (q: Quote) => q.id in chunk, ById);
      AppendKeepsIdOrder(found, hits, ids, done, done + |chunk|);
      AppendCoversChunk(docs, found, hits, ids[..done], chunk);
      found := found + hits;
      done := done + |chunk|;
      k := k + 1;
    }
    assert chunks[..k] == chunks;
    assert ids[..done] == ids;
  }

  /** The next chunk is the next stretch of the id list. */
  lemma NextChunk(chunks: seq<seq<string>>, k: nat, ids: seq<string>, done: nat)
    requires k < |chunks| && Tables.Flatten(chunks) == ids
    requires done <= |ids| && Tables.Flatten(chunks[..k]) == ids[..done]
    ensures done + |chunks[k]| <= |ids|
    ensures Tables.Flatten(chunks[..k + 1]) == ids[..done + |chunks[k]|]
    ensures ids[..done + |chunks[k]|] == ids[..done] + chunks[k]
  {
    assert chunks[..k + 1] == chunks[..k] + [chunks[k]];
    Tables.FlattenAppend(chunks[..k], [chunks[k]]);
    assert Tables.Flatten([chunks[k]]) == chunks[k] + Tables.Flatten([chunks[k]][1..]);
    assert [chunks[k]][1..] == [];
    assert chunks == chunks[..k + 1] + chunks[k + 1..];
    Tables.FlattenAppend(chunks[..k + 1], chunks[k + 1..]);
    var head := Tables.Flatten(chunks[..k + 1]);
    assert head == ids[..done] + chunks[k];
    assert ids == head + Tables.Flatten(chunks[k + 1..]);
    assert ids[..|head|] == head;
  }

  /** After appending one chunk's answers, the result holds the documents of every id seen so far. */
  lemma AppendCoversChunk(docs: set<Quote>, found: seq<Quote>, hits: seq<Quote>, seen: seq<string>, chunk: seq<string>)
    requires forall q :: q in found <==> q in docs && q.id in seen
    requires forall q :: q in hits <==> q in docs && q.id in chunk
    ensures forall q :: q in found + hits <==> q in docs && q.id in seen + chunk
  {
  }

  /** Appending the answers for a later stretch of a sorted, duplicate-free id list keeps the
      result duplicate-free and in id order. */
  lemma AppendKeepsIdOrder(found: seq<Quote>, hits: seq<Quote>, ids: seq<string>, lo: nat, hi: nat)
    requires lo <= hi <= |ids|
    requires Tables.Distinct(ids) && Tables.SortedBy(ids, Text.LessEq)
    requires forall q :: q in found ==> q.id in ids[..lo]
    requires forall q :: q in hits ==> q.id in ids[lo..hi]
    requires Tables.Distinct(found) && Tables.SortedBy(found, ById)
    requires Tables.Distinct(hits) && Tables.SortedBy(hits, ById)
    ensures Tables.Distinct(found + hits) && Tables.SortedBy(found + hits, ById)
  {
    var s := found + hits;
    forall i, j | 0 <= i < |found| <= j < |s|
      ensures s[i] != s[j] && ById(s[i], s[j])
    {
      assert s[i] == found[i] && s[j] == hits[j - |found|];
      assert found[i] in found && hits[j - |found|] in hits;
      var a :| 0 <= a < lo && ids[a] == s[i].id;
      var b :| lo <= b < hi && ids[b] == s[j].id;
      assert ids[..lo][a] == ids[a] && ids[lo..hi][b - lo] == ids[b];
    }
  }

  /** The two range queries merged by `distinctBy`: first every content hit, in content
      order, then every author hit that is not also a content hit, in author order. */
  lemma SearchMerge(docs: set<Quote>, query: string, byContent: seq<Quote>, byAuthor: seq<Quote>)
    requires UniqueIds(docs)
    requires forall q :: q in byContent <==> q in docs && ContentHit(query, q)
    requires forall q :: q in byAuthor <==> q in docs && AuthorHit(query, q)
    requires Tables.Distinct(byContent)
    requires Tables.SortedBy(byContent, ByContent) && Tables.SortedBy(byAuthor, ByAuthor)
    ensures var r := Tables.DistinctBy(byContent + byAuthor, IdOf);
      && (forall q :: q in r <==> q in docs && (ContentHit(query, q) || AuthorHit(query, q)))
      && (forall i, j :: 0 <= i < j < |r| && ContentHit(query, r[j]) ==>
            ContentHit(query, r[i]) && ByContent(r[i], r[j]))
      && (forall i, j :: 0 <= i < j < |r| && !ContentHit(query, r[i]) ==>
            !ContentHit(query, r[j]) && ByAuthor(r[i], r[j]))
  {
    var r := Tables.DistinctBy(byContent + byAuthor, IdOf);
    assert Tables.KeysDistinct(byContent, IdOf) by {
      forall i, j | 0 <= i < j < |byContent| ensures byContent[i].id != byContent[j].id {
        assert byContent[i] in byContent && byContent[j] in byContent;
      }
    }
    var seen := Tables.KeysOf(byContent, IdOf);
    Tables.DistinctByAppend(byContent, byAuthor, IdOf, {});
    assert {} + seen == seen;
    var authorOnly := Tables.DistinctByFrom(byAuthor, IdOf, seen);
    assert r == byContent + authorOnly;
    Tables.DistinctByFromSorted(byAuthor, IdOf, seen, ByAuthor);
    AuthorOnlyHits(docs, query, byContent, byAuthor);
    SearchOrder(query, byContent, authorOnly);
  }

  /** What distinctBy keeps of the author hits is exactly the author hits that are not content hits. */
  lemma AuthorOnlyHits(docs: set<Quote>, query: string, byContent: seq<Quote>, byAuthor: seq<Quote>)
    requires UniqueIds(docs)
    requires forall q :: q in byContent <==> q in docs && ContentHit(query, q)
    requires forall q :: q in byAuthor <==> q in docs && AuthorHit(query, q)
    ensures var authorOnly := Tables.DistinctByFrom(byAuthor, IdOf, Tables.KeysOf(byContent, IdOf));
      forall q :: q in authorOnly <==> q in docs && AuthorHit(query, q) && !ContentHit(query, q)
  {
    var seen := Tables.KeysOf(byContent, IdOf);
    var authorOnly := Tables.DistinctByFrom(byAuthor, IdOf, seen);
    forall q | q in docs && AuthorHit(query, q) && !ContentHit(query, q)
      ensures q in authorOnly
    {
      var k :| 0 <= k < |byAuthor| && byAuthor[k] == q;
      assert IdOf(byAuthor[k]) in Tables.KeysOf(authorOnly, IdOf);
      var m :| 0 <= m < |authorOnly| && IdOf(authorOnly[m]) == IdOf(q);
      assert authorOnly[m] in authorOnly;
    }
  }

  lemma SearchOrder(query: string, byContent: seq<Quote>, authorOnly: seq<Quote>)
    requires forall q :: q in byContent ==> ContentHit(query, q)
    requires forall q :: q in authorOnly ==> !ContentHit(query, q)
    requires Tables.SortedBy(byContent, ByContent) && Tables.SortedBy(authorOnly, ByAuthor)
    ensures var r := byContent + authorOnly;
      && (forall i, j :: 0 <= i < j < |r| && ContentHit(query, r[j]) ==>
            ContentHit(query, r[i]) && ByContent(r[i], r[j]))
      && (forall i, j :: 0 <= i < j < |r| && !ContentHit(query, r[i]) ==>
            !ContentHit(query, r[j]) && ByAuthor(r[i], r[j]))
  {
    var r := byContent + authorOnly;
    var n := |byContent|;
    forall i | 0 <= i < |r| ensures ContentHit(query, r[i]) <==> i < n {
      if i < n {
        assert r[i] == byContent[i] && byContent[i] in byContent;
      } else {
        assert r[i] == authorOnly[i - n] && authorOnly[i - n] in authorOnly;
      }
    }
    forall i, j | 0 <= i < j < n ensures ByContent(r[i], r[j]) {
      assert r[i] == byContent[i] && r[j] == byContent[j];
    }
    forall i, j | n <= i < j < |r| ensures ByAuthor(r[i], r[j]) {
      assert r[i] == authorOnly[i - n] && r[j] == authorOnly[j - n];
    }
  }
}
