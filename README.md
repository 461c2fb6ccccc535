# QuoteVault core, modelled in Dafny

QuoteVault is an Android app for browsing, searching and favouriting quotes and receiving a
daily quote notification. This project models the app's data core and its screen logic:

- the domain `Quote` record and the `QuoteCategory` enumeration with its lenient parser;
- the on-device Room cache: the `QuoteEntity`/`FavoriteEntity` rows, their mapping to and from
  the domain quote, and every `QuoteDao` query and write;
- the DataStore-backed user preferences (theme, font size, accent colour, notification time,
  and the two notification flags);
- the two remote back ends: the Firestore repository (ordered, paged queries, prefix search,
  favourites fetched ten ids at a time) and the Supabase repository (tables, `ilike`
  search, favourites tied to the signed-in user);
- the view-models of the home, search, quote-detail, sign-in and favourites screens, each a
  class whose methods take the repository's answer as a parameter and return the calls they
  made;
- the notification scheduler, which computes the initial delay and registers a unique
  periodic job with WorkManager.

Each Kotlin file maps to one Dafny module: `QuoteModel`, `QuoteEntities`, `Cache`,
`Preferences`, `FirebaseRemote`, `SupabaseRemote`, `Home`, `Search`, `QuoteDetail`, `Auth`,
`Favorites` and `Scheduler`. There are four shared modules:

- `Outcomes`: Kotlin's `Result`, and a repository call that either returns or throws.
- `Text`: ASCII case folding, code-point string order, Firestore prefix ranges and SQL `LIKE`.
- `Tables`: ordered selection from a set of rows, `LIMIT`, `distinctBy` and `chunked`.
- `ViewState`: the repository calls a view-model makes.

Four facts about the code shape the model:

- The DAO's `searchQuotes` query has no `ORDER BY`, so its result is an unordered set of rows.
- The Supabase search applies `ilike` to `content` only (QuoteRepositoryImpl.kt:92); the
  Firestore search matches `content` and `author` by prefix, not by substring.
- No Supabase select has an `ORDER BY` (QuoteRepositoryImpl.kt:64-109, 162-165). The model
  fixes one row order for all of them, the order of the table's list; "table order" and
  "first row" below mean that order.
- No repository reads or writes the Room cache: the injected repository is
  `QuoteRepositoryImpl` (AppModule.kt:47-49), which talks to Supabase alone, so the DAO is
  modelled as a table store of its own.

## Model

| member | source | states |
|---|---|---|
| QuoteModel.EmptyQuoteIsSentinel | app/src/main/java/com/example/quotevault/data/model/Quote.kt:8-19 | the all-default quote has empty id, text and author, no likes, is not featured, and its category parses to MOTIVATION |
| QuoteModel.ValueOf | app/src/main/java/com/example/quotevault/data/model/Quote.kt:22-35 | `valueOf` finds the constant whose name is exactly the text, and fails exactly when no constant has that name |
| QuoteModel.ValueOfName | app/src/main/java/com/example/quotevault/data/model/Quote.kt:22-35 | every constant's name parses back to that constant |
| QuoteModel.FromStringName | app/src/main/java/com/example/quotevault/data/model/Quote.kt:38-44 | `fromString` of a category's name is that category |
| QuoteModel.FromStringIgnoresCase | app/src/main/java/com/example/quotevault/data/model/Quote.kt:40 | `fromString` depends only on the upper-cased text |
| QuoteModel.FromStringDefault | app/src/main/java/com/example/quotevault/data/model/Quote.kt:38-44 | text that upper-cases to no name gives MOTIVATION; text that upper-cases to a name gives that category |
| QuoteModel.FromStringDisplayName | app/src/main/java/com/example/quotevault/data/model/Quote.kt:26-44 | each display name upper-cases to the enum name and parses back to its category |
| QuoteEntities.FromDomain | app/src/main/java/com/example/quotevault/data/local/QuoteEntity.kt:26-37 | the stored category string parses back to the domain category |
| QuoteEntities.DomainRoundTrip | app/src/main/java/com/example/quotevault/data/local/QuoteEntity.kt:26-50 | `toDomain(fromDomain(q))` is `q` except that `createdAt` is not restored |
| QuoteEntities.EntityRoundTrip | app/src/main/java/com/example/quotevault/data/local/QuoteEntity.kt:26-50 | a row that maps to a domain quote maps back to the same row, with both timestamps taken from the clock |
| QuoteEntities.ToDomainFailsOnUnknownCategory | app/src/main/java/com/example/quotevault/data/local/QuoteEntity.kt:45 | `toDomain` throws exactly when the stored category is not an exact, case-sensitive enum name |
| QuoteEntities.FromDomainTimestamps | app/src/main/java/com/example/quotevault/data/local/QuoteEntity.kt:23-35 | a present `createdAt` is kept; a missing one becomes the clock; `lastUpdated` is always the clock |
| Cache.LastWithId | app/src/main/java/com/example/quotevault/data/local/dao/QuoteDao.kt:17-18 | the last row of a batch with a given id, or none exactly when no row has that id |
| Cache.UpsertAllLastWriteWins | app/src/main/java/com/example/quotevault/data/local/dao/QuoteDao.kt:17-18 | after a batch upsert, a key the batch wrote holds its last row, and every other key is unchanged or still absent |
| Cache.QuoteDao.constructor | app/src/main/java/com/example/quotevault/data/local/QuoteEntity.kt:11-15 | both tables start empty, and each row is stored under its primary key |
| Cache.QuoteDao.UpsertQuote | app/src/main/java/com/example/quotevault/data/local/dao/QuoteDao.kt:14-15 | inserts or replaces the row under its id, and nothing else changes |
| Cache.QuoteDao.UpsertQuotes | app/src/main/java/com/example/quotevault/data/local/dao/QuoteDao.kt:17-18 | the table is the old table with the rows upserted in list order |
| Cache.QuoteDao.GetAllQuotes | app/src/main/java/com/example/quotevault/data/local/dao/QuoteDao.kt:20-21 | returns every row exactly once, newest first |
| Cache.QuoteDao.GetQuotesByCategory | app/src/main/java/com/example/quotevault/data/local/dao/QuoteDao.kt:23-24 | returns exactly the rows of that category, each once, newest first |
| Cache.QuoteDao.SearchQuotes | app/src/main/java/com/example/quotevault/data/local/dao/QuoteDao.kt:26-27 | returns exactly the rows whose content or author matches `%q%` under LIKE, each once |
| Cache.QuoteDao.GetDailyQuote | app/src/main/java/com/example/quotevault/data/local/dao/QuoteDao.kt:29-30 | returns some featured row, and none exactly when no row is featured |
| Cache.QuoteDao.GetQuoteById | app/src/main/java/com/example/quotevault/data/local/dao/QuoteDao.kt:32-33 | returns the row with that id, and none exactly when there is no such row |
| Cache.QuoteDao.UpsertFavorite | app/src/main/java/com/example/quotevault/data/local/dao/QuoteDao.kt:35-36 | one row per (userId, quoteId) pair; afterwards `isFavorite` counts 1; quotes are untouched |
| Cache.QuoteDao.RemoveFavorite | app/src/main/java/com/example/quotevault/data/local/dao/QuoteDao.kt:38-39 | deletes only that pair's row; a missing row changes nothing; afterwards `isFavorite` counts 0 |
| Cache.QuoteDao.GetUserFavorites | app/src/main/java/com/example/quotevault/data/local/dao/QuoteDao.kt:41-42 | returns exactly the quote ids the user marked, each once |
| Cache.QuoteDao.GetFavoriteQuotes | app/src/main/java/com/example/quotevault/data/local/dao/QuoteDao.kt:44-45 | returns exactly the cached quotes the user marked, each once |
| Cache.QuoteDao.IsFavorite | app/src/main/java/com/example/quotevault/data/local/dao/QuoteDao.kt:47-48 | the count is 0 or 1, and it is 1 exactly when the pair is stored |
| Cache.QuoteDao.RowIsStoredUnderItsKey | app/src/main/java/com/example/quotevault/data/local/FavoriteEntity.kt:7 | a favourite row is stored under the composite key built from its own userId and quoteId |
| Text.LikeContains | app/src/main/java/com/example/quotevault/data/local/dao/QuoteDao.kt:26 | for a query without wildcards, `LIKE '%q%'` is a case-insensitive substring test |
| Text.InPrefixRangeStartsWith | app/src/main/java/com/example/quotevault/data/remote/FirebaseRepository.kt:133-134 | a field in the range [q, q + U+F8FF] starts with q |
| Text.StartsWithInPrefixRange | app/src/main/java/com/example/quotevault/data/remote/FirebaseRepository.kt:133-134 | a field that starts with q and continues below U+F8FF lies in the range |
| Text.LessEqIsTotalOrder | app/src/main/java/com/example/quotevault/data/remote/FirebaseRepository.kt:107 | the string order Firestore sorts by is total, antisymmetric and transitive |
| Preferences.ThemeValueOf | app/src/main/java/com/example/quotevault/data/model/UserPreferenceRepository.kt:37 | `Theme.valueOf` gives the constant with exactly that name, and fails exactly when none has it |
| Preferences.FontSizeValueOf | app/src/main/java/com/example/quotevault/data/model/UserPreferenceRepository.kt:70 | `FontSize.valueOf` gives the constant with exactly that name, and fails exactly when none has it |
| Preferences.AccentColorValueOf | app/src/main/java/com/example/quotevault/data/model/UserPreferenceRepository.kt:82 | `AccentColor.valueOf` gives the constant with exactly that name, and fails exactly when none has it |
| Preferences.GettersNeverFail | app/src/main/java/com/example/quotevault/data/model/UserPreferenceRepository.kt:29-94 | on a store written only by the setters, no getter throws |
| Preferences.UnsetKeysReadAsDefaults | app/src/main/java/com/example/quotevault/data/model/UserPreferenceRepository.kt:23-26 | an empty store reads SYSTEM, "09:00", MEDIUM, PURPLE, and both notification flags on |
| Preferences.NotificationFlagsAreIndependent | app/src/main/java/com/example/quotevault/data/model/UserPreferenceRepository.kt:19 | writing "notifications_enabled" never changes what "notification_enabled" reads, and the reverse |
| Preferences.UserPreferencesRepository.constructor | app/src/main/java/com/example/quotevault/data/model/UserPreferenceRepository.kt:16-27 | the store starts empty |
| Preferences.UserPreferencesRepository.GetTheme | app/src/main/java/com/example/quotevault/data/model/UserPreferenceRepository.kt:35-39 | never fails on a setter-written store; reads SYSTEM when unset |
| Preferences.UserPreferencesRepository.GetNotificationTime | app/src/main/java/com/example/quotevault/data/model/UserPreferenceRepository.kt:56-60 | never fails on a setter-written store; reads "09:00" when unset |
| Preferences.UserPreferencesRepository.GetFontSize | app/src/main/java/com/example/quotevault/data/model/UserPreferenceRepository.kt:68-72 | never fails on a setter-written store; reads MEDIUM when unset |
| Preferences.UserPreferencesRepository.GetAccentColor | app/src/main/java/com/example/quotevault/data/model/UserPreferenceRepository.kt:80-84 | never fails on a setter-written store; reads PURPLE when unset |
| Preferences.UserPreferencesRepository.IsNotificationsEnabled | app/src/main/java/com/example/quotevault/data/model/UserPreferenceRepository.kt:40-43 | never fails on a setter-written store; reads true when unset |
| Preferences.UserPreferencesRepository.IsNotificationEnabled | app/src/main/java/com/example/quotevault/data/model/UserPreferenceRepository.kt:85-88 | never fails on a setter-written store; reads true when unset |
| Preferences.UserPreferencesRepository.SetTheme | app/src/main/java/com/example/quotevault/data/model/UserPreferenceRepository.kt:29-33 | writes only the theme key; the getter then returns the theme just set |
| Preferences.UserPreferencesRepository.SetNotificationTime | app/src/main/java/com/example/quotevault/data/model/UserPreferenceRepository.kt:50-54 | writes only the time key; the getter then returns the time just set |
| Preferences.UserPreferencesRepository.SetFontSize | app/src/main/java/com/example/quotevault/data/model/UserPreferenceRepository.kt:62-66 | writes only the font-size key; the getter then returns the size just set |
| Preferences.UserPreferencesRepository.SetAccentColor | app/src/main/java/com/example/quotevault/data/model/UserPreferenceRepository.kt:74-78 | writes only the colour key; the getter then returns the colour just set |
| Preferences.UserPreferencesRepository.SetNotificationsEnabled | app/src/main/java/com/example/quotevault/data/model/UserPreferenceRepository.kt:45-49 | sets "notifications_enabled"; its getter reads the new value and the other flag's getter is unchanged |
| Preferences.UserPreferencesRepository.SetNotificationEnabled | app/src/main/java/com/example/quotevault/data/model/UserPreferenceRepository.kt:90-94 | sets "notification_enabled"; its getter reads the new value and the other flag's getter is unchanged |
| FirebaseRemote.OrdersAreTotalPreorders | app/src/main/java/com/example/quotevault/data/remote/FirebaseRepository.kt:105-159 | the orders the queries sort by (newest first, by content, by author, by id) are total preorders |
| FirebaseRemote.FirebaseRepository.constructor | app/src/main/java/com/example/quotevault/data/remote/FirebaseRepository.kt:105-253 | both collections start empty |
| FirebaseRemote.FirebaseRepository.Docs | app/src/main/java/com/example/quotevault/data/remote/FirebaseRepository.kt:116 | a read returns each document's fields with `id` replaced by the document id |
| FirebaseRemote.DocumentPath | app/src/main/java/com/example/quotevault/data/remote/FirebaseRepository.kt:48-49 | `document(path)` resolves to a non-empty path with an even number of segments overall, no "//" and no '/' at either end |
| FirebaseRemote.PlainIdResolves | app/src/main/java/com/example/quotevault/data/remote/FirebaseRepository.kt:48-49 | a plain id resolves to itself, also with a leading, a trailing or both '/' |
| FirebaseRemote.RejectedPaths | app/src/main/java/com/example/quotevault/data/remote/FirebaseRepository.kt:48-49 | the empty path, "/", a path with "//" and a two-segment path are refused |
| FirebaseRemote.NestedPathResolves | app/src/main/java/com/example/quotevault/data/remote/FirebaseRepository.kt:163-164 | a three-segment path is accepted and names a document one sub-collection down |
| FirebaseRemote.FirebaseRepository.QuoteAt | app/src/main/java/com/example/quotevault/data/remote/FirebaseRepository.kt:48-53 | the quote document a path resolves to, present exactly when the resolved path is one segment stored in `quotes` |
| FirebaseRemote.FirebaseRepository.GetQuoteById | app/src/main/java/com/example/quotevault/data/remote/FirebaseRepository.kt:47-55 | throws exactly on a path the client refuses; "Quote not found" exactly when a resolved path has no quote document; otherwise that document with its id |
| FirebaseRemote.FirebaseRepository.GetQuoteByPlainId | app/src/main/java/com/example/quotevault/data/remote/FirebaseRepository.kt:47-55 | a plain id finds the quote stored under it, and "/id" and "id/" find the same |
| FirebaseRemote.FirebaseRepository.GetQuotes | app/src/main/java/com/example/quotevault/data/remote/FirebaseRepository.kt:105-117 | the first `limit` documents (20 by default) strictly after the cursor, newest first; fails on a non-positive limit, on a cursor path the client cannot resolve, and on a cursor with no document |
| FirebaseRemote.FirebaseRepository.GetQuotesByCategory | app/src/main/java/com/example/quotevault/data/remote/FirebaseRepository.kt:119-128 | the first `limit` documents (20 by default) of the category, newest first; fails exactly on a non-positive limit, the composite index being present |
| FirebaseRemote.FirebaseRepository.SearchQuotes | app/src/main/java/com/example/quotevault/data/remote/FirebaseRepository.kt:130-147 | exactly the content or author prefix hits, one per id; content hits first in content order, then author-only hits in author order |
| FirebaseRemote.FirebaseRepository.GetQuoteOfTheDay | app/src/main/java/com/example/quotevault/data/remote/FirebaseRepository.kt:149-159 | the featured document with the smallest id; "No featured quote found" exactly when none is featured |
| FirebaseRemote.FirebaseRepository.AddToFavorites | app/src/main/java/com/example/quotevault/data/remote/FirebaseRepository.kt:162-167 | fails exactly when either path is refused; a one-segment quote path writes the one (user, quote) document with its timestamp, and adding twice keeps one document; a deeper quote path leaves every favourites collection as it was; quotes untouched |
| FirebaseRemote.FirebaseRepository.RemoveFromFavorites | app/src/main/java/com/example/quotevault/data/remote/FirebaseRepository.kt:169-174 | fails exactly when either path is refused; otherwise deletes that one document, and a missing one changes nothing |
| FirebaseRemote.FirebaseRepository.FavoriteIds | app/src/main/java/com/example/quotevault/data/remote/FirebaseRepository.kt:230-235 | exactly the user's favourite document ids, each once, in id order |
| FirebaseRemote.FirebaseRepository.GetUserFavorites | app/src/main/java/com/example/quotevault/data/remote/FirebaseRepository.kt:176-190 | fails exactly on a refused user path; a snapshot holds exactly the ids of the user's favourite documents, each once |
| FirebaseRemote.FirebaseRepository.GetFavoriteQuotes | app/src/main/java/com/example/quotevault/data/remote/FirebaseRepository.kt:229-253 | fails exactly on a refused user path; otherwise exactly the existing quotes the user marked, each once, in id order, although fetched ten ids at a time |
| FirebaseRemote.FetchInChunks | app/src/main/java/com/example/quotevault/data/remote/FirebaseRepository.kt:239-252 | one `whereIn` query per chunk of ten sorted ids, appended in turn, gives every document of those ids once, in id order |
| FirebaseRemote.AppendCoversChunk | app/src/main/java/com/example/quotevault/data/remote/FirebaseRepository.kt:247-249 | after appending one chunk's answers, the list holds the documents of every id fetched so far |
| FirebaseRemote.NextChunk | app/src/main/java/com/example/quotevault/data/remote/FirebaseRepository.kt:241 | the chunks of the id list, taken in order, cover consecutive stretches of it |
| FirebaseRemote.AppendKeepsIdOrder | app/src/main/java/com/example/quotevault/data/remote/FirebaseRepository.kt:247-249 | appending the answers for a later stretch of sorted ids keeps the result sorted and duplicate-free |
| FirebaseRemote.SearchMerge | app/src/main/java/com/example/quotevault/data/remote/FirebaseRepository.kt:144-146 | `distinctBy { id }` over content hits then author hits gives all hits once, content hits first |
| FirebaseRemote.AuthorOnlyHits | app/src/main/java/com/example/quotevault/data/remote/FirebaseRepository.kt:144-145 | what `distinctBy` keeps of the author hits is exactly the author hits that are not content hits |
| FirebaseRemote.SearchOrder | app/src/main/java/com/example/quotevault/data/remote/FirebaseRepository.kt:144 | the concatenation keeps each part's order, content hits before author-only hits |
| Tables.SelectFirst | app/src/main/java/com/example/quotevault/data/remote/FirebaseRepository.kt:108 | `limit(n)` returns at most n qualifying rows in order, and any row left out comes after all of them |
| Tables.DistinctByAppend | app/src/main/java/com/example/quotevault/data/remote/FirebaseRepository.kt:144-145 | on a key-distinct prefix, `distinctBy` of a concatenation keeps the prefix and filters the rest by the prefix's keys |
| Tables.ChunkedFlatten | app/src/main/java/com/example/quotevault/data/remote/FirebaseRepository.kt:241 | concatenating the chunks of `chunked(n)` gives back the list |
| Tables.Filter | app/src/main/java/com/example/quotevault/quotes/QuoteRepositoryImpl.kt:166 | `filter` keeps exactly the passing elements, in their order, each as often as it occurs |
| Tables.FilterAppend | app/src/main/java/com/example/quotevault/quotes/QuoteRepositoryImpl.kt:166 | filtering a concatenation is the concatenation of the filtered parts |
| Tables.FilterSingleton | app/src/main/java/com/example/quotevault/quotes/QuoteRepositoryImpl.kt:166 | one element is kept exactly when it passes |
| SupabaseRemote.QuoteIdsOf | app/src/main/java/com/example/quotevault/quotes/QuoteRepositoryImpl.kt:125 | the user's rows' quote ids: exactly the ids paired with that user |
| SupabaseRemote.FirstWhere | app/src/main/java/com/example/quotevault/quotes/QuoteRepositoryImpl.kt:106-109 | `limit(1)` then `firstOrNull()`: the first qualifying row, and none exactly when no row qualifies |
| SupabaseRemote.IlikeIsContains | app/src/main/java/com/example/quotevault/quotes/QuoteRepositoryImpl.kt:92 | for a query without wildcards, `ilike '%q%'` is a case-insensitive substring test |
| SupabaseRemote.QuoteRepositoryImpl.constructor | app/src/main/java/com/example/quotevault/quotes/QuoteRepositoryImpl.kt:60 | empty tables, with the given signed-in user, if any |
| SupabaseRemote.QuoteRepositoryImpl.GetQuotes | app/src/main/java/com/example/quotevault/quotes/QuoteRepositoryImpl.kt:64-70 | succeeds with every row of the quotes table |
| SupabaseRemote.QuoteRepositoryImpl.GetQuotesByCategory | app/src/main/java/com/example/quotevault/quotes/QuoteRepositoryImpl.kt:72-84 | succeeds with exactly the rows whose category is the enum name |
| SupabaseRemote.QuoteRepositoryImpl.SearchQuotes | app/src/main/java/com/example/quotevault/quotes/QuoteRepositoryImpl.kt:86-96 | exactly the rows whose content matches `ilike '%q%'`, which is a case-insensitive substring test when q has no wildcards; authors are not searched |
| SupabaseRemote.QuoteRepositoryImpl.GetQuoteOfTheDay | app/src/main/java/com/example/quotevault/quotes/QuoteRepositoryImpl.kt:98-110 | succeeds with a featured row, or with null exactly when no row is featured |
| SupabaseRemote.QuoteRepositoryImpl.GetQuoteById | app/src/main/java/com/example/quotevault/quotes/QuoteRepositoryImpl.kt:127-141 | succeeds with a row carrying that id, or with null exactly when there is none |
| SupabaseRemote.QuoteRepositoryImpl.GetUserFavorites | app/src/main/java/com/example/quotevault/quotes/QuoteRepositoryImpl.kt:114-126 | emits nothing exactly when signed out; otherwise exactly the user's favourite ids |
| SupabaseRemote.QuoteRepositoryImpl.GetFavoriteQuotes | app/src/main/java/com/example/quotevault/quotes/QuoteRepositoryImpl.kt:142-168 | fails with "User not logged in" exactly when signed out; otherwise the quote rows the user marked, in quotes-table order, each as often as the table holds it, and none when no ids exist |
| SupabaseRemote.QuoteRepositoryImpl.AddToFavorites | app/src/main/java/com/example/quotevault/quotes/QuoteRepositoryImpl.kt:170-181 | signed out it fails and inserts nothing; otherwise it appends one row and the id is then among the user's favourites |
| SupabaseRemote.QuoteRepositoryImpl.RemoveFromFavorites | app/src/main/java/com/example/quotevault/quotes/QuoteRepositoryImpl.kt:183-196 | signed out it fails and deletes nothing; otherwise it deletes exactly that user's rows for that quote, and every other row stays, with its multiplicity, in its order |
| ViewState.Toggled | app/src/main/java/com/example/quotevault/Screens/HomeViewModel.kt:152-164 | a successful toggle flips membership of that id and no other |
| ViewState.ToggleTwice | app/src/main/java/com/example/quotevault/Screens/HomeViewModel.kt:147-170 | two successful toggles of one id restore the favourites set |
| ViewState.ToSet | app/src/main/java/com/example/quotevault/Screens/HomeViewModel.kt:142 | `toSet()` keeps exactly the listed ids and is no larger than the list |
| Home.HomeViewModel.constructor | app/src/main/java/com/example/quotevault/Screens/HomeViewModel.kt:29-54 | defaults, then daily quote, quotes and favourites loaded; the later load's failure message wins |
| Home.HomeViewModel.SelectCategory | app/src/main/java/com/example/quotevault/Screens/HomeViewModel.kt:56-59 | records the category and loads its quotes |
| Home.HomeViewModel.SearchQuotes | app/src/main/java/com/example/quotevault/Screens/HomeViewModel.kt:61-82 | records the query; a non-empty query searches, an empty one reloads all quotes and never searches |
| Home.HomeViewModel.LoadDailyQuote | app/src/main/java/com/example/quotevault/Screens/HomeViewModel.kt:84-100 | success stores the (possibly null) quote; a failure keeps it and stores the message; loading ends |
| Home.HomeViewModel.LoadQuotes | app/src/main/java/com/example/quotevault/Screens/HomeViewModel.kt:102-119 | success replaces the list; a failure keeps it and stores the message; loading ends |
| Home.HomeViewModel.LoadQuotesByCategory | app/src/main/java/com/example/quotevault/Screens/HomeViewModel.kt:121-137 | as LoadQuotes, for one category |
| Home.HomeViewModel.LoadFavorites | app/src/main/java/com/example/quotevault/Screens/HomeViewModel.kt:139-145 | the favourites set holds exactly the emitted ids; no emission leaves it as it was |
| Home.HomeViewModel.ToggleFavorite | app/src/main/java/com/example/quotevault/Screens/HomeViewModel.kt:147-170 | removes a favourite or adds a new one; only success changes the set; each failure direction has its own message |
| Home.HomeViewModel.Refresh | app/src/main/java/com/example/quotevault/Screens/HomeViewModel.kt:172-175 | reloads quotes, then the daily quote; the daily quote's failure message wins |
| Search.SearchViewModel.constructor | app/src/main/java/com/example/quotevault/Screens/SearchScreen.kt:178-192 | empty results, no error, favourites loaded |
| Search.SearchViewModel.LoadFavorites | app/src/main/java/com/example/quotevault/Screens/SearchScreen.kt:194-200 | the favourites set holds exactly the emitted ids; no emission leaves it as it was |
| Search.SearchViewModel.SearchQuotes | app/src/main/java/com/example/quotevault/Screens/SearchScreen.kt:202-225 | an empty query clears the results without a call; otherwise the error is cleared first and success leaves it null |
| Search.SearchViewModel.ToggleFavorite | app/src/main/java/com/example/quotevault/Screens/SearchScreen.kt:227-246 | only success changes the set; a failed result is silent; an exception sets "Failed to update favorites" |
| QuoteDetail.QuoteDetailViewModel.constructor | app/src/main/java/com/example/quotevault/Screens/QuoteDetailsScreen.kt:261-271 | no quote, not a favourite, not loading, no error |
| QuoteDetail.QuoteDetailViewModel.LoadQuote | app/src/main/java/com/example/quotevault/Screens/QuoteDetailsScreen.kt:273-295 | success stores the quote and reads the favourites to set the flag; a failure keeps both and stores the message |
| QuoteDetail.QuoteDetailViewModel.ToggleFavorite | app/src/main/java/com/example/quotevault/Screens/QuoteDetailsScreen.kt:297-318 | no quote means no call; otherwise the flag flips exactly on success, and failures are swallowed |
| Auth.DisabledWhileLoading | app/src/main/java/com/example/quotevault/auth/AuthScreen.kt:164-167 | the submit button is disabled while a request is in flight |
| Auth.InitialStateDisabled | app/src/main/java/com/example/quotevault/auth/AuthScreen.kt:164-167 | a fresh screen cannot be submitted |
| Auth.NameMattersOnlyForSignUp | app/src/main/java/com/example/quotevault/auth/AuthScreen.kt:164-167 | in login mode the name is irrelevant; in sign-up mode an empty name disables submit |
| Auth.AuthViewModel.constructor | app/src/main/java/com/example/quotevault/auth/AuthViewModel.kt:131-140 | the state starts at the data class defaults |
| Auth.AuthViewModel.CheckAuthState | app/src/main/java/com/example/quotevault/auth/AuthViewModel.kt:32-44 | logged in exactly when a user is returned; an exception counts as logged out |
| Auth.AuthViewModel.OnEmailChange | app/src/main/java/com/example/quotevault/auth/AuthViewModel.kt:46-48 | replaces only the email |
| Auth.AuthViewModel.OnPasswordChange | app/src/main/java/com/example/quotevault/auth/AuthViewModel.kt:50-52 | replaces only the password |
| Auth.AuthViewModel.OnNameChange | app/src/main/java/com/example/quotevault/auth/AuthViewModel.kt:54-56 | replaces only the name |
| Auth.AuthViewModel.ToggleIsLogin | app/src/main/java/com/example/quotevault/auth/AuthViewModel.kt:58-60 | flips only the login/sign-up mode |
| Auth.AuthViewModel.SignIn | app/src/main/java/com/example/quotevault/auth/AuthViewModel.kt:62-83 | sends the typed credentials; success logs in and runs the callback; a failure stores its message; submit is re-enabled exactly as for the typed fields |
| Auth.AuthViewModel.SignUp | app/src/main/java/com/example/quotevault/auth/AuthViewModel.kt:85-107 | as SignIn, sending the name as well |
| Auth.AuthViewModel.ResetPassword | app/src/main/java/com/example/quotevault/auth/AuthViewModel.kt:108-128 | success shows the reset notice and its text in the error field; the login flag never changes |
| Favorites.FavoritesViewModel.constructor | app/src/main/java/com/example/quotevault/favorites/FavoriteViewModel.kt:22-29 | empty list, not loading, no error |
| Favorites.FavoritesViewModel.LoadFavorites | app/src/main/java/com/example/quotevault/favorites/FavoriteViewModel.kt:31-49 | clears the error, then stores the quotes or the failure message; loading ends |
| Favorites.FavoritesViewModel.RemoveFromFavorites | app/src/main/java/com/example/quotevault/favorites/FavoriteViewModel.kt:51-65 | success reloads the list; a failed result reports it and reloads nothing; an exception stores its own message |
| Scheduler.TimeOfDay | app/src/main/java/com/example/quotevault/notification/NotificationScheduler.kt:16-21 | the local time of day lies within one day |
| Scheduler.DayStart | app/src/main/java/com/example/quotevault/notification/NotificationScheduler.kt:17-21 | today's local midnight is at or before now, less than a day before it |
| Scheduler.InitialDelay | app/src/main/java/com/example/quotevault/notification/NotificationScheduler.kt:16-27 | for a valid hour and minute the delay is under one day, never negative, and lands on that hour and minute |
| Scheduler.DelayLandsOnTime | app/src/main/java/com/example/quotevault/notification/NotificationScheduler.kt:23-27 | today's or tomorrow's target both fall at the requested local time of day |
| Scheduler.WorkManager.constructor | app/src/main/java/com/example/quotevault/notification/NotificationScheduler.kt:36 | no unique work is registered |
| Scheduler.WorkManager.EnqueueUniquePeriodicWorkReplace | app/src/main/java/com/example/quotevault/notification/NotificationScheduler.kt:36-41 | REPLACE: the name now holds the new job; other names are untouched |
| Scheduler.WorkManager.CancelUniqueWork | app/src/main/java/com/example/quotevault/notification/NotificationScheduler.kt:43-46 | removes the job under that name only |
| Scheduler.ScheduleDailyQuote | app/src/main/java/com/example/quotevault/notification/NotificationScheduler.kt:11-42 | one daily job, tagged "daily_quote", under "daily_quote_work", replacing any earlier one; its delay is under a day |
| Scheduler.CancelDailyQuoteAsWritten | app/src/main/java/com/example/quotevault/notification/NotificationScheduler.kt:43-46 | cancels the unique work named "daily_quote" |
| Scheduler.CancelAsWrittenKeepsDailyJob | app/src/main/java/com/example/quotevault/notification/NotificationScheduler.kt:33-45 | after scheduling, the cancel as written leaves the daily job registered and unchanged |
| Scheduler.CancelDailyQuote | app/src/main/java/com/example/quotevault/notification/NotificationScheduler.kt:38-45 | the corrected cancel removes the job under "daily_quote_work" |
| Scheduler.CancelUndoesSchedule | app/src/main/java/com/example/quotevault/notification/NotificationScheduler.kt:36-45 | scheduling then cancelling with the corrected cancel leaves no daily job and every other job as it was |

## Left out

- Sign-in, sign-up, password reset, sign-out and the user profile calls of both repositories
  are not modelled. The sign-in view-model takes their outcome as a parameter.
- Collections, the settings and theme view-models, and the screens themselves are not modelled.
- A Kotlin `Flow` is modelled by one snapshot or one emission. Live updates and the
  ordering of several coroutines are not modelled.
- Each `viewModelScope.launch` is one atomic step. The in-flight state, with `isLoading` true,
  is never observable in the model.
- Transport failures, JSON decoding failures and `toObject` returning null are left out.
  A repository call's failure is a parameter of the view-model that makes it.
- Home.HomeViewModel.LoadFavorites: an exception thrown while collecting the favourites flow is
  left out. In the app it escapes the coroutine.
- Search.SearchViewModel.LoadFavorites: an exception thrown while collecting the favourites flow
  is left out, for the same reason.
- QuoteDetail.QuoteDetailViewModel.LoadQuote: an exception thrown while collecting the
  favourites flow is left out; the app stores its message.
- Auth.AuthViewModel.SignIn: an exception thrown by the `onSuccess` callback is left out. Such an
  exception would be caught and stored as the error. The same holds for Auth.AuthViewModel.SignUp.
- The view-model's separate `isLoggedIn` flow is never written and nothing reads it, so it is
  not modelled.
- Case folding is ASCII only. LIKE and `ilike` escape characters and PostgREST's `*` wildcard
  are not modelled.
- FirebaseRemote.DocumentPath: the client's other checks on a segment are left out. These are
  the ids `.` and `..`, ids of the form `__x__`, and over-long ids, which the model accepts.
- FirebaseRemote.FirebaseRepository.AddToFavorites: a quote path with more than one segment
  writes a document below a favourite document. Such sub-collections are not part of the
  model, so the write is seen only as a success. The same holds for
  FirebaseRemote.FirebaseRepository.RemoveFromFavorites. A quote path with more than one
  segment reads as "Quote not found", because the model's quotes have no sub-collections.
- FirebaseRemote.FirebaseRepository.GetQuotesByCategory: the query filters on `category` and
  orders by `createdAt` descending, which needs a composite index. The model assumes the
  index exists; without it the real query fails, and the model does not capture that.
- FirebaseRemote.FirebaseRepository.GetQuotes: the error messages are the model's own wording,
  close to the client's exception texts.
- SupabaseRemote.QuoteRepositoryImpl.AddToFavorites: the `user_favorites` table's constraints
  are not part of this model, so a duplicate insert is modelled as succeeding.
- Timestamps: `createdAt` is a string in the remote quote and milliseconds in the cache. The
  Firestore order compares the strings.
- The `likes` count is an unbounded integer; Kotlin's 32-bit `Int` is not modelled.
- Scheduler.InitialDelay: one clock reading stands for the two `Calendar.getInstance()` calls.
  The time zone is a fixed offset, so daylight-saving changes are not modelled.
- The categories' emoji and the accent colours' colour values are display data that no
  modelled operation reads, so they are not modelled.
- The worker that posts the notification (`DailyQuoteWorker`) is not part of this model.

## Findings

| source | as written | input that shows it | evidently intended | confidence | as-written member | corrected member |
|---|---|---|---|---|---|---|
| app/src/main/java/com/example/quotevault/notification/NotificationScheduler.kt:43-46 | `cancelDailyQuote` cancels the unique work named "daily_quote". That is the job's tag; the job is enqueued under the unique name "daily_quote_work". | `scheduleDailyQuote(ctx, 9, 0)` followed by `cancelDailyQuote(ctx)`: the daily job stays registered and the notification keeps firing | cancel the job under "daily_quote_work", or cancel by tag | high; not executed | Scheduler.CancelAsWrittenKeepsDailyJob | Scheduler.CancelUndoesSchedule |
