# Virat News mock API: the in-memory store, in Dafny

The mock content API serves categories, articles and ads to a news app. When
SQLite is not available it keeps them in three plain lists in memory. This
project models that in-memory store, the route handlers that read and change
it, the article search, and the admin gate (the `admin=1` session cookie,
login and logout). It also proves what each route does to the store.

Layout, one module per file:

- `wrappers.dfy` (`Wrappers`): `Option`. `None` stands for a value the client left out (`undefined`).
- `js_arrays.dfy` (`JsArrays`): the `Array.prototype` operations the handlers use: `filter`, `findIndex` and `find`. Also the "ids are unique" invariant, and lemmas about all of these.
- `text.dfy` (`Text`): `toLowerCase`, for ASCII letters only, and `includes`.
- `records.dfy` (`Records`): the Category, Article and Ad records, the request bodies, the route responses with their HTTP statuses, and the seed data.
- `ordering.dfy` (`Ordering`): `categories.sort((a, b) => a.order - b.order)`. JavaScript's sort is stable, so this is modelled as a stable insertion sort.
- `search.dfy` (`Search`): the search filter.
- `auth.dfy` (`Auth`): `requireAuth`, the admin password setting, login and logout.
- `store.dfy` (`InMemoryStore`): class `Store`, which holds the three lists, with one method per route. It also holds lemmas about the store operations.

How the routes are modelled:

- Each mutating route method takes the request's cookies and runs the gate first. Without the session cookie it returns `Unauthorized` (401) and leaves the store unchanged (`unchanged(this)`).
- The id of a new record is a parameter, since the service draws it at random.
- Every request-body field is an `Option<string>`. The store keeps the fields exactly as given.
- A category's `order` is the number stored after `order || 0`.
- The ghost predicate `Store.Valid()` says that ids are unique within each list. Every method preserves it, and create preserves it provided the new id is not already stored.

The model follows the code in these details:

- Logout is not behind `requireAuth` (mock-api/index.js:317). It always succeeds and clears the cookie.
- A wrong password at login gets 403, not 401 (mock-api/index.js:314).
- Update of an absent id gets 404 in the in-memory branch (mock-api/index.js:143, :217, :288).
- Search builds its text with `a.title + ' ' + ...`. An absent title therefore becomes the word "undefined", while an absent description or content becomes the empty string (mock-api/index.js:246). `Search.SearchMatchesMissingTitle` proves that the query "undefined" finds every article stored without a title.

## Model

| member | source | states |
|---|---|---|
| `JsArrays.Filter` | mock-api/index.js:158-159 | `filter` keeps exactly the elements that satisfy the predicate and is never longer than its input; `FilterPartition` gives the element counts |
| `JsArrays.FindIndex` | mock-api/index.js:142-143 | `findIndex` gives the first index whose element matches; it gives none (the `-1` case) exactly when no element matches |
| `JsArrays.Find` | mock-api/index.js:186-187 | `find` gives the element at the first matching index, or nothing exactly when no element matches |
| `JsArrays.FilterAppend` | mock-api/index.js:173 | filtering distributes over concatenation, so filtered lists keep store order |
| `JsArrays.FilterKeepsAll` | mock-api/index.js:231 | a filter that every element passes returns the list unchanged |
| `JsArrays.FilterKeepsNone` | mock-api/index.js:173 | a filter that no element passes returns the empty list |
| `JsArrays.FilterOfFilter` | mock-api/index.js:158-159 | filtering by `q` after `p` equals filtering by `q` alone when `q` implies `p`; with `q == p` this is idempotence |
| `JsArrays.FilterPartition` | mock-api/index.js:159 | a filter and its complement split the list into two parts whose multisets add up to the original |
| `JsArrays.FindAppended` | mock-api/index.js:186-187 | after appending the only element that matches, `find` returns it |
| `JsArrays.FindIndexReplaced` | mock-api/index.js:142-144 | replacing the first match by another matching element keeps it the first match |
| `JsArrays.UniqueByAppend` | mock-api/index.js:127-128 | appending a record whose key is new keeps keys distinct |
| `JsArrays.UniqueByReplace` | mock-api/index.js:144 | replacing a record by one with the same key keeps keys distinct |
| `JsArrays.UniqueByFilter` | mock-api/index.js:158 | filtering keeps keys distinct |
| `JsArrays.UniqueByOnly` | mock-api/index.js:186-187 | with keys distinct, two stored entries with the same key are the same entry |
| `Text.LowerChar` | mock-api/index.js:246 | maps 'A'..'Z' to 'a'..'z' and leaves every other character alone; the result is never an upper-case letter |
| `Text.Lower` | mock-api/index.js:246 | `toLowerCase` keeps the length and lower-cases each character in place |
| `Text.LowerAppend` | mock-api/index.js:246 | lower-casing a concatenation lower-cases each part |
| `Text.LowerKeepsLowerCase` | mock-api/index.js:238 | a string with no upper-case letter, such as a typed lower-case query, is its own lower-cased form |
| `Text.Contains` | mock-api/index.js:246 | `includes`: a piece found is never longer than the text, and every prefix of the text, the empty string included, is found |
| `Text.LowerIdempotent` | mock-api/index.js:238 | lower-casing twice is lower-casing once |
| `Text.ContainsEmpty` | mock-api/index.js:238 | the empty query occurs in every text |
| `Text.LowerJoin` | mock-api/index.js:246 | the lower-cased `title + ' ' + description + ' ' + content` is the three lower-cased parts joined by blanks |
| `Text.ContainsInJoin` | mock-api/index.js:246 | a query found in any one of the three joined parts is found in the join |
| `Ordering.InsertPermutes` | mock-api/index.js:114 | one insertion step adds exactly the inserted category and loses none |
| `Ordering.InsertSorted` | mock-api/index.js:114 | inserting into a list sorted by `order` keeps it sorted |
| `Ordering.SortByOrder` | mock-api/index.js:114 | the listing is sorted ascending by `order` and is a permutation of the stored categories |
| `Ordering.InsertStable` | mock-api/index.js:114 | insertion puts the new category after the entries of its own order and leaves the other orders alone |
| `Ordering.SortByOrderStable` | mock-api/index.js:114 | the sort is stable: categories with equal `order` keep their stored relative order |
| `Ordering.InsertPosition` | mock-api/index.js:114 | insertion places the category after every entry of order at most its own and before every entry of greater order |
| `Ordering.CreatedCategoryPosition` | mock-api/index.js:114-128 | a category appended by create is listed after every category of order at most its own and before every one of greater order, with the rest in their listed order |
| `Ordering.InsertUnique` | mock-api/index.js:114 | inserting a category with a new id keeps ids distinct |
| `Ordering.SortByOrderUnique` | mock-api/index.js:114 | sorting keeps category ids distinct |
| `Search.Haystack` | mock-api/index.js:246 | the searched text is the lower-cased title (an absent one read as "undefined"), description and content (absent ones read as empty) joined by blanks, with no upper-case letter left |
| `Search.Needle` | mock-api/index.js:238 | the lower-cased query: empty when absent, as long as the query, with no upper-case letter, and unchanged by lower-casing again |
| `Search.SearchArticles` | mock-api/index.js:238-246 | an article is in the result exactly when it is stored and its lower-cased text contains the lower-cased query |
| `Search.SearchWithoutQuery` | mock-api/index.js:238 | a missing or empty query returns every article, in store order |
| `Search.SearchIgnoresQueryCase` | mock-api/index.js:238 | a query and its lower-cased form select the same articles |
| `Search.SearchFindsField` | mock-api/index.js:246 | an article whose title, description or content contains the query, ignoring case, is found |
| `Search.SearchMatchesMissingTitle` | mock-api/index.js:246 | an article stored without a title is found by the query "undefined" |
| `Search.CapitalisedTitleMatches` | mock-api/index.js:57 | a title starting with "Virat" contains "virat" once it is lower-cased |
| `Search.ViratTitleFound` | mock-api/index.js:238-246 | a stored article whose title starts with "Virat" is found by the query "virat" |
| `Search.SearchFindsSeededStory` | mock-api/index.js:57 | the seeded cricket story is found by the query "virat" |
| `Auth.AdminPassword` | mock-api/index.js:28 | the admin password is never empty: an unset or empty setting falls back to "virat123", any other setting is used as is |
| `Auth.RequireAuth` | mock-api/index.js:30-33 | a request passes the gate exactly when its cookies already hold `admin=1`, the cookie a successful login sets |
| `Auth.Logout` | mock-api/index.js:317-320 | logout answers 200 `{ok: true}` to every browser, leaves none of them with a session, and drops only the `admin` cookie |
| `Auth.Login` | mock-api/index.js:308-315 | login succeeds exactly on an exact password match and then sets the session; otherwise 403 with no cookie change |
| `Auth.LoginOpensSession` | mock-api/index.js:310-311 | after a successful login the browser passes `requireAuth` |
| `Auth.FailedLoginChangesNothing` | mock-api/index.js:314 | a wrong or missing password gets 403 and leaves the browser's cookies as they were |
| `Auth.LogoutClosesSession` | mock-api/index.js:317-320 | logout always answers `{ok: true}` and the browser no longer passes `requireAuth` |
| `Auth.GateNeedsExactMarker` | mock-api/index.js:30-33 | `requireAuth` refuses a missing `admin` cookie and any value other than "1" |
| `Records.OrderOrZero` | mock-api/index.js:122-127 | the fallback of an absent order to 0: the result is 0 exactly when the order is absent or 0, and any other order is kept |
| `InMemoryStore.ArticlesOf` | mock-api/index.js:173 | an article is listed for a category exactly when it is stored with that `categoryId` |
| `InMemoryStore.DeleteCategoryEmptiesIt` | mock-api/index.js:159 | after a category is deleted, no article is listed under it |
| `InMemoryStore.DeleteCategoryKeepsOthers` | mock-api/index.js:159 | deleting a category leaves the article listing of every other category unchanged, in order |
| `InMemoryStore.DeleteCategoryRemovesExactly` | mock-api/index.js:159 | the articles kept and the articles of the deleted category together are the articles before the delete |
| `InMemoryStore.DeleteTwiceIsDeleteOnce` | mock-api/index.js:158-159 | deleting a category, article or ad twice leaves the same lists as deleting once |
| `InMemoryStore.DeleteAbsentIsNoOp` | mock-api/index.js:158-159 | each delete filter leaves its list unchanged when no entry matches it: for categories and articles by id, for ads by id, and for the cascade only when no article is filed under the id; an unknown category id can still remove orphan articles (see `DeleteOrphanCategory`) |
| `InMemoryStore.DeleteArticleRemovesAtMostOne` | mock-api/index.js:230 | with article ids unique, deleting an id removes at most one article |
| `InMemoryStore.CreatedArticleIsListed` | mock-api/index.js:201-202 | a created article is listed last among the articles of its category |
| `InMemoryStore.CreatedArticleIsFound` | mock-api/index.js:186-187 | an article created under a fresh id is what a lookup of that id returns |
| `InMemoryStore.UpdatedArticleIsFound` | mock-api/index.js:216-218 | after an update, a lookup of the id returns the updated article |
| `InMemoryStore.Store.constructor` | mock-api/index.js:50-66 | the store starts with the three seeded categories, articles and ads, with unique ids |
| `InMemoryStore.Store.GetCategories` | mock-api/index.js:107-116 | sorts the stored categories in place by `order` and returns them: sorted, a permutation of the stored list, nothing else changed, ids still unique |
| `InMemoryStore.Store.PostCategory` | mock-api/index.js:118-131 | gated; appends exactly `{id, name, order}` with a missing order stored as 0 and returns it, nothing else changes; ids stay unique when the id is new |
| `InMemoryStore.Store.PutCategory` | mock-api/index.js:133-147 | gated; 404 with the store unchanged when the id is absent; otherwise replaces only the first match, keeping its id, and returns the new record |
| `InMemoryStore.Store.DeleteCategory` | mock-api/index.js:149-162 | gated; removes the categories with the id and the articles filed under it, keeps the ads, answers 204 |
| `InMemoryStore.Store.GetCategoryArticles` | mock-api/index.js:165-175 | returns exactly the stored articles with that `categoryId`, in store order |
| `InMemoryStore.Store.GetArticle` | mock-api/index.js:177-190 | returns the first stored article with the id, or 404 exactly when there is none; with ids unique, the one returned is the only article with that id |
| `InMemoryStore.Store.PostArticle` | mock-api/index.js:192-205 | gated; appends the article with the given fields unchanged and returns it, nothing else changes |
| `InMemoryStore.Store.PutArticle` | mock-api/index.js:207-221 | gated; 404 with the store unchanged when the id is absent; otherwise replaces every field of the first match, keeping its id |
| `InMemoryStore.Store.DeleteArticle` | mock-api/index.js:223-234 | gated; removes exactly the articles with the id, keeps the rest in order, answers 204; with ids unique, at most one article goes |
| `InMemoryStore.Store.SearchArticlesRoute` | mock-api/index.js:237-249 | returns exactly the matching articles in store order, and changes nothing |
| `InMemoryStore.Store.GetAds` | mock-api/index.js:252-261 | returns the stored ads as they are, and changes nothing |
| `InMemoryStore.Store.PostAd` | mock-api/index.js:263-276 | gated; appends the ad with the given fields unchanged and returns it, nothing else changes |
| `InMemoryStore.Store.PutAd` | mock-api/index.js:278-292 | gated; 404 with the store unchanged when the id is absent; otherwise replaces every field of the first match, keeping its id |
| `InMemoryStore.Store.DeleteAd` | mock-api/index.js:294-305 | gated; removes exactly the ads with the id, keeps the rest in order, answers 204 |
| `InMemoryStore.LoginThenCreate` | mock-api/index.js:308-315 | a browser without a session is refused (401) before any login and again after a wrong password, then creates the category once the right password is given |
| `InMemoryStore.DeleteOrphanCategory` | mock-api/index.js:158-159 | deleting a category id that no category has leaves the categories as they were but still removes the articles filed under that id, such as one just created with it |

## Left out

- The SQLite branch of every route, and the database creation and seeding (mock-api/index.js:68-99), are not modelled. They call an external database through callbacks. In that branch, update and delete of a missing id report success.
- Id generation with `nanoid(6)` is not modelled. It is random, so new ids are parameters, and uniqueness after a create is proved only for an id not already stored.
- HTTP plumbing is not modelled: Express routing, body and cookie parsing, CORS, static files, the image upload route (mock-api/index.js:36-47), the welcome route, server start and the process handlers. Routes are modelled as methods. The routes that can fail (the gated ones, and the lookup of one article) return a `Response`, whose `Status()` gives the HTTP code. The listing and search routes cannot fail in the in-memory branch and return the list itself.
- Backend failures (HTTP 500) occur only in the SQLite branch, so they are not modelled.
- Loose JavaScript values are not modelled. A body field is either a string or absent. `null`, numbers or arrays in string fields are not covered. An `order` is either an integer or absent. Non-integer orders such as `1.5` (which the service stores and sorts), string, `null` or `NaN` orders, and how `a.order - b.order` would coerce them, are not covered.
- `Text.Lower` lower-cases ASCII letters only. JavaScript's `toLowerCase` also maps other Unicode letters.
- A query string that Express parses into an array (`?q=a&q=b`) is not modelled.
- The browser's cookie jar is a parameter. The reply's cookie change (`ApplyReply`) is applied to it, and the `httpOnly` flag is not modelled.
- mock-api/admin/app.js (browser UI) and mock-api/test/api.test.js (HTTP test harness) contain no server logic, so they are not modelled.
