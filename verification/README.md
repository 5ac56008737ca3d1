# Book catalog service: lookup routes and authorization gate

A Dafny model of two pieces of decision logic in a small Express book-review
service.

- **Catalog lookup routes** (`General.js`). These are read-only queries over the in-memory
  `books` object, which maps each ISBN to a book record. They list all books, get a book
  by ISBN, filter by author, filter by title, and read a book's reviews. There are two
  sets of handlers. The synchronous ones (Tasks 1-5) and their Promise/async twins
  (Tasks 10-13) compute the same queries with slightly different guards.
- **Authorization gate** (`index.js`). This is the `auth` middleware in front of every
  `/customer/auth/` route. It looks for a session that holds an access token. It
  verifies the token as a JSON Web Token under the fixed secret `"access"`. It then
  either answers 401 or passes the request on with the token's username.

## How the system is represented

- `books` is a `Catalog.Store`: an immutable sequence of `(isbn, Book)` entries, listed
  in `Object.keys` enumeration order. Keys are distinct (`KeysDistinct`), as the keys of
  a JavaScript object are. `books[k]` is `Catalog.Lookup`.
- A `Book` has an optional `title`, an optional `author` and optional `reviews`.
  JavaScript truthiness (`b.author && ...`) is `Truthy`: the field is present and not
  the empty string.
- `toLowerCase` is `Text.Lower`, which lower-cases ASCII letters one character at a
  time. A field matches a query when `Lower(field) == Lower(query)`.
- Each route returns a `General.Response`: `Ok(value)` (200), `BadRequest` (400) or
  `NotFound` (404). The JSON text of the body is not modelled.
- The synchronous `for` loops are modelled by the method `General.CollectMatches`. The
  async author route's `forEach` fold is modelled by the function `Catalog.Filter`.
  Their agreement is proved, not assumed.
- `jwt.verify` is a parameter, `verify: (token, secret) -> Verdict`. The gate is
  `AuthGate.Auth`, a total function into
  `NotLoggedIn401 | InvalidToken401 | Error500 | Pass(username)`.
  `AuthGate.ExpiryChecked` adds the expiry rule of section 4.1.4 of RFC 7519 on top of
  an abstract signature check, with the clock `now` passed in as a parameter.

## Where the sync and async routes differ

The comment at General.js:91-92 says the async endpoints "return the same results" as
the synchronous ones. The code does not quite keep that promise:

- The async author and title routes have no empty-query guard. An empty query matches
  no book, so these routes answer 404 where the synchronous routes answer 400
  (`AsyncGetByAuthor`, `AsyncGetByTitle`).
- The async ISBN route has no empty-id guard either. It differs from the synchronous
  route only on the empty id (`IsbnSyncAsyncAgree`).
- On every other input the twins compute the same value. The bytes they send still
  differ; see "## Left out".

In the gate, the outer catch at index.js:45-48 cannot be reached. Every read before
verification is a plain property read, and the inner `catch` handles every error
thrown by `jwt.verify`. `Auth` proves `!o.Error500?`.

## Model

| member | source | states |
|---|---|---|
| Text.Lower | General.js:46 | `toLowerCase` on ASCII letters: it preserves length and lower-cases each character on its own. The same call appears at General.js:68, 144 and 168. |
| Catalog.Matches | General.js:46 | The match test `b.<field> && b.<field>.toLowerCase() === query.toLowerCase()`: the field is present and non-empty, and equals the query up to case. The same test appears at General.js:68, 144 and 168. |
| Catalog.MatchIsWholeString | General.js:46 | A book matches only when its field has exactly the query's length and the query is non-empty, so the match is on the whole string. |
| Catalog.Lookup | General.js:28 | `books[k]` is absent exactly when no entry has key `k`. Otherwise it is the book stored under `k`, and with distinct keys it is that entry's book. |
| Catalog.Filter | General.js:140-145 | The `forEach` fold over the keys collects no more books than the store has entries. Every book it collects has a truthy field that equals the query up to case (soundness). |
| Catalog.FilterIsMatchesInOrder | General.js:41-49 | Completeness and order: the j-th collected book is the book of the j-th matching entry. So each matching entry appears exactly once, in store order, and nothing else appears. |
| Catalog.FilterComplete | General.js:44-49 | Every entry whose field matches has its book in the match list. |
| Catalog.FilterEmptyIff | General.js:46-51 | The match list is empty if and only if no entry matches, which is the exact 404 condition. |
| Catalog.FalsyNeverMatches | General.js:46 | A book whose field is missing or empty never matches, and an empty query matches no book. |
| Catalog.EmptyQueryFindsNothing | General.js:144 | With no guard in front, an empty query yields an empty match list. |
| Text.DifferentLengthsNeverMatch | General.js:46 | Strings of different lengths are never equal up to case, so a proper substring of an author or title does not match it. |
| General.GetAll | General.js:11-18 | GET '/' always answers 200 with the whole catalog, in which every key reads back its own book. |
| General.AsyncGetAll | General.js:100-112 | The Promise route computes the same catalog value as GET '/'. |
| General.GetByIsbn | General.js:24-31 | 400 exactly for the empty id, even if "" is a key, so the guard comes before the lookup. 404 exactly when the key is absent. Otherwise 200 with the stored book. |
| General.AsyncGetByIsbn | General.js:118-130 | Never 400. 404 exactly when the key is absent. Otherwise the book stored under the id. |
| General.IsbnSyncAsyncAgree | General.js:121-128 | The async and sync ISBN routes agree on every non-empty id. On the empty id the sync route says 400 and the async one does not. |
| General.CollectMatches | General.js:41-49 | The indexed loop over `Object.keys`, reading `books[keys[i]]`, computes the same list as the `forEach` fold, and every book in it matches. |
| General.GetByAuthor | General.js:37-53 | 400 if and only if the author query is empty. 404 if and only if it is non-empty and no book's author matches. Otherwise a non-empty match list. For non-empty queries the answer equals the async twin's. |
| General.GetByTitle | General.js:59-75 | The same contract as the author route, on the title field. It agrees with the async title route on non-empty queries. |
| General.AsyncGetByAuthor | General.js:136-155 | Never 400. 404 if and only if no author matches, so an empty query gets 404. Every returned book matches. |
| General.AsyncGetByTitle | General.js:161-175 | Never 400. 404 if and only if no title matches, so an empty query gets 404. Every returned book matches. |
| General.GetReviews | General.js:81-87 | Never 400. 404 exactly for an unknown id. A known book answers 200 with its reviews, or `{}` when it has none. A non-empty answer is that book's stored reviews map. |
| General.NumericRatingReadBack | General.js:83-86 | A stored review with a numeric rating of 5 and a text is answered unchanged by the review route. |
| General.AuthorScenario | General.js:46 | For a store holding "F. Scott Fitzgerald", the query "f. scott fitzgerald" finds the book and "Fitzgerald" gets 404. |
| AuthGate.Auth | index.js:23-49 | 401 "not logged in" if and only if `HasToken` fails, that is, the session, its authorization or its access token (index.js:26-30) is missing or empty. 401 "invalid" if and only if a present token is refused under the fixed secret. Pass-through if and only if the token verifies, carrying the payload's username. Never 500: every status the gate answers with is 401. |
| AuthGate.HasToken | index.js:26-30 | The guard in front of verification: the session exists, holds an authorization object, and that object holds a non-empty access token. |
| AuthGate.SessionUsernameIgnored | index.js:34-40 | The username stored in the session never affects the outcome. A verified token passes with the token's username even if the session records a different one. |
| AuthGate.FixedSecretOnly | index.js:35-38 | Only verification under the constant secret "access" is consulted. Verifiers that agree there give the same outcome. |
| AuthGate.ExpiryChecked | index.js:38 | Token verification with the expiry rule of section 4.1.4 of RFC 7519. A bad signature is refused. A signed token whose `exp` is at or before `now` is refused as expired. A signed token with no `exp`, or one later than `now`, is verified with its own payload. Only a signed payload is ever passed on. |
| AuthGate.ExpiredTokenNeverPasses | index.js:37-44 | A session whose token has expired is answered with 401 "invalid or expired" and never passes. |
| AuthGate.ValidTokenPasses | index.js:37-41 | A session whose token is signed and has not expired passes, with the username from the token's own payload. |

## Left out

- The store is never modified by any lookup route: the model's store is an immutable
  value passed into pure queries. This property holds by construction, so no member
  states it.
- JSON serialization (`JSON.stringify`, `res.json`, `res.send`) and the response
  messages are not modelled. Nor are the 500 handlers that only catch serialization
  errors (General.js:15-16, 111, 172-173).
- The sync and async twins agree as values only. Their bytes differ. The sync routes
  send `res.json(JSON.stringify(...))`, so their 200 bodies are encoded twice
  (General.js:14, 29, 52, 74). The async routes send the JSON text once with `res.send`
  (General.js:110, 126, 153, 171). The 404 messages also differ (General.js:30 vs 128,
  51 vs 146).
- Every value of `books` is assumed to be an object whose `title` and `author` are
  strings when present. A null entry or a non-string `author`/`title` would make the
  match test throw. The catch block of the async author route (General.js:148-154)
  would turn such an error into 404. The synchronous author and title routes would
  answer 500, and so would the async title route's catch (General.js:172-173). The
  `Book` type rules such entries out.
- Review fields are scalar JSON values (`JsonScalar`), so a rating sent as a number is
  represented. Nested objects or arrays sent as a review or rating are not represented.
  `GetReviews` passes every review through unchanged.
- Promise and async/await scheduling is not modelled. Each async route is the value it
  eventually sends.
- `toLowerCase` is modelled on ASCII letters only. Full Unicode case mapping (which may
  change a string's length) is not modelled.
- Inherited properties of a JavaScript object are not modelled: `books["constructor"]`
  and similar lookups of prototype members are not in the store.
- `Object.keys` ordering rules are not modelled: integer-like keys first, ascending,
  then insertion order. The store's sequence is taken to be the enumeration order.
- Express routing and the other middleware are not modelled: body parsing, session
  configuration, `/health`, `app.listen` (index.js:1-20, 51-70). An empty route
  parameter cannot actually reach a handler through Express routing, but the model
  keeps the handlers' own empty-input guards.
- AuthGate.ExpiryChecked: the token library's signature check (HMAC) is not modelled.
  It stays an abstract parameter. Clock tolerance and the `nbf` claim are not
  modelled either.
- `jwt.verify` itself is a parameter of `Auth` and is not modelled. The clock it reads
  is the parameter `now` of `ExpiryChecked`.
- Registration, login and token issuance, and review creation, update and deletion
  (`router/auth_users.js`) are not part of this model, and neither is `booksdb.js`.
  The routes the gate protects read `session.authorization.username` before
  `req.user`, so the rule "identity comes only from the token" holds for the gate
  only, not for those handlers.
- `client.js` (a manual HTTP test driver) and `test-server.js` (a port bind check)
  only do I/O.
