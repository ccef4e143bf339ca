# solidstart-auth-ts: the server-side request logic, in Dafny

This project models the request handling of a small SolidStart application: it
registers and logs in users, guards pages with a session cookie, lets a user
read and edit their profile, and lists and creates that user's items one page
at a time. It also models the client-side paging state that reads those items.
The store, the token library and the password hasher are not modelled. Each
one becomes data or a function parameter:

- the `users` and `items` collections are sequences of documents in
  insertion order: a new document is appended at the end. Firestore returns
  a `where`-only query in document-id order, and `add` assigns random ids,
  so its order differs. The only answer that depends on this order is
  which of several users with the same email `Login` picks;
- `jwt.verify` / `verifyAuthToken`, `jwt.sign` and `bcrypt.hash` /
  `bcrypt.compare` are function-typed parameters;
- each reading of the clock (`new Date()`, or the store's server timestamp)
  is an integer instant `t`, and a stored timestamp is the value `Time(t)`.
  Registration and item creation read the clock twice, once for `createdAt`
  and once for `updatedAt`, so they take two instants `created` and
  `updated`; PATCH's server timestamp is one instant `now`;
- the store-assigned id of a new document is a parameter `newId`.

Modules, following the source files:

| module | models |
|---|---|
| `Wrappers`, `Values`, `Http`, `Text` | Option/Result; JSON and stored values (truthiness, property read, `in`, spread); headers, bodies and the `{success, message, data}` envelope of src/utils/responses.ts; the JavaScript string operations the handlers use (`trim`, `split`, `startsWith`, `parseInt`, `findIndex`, `filter`, decimal text) |
| `Validators` | src/utils/validators.ts: the e-mail pattern as a string predicate, and `validateRequest` |
| `TokenAuth` | src/utils/auth.ts: loading the secret, and `validateAuth` on the `Authorization` header |
| `Guards` | src/lib/auth.ts: `requireAuth` and `redirectIfAuthenticated` as a decision: allow with an identity, redirect to a path, or proceed |
| `Items` | src/routes/api/items/index.ts: GET's parameter clamping, owner filter, newest-first order, page window and pagination; POST as the method `ItemStore.Create` on a store object |
| `Users`, `CredentialInput`, `Registration`, `Login` | the users collection's lookups; the credential ladder that register and login share; src/routes/api/register.ts and src/routes/api/login.ts |
| `Profile`, `UserStore` | src/routes/api/user/index.ts: GET, and PATCH's whitelist loop and merge. `UserStore` holds the users collection and updates it in place (`Register`, `PatchProfile`) |
| `ManageItems` | src/lib/composables/useManageItems.ts: the five signals as the fields of a class, with `fetchItems` and `loadMore` as methods |

A handler that lets an exception escape is answered by the framework, not by
the handler. The model writes that answer as `Response.Uncaught`. Examples:
the store rejects a `NaN` offset, and `key in updates` throws on a string body.

Some behaviours of the code that the model keeps as written:

- `validateAuth` takes the second space-separated field of `Authorization`
  whatever the scheme word is; it does not check for `Bearer`. It never
  looks at cookies, so there is no cookie fallback.
- The guards read only the first `token=` cookie segment. They do not
  percent-decode its value.
- `hasMore` is `count == limit`, so a full last page reports more
  (`HasMoreAtExactEnd`).

## Model

| member | source | states |
|---|---|---|
| Text.Trim | src/routes/api/user/index.ts:47 | `trim` never lengthens a string, and what it leaves neither starts nor ends with white space |
| Text.TrimSpec | src/routes/api/user/index.ts:47 | `trim` keeps the middle slice of the string between an all-white-space prefix and an all-white-space suffix; what is left neither starts nor ends with white space |
| Text.TrimEmpty | src/routes/api/register.ts:19-24 | `s.trim()` is empty exactly when `s` is all white space, so `!x?.trim()` catches blank text |
| Text.Split | src/utils/auth.ts:21 | `split` on one character gives at least one part, and no part contains the separator |
| Text.JoinSplit | src/lib/auth.ts:17-18 | joining the parts of a split with the separator gives the string back |
| Text.SplitJoin | src/lib/auth.ts:17-18 | splitting parts that are free of the separator, once joined, gives exactly those parts back |
| Text.SecondField | src/lib/auth.ts:26 | element 1 of a split is `undefined` exactly when the separator does not occur, and never contains the separator |
| Text.SecondFieldOf | src/utils/auth.ts:21 | in `a sep t rest`, where `a` and `t` are free of the separator and `rest` is empty or starts with it, element 1 is `t` |
| Text.FindFirst | src/lib/auth.ts:18-19 | `find` yields the first position whose element satisfies the test, with none before it; nothing when no element does |
| Text.Filter | src/routes/api/items/index.ts:26 | a filtered sequence is no longer than the input, is a sub-multiset of it, and holds exactly the input elements that satisfy the test |
| Text.FilterCount | src/routes/api/items/index.ts:26 | each element that satisfies the test is kept as often as the input holds it, and no other element is kept |
| Text.FilterAppend | src/routes/api/items/index.ts:26 | the kept elements stay in their order: filtering a concatenation concatenates the filtered parts |
| Text.FilterSingle | src/routes/api/items/index.ts:26 | a single element is kept exactly when it satisfies the test |
| Text.ParseInt | src/routes/api/items/index.ts:16-17 | `parseInt(s, 10)` is negative only when `s`, after its leading white space, starts with `-` |
| Text.DigitPrefix | src/routes/api/items/index.ts:16-17 | the digits `parseInt` reads: the longest prefix made only of decimal digits |
| Text.DecimalString | src/lib/composables/useManageItems.ts:32 | a template literal writes a natural number as a non-empty string of digits |
| Text.ParseIntToString | src/routes/api/items/index.ts:16 | `parseInt(s, 10)` reads back the decimal text of every integer exactly, negative ones included |
| Validators.ValidateEmailSpec | src/utils/validators.ts:1-4 | `ValidateEmail` accepts an address, that is the address matches `^[^\s@]+@[^\s@]+\.[^\s@]+$` exactly when it is `local@domain.tld` with three non-empty parts free of white space and `@`; the domain may contain dots |
| Validators.EmailAcceptedHasParts | src/utils/validators.ts:2-3 | every accepted address splits into the three parts of the pattern |
| Validators.EmailPartsAccepted | src/utils/validators.ts:2-3 | every string built from three such parts is accepted |
| Validators.AcceptedEmailShape | src/utils/validators.ts:2 | an accepted address is not empty, holds no white space and holds exactly one `@` |
| Validators.ValidateRequest | src/utils/validators.ts:8-37 | the content type is checked first; then, in order, a syntax error, any other failure to read the body ("An unexpected error occurred while processing the request"), an empty or falsy body, a truthy non-string `title`, then `description`, each with its message; a valid result carries the parsed body unchanged, and it is valid exactly when every check passes |
| Validators.FalsyFieldsPass | src/utils/validators.ts:20-26 | a falsy `title` or `description` (`0`, `false`, `null`, `""`) is not type-checked, so the body is accepted as it is |
| TokenAuth.LoadConfig | src/utils/auth.ts:5-8 | the module loads exactly when `JWT_SECRET` is present and not empty, and keeps it unchanged |
| TokenAuth.BearerToken | src/utils/auth.ts:21-22 | the token taken from the header is a non-empty word without spaces; there is none exactly when the header has no space or an empty second field |
| TokenAuth.ValidateAuth | src/utils/auth.ts:17-31 | a missing or empty header gives null; otherwise the result is present exactly when the header has a usable second field that the verifier accepts, and it is then that token's `userId` |
| TokenAuth.BearerTokenOf | src/utils/auth.ts:21-22 | the candidate token of `scheme token rest` is `token`; later fields are ignored |
| TokenAuth.NoSecondField | src/utils/auth.ts:21-22 | a header without a space, or with a double space after the first word, authenticates nobody |
| TokenAuth.SchemeIgnored | src/utils/auth.ts:21 | `Bearer abc` and `Basic abc` (any two one-word schemes) authenticate the same user, exactly when `abc` verifies |
| TokenAuth.CookiesIgnored | src/utils/auth.ts:17-22 | two requests with the same `Authorization` header authenticate alike, whatever their cookies |
| Guards.SessionCookie | src/lib/auth.ts:17-19 | the session cookie is one of the header's `;`-separated segments and starts with `token=` once trimmed; there is none exactly when no segment does |
| Guards.SessionToken | src/lib/auth.ts:26 | a session cookie always yields a token, and the token is element 1 of the cookie segment split on `=`, the text after its first `=` up to the next one; it holds no `=` |
| Guards.RequireAuth | src/lib/auth.ts:6-39 | the guard allows exactly when there is a request whose session token verifies, and hands on the verifier's `{userId, email}`; every other case redirects to `/login` |
| Guards.RedirectIfAuthenticated | src/lib/auth.ts:42-74 | the guard redirects to `/dashboard` exactly when there is a request whose session token verifies; otherwise rendering proceeds |
| Guards.GuardsComplementary | src/lib/auth.ts:6-74 | for a present request, `requireAuth` allows exactly when `redirectIfAuthenticated` redirects, and redirects to login exactly when the other lets rendering proceed |
| Guards.TokenSegmentAfterSpaces | src/lib/auth.ts:19 | a segment that starts with white space followed by `token=` is a token segment |
| Guards.SegmentToken | src/lib/auth.ts:19-26 | in a segment `<spaces>token=v...`, the token is `v` up to the next `=`, with no decoding |
| Guards.FirstSegmentWins | src/lib/auth.ts:17-19 | when the cookie header is segments joined by `;`, the session cookie is the first token segment; later ones are ignored |
| Guards.GuardToken | src/lib/auth.ts:17-26 | when the first token segment of the cookie header is `<spaces>token=v...`, the token the guards verify is exactly `v`, undecoded |
| Guards.NearMissSegments | src/lib/auth.ts:19 | `token2=...` and `xtoken=...` are not token segments |
| Items.PageParam | src/routes/api/items/index.ts:16 | the normalised page is at least 1, and it is 1 when the parameter is absent or empty |
| Items.LimitParam | src/routes/api/items/index.ts:17 | the normalised limit lies in 1..100, and it is 10 when the parameter is absent or empty |
| Items.PageParamOf | src/routes/api/items/index.ts:16 | a page sent as the decimal text of `n` becomes `max(n, 1)` |
| Items.LimitParamOf | src/routes/api/items/index.ts:17 | a limit sent as the decimal text of `n` becomes `min(max(n, 1), 100)` |
| Items.Offset | src/routes/api/items/index.ts:19 | the offset is a natural number, and `offset + limit == page * limit` |
| Items.Owned | src/routes/api/items/index.ts:25 | the owner filter holds exactly the documents whose `ownerId` is the user |
| Items.OwnedAppend | src/routes/api/items/index.ts:25 | adding a document extends exactly its owner's documents, at the end |
| Items.Insert | src/routes/api/items/index.ts:26 | inserting adds exactly the one document, and the result holds nothing else |
| Items.InsertOrdered | src/routes/api/items/index.ts:26 | inserting into a newest-first sequence keeps it newest first |
| Items.NewestFirst | src/routes/api/items/index.ts:26 | `orderBy("createdAt", "desc")` gives a permutation of its input in which `createdAt` never increases |
| Items.ListedSpec | src/routes/api/items/index.ts:23-29 | the listing `Listed` (the query without offset and limit) is newest first and holds exactly the owner's documents that carry a `createdAt` timestamp; it is never longer than the owner's count |
| Items.Window | src/routes/api/items/index.ts:27-28 | `.offset(o).limit(l)` holds `min(l, n - o)` items (none past the end), and they are the ones starting at position `o` |
| Items.ItemView | src/routes/api/items/index.ts:34 | `{id, ...data}` has the document's keys plus `id`, keeps every stored value, and carries the document id unless the data has its own `id` |
| Items.Views | src/routes/api/items/index.ts:34 | `map` yields one view per document, in order |
| Items.PageItemsSpec | src/routes/api/items/index.ts:23-34 | a page holds at most `limit` items; it is full exactly when the listing reaches `page * limit`; item `k` is the view of listing entry `offset + k` |
| Items.PageOfSpec | src/routes/api/items/index.ts:23-46 | of the page `PageOf` builds: it echoes `page` and `limit`; `total` is the owner's count whatever the page; `count` is the number of items, at most `limit`; `hasMore` holds exactly when the listing reaches the end of the page; every item's `ownerId` is the caller |
| Items.ListItems | src/routes/api/items/index.ts:9-47 | GET answers 401 "Unauthorized" without a user id, before reading the query; a page or limit that is not a number escapes as an exception; otherwise it answers "success" with the page the normalised parameters select |
| Items.PagesConcatenate | src/routes/api/items/index.ts:19-29 | pages 1 to `n` of an unchanged listing, read in turn, are its first `n * limit` items, each once and in order |
| Items.HasMoreAtExactEnd | src/routes/api/items/index.ts:44 | when the listing ends exactly at the end of a page, that page reports `hasMore` and the next page is empty |
| Items.TotalWhenAllStamped | src/routes/api/items/index.ts:30-33 | when every document of the owner carries a timestamp, the pages together hold exactly `total` items |
| Items.NewItem | src/routes/api/items/index.ts:66-71 | the stored record holds the body's entries, plus `ownerId` set to the caller, `createdAt` set to the first clock reading and `updatedAt` to the second; these three override whatever the body sent under those names |
| Items.CreatedItemListed | src/routes/api/items/index.ts:66-72 | a created item appears in its owner's listing and raises the owner's total by one; every other owner's documents are unchanged |
| Items.ItemStore.Create | src/routes/api/items/index.ts:50-74 | POST answers 401 without a user id, or 400 with the validator's message, and stores nothing; otherwise it appends exactly the new record and answers with its id |
| Users.FindById | src/routes/api/user/index.ts:15-18 | `doc(id).get()` finds the document with that id, or reports that none exists |
| Users.FirstWithEmail | src/routes/api/login.ts:33-37 | `where("email", "==", e).limit(1)` finds the first user whose email is exactly `e`, with none before it, or reports that none exists |
| Users.FirstWithEmailPrefix | src/routes/api/login.ts:33 | users stored after the first match do not change which user the lookup finds |
| Users.Strip | src/routes/api/user/index.ts:21 | the projection drops `passwordHash` and keeps every other field and value |
| CredentialInput.ReadCredentials | src/routes/api/register.ts:9-27 | the ladder register and login share. A syntax error gives 400 "Invalid JSON format"; an unreadable or `null` body gives 500. Then, in order: "Email is required", then "Password is required", then "Invalid email format"; an `email` or `password` that is neither a string nor missing or `null` makes `trim` throw, which answers 500 at its rung. It succeeds exactly when both fields are non-blank strings and the untrimmed email matches the pattern, and it hands on both fields as sent |
| CredentialInput.SpacedEmailRejected | src/routes/api/register.ts:25 | a non-blank email with white space anywhere, such as a leading space, is refused as "Invalid email format" |
| CredentialInput.AcceptedEmailTrimmed | src/routes/api/register.ts:19-27 | an email that passes the ladder has nothing for `trim` to remove |
| Registration.ProfileText | src/routes/api/register.ts:40-42 | `x?.trim() ?? ""` gives the trimmed text, `""` for a missing or `null` field, and throws for any other value |
| Registration.NewUser | src/routes/api/register.ts:35-45 | the record has exactly eight keys: the email as given, `hash(password, 10)` and never the password, `isActive` true, the three trimmed profile texts, `createdAt` at the first clock reading and `updatedAt` at the second |
| Registration.Register | src/routes/api/register.ts:8-57 | the handler always answers itself; the ladder's rejections come first, then 409 "User already exists", then 500 when a profile field throws; a valid, fresh and readable body succeeds with "User registered successfully" and adds exactly the `NewUser` record; it adds a record exactly when it succeeds |
| Registration.RegisterTwiceConflicts | src/routes/api/register.ts:29-33 | after a successful registration, the same body is refused with 409 |
| Registration.RegisterKeepsEmailsUnique | src/routes/api/register.ts:29-47 | if no two stored users share an email, the same holds after a registration, since it adds a user only when no stored user has that email |
| Login.Login | src/routes/api/login.ts:14-62 | the handler always answers itself; the ladder's rejections come first, then 404 "User not found", then 500 "Internal server error" when the first match's stored hash is not a string, then 401 "Invalid email or password" when the password does not match that hash, then 500 when the password matches but the secret is missing or empty; it succeeds exactly when the password matches and a secret is set, and then answers with the token signed over that user's id and email for 3600 seconds |
| Login.OnlyFirstMatch | src/routes/api/login.ts:33-41 | users after the first one with that email change nothing, even with a matching password |
| Login.SignedClaimsAreStored | src/routes/api/login.ts:47-51 | a token's claims are a stored user's document id and the email that document holds |
| Login.SameLadderAsRegister | src/routes/api/login.ts:20-30 | whenever the shared checks fail, login and register answer with the same message and status |
| Profile.GetProfile | src/routes/api/user/index.ts:11-24 | GET answers 401 without a user id, then 404 "User not found"; a stored caller gets "success" with their document minus `passwordHash`, and no answer carries `passwordHash` |
| Profile.CollectThrown | src/routes/api/user/index.ts:41-42 | the whitelist loop `Collect` throws exactly when the body is neither an object nor an array |
| Profile.CollectRejected | src/routes/api/user/index.ts:41-46 | the loop fails exactly when an allowed key holds a value that is not a string, and then names the first such key: "`<key>` must be a string" |
| Profile.CollectFields | src/routes/api/user/index.ts:41-49 | a loop that runs through collects exactly the allowed keys the body holds, each with its value trimmed |
| Profile.CollectSticky | src/routes/api/user/index.ts:44-45 | once the loop has returned, later keys change nothing |
| Profile.Updated | src/routes/api/user/index.ts:55-63 | the merge keeps the stored fields, overrides them with the collected ones, and sets `updatedAt` to `now` |
| Profile.PatchOutcome | src/routes/api/user/index.ts:27-69 | PATCH answers, in order: 401; "Invalid JSON payload"; an escaping exception exactly for a body that is neither object nor array; the loop's 400 with the loop's message; "No valid fields to update"; 404; and once all of these pass, success with the merged document minus its hash, which replaces the caller's stored document. Every failure leaves the collection unchanged, and no answer carries `passwordHash` |
| Profile.ShownAfterMerge | src/routes/api/user/index.ts:41-68 | the document a successful PATCH answers with shows each allowed field the body sent, trimmed, no `passwordHash`, and every other field but `updatedAt` as stored |
| Profile.PatchThenGet | src/routes/api/user/index.ts:11-68 | after a successful PATCH, a GET by the same user answers with exactly the document the PATCH answered with: the sent fields trimmed, no `passwordHash`, every other field but `updatedAt` as before |
| Profile.RenameThenGet | src/routes/api/user/index.ts:11-68 | a PATCH of only a string `displayName` succeeds for a stored user, and a following GET shows the trimmed name |
| Profile.MergeChangesOnlyAllowed | src/routes/api/user/index.ts:38-63 | the merge sets the supplied allowed fields to their trimmed text and `updatedAt` to `now`; every other field, such as `email`, `passwordHash`, `isActive` and `createdAt`, keeps its presence and value |
| Profile.PatchChangesOneUser | src/routes/api/user/index.ts:57-68 | a successful PATCH replaces the caller's document by the merge, leaves every other user as it was, and answers with the merge minus its hash |
| Profile.PatchFirstBadField | src/routes/api/user/index.ts:41-46 | the first allowed key (displayName, avatarUrl, bio) holding a non-string is the one the 400 answer names, and nothing changes |
| Profile.PatchNothingToUpdate | src/routes/api/user/index.ts:51-53 | a body holding none of the allowed keys, or an array, is refused with "No valid fields to update", and nothing changes |
| Profile.PatchKeepsEmailsUnique | src/routes/api/user/index.ts:37-63 | a PATCH keeps emails unique: the merge never touches `email`, and no other user changes |
| UserStore.UserStore.Register | src/routes/api/register.ts:29-49 | registration answers as `Registration.Register` states, and on success only it appends the new record under the store's id; it runs on any collection, and one whose emails were unique keeps them unique |
| UserStore.UserStore.PatchProfile | src/routes/api/user/index.ts:27-69 | the step-by-step PATCH answers and rewrites the collection exactly as `PatchOutcome` states; it runs on any collection, and one whose emails were unique keeps them unique |
| UserStore.CollectUpdates | src/routes/api/user/index.ts:38-49 | the `for` loop over the allowed fields ends where the fold `Collect` ends, including an early return on a thrown TypeError or a non-string value |
| ManageItems.RequestQuery | src/lib/composables/useManageItems.ts:32 | every request carries a page and `limit=5` |
| ManageItems.FetchData | src/lib/composables/useManageItems.ts:31-42 | a fetch yields the listing exactly when the answer is 2xx and carries data; a non-2xx answer gives "Failed to fetch items"; a thrown error gives its message, or "Unknown error" when that is empty; a failure message is never empty |
| ManageItems.Fetched | src/lib/composables/useManageItems.ts:27-46 | after `fetchItems` loading is over, and the error is cleared exactly when the fetch yields a listing; an error left is never empty |
| ManageItems.LoadedMore | src/lib/composables/useManageItems.ts:48-53 | `loadMore` never drops an item already shown (the old items are a prefix of the new ones) and advances at most one page |
| ManageItems.ItemsView.constructor | src/lib/composables/useManageItems.ts:21-26 | the signals start with no items, no pagination, page 1, not loading and no error |
| ManageItems.ItemsView.FetchItems | src/lib/composables/useManageItems.ts:27-46 | the signal updates end in the state `Fetched` states for the server's answer to that page |
| ManageItems.ItemsView.LoadMore | src/lib/composables/useManageItems.ts:48-53 | the method ends in the state `LoadedMore` states |
| ManageItems.FetchEffects | src/lib/composables/useManageItems.ts:27-46 | a failed fetch keeps items, pagination and page, sets a non-empty error and ends loading. A successful one clears the error, moves to the page, takes the answer's pagination, and replaces the items or appends the new ones in order |
| ManageItems.LoadMoreGated | src/lib/composables/useManageItems.ts:50 | without a pagination that reports more, `loadMore` changes nothing |
| ManageItems.RequestQueryParams | src/lib/composables/useManageItems.ts:32 | the items handler reads the request back as the page sent (at least 1) and limit 5 |
| ManageItems.AnswerToRequest | src/lib/composables/useManageItems.ts:32-39 | the handler's answer to an authenticated request for page `n` gives the client exactly page `n` of the caller's listing |
| ManageItems.ClientFetchUnauthorized | src/lib/composables/useManageItems.ts:31-33 | the request as the client sends it carries no `Authorization` header, so the handler identifies nobody and answers 401; the view keeps its items, pagination and page and shows "Failed to fetch items" |
| ManageItems.FirstFetchInSync | src/lib/composables/useManageItems.ts:27-46 | for a request carrying a verified `Authorization` header, which useManageItems.ts:32 does not send: fetching page 1 without appending puts any view in sync with the listing |
| ManageItems.LoadMoreInSync | src/lib/composables/useManageItems.ts:48-53 | for requests carrying a verified `Authorization` header, which useManageItems.ts:32 does not send: against an unchanged collection, `loadMore` keeps the view in sync; with more to come it appends exactly the next page and moves to it, and otherwise nothing changes |
| ManageItems.SyncedItems | src/lib/composables/useManageItems.ts:38 | a synced view shows the first `currentPage * 5` items of the listing in order; once the last answer reports no more, it shows the whole listing |

## Left out

- The network, the store and the crypto libraries are not modelled. Fetches, Firestore queries, `jwt.verify`, `jwt.sign`, `bcrypt.hash` and `bcrypt.compare` are parameters. A fetch on the client may fail (`FetchOutcome.Thrown`).
- The store never fails in the model. `add`, `get`, `update` and `count` always succeed, so a Firestore rejection is not modelled: register and login would answer it with 500, and the items and user handlers would let it escape. The one store failure modelled is the rejection of a `NaN` offset or limit.
- `verifyAuthToken` is imported by src/lib/auth.ts, but src/utils/auth.ts does not define it. It is an abstract verifier that returns the claims or nothing; a throw and a falsy result are treated alike, as both guards treat them.
- Concurrency is not modelled: no interleaving of requests, no async suspension, no cancellation. Each handler runs alone against one snapshot of the collection.
- Timestamps are instants (`Time(t)`), not ISO-8601 text or server timestamps. Tie-breaking among equal `createdAt` values is left to the model's insertion order.
- Documents whose `createdAt` is missing or is not a timestamp are not in the listing. Firestore's `orderBy` skips documents that lack the field. It would order a document whose `createdAt` holds another type (a PATCH through src/routes/api/item/[id].tsx can write one) among the others by type; leaving such documents out is this model's choice, and ordering across mixed value types is not modelled.
- Numbers are unbounded integers. `parseInt` on very long digit strings loses precision in JavaScript, and the model does not capture that. A page of more than about 309 digits parses to `Infinity`, so `(page - 1) * limit` is `Infinity` and goes to `.offset` (src/routes/api/items/index.ts:16,19,27). The model instead answers with an ordinary, empty page. Non-numeric input gives `None`, and the store's rejection of a `NaN` offset or limit is `Uncaught`.
- `Values.In` models `key in v` for the three allowed field names only. An array holds none of them, and inherited properties are not modelled.
- Invalid document paths in `doc(userId)`, such as an id containing `/`, are not modelled.
- The initial `createEffect(() => fetchItems(1))` is not a separate operation. `ClientFetchUnauthorized` states what that fetch leads to as the client sends it, and `FirstFetchInSync` what it would lead to with a verified `Authorization` header.
- `json.data.items || []` and `json.data.pagination || null` are not modelled separately. For the answers the items handler gives, both fields are always present.
- ManageItems.FetchData: the TypeError message for an answer without `data` is `MissingDataMessage`, the text V8 produces. Other engines word it differently.
- Profile.PatchOutcome: Firestore's `update` treats dotted keys as field paths. The three allowed keys contain no dots, so the merge is written as a plain map update.
- src/utils/responses.ts is reduced to the `Reply` envelope: `ErrorResponse` defaults to status 400 and `SuccessResponse` uses 200. Headers and JSON serialisation are not modelled.
- Logout, the `.tsx` pages and components, and src/lib/composables/useProfile.ts are not part of this model. They render pages or emit a constant cookie header.
- Strings are sequences of Unicode characters, not JavaScript's UTF-16 code units. Text outside the Basic Multilingual Plane therefore differs in length and indexing. This affects `trim`, `split` and the entries a spread string body (`Values.Spread`) gives: the model has one entry per character where JavaScript has one per code unit.
- Store-assigned ids (`newId`) are taken to be fresh, as Firestore's `add` makes them. `UserStore.UserStore.Register` and `Items.ItemStore.Create` do not check this, so a reused id would leave `FindById` finding the older entry.
- Registration.NewUser: "the plaintext password is never stored" is stated as the exact key set and the value of `passwordHash`. No separate lemma states it for every key.

## Findings

| source | as written | input that shows it | evidently intended | confidence | as-written member | corrected member |
|---|---|---|---|---|---|---|
| src/lib/composables/useManageItems.ts:32 | `fetch` sends no `Authorization` header, but the items handler identifies the caller only from that header (src/utils/auth.ts:18-19), with no cookie fallback | any `fetchItems(page)`, even with a valid session cookie: the answer is 401 and the view shows "Failed to fetch items" | the request carries the session's token as `Authorization: Bearer <token>`, and the view shows the caller's items page by page | high, not executed | ManageItems.ClientFetchUnauthorized | ManageItems.FirstFetchInSync |
