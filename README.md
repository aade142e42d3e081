# Pixabay favourites: a verified model of the server stores, token gates and explore helpers

The Pixabay app has two halves.

- A Node/Express server keeps users and their favourite Pixabay media in a Postgres database through TypeORM.
- A Next.js client lets users browse Pixabay and favourite images and videos.

This project models the logic of that app in Dafny and proves what the code promises. It covers:

- **The favourite table** (`FavouriteModel`, `FavouriteController`):
  - Each handler of the favourites controller is one atomic step over an in-memory table: the per-user listings, add, delete and the global top-30 ranking.
  - Each step returns a status code and a change to the table, or no change.
  - The `Favourite` entity is a datatype. Its `mediaType` is the two-valued `MediaType`, so it is always `'image'` or `'video'`.
  - Generated primary keys are a `nextId` counter in the repository class. The foreign key to the user is `userId`, and the `CASCADE` delete is `DeleteUser`.
- **The user table** (`UserModel`, `AuthController`, `UserController`):
  - `signup` validates the body and refuses a taken username or email.
  - It inserts an unverified user with a bcrypt hash, then stores the issued refresh token with a second save.
  - `getProfile` is a read-only projection to id, username and email.
  - The `unique` columns and the generated key are the repository invariant `Valid()`. Nullable columns are `Option`s.
- **The two access gates** (`AuthMiddleware`, `AuthHelpers`):
  - The server's `authenticateToken` takes the second space-separated piece of the `Authorization` header. It answers 401, 403, or passes the request on with `req.user` set.
  - The client's `withAuth` answers `{ props: {} }` or a non-permanent redirect to `/auth`.
- **The explore page's client logic** (`Explore`):
  - the in-place Fisher–Yates `shuffleArray`;
  - the image-then-video merge that flags videos;
  - the previous/next page guards;
  - the page count after a search;
  - the blank-query guard of the search form, plus the `[page]` effect.
- **ECMAScript built-ins** (`Ecma`): `parseInt(s, 10)` (ECMA-262 section 19.2.5), `String.prototype.trim` and `String.prototype.split` with a one-character separator are written out. The corner cases of the handlers depend on them.

The model's treatment of external pieces:

- bcrypt is a symbolic term `Bcrypt(rounds, salt, plaintext)`. Its random salt is a parameter.
- JWT signing is a function parameter from user id to an optional token. `None` stands for `jwt.sign` throwing because its secret is unset.
- `jwt.verify` / `jsonwebtoken.verify` is an oracle parameter.
- `Math.random()` is a nondeterministic choice of `j` in `[0, i]`.
- Environment variables are `Option<string>` parameters.

Row order in the tables is storage order. A TypeORM `find` without `ORDER BY` is taken to return rows in that order.

## Model

| member | source | states |
|---|---|---|
| Ecma.TrimStart | client/src/pages/explore.tsx:93 | the result is the suffix of the input that starts at its first non-white-space character; everything removed is white space |
| Ecma.TrimEnd | client/src/pages/explore.tsx:93 | the result is the prefix of the input that ends at its last non-white-space character; everything removed is white space |
| Ecma.Trim | client/src/pages/explore.tsx:93 | the trimmed string is no longer than the input and, when non-empty, neither starts nor ends with white space |
| Ecma.TrimIsInfix | client/src/pages/explore.tsx:93 | the trimmed string is a stretch of the input with only white space before and after it |
| Ecma.TrimEmptyIffBlank | client/src/pages/explore.tsx:93 | `s.trim() === ''` exactly when every character of `s` is ECMAScript white space or a line terminator |
| Ecma.Split | server/src/middlewares/authmiddleware.ts:10 | `split(' ')` yields at least one piece, no piece contains the separator, and joining the pieces with the separator gives back the input |
| Ecma.SplitJoin | server/src/middlewares/authmiddleware.ts:10 | splitting a join of separator-free pieces gives back exactly those pieces (the other half of the round trip) |
| Ecma.SplitWithoutSeparator | server/src/middlewares/authmiddleware.ts:10 | a string without the separator splits into itself alone |
| Ecma.SplitAfterPiece | server/src/middlewares/authmiddleware.ts:10 | a separator-free word followed by the separator is split off as the first piece, and the rest splits on its own |
| Ecma.DigitPrefix | server/src/controllers/favouriteController.ts:79 | the digits `parseInt` consumes: the longest run of decimal digits at the start, stopping at the first non-digit |
| Ecma.TrimStartSkipsWhitespace | server/src/controllers/favouriteController.ts:79 | leading white space in front of a non-blank start is skipped entirely |
| Ecma.DigitPrefixStopsAtNonDigit | server/src/controllers/favouriteController.ts:79 | digits followed by a non-digit (or nothing) are exactly the digits consumed |
| Ecma.ParseInt | server/src/controllers/favouriteController.ts:79-81 | a blank string is NaN; a number is only ever read from a string holding a decimal digit, and a negative one only from a string holding a minus sign |
| Ecma.ParseIntDigits | server/src/controllers/favouriteController.ts:79 | `parseInt(ws + sign + digits + rest, 10)` is the signed decimal value of the digits, whatever the trailing non-digit text |
| Ecma.ParseIntNaN | server/src/controllers/favouriteController.ts:79-81 | white space and an optional sign followed by a non-digit (or nothing) parse to NaN (`None`) |
| Ecma.ParseIntRoundTrip | server/src/controllers/favouriteController.ts:79 | every integer written in decimal parses back to itself |
| Ecma.ParseIntSignedDecimal | server/src/controllers/favouriteController.ts:79 | an optional minus sign followed by digits parses to the signed value of the digits |
| Ecma.Decimal | server/src/controllers/favouriteController.ts:79 | the decimal spelling of a natural number is a non-empty digit string whose value is that number |
| UserModel.FindUser | server/src/controllers/usercontroller.ts:10 | `findOne({ where: { id } })` finds a user exactly when one with that id is stored, and what it finds is a stored row with that id |
| UserModel.WithoutUser | server/src/models/User.ts:13-14 | deleting a user row keeps exactly the rows with another id |
| UserModel.NewUser | server/src/controllers/authController.ts:26 | `create` gives the user the given username, email and hash, `verified` false by the column default (server/src/models/User.ts:25-26) and every nullable token column empty |
| UserModel.UsernameOrEmailTaken | server/src/controllers/authController.ts:18-19 | `findOne({ where: [{ username }, { email }] })` finds a row exactly when some stored user has that username or some stored user has that email |
| UserModel.UntakenKeepsUnique | server/src/controllers/authController.ts:18-27 | appending a user whose username and email are untaken and whose id is new keeps ids distinct and usernames and emails unique |
| UserModel.UserRepository.constructor | server/src/models/User.ts:11-42 | an empty user table whose key sequence starts at 1 satisfies the invariant |
| UserModel.UserRepository.Insert | server/src/models/User.ts:13-20 | an INSERT of a user whose username and email are free appends it with the next generated id; ids stay distinct and usernames and emails stay unique |
| UserModel.UserRepository.Update | server/src/controllers/authController.ts:32-33 | saving an already stored user replaces its row in place and keeps the invariant |
| FavouriteModel.FavouritesOf | server/src/models/User.ts:40-41 | a user's favourites are exactly the stored favourites with that owner, with multiplicity |
| FavouriteModel.FavouritesNotOf | server/src/models/Favourite.ts:26 | the favourites left by the cascade are exactly those of other owners, with multiplicity |
| FavouriteModel.DeleteUser | server/src/models/Favourite.ts:26-28 | deleting a user removes that user's row and, by `onDelete: 'CASCADE'`, every favourite it owns and no other |
| FavouriteModel.CascadeKeepsOwners | server/src/models/Favourite.ts:26-28 | after the cascade every remaining favourite still references an existing user |
| FavouriteModel.RemoveKeepsOwners | server/src/controllers/favouriteController.ts:95 | removing one favourite leaves every remaining favourite with an existing owner |
| FavouriteModel.FavouriteRepository.constructor | server/src/models/Favourite.ts:12-29 | an empty favourite table whose key sequence starts at 1 satisfies the invariant |
| FavouriteModel.FavouriteRepository.Insert | server/src/controllers/favouriteController.ts:60-66 | `save` of a new favourite appends it with the next generated id only when its owner exists (the foreign key), and the sequence value is spent either way; ids stay distinct |
| FavouriteModel.FavouriteRepository.Remove | server/src/controllers/favouriteController.ts:95 | `remove` deletes exactly the row at that position and leaves the others in order |
| FavouriteController.MediaIdsOf | server/src/controllers/favouriteController.ts:10-14 | a media id is listed exactly when the requesting user holds a favourite of it; other users' favourites never show |
| FavouriteController.GetFavoriteIds | server/src/controllers/favouriteController.ts:6-19 | 500 exactly when the user id does not fit the 32-bit `integer` column; otherwise 200 with a list holding exactly the media ids the user holds, one per favourite record |
| FavouriteController.FavoriteIdsOnePerRecord | server/src/controllers/favouriteController.ts:10-14 | one id is listed per favourite record the user owns |
| FavouriteController.FavoriteIdsDistinct | server/src/controllers/favouriteController.ts:10-14 | under the one-per-(user, mediaId) invariant the listed ids are pairwise distinct |
| FavouriteController.DetailsOf | server/src/controllers/favouriteController.ts:27-35 | every detail `{ id, url, mediaType }` is the mediaId, mediaUrl and mediaType of one of the user's own favourites |
| FavouriteController.Details | server/src/controllers/favouriteController.ts:31-35 | the `map` to details keeps the length, and the i-th detail is the mediaId, mediaUrl and mediaType of the i-th row |
| FavouriteController.DetailsMapFavourites | server/src/controllers/favouriteController.ts:27-35 | the listed details are exactly the user's own favourites, one for one and in storage order, each mapped to its detail |
| FavouriteController.GetFavorites | server/src/controllers/favouriteController.ts:23-41 | 500 exactly when the user id does not fit the `integer` column; otherwise 200 with one detail per favourite of the user, in order, the i-th being the i-th favourite's mediaId, mediaUrl and mediaType |
| FavouriteController.FavoritesAlignWithIds | server/src/controllers/favouriteController.ts:27-35 | the details have the same length as the id list and the i-th detail carries the i-th id |
| FavouriteController.FindOne | server/src/controllers/favouriteController.ts:51-53 | the lookup by (user, mediaId) succeeds exactly when the user holds that media, and points at such a row |
| FavouriteController.AddFavorite | server/src/controllers/favouriteController.ts:45-73 | a user id or `mediaId` outside the 32-bit `integer` columns: the lookup fails, 500, no change and no key spent. Held already: 400 and no change. Owner row missing: 500, no new row, the key spent. Otherwise: 201 and exactly one appended row with the given fields. At most one favourite per (user, mediaId) and owner existence are preserved |
| FavouriteController.OtherUsersDoNotBlock | server/src/controllers/favouriteController.ts:51-53 | the duplicate check keys on (user, mediaId) only: another user's favourite of the same media never makes it fire |
| FavouriteController.RemoveLeavesNoDuplicate | server/src/controllers/favouriteController.ts:95 | removing a row keeps one-per-(user, mediaId), leaves no favourite for the removed key, and takes out exactly one record |
| FavouriteController.DeleteFavorite | server/src/controllers/favouriteController.ts:76-102 | NaN id: 400 and no change. A user id or parsed id outside the 32-bit `integer` columns: the lookup fails, 500 and no change. No favourite of that user with that parsed id: 404 and no change. Otherwise: 200 and exactly the first match removed. The invariant is kept and the key no longer held |
| FavouriteController.DeleteParsed | server/src/controllers/favouriteController.ts:81-101 | the same outcomes and table changes once the path id has been parsed |
| FavouriteController.PairCountPositive | server/src/controllers/favouriteController.ts:112 | the group of a stored favourite has a count of at least 1 |
| FavouriteController.Pairs | server/src/controllers/favouriteController.ts:113-114 | `GROUP BY mediaId, mediaUrl` yields each occurring pair exactly once and no other |
| FavouriteController.Groups | server/src/controllers/favouriteController.ts:110-114 | one row per occurring (mediaId, mediaUrl) group carrying that group's count, keys distinct, none missing |
| FavouriteController.InsertByCount | server/src/controllers/favouriteController.ts:115 | inserting into a list sorted by descending count keeps it sorted and adds exactly that row |
| FavouriteController.InsertKeepsKeysDistinct | server/src/controllers/favouriteController.ts:113-115 | inserting a row with a new key keeps the group keys distinct |
| FavouriteController.SortByCount | server/src/controllers/favouriteController.ts:115 | `ORDER BY count DESC` gives a permutation of the groups in non-increasing count order |
| FavouriteController.SortKeepsKeysDistinct | server/src/controllers/favouriteController.ts:113-115 | ordering keeps one row per group |
| FavouriteController.GetTopFavorites | server/src/controllers/favouriteController.ts:116 | at most 30 rows are returned |
| FavouriteController.Limit | server/src/controllers/favouriteController.ts:116 | `LIMIT 30` keeps the first 30 rows in order, or all of them when there are fewer |
| FavouriteController.LimitKeepsOrBeats | server/src/controllers/favouriteController.ts:115-116 | a row of a count-sorted list is kept in its place, or all 30 kept rows count at least as much as it |
| FavouriteController.TopFavoritesRowsAreGroups | server/src/controllers/favouriteController.ts:108-117 | each returned row is a distinct (mediaId, mediaUrl) group with its true count over all users, at least 1 |
| FavouriteController.TopFavoritesOrdered | server/src/controllers/favouriteController.ts:115 | the rows come in non-increasing count order |
| FavouriteController.TopFavoritesOmitOnlySmaller | server/src/controllers/favouriteController.ts:108-117 | every stored group is returned, unless all 30 rows are used and its count is at most the last row's |
| FavouriteController.GroupKeptOrBeaten | server/src/controllers/favouriteController.ts:108-117 | an occurring group has a returned row, or all 30 rows are used and it counts at most the last one |
| FavouriteController.FavouriteSession | server/src/controllers/favouriteController.ts:45-102 | adding the same media twice gives 201 then 400 with one record (the second with another url and type); deleting it through the path `"42"` gives 200, then 404 |
| FavouriteController.DeleteTwice | server/src/controllers/favouriteController.ts:76-97 | for any held media with in-range ids, the request with the path `String(mediaId)` is parsed back to that id: the first delete gives 200, the repeat 404 |
| FavouriteController.OutOfRangeUserSession | server/src/controllers/favouriteController.ts:6-73 | a user id of 2^31: adding gives 500 with no key spent, and listing the ids gives 500 |
| AuthController.Signup | server/src/controllers/authController.ts:7-44 | a falsy field: 400 and no change. Username or email taken: 400 and no change. Otherwise the new user is saved first. If signing either token throws (server/src/utils/jwtUtils.ts:7-8, 15-21), the answer is 500 and the saved row stays, with no refresh token. If both sign: 201 with the next id, and exactly one new row. The new row is unverified, holds the bcrypt hash (cost 10) of the password and not the password, and stores the refresh token that is returned. Uniqueness holds afterwards |
| AuthController.Falsy | server/src/controllers/authController.ts:11 | a field is truthy exactly when it is present and non-empty |
| AuthController.MissingField | server/src/controllers/authController.ts:11 | the guard passes exactly when username, email and password are all present and non-empty |
| AuthController.SignupScenario | server/src/controllers/authController.ts:18-40 | a first signup creates user 1, unverified, with the hashed password and the returned refresh token; a second with the same username is refused with 400 |
| AuthController.UnsetSecretScenario | server/src/controllers/authController.ts:27-43 | with an unset signing secret, a signup answers 500 yet leaves the user stored without a refresh token, so a retry with the same username gets 400 |
| UserController.GetProfile | server/src/controllers/usercontroller.ts:6-22 | 500 exactly when the id does not fit the 32-bit key column; 404 exactly when it fits and no user has it; otherwise `{ id, username, email }` of a stored user with that id |
| UserController.ProfileOfStoredUser | server/src/controllers/usercontroller.ts:10-17 | with distinct ids, a stored user's profile is its own id, username and email (500 if that id could not be a key) |
| UserController.ProfileIgnoresSecrets | server/src/controllers/usercontroller.ts:16-17 | the response does not depend on the password hash, the verified flag or any token column |
| AuthMiddleware.AccessSecret | server/src/middlewares/authmiddleware.ts:16 | the secret is ACCESS_TOKEN_SECRET when set and non-empty, else the fixed fallback; never empty |
| AuthMiddleware.ExtractToken | server/src/middlewares/authmiddleware.ts:10 | a token is found only in a present header, and it contains no space |
| AuthMiddleware.Authenticate | server/src/middlewares/authmiddleware.ts:9-23 | no header: 401. A pass carries exactly the userId that verifying the extracted non-empty token under the secret returned |
| AuthMiddleware.NoSpaceUnauthorized | server/src/middlewares/authmiddleware.ts:10-13 | a header with no space (a bare token) is refused with 401 |
| AuthMiddleware.HeaderGate | server/src/middlewares/authmiddleware.ts:10-22 | for `scheme + " " + token + rest`: the scheme word is ignored, only `token` is verified, text after a further space is dropped. An empty token (`"Bearer "`, `"Bearer  abc"`) is 401. A rejected token is 403. An accepted one passes with its userId |
| AuthMiddleware.Request.constructor | server/src/middlewares/authmiddleware.ts:9 | a request carries its Authorization header and no user yet |
| AuthMiddleware.AuthenticateToken | server/src/middlewares/authmiddleware.ts:9-23 | the outcome is the gate's decision. `req.user` is set to the decoded id exactly when `next()` is called, and left alone on 401/403 |
| AuthHelpers.AccessToken | client/src/lib/authhelpers.ts:9 | the token is present exactly when the `accessToken` cookie is, and is that cookie's value |
| AuthHelpers.OtherCookiesIgnored | client/src/lib/authhelpers.ts:9 | no other cookie changes the token that is read |
| AuthHelpers.WithAuth | client/src/lib/authhelpers.ts:8-31 | always either `{ props: {} }` or the non-permanent redirect to `/auth`. Props exactly when the `accessToken` cookie is present, non-empty and verifies |
| Explore.Swap | client/src/pages/explore.tsx:10 | the destructuring swap exchanges the two positions and changes nothing else |
| Explore.SwapPermutes | client/src/pages/explore.tsx:10 | a swap is a permutation |
| Explore.ApplySwaps | client/src/pages/explore.tsx:8-11 | replaying swaps keeps the length |
| Explore.ApplySwapsPermutes | client/src/pages/explore.tsx:8-11 | any sequence of swaps is a permutation |
| Explore.ShuffleArray | client/src/pages/explore.tsx:7-13 | returns the same array, shuffled in place by swaps of `i` (from length-1 down to 1) with some `j` in `[0, i]`. The elements are a permutation of the input. Arrays of length 0 or 1 are unchanged |
| Explore.MarkVideos | client/src/pages/explore.tsx:38-41 | each video hit keeps its fields and gets `isVideo: true` |
| Explore.MergeHits | client/src/pages/explore.tsx:36-42 | the merge has length images + videos, the image hits first and unchanged, then each video with its fields and `isVideo` set |
| Explore.MergedVideoCards | client/src/pages/explore.tsx:157 | when images carry no `isVideo`, the merged feed renders exactly one video card per video hit |
| Explore.CombineAndShuffle | client/src/pages/explore.tsx:36-42 | the shuffled feed is a new array holding a permutation of the merge |
| Explore.Step | client/src/pages/explore.tsx:99-109 | next moves up by at most one, and does so exactly when below the page count; previous moves down by at most one, exactly when above 1; a page within `[1, max(1, count)]` stays there |
| Explore.Navigate | client/src/pages/explore.tsx:99-109 | a sequence of presses moves the page by at most one per press |
| Explore.NavigationStaysInRange | client/src/pages/explore.tsx:99-109 | any sequence of next/previous presses keeps the page between 1 and the page count (1 when there are none) |
| Explore.CeilDiv | client/src/pages/explore.tsx:78 | `Math.ceil(n / d)` for whole n: the least q with q·d ≥ n |
| Explore.TotalPagesAsWritten | client/src/pages/explore.tsx:77-84 | the count as written is the least page count that covers the image hits at 10 a page and the video hits at 5 a page |
| Explore.TotalPagesAsWrittenOvercounts | client/src/pages/explore.tsx:77-84 | with 50 image hits and no video, 5 pages are offered while page 2 holds no hit (see Findings) |
| Explore.TotalPages | client/src/pages/explore.tsx:60-65 | the corrected count is the least page count that covers the image hits at 50 a page and the video hits at 15 a page |
| Explore.PagesWithinCountHoldHits | client/src/pages/explore.tsx:60-65 | with the page count matched to 50 images and 15 videos per page, a page holds at least one hit exactly when it is within the count |
| Explore.SearchRequest | client/src/pages/explore.tsx:93 | nothing is fetched exactly when the query is empty or white space only; otherwise the given page is fetched |
| Explore.ExplorePage.constructor | client/src/pages/explore.tsx:16-20 | the page starts with an empty query, page 1 and one page |
| Explore.ExplorePage.SetQuery | client/src/pages/explore.tsx:133 | typing replaces the query |
| Explore.ExplorePage.HandleSearchAsWritten | client/src/pages/explore.tsx:91-97 | blank query: nothing changes, nothing is fetched. Otherwise the page becomes 1 but the fetch asks for the page of the current render (see Findings) |
| Explore.ExplorePage.HandleSearch | client/src/pages/explore.tsx:91-97 | blank query: nothing changes, nothing is fetched. Otherwise the page becomes 1 and page 1 is fetched |
| Explore.ExplorePage.PageEffect | client/src/pages/explore.tsx:111-115 | after a page change the current page is refetched, unless the query is blank |
| Explore.ExplorePage.HandleNextPage | client/src/pages/explore.tsx:99-103 | the page goes up by one only when below the page count |
| Explore.ExplorePage.HandlePreviousPage | client/src/pages/explore.tsx:105-109 | the page goes down by one only when above 1 |
| Explore.ExplorePage.ReceiveTotalsAsWritten | client/src/pages/explore.tsx:77-84 | after a search the page count is the count as written, at 10 images and 5 videos a page (see Findings) |
| Explore.ExplorePage.ReceiveTotals | client/src/pages/explore.tsx:77-84 | after a search the page count is the one matched to the page sizes (see Findings) |
| Explore.StaleSearchPageScenario | client/src/pages/explore.tsx:91-97 | on page 3, a search as written asks for page 3 while page 1 is shown |

## Left out

- Login, e-mail verification, verification polling and password reset: only `signup` exists in `authController.ts`, so these flows have no source to model.
- `jwtUtils.ts`, `jwt.verify`, `jsonwebtoken.verify` and `bcrypt.hash` are oracles or symbolic terms. Expiry, signatures and the cost of hashing are not modelled.
- AuthMiddleware.Authenticate: a token that verifies but has no `userId` claim would set `req.user.id` to `undefined`. The verifier oracle returns the claim as an integer, so that case is not represented.
- E-mail sending (`emailQueue.ts`, `emailUtils.ts`), database configuration, Express wiring and the axios helpers in `api.ts` are I/O or wiring, not logic.
- The Pixabay requests (`fetchRandomContent`, `fetchSearchResults`), `loading` and the results state are network calls and state plumbing. Only their page parameter (`SearchRequest`) and the page count from their `totalHits` (`ReceiveTotals`) are modelled.
- The page count uses floating-point division and `Math.ceil`. For whole `totalHits` this equals the integer ceiling used here, so floating point itself is not modelled.
- All rendering, the other pages and components, and the `[]` effect that loads random content on mount are React UI.
- The race between the existence check and the save in `addFavorite` and `signup` is not modelled. Each handler is one atomic step over the tables.
- 500 responses from database or driver failures (lost connections, constraint races) are not modelled. These 500s are modelled: `addFavorite`'s save for a user row that does not exist, which the foreign key makes fail; lookups whose user id or media id is outside the 32-bit `integer` columns (`getProfile`, both listings, `addFavorite`, `deleteFavorite`); and `signup`'s token signing when a secret is unset.
- TypeORM lazy relations (`Promise`-valued `user` and `favorites`) are not modelled. The relation is the `userId` column.
- Request bodies are taken as typed. `mediaId`, `mediaType` and `mediaUrl` arrive as an integer, a `MediaType` and a string. `signup`'s fields are present-or-absent strings, with an absent or empty string counting as falsy.
- `mediaId`, the primary keys and `userId` are Postgres `integer` columns (32-bit). A user id (from the token's claim) or a `mediaId` outside that range fails the lookup with a 500 in every handler that queries by it, and that is modelled. `parseInt` results are exact integers: JavaScript `Number` rounding above 2^53, and `Infinity` for very long digit strings, only occur outside the 32-bit range, where the model answers 500 as the source does. The generated keys running out at 2^31 - 1 is not modelled.
- FavouriteController.GetTopFavorites: node-postgres returns `COUNT(...)` as a decimal string, so the JSON carries `"count": "3"`. The model's `TopRow.count` is the number that string spells.
- FavouriteController.GetTopFavorites: SQL leaves the order of groups with equal counts unspecified. The model keeps one admissible order, and its lemmas state only what holds for every admissible order.
- Explore.ShuffleArray: the distribution of the shuffle (uniformity) is not modelled; only which swaps can occur.
- `handleNextPage` and `handlePreviousPage` read `page` from the render and update with `prevPage => prevPage ± 1`. The two agree within one event, and the model uses that single value.

## Findings

| source | as written | input that shows it | evidently intended | confidence | as-written member | corrected member |
|---|---|---|---|---|---|---|
| client/src/pages/explore.tsx:77-84 | the page count is `ceil(max(imageTotalHits / 10, videoTotalHits / 5))`, but each page requests 50 images (line 60) and 15 videos (line 65) | 50 image hits and no video hit: 5 pages are offered, and pages 2 to 5 hold nothing | `ceil(max(imageTotalHits / 50, videoTotalHits / 15))`, so that a page holds a hit exactly when it is within the count | medium, not executed | Explore.TotalPagesAsWrittenOvercounts, Explore.ExplorePage.ReceiveTotalsAsWritten | Explore.ExplorePage.ReceiveTotals, Explore.PagesWithinCountHoldHits |
| client/src/pages/explore.tsx:91-97 | `setPage(1)` only schedules the change, and the awaited `fetchSearchResults` reads `page` from the current render | query "cats" on page 3: the search fetches page 3 of the new query while page 1 is shown. The `[page]` effect then fetches page 1 as well, and whichever response arrives last is displayed | the search fetches page 1 | medium, not executed | Explore.StaleSearchPageScenario | Explore.ExplorePage.HandleSearch |
