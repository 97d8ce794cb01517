# Library catalog: server rules and the client's favorites cache

This project models the rules of a small library-catalog web application: an Express
server over a MongoDB store (users, books, favorites and reviews) and the browser script
that searches the catalog and keeps a local copy of the reader's favorites.

The server side covers the following:

- **The bearer-token gate.** Each route file repeats it word for word: routes/books.js,
  routes/review.js, routes/users.js and server.js.
- **The book routes.** Search, the distinct library names, one book, and the caller's
  favorites (list, add, remove).
- **The review routes.** Submit or replace a review, and list reviews per book and per
  author.
- **The account routes.** Register, login, read, update and delete a profile. They exist
  twice, in routes/auth.js with routes/users.js and again in the self-contained server.js
  (where the profile read is shadowed by the page fallback; see "Left out").

The store is the class `Store.Db`. It has one `seq` field per collection. Its `Valid()`
invariant holds the following:

- username, email and id are unique (the user schema's unique indexes);
- username and email are required (the user schema's validators);
- one favorite per (user, book) (the favorite schema's compound unique index);
- one review per (user, book), with a rating between 1 and 5. The review schema
  declares no index: only the submit handler's upsert keeps the pair unique, and the
  schema's `min` and `max` bound the rating.

Every handler that changes the store is a method with `modifies` on the tables it
writes. Each one except register calls the gate first, and each is proved against a
pure reply function. The reply
functions carry the precedence of the source's error checks: status code, message and
the stored record. The lemmas about them state what the handlers promise:

- uniqueness is kept;
- a second add or register is refused;
- a remove deletes exactly one pair;
- an update touches only the allow-listed fields;
- a token issued at login opens the gate for seven days;
- the lists are exactly the caller's records, newest first.

The client side (public/js/search.js) is the class `Client.FavoritesCache` over the
stored favorites list, together with the pure functions `AfterAdd` and `AfterRemove`
that specify its updates. It also models the search query string and the error message
of `fetchSafe`.

These are parameters of `Tokens.Env`:

- bcrypt hashing and comparison;
- JWT signing and verification;
- the ObjectId validity test.

The clock is a millisecond parameter. Fresh record ids are supplied by the caller.
`Tokens.SoundSigner` states what the model assumes of the signer: verification of a
freshly signed token gives back its claims.

## Model

| member | source | states |
|---|---|---|
| Gate.Authorize | routes/books.js:7-22 | every refusal is 401, and it is "No authorization header" exactly when the header is missing or empty; the format check ("Invalid authorization format") and the token check ("Invalid or expired token") are stated by the two lemmas below; routes/review.js:17-34, routes/users.js:8-23 and server.js:128-143 repeat this gate unchanged |
| Gate.BearerHeaderReachesVerify | routes/books.js:11-16 | a header `Bearer <t>` with no space in `t` passes with the id `t` verifies to, and is refused with 401 "Invalid or expired token" when `t` does not verify |
| Gate.AcceptedHeaderIsBearer | routes/books.js:11-14 | a non-empty header that does not split into `Bearer` and one token is refused with 401 "Invalid authorization format"; one that does is `Bearer <t>` with no space in `t`, and passes exactly when `t` verifies |
| Gate.IssuedTokenOpensGate | routes/auth.js:76 | a token signed at login opens the gate while less than 7 days of JWT seconds have passed, and is refused from 7 days on |
| Tokens.IssuedTokenLifetime | routes/auth.js:49 | a token issued at registration verifies to its id before the 7-day expiry and to nothing after it |
| Text.Split | routes/books.js:11 | `split(' ')`: at least one part, no part holds the separator, and joining the parts gives the header back |
| Text.SplitJoin | routes/books.js:11 | splitting a join of separator-free parts gives the parts back |
| Text.SplitAfterFirstSeparator | routes/books.js:11-12 | the part before the first space comes off first, and the rest is split the same way |
| Text.SplitWithoutSeparator | routes/books.js:11-12 | text without a space is one part |
| Text.Trim | routes/review.js:68 | `trim()`: the result is the input with a run of white space removed at each end, and does not start or end with white space |
| Text.TrimIdempotent | routes/review.js:68 | trimming twice is trimming once |
| Text.ContainsIff | routes/books.js:150-162 | substring search is the same as an occurrence at some index |
| Text.ExactOccurrenceMatches | routes/books.js:152 | a `$regex` with `$options: 'i'` matches every text that contains the pattern verbatim |
| Text.IgnoresCase | routes/books.js:152-161 | the case-insensitive match ignores letter case in the text and in the pattern |
| Text.ParseIntOfIntToString | routes/books.js:158 | `parseInt` reads back the decimal text of every integer |
| Text.ParseUnsignedOfNatToString | routes/books.js:158 | the digits of a natural number parse back to it |
| Collections.Distinct | routes/books.js:135 | `distinct`: no name twice, and exactly the names present |
| Collections.SortDesc | routes/books.js:185 | `sort({ ...: -1 })`: a permutation of its input, ordered by the key descending |
| Store.FindBook | routes/books.js:269-270 | `findById`: a book found has that id, and none is found exactly when no book has it |
| Store.UserIndex | routes/users.js:61-62 | the position of the user with that id, or none exactly when there is no such user |
| Store.FavoriteIndex | routes/books.js:224 | the position of the caller's favorite for that book, or none exactly when there is none |
| Store.ReviewIndex | routes/review.js:66-70 | the position of the caller's review of that book, or none exactly when there is none |
| Store.UserToJson | routes/auth.js:19-24 | `toJSON` deletes `password` and `__v` and keeps every other stored path (server.js:50-55 defines the same method) |
| Store.Db.constructor | routes/books.js:25-49 | a store holding only the catalog, with distinct book ids, satisfies every schema and index invariant |
| Catalog.BuildQuery | routes/books.js:147-167 | the Mongo filter matches a book exactly when every non-empty criterion holds: title, author and genre as case-insensitive substrings; year by `parseInt`; library exactly. It also records when `parseInt` gives NaN, and only then |
| Catalog.Search | routes/books.js:145-174 | 500 "Search failed" exactly when the year text gives NaN, which Mongoose refuses to cast to a Number; otherwise the catalog filtered by the wanted criteria, in catalog order |
| Catalog.NoCriteriaFindsAll | routes/books.js:147-167 | a search without criteria returns the whole catalog |
| Catalog.TitleSearchFindsExactText | routes/books.js:151-153 | a title search finds every book whose title holds the text verbatim |
| Catalog.YearSearchFindsThatYear | routes/books.js:157-159 | a search by a year's decimal text is answered, not refused with 500, and finds exactly the books of that year |
| Catalog.YearCriterion | routes/books.js:157-159 | a query holding only the decimal text of a year wants exactly the books of that year |
| Catalog.LibraryNames | routes/books.js:135 | one library name per book, position by position |
| Catalog.Libraries | routes/books.js:133-142 | the library names without repeats, exactly the names some book has |
| Catalog.LibrariesListedOnce | routes/books.js:135-136 | each library appears once if some book has it and never otherwise |
| Catalog.GetBook | routes/books.js:264-284 | 400 "Invalid book ID format" for an invalid id, 404 "Book not found" for an unknown one, otherwise the book with that id |
| Catalog.MyFavorites | routes/books.js:183-190 | the caller's favorites whose book still exists, each kept with its multiplicity, newest first |
| Catalog.FavoriteBooks | routes/books.js:191-200 | one book per listed favorite, in the same order, each being the book that favorite names |
| Catalog.FavoriteListShowsOnlyOwnBooks | routes/books.js:179-206 | the list shows exactly the books the caller has favorited, among those that still exist |
| Catalog.ListFavorites | routes/books.js:179-206 | 401 exactly when the gate refuses; otherwise the favorite books of the token's user |
| Catalog.AddFavoriteReply | routes/books.js:214-230 | 400 for a missing or invalid id, then 404 for an unknown book, then 400 "Book already in favorites"; it is accepted exactly when the id is valid, the book exists and the pair is not yet a favorite, and then it is a new favorite of this user, for this book, at the current time |
| Catalog.AddFavoriteKeepsPairsUnique | routes/books.js:208-238 | appending an accepted favorite keeps one favorite per (user, book) |
| Catalog.AddFavoriteTwiceRefused | routes/books.js:224-227 | adding the same book again is refused with 400 "Book already in favorites" |
| Catalog.AddFavorite | routes/books.js:208-238 | the gate, then the reply; the table grows by the new favorite exactly when the reply is Ok, and the store stays valid |
| Catalog.FavoriteRemoval | routes/books.js:244-251 | 404 "Favorite not found" exactly when the caller has no such favorite; otherwise one element fewer, taken from the old table |
| Catalog.RemovalDeletesOnlyThatPair | routes/books.js:244-251 | with unique pairs, removal equals filtering out that (user, book) pair |
| Catalog.RemoveTwiceNotFound | routes/books.js:244-251 | after a removal the pairs stay unique, and removing again is 404 |
| Catalog.RemoveFavorite | routes/books.js:240-259 | the gate, then the removal; the table changes only on success, and the store stays valid |
| Reviews.SubmitReviewReply | routes/review.js:42-77 | 400 for a missing book id or rating, then 400 for an invalid id, then 404 for an unknown book, then 400 "Rating must be between 1 and 5" for a rating outside 1..5; accepted exactly when none of these applies, and then the caller's review with the trimmed comment, keeping `createdAt` of an earlier review and setting `updatedAt` to now |
| Reviews.Upsert | routes/review.js:66-70 | the table keeps its length when the pair had a review and grows by one otherwise; the review is in it |
| Reviews.UpsertKeepsOnePerPair | routes/review.js:66-70 | an upsert keeps one review per (user, book) and every rating in 1..5 |
| Reviews.SubmitKeepsOneReviewPerPair | routes/review.js:42-77 | storing an accepted submission keeps the reviews valid |
| Reviews.ResubmitReplaces | routes/review.js:66-70 | a second submission for the same book replaces the first rather than adding one |
| Reviews.SubmitReview | routes/review.js:42-77 | the gate, then the reply; the reviews become the upsert of the new review exactly on success, and the store stays valid |
| Reviews.NewestFirst | routes/review.js:92 | the matching reviews, each kept with its multiplicity, sorted by `createdAt` descending |
| Reviews.NewestFirstMembers | routes/review.js:90-92 | a review is in the sorted selection exactly when it is stored and meets the condition |
| Reviews.ListingFollowsNewestFirst | routes/review.js:90-92 | a listing that follows the sorted selection position by position is newest first and holds exactly the matching stored reviews |
| Reviews.AuthorOf | routes/review.js:91 | `populate('user', 'username')`: an author is shown exactly when a user with that id exists, and it carries that id and that user's username |
| Reviews.TitleOf | routes/review.js:108 | `populate('book', 'title')`: a title is shown exactly when the book exists, and it carries that id and that book's title |
| Reviews.ReviewsForBook | routes/review.js:83-99 | 400 "Invalid bookId" exactly for an invalid id; otherwise that book's reviews, newest first |
| Reviews.MyReviews | routes/review.js:105-116 | 401 exactly when the gate refuses; otherwise the caller's reviews, newest first |
| Reviews.BookListingIsExactlyThatBook | routes/review.js:88-92 | a review is listed exactly when it is of that book, and the list is sorted newest first |
| Reviews.MyListingIsExactlyMine | routes/review.js:107-109 | a review is listed exactly when it is the caller's, and the list is sorted newest first |
| Accounts.SessionFor | routes/auth.js:49-51 | the session's user object never holds `password` or `__v` |
| Accounts.RegisterReply | routes/auth.js:31-56 | 400 with the required-fields message exactly when a field is missing or empty; then 400 "Username or email already in use"; accepted exactly when neither applies, and then a new user with the hashed password; server.js:60-85 differs only in the lower-case required-fields message |
| Accounts.RegisterKeepsUsersValid | routes/auth.js:39-49 | adding an accepted registration keeps usernames, emails and ids unique and required |
| Accounts.RegisterTwiceRefused | routes/auth.js:39-42 | registering again with the same username or email is refused |
| Accounts.UsernameIndex | routes/auth.js:66 | `findOne({ username })`: the position of that username, or none exactly when nobody has it |
| Accounts.LoginReply | routes/auth.js:59-82 | 400 with the required message exactly when a field is missing; a success is a session for a user with that username whose password matches; server.js:88-111 differs only in the lower-case required-fields message |
| Accounts.LoginFailuresIndistinguishable | routes/auth.js:66-74 | an unknown username and a wrong password give the same 400 "Invalid credentials" |
| Accounts.RegisterThenLogin | routes/auth.js:31-82 | after a registration, logging in with the same username and password succeeds with that user's session |
| Accounts.Register | routes/auth.js:31-56 | the reply's user is appended exactly on success, with a session for it, and the store stays valid |
| Users.ProfileReply | routes/users.js:33-42 | 404 "User not found" exactly when the id is unknown; otherwise that user's JSON without the password |
| Users.GetProfile | routes/users.js:33-42 | 401 when the gate refuses; otherwise the profile reply for the token's user. server.js:146-155 defines the same handler, but there it is unreachable (see Left out) |
| Users.AllowedUpdates | routes/users.js:46-50 | the body's keys on the allow-list, each with its value, and no other key |
| Users.CollectUpdates | routes/users.js:46-50 | the loop over the allow-list collects exactly the allowed updates |
| Users.NewPassword | routes/users.js:64-74 | with both passwords given as text, the new password's hash exactly when the old one matches, else 400 "Old password is incorrect"; 500 when bcrypt would get a non-string; with only one given, 400 asking for both; with neither, the stored hash |
| Users.ApplyUpdates | routes/users.js:76 | `Object.assign` changes neither the id, the hash nor the creation time |
| Users.UpdateProfileReply | routes/users.js:44-84 | 400 "Username already in use", then 400 "Email already in use", then 404, then the password step's failure, then 500 when the save's validators or unique indexes refuse; accepted exactly when the save succeeds, and then the result is the same user, updated and savable (server.js:157-200 applies the same rules) |
| Users.Replaced | routes/users.js:77 | saving replaces one record and keeps the table's length |
| Users.UpdateAppliesAllowList | routes/users.js:46-77 | an accepted update sets exactly the allow-listed fields from the body, over the stored user |
| Users.UpdateIgnoresOtherKeys | routes/users.js:46-50 | keys outside the allow-list and the password pair do not change the reply |
| Users.OwnNameIsNoConflict | routes/users.js:52-59 | sending one's own username or email is never reported as in use |
| Users.UpdateKeepsUsersValid | routes/users.js:76-77 | storing an accepted update keeps the users valid |
| Users.PasswordRotation | routes/users.js:64-74 | with both passwords, the update fails with "Old password is incorrect" when the old one does not match, and otherwise stores the hash of the new one |
| Users.UpdateProfile | routes/users.js:44-84 | the gate, then the reply; the users change only on success, to the updated record, and the store stays valid |
| Users.WithoutUser | routes/users.js:88 | no remaining user has the deleted id |
| Users.DeleteAtKeepsUsersValid | routes/users.js:88 | deleting one record keeps the users valid |
| Users.DeleteRemovesOnlyThatUser | routes/users.js:88 | deletion drops exactly the record with that id |
| Users.WithoutFavoritesOf | routes/users.js:89 | `deleteMany({ userId })`: every other favorite is kept with its multiplicity and none of that user's remain |
| Users.CascadeRemovesOnlyTheirFavorites | routes/users.js:89 | the cascade keeps the other favorites unique per (user, book) |
| Users.DeleteProfile | routes/users.js:86-95 | the gate, then deletion of the user and all their favorites; reviews and books are unchanged |
| ServerApp.AnswersLikeRoutes | server.js:60-111 | register and login answer as in the route files, except the lower-case required-fields messages |
| ServerApp.Register | server.js:60-85 | the standalone register appends the user exactly on success |
| ServerApp.UpdateProfile | server.js:157-200 | the standalone update changes only the users, and only on success |
| ServerApp.DeleteProfile | server.js:202-210 | the standalone delete removes the user; favorites, reviews and books are unchanged |
| Client.FailureMessage | public/js/search.js:21-24 | the thrown message is never empty: the object's `error`, else the text body, else "Request failed" |
| Client.FetchSafe | public/js/search.js:7-27 | a non-ok response throws that message; an ok one resolves to its data |
| Client.SearchQuery | public/js/search.js:29-37 | the query keeps the form's pairs with a non-empty value, in order |
| Client.AsParams | public/js/search.js:29-37 | the server sees each sent key with its value and no other key |
| Client.FilteredKeepsDistinctKeys | public/js/search.js:33-37 | dropping pairs keeps the keys distinct |
| Client.FilteredAgreesOn | public/js/search.js:33-37 | each criterion means the same to the server with or without the empty fields |
| Client.AgreeingCriteriaFindAlike | routes/books.js:147-167 | two parameter maps that agree on the five criteria find the same books |
| Client.DroppingEmptyFieldsKeepsResults | public/js/search.js:29-46 | leaving out empty fields does not change which books the server finds |
| Client.AfterAdd | public/js/search.js:218-227 | the id is in the list afterwards, the others stay, no duplicate is added, and unparsable storage is left as it was |
| Client.AfterRemove | public/js/search.js:245-252 | the list keeps every other id in order and loses every copy of this one; unparsable storage is left as it was |
| Client.RemoveUndoesAdd | public/js/search.js:203-255 | removing an id just added gives back the earlier list |
| Client.ClientTokenOpensGate | public/js/search.js:204-210 | the `Bearer` header the client builds from a login token opens the server's gate for seven days |
| Client.FavoritesCache.constructor | public/js/search.js:180-187 | the cache starts from the given storage and token |
| Client.FavoritesCache.IsBookInFavorites | public/js/search.js:180-187 | true exactly when the stored list parses and holds the id |
| Client.FavoritesCache.AddToFavorites | public/js/search.js:203-230 | the storage becomes `AfterAdd` after a successful request and is untouched after a failed one |
| Client.FavoritesCache.RemoveFromFavorites | public/js/search.js:232-255 | the storage becomes `AfterRemove` after a successful request and is untouched after a failed one |
| Client.FavoritesCache.ToggleFavorite | public/js/search.js:189-201 | without a token, no request and no change; otherwise a listed id is removed and an unlisted one added |

## Left out

- Regular-expression metacharacters in title, author and genre searches are not modelled. The search text is matched as a literal substring, and case folding covers ASCII letters only.
- Cast errors are not modelled. A well-formed but non-ObjectId id is reported through `Env.isValidId`. The 500 a DELETE with a malformed favorite id would produce is not modelled: `Catalog.RemoveFavorite` answers 404.
- Request bodies are typed. Ratings are JSON numbers, so a string rating that `Number()` would coerce, and NaN, are not modelled.
- Profile values are strings, integers or null (`Store.Json`). Fractional numbers and booleans, which Mongoose would store as text such as "3.5" or "true", are not modelled, and neither are objects and arrays.
- Text.ParseInt reads any number of digits exactly. JavaScript's `parseInt` returns a double, so past 2^53 it rounds, and that rounding is not modelled.
- A null and an absent field are not distinguished, except where the code does: a null required profile field is stored as "" and refused by the save.
- Concurrency between requests is not modelled, and neither are the catch-all 500 "Server error" answers to store failures (except the failed save of a profile update).
- Seeding the catalog at start-up, serving static pages, route dispatch order and the DOM updates of the client are not modelled.
- Deleting a review is not modelled: no handler for it exists in the server code.
- The Mongoose version key `__v` is modelled as always 0.
- The order of equal keys after sorting, and the order `distinct` returns names in, are not modelled. The lemmas promise sortedness and a permutation, or the set of names.
- bcrypt's random salt is not modelled: the hash is a function of the password.
- Id generation is not modelled: register takes a fresh id as a parameter.
- A query parameter given twice (an array in `req.query`) is not modelled.
- Client.FavoritesCache.IsBookInFavorites: stored JSON that parses to something other than an array counts as unparsable. A stored JSON string would make `includes` a substring test, and that is not modelled.
- Client.FailureMessage: a non-string `error` field, which JavaScript would stringify, is not modelled.
- Client.FetchSafe: network failures of `fetch` itself are not modelled. So the "Search failed" fallback of `searchBooks` never applies, because `fetchSafe`'s messages are never empty.
- Route order in server.js: it registers the `GET *` fallback to index.html (server.js:114-116) before its `GET /api/users/profile` (server.js:146-155), so the standalone server answers a profile read with the page and never runs that handler. The model has no route dispatch. `Users.GetProfile` stands for the routes/users.js handler only, and `ServerApp` models only server.js's register, login, update and delete, which no earlier route shadows.
- ServerApp.DeleteProfile: the routes version cascades to the user's favorites, but server.js deletes only the user record. The standalone server defines no favorites collection, and the model follows its code.
