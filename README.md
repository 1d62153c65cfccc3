# bookworm-app core, modelled in Dafny

The bookworm app is a book-review sharing service. An Express backend stores users and book posts in MongoDB and images on Cloudinary, and authenticates with JWT bearer tokens. A React Native client keeps the session in a Zustand store backed by AsyncStorage. This project models the parts of it that carry rules. Database, crypto, image host and device storage are abstract.

- **Bearer guard** (`AuthMiddleware`). `protectRoute` is a function from the `Authorization` header to an outcome. The outcome is either a 401 with one of five messages, or "attach this user and call `next()`". The JWT library's `verify` is a parameter. The user lookup runs over the user collection.
- **Register and login** (`AuthRoutes`, `UserModel`). The ordered field checks are a pure function, and so is `/login`. `/register` is a method on a `UserCollection` class. The class keeps the invariant that ids are positions and that usernames and emails are unique.
- **Books** (`BookRoutes`). POST and DELETE are methods on a `BookCollection` class. Field validation, the Cloudinary public id and the page count are pure functions.
- **Client session store** (`AuthStore`). `SessionStore` is a class with the fields `user`, `token` and `isLoading`, plus the two storage entries `user` and `token`. Each transition is specified by a function on the whole `Session` value.
- **Navigation guard** (`RootLayout`). The redirect of the root layout is a function of user, token and route segments.
- `JsStrings` gives the ECMAScript string operations the code uses. `startsWith`, `indexOf`/`includes`, `replace` with a string pattern and a replacement without `$` patterns, `split`, `trim` and `length` (in UTF-16 code units) each get a contract. Dafny strings are sequences of Unicode scalar values.

Behaviour of the code worth knowing:
- The guard's 401 messages name the step that failed. Only a failed `verify` and an unknown user share "Token is not valid".
- The POST route checks only that `rating` is truthy. It does not enforce a 1 to 5 range.
- `register` and `login` both write the `user` entry before the `token` entry. If the second write throws, storage holds the new user next to whatever token was stored before. Starting from empty storage, that is a user without a token, and the next `checkAuth` then restores `user` without `token`, which the layout treats as signed out (`AuthStore.TokenWriteFailureUnpairs`).
- `logout` removes the `user` entry before the `token` entry and catches nothing. If the second removal throws, storage keeps a token without a user, and memory keeps both fields (`AuthStore.TokenRemoveFailureUnpairs`). A throwing first step, the `user` write or the `user` removal, keeps the pair. User and token can come apart only when the second step, the token write or the token removal, throws (`AuthStore.PairingPreserved`).
- Login answers with the id under `id`, and register under `_id`. The client's `User` type names only `_id`.
- The GET `/api/books` handler as written (backend/src/routes/bookRoutes.js:43-46) assigns the undeclared `skip` in module code and calls `.skip` on a number. It therefore always ends in its 500 branch. Only its page-count arithmetic is modelled.

## Model

| member | source | states |
|---|---|---|
| `JsStrings.StartsWith` | backend/src/middleware/auth.middleware.js:13 | `startsWith(p)`: `p` is a prefix; `AuthMiddleware.NonBearerRejected` states its use |
| `JsStrings.ReplaceFirst` | backend/src/middleware/auth.middleware.js:17 | `replace` with a string pattern replaces only the first occurrence, inserting the replacement literally; `JsStrings.ReplacePrefixDropsIt` states it for the header |
| `JsStrings.Trim` | backend/src/middleware/auth.middleware.js:20 | the result is a contiguous part of `s` that neither starts nor ends with white space, and everything dropped before and after it is white space; `JsStrings.TrimEmptyIffBlank` states when it is empty |
| `JsStrings.TrimStartThenEnd` | backend/src/middleware/auth.middleware.js:20 | trimming the start and then the end leaves the slice of `s` after its leading white space, with only white space after it |
| `JsStrings.IndexFrom` | backend/src/routes/bookRoutes.js:78 | the index found holds an occurrence of the pattern at or after `from`, and no earlier position from `from` on does; None means no position does |
| `JsStrings.IncludesIffOccurs` | backend/src/routes/bookRoutes.js:78 | `includes` holds exactly when the pattern occurs at some index |
| `JsStrings.ReplacePrefixDropsIt` | backend/src/middleware/auth.middleware.js:17 | `replace("Bearer ", "")` on a header that starts with the prefix yields the header with exactly that prefix removed |
| `JsStrings.Split` | backend/src/middleware/auth.middleware.js:25-26 | `split(d)` has one more part than `s` has separators, no part contains `d`, and joining the parts with `d` gives back `s` |
| `JsStrings.SplitJoin` | backend/src/middleware/auth.middleware.js:25 | splitting the join of separator-free parts gives back those parts (the other half of the round trip) |
| `JsStrings.SplitAround` | backend/src/routes/bookRoutes.js:80 | splitting `a + d + b` gives the parts of `a` followed by the parts of `b` |
| `JsStrings.SplitFirst` | backend/src/routes/bookRoutes.js:80 | the first part is the prefix of `s` before its first separator |
| `JsStrings.SplitLast` | backend/src/routes/bookRoutes.js:80 | the last part (what `pop()` returns) is the suffix of `s` after its last separator |
| `JsStrings.TrimStart` | backend/src/middleware/auth.middleware.js:20 | the result is a suffix of `s`, everything dropped is ECMAScript white space, and the result does not start with white space |
| `JsStrings.TrimEnd` | backend/src/middleware/auth.middleware.js:20 | the result is a prefix of `s`, everything dropped is white space, and the result does not end with white space |
| `JsStrings.TrimEmptyIffBlank` | backend/src/middleware/auth.middleware.js:20 | `token.trim() === ""` holds exactly when every character of the token is white space |
| `JsStrings.Utf16Length` | backend/src/routes/authRoutes.js:22-27 | `length` lies between the number of characters and twice that, and equals it when every character is in the Basic Multilingual Plane |
| `AuthMiddleware.ProtectRoute` | backend/src/middleware/auth.middleware.js:5-49 | every rejection is a 401 with a `message` body; a request passed on carries a bearer header and the password-free form of a stored user; the lemmas below state each rule |
| `AuthMiddleware.CredentialIsReplaced` | backend/src/middleware/auth.middleware.js:17-20 | for a bearer header the extracted token is the text after "Bearer ", and the empty/blank/"null" test is the character-level `AbsentCredential` |
| `AuthMiddleware.MissingHeaderRejected` | backend/src/middleware/auth.middleware.js:9-11 | an absent or empty header gets 401 "No authorization header, authorization denied" and is not passed on |
| `AuthMiddleware.NonBearerRejected` | backend/src/middleware/auth.middleware.js:13-15 | a header not starting with "Bearer " gets 401 "Invalid authorization format. Use 'Bearer <token>'" |
| `AuthMiddleware.AbsentCredentialRejected` | backend/src/middleware/auth.middleware.js:17-22 | an empty, all-white-space or "null" token gets 401 "No token, authorization denied", whatever `verify` would say |
| `AuthMiddleware.MalformedCredentialRejected` | backend/src/middleware/auth.middleware.js:24-29 | a token without exactly two dots gets 401 "Malformed token format", before `verify` is consulted |
| `AuthMiddleware.UnverifiedOrUnknownRejected` | backend/src/middleware/auth.middleware.js:35-48 | a `verify` that throws and a decoded id with no user (or no id) both get the same 401 "Token is not valid" |
| `AuthMiddleware.ProceedsIffAllChecksPass` | backend/src/middleware/auth.middleware.js:9-43 | the request is passed on exactly when every check in order passes; then `req.user` is the user named by the verified claims, without password; every other outcome is a 401 |
| `AuthMiddleware.JwsShapedHasThreeSegments` | backend/src/middleware/auth.middleware.js:24-29 | a token with two dots is header, payload and signature segments without dots, joined by dots (section 7.1 of RFC 7515) |
| `AuthMiddleware.ThreeSegmentsAreJwsShaped` | backend/src/middleware/auth.middleware.js:24-29 | any three dot-free segments joined by dots pass the shape check and split back into those segments |
| `UserModel.FindOne` | backend/src/routes/authRoutes.js:29 | `findOne` returns a matching user that no earlier user matches, and None exactly when no user matches |
| `UserModel.FindOneUnique` | backend/src/routes/authRoutes.js:76 | when exactly one user matches, `findOne` returns that user |
| `UserModel.FindOneAppend` | backend/src/routes/authRoutes.js:46 | after appending a document, a query finds the earlier match if there was one, and otherwise the new document if it matches |
| `AuthRoutes.AvatarUrl` | backend/src/routes/authRoutes.js:39 | the avatar URL is the dicebear prefix followed by the username unchanged |
| `AuthRoutes.RegisterRejection` | backend/src/routes/authRoutes.js:19-36 | a refusal carries one of the five register messages, and acceptance needs all three fields; `AuthRoutes.RegisterAcceptedIff`, `AuthRoutes.RegisterCheckOrder`, `AuthRoutes.UsernameCheckedBeforeEmail` and `AuthRoutes.EmailTakenRefused` state which message comes when |
| `AuthRoutes.Login` | backend/src/routes/authRoutes.js:69-99 | every refusal is a 400 with a `message` body; a 200 is issued only for a stored user with the requested email whose password matches, with that user under `id` |
| `AuthRoutes.AvatarUrlInjective` | backend/src/routes/authRoutes.js:39 | the avatar URL is the dicebear prefix followed by the username, so different usernames give different avatars |
| `AuthRoutes.MissingFieldsRefused` | backend/src/routes/authRoutes.js:19-21 | a missing or empty email, username or password gets "All fields are required"; the same holds for login's email and password (line 75) |
| `AuthRoutes.RegisterCheckOrder` | backend/src/routes/authRoutes.js:22-27 | a password shorter than 6 UTF-16 units is refused before the username length is looked at; a username shorter than 3 is refused next |
| `AuthRoutes.UsernameCheckedBeforeEmail` | backend/src/routes/authRoutes.js:29-36 | a taken username gets "User already exists" even when the email is taken too |
| `AuthRoutes.EmailTakenRefused` | backend/src/routes/authRoutes.js:33-36 | with every field present and long enough and the username free, a taken email gets "User with this email already exists" |
| `AuthRoutes.RegisterAcceptedIff` | backend/src/routes/authRoutes.js:19-36 | registration passes every check exactly when all fields are present, long enough, and no stored user has the username or the email |
| `AuthRoutes.ReRegisterRefused` | backend/src/routes/authRoutes.js:29-36 | after a successful registration, registering the same username or email again is refused: "User already exists" for the same username, and "User with this email already exists" for the same email with a username still free |
| `AuthRoutes.UserCollection.Register` | backend/src/routes/authRoutes.js:15-67 | a refusal is 400 with the first failing check's message and leaves the collection unchanged; success appends exactly one user with the dicebear avatar, keeps ids and uniqueness, and replies 201 with a JWT for it and a password-free user under `_id` |
| `AuthRoutes.LoginUnknownEmail` | backend/src/routes/authRoutes.js:76-78 | an email no user has gets 400 "Invalid credentials" |
| `AuthRoutes.LoginOutcomes` | backend/src/routes/authRoutes.js:76-92 | for the user holding the email, a wrong password gets the identical 400 "Invalid credentials", and a right one gets 200 with a JWT for that user and the user under `id` |
| `AuthRoutes.RegisteredUserCanLogIn` | backend/src/routes/authRoutes.js:39-92 | right after registering, logging in with the same email and a matching password answers 200 for the new user |
| `BookRoutes.MissingField` | backend/src/routes/bookRoutes.js:11 | the 400 test of POST: some field is falsy, a rating of 0 included; `BookRoutes.RatingNeedsOnlyTruthiness` states its effect on ratings |
| `BookRoutes.RatingNeedsOnlyTruthiness` | backend/src/routes/bookRoutes.js:10-13 | with the other fields present, a body is refused exactly when its rating is 0; no 1 to 5 range is enforced |
| `BookRoutes.FindBook` | backend/src/routes/bookRoutes.js:68 | the book found has the requested id; None exactly when no book has it |
| `BookRoutes.RemoveBook` | backend/src/routes/bookRoutes.js:87 | the result holds exactly the books whose id differs from the deleted one |
| `BookRoutes.RemoveBookAbsent` | backend/src/routes/bookRoutes.js:87 | removing an id no book has changes nothing |
| `BookRoutes.RemoveBookDropsOne` | backend/src/routes/bookRoutes.js:87 | with distinct ids, deleting a present book removes exactly one document |
| `BookRoutes.RemoveBookDistinct` | backend/src/routes/bookRoutes.js:87 | deleting keeps the ids distinct |
| `BookRoutes.RemoveBookKeepsOthers` | backend/src/routes/bookRoutes.js:87 | every other book is found exactly as before the delete |
| `BookRoutes.HostedImage` | backend/src/routes/bookRoutes.js:78 | the image is non-empty and mentions "cloudinary"; `BookRoutes.BookCollection.Delete` attempts cleanup exactly then |
| `BookRoutes.PublicId` | backend/src/routes/bookRoutes.js:80 | the public id of an image URL; `BookRoutes.PublicIdIsStem` and `BookRoutes.PublicIdOfStem` characterise it |
| `BookRoutes.PublicIdIsStem` | backend/src/routes/bookRoutes.js:80 | the public id contains no `/` and no `.`, and sits in the URL after the last `/`, running up to a `.` or the end |
| `BookRoutes.LastSegmentAfterSlash` | backend/src/routes/bookRoutes.js:80 | `split("/").pop()` of a URL ending in a slash-free tail after a `/` is that tail |
| `BookRoutes.StemBeforeDot` | backend/src/routes/bookRoutes.js:80 | `split(".")[0]` of a dot-free stem followed by an extension is the stem |
| `BookRoutes.PublicIdOfStem` | backend/src/routes/bookRoutes.js:80 | conversely, the stem after the last `/` and before the next `.` is the public id |
| `BookRoutes.PublicIdExample` | backend/src/routes/bookRoutes.js:80 | `https://res.cloudinary.com/demo/image/upload/v1/sample.jpg` has public id `sample` |
| `BookRoutes.PageCount` | backend/src/routes/bookRoutes.js:54 | `Math.ceil(total / limit)` is the fewest pages of `limit` that hold `total` items |
| `BookRoutes.TotalPages` | backend/src/routes/bookRoutes.js:42-54 | an absent limit means 5; a limit of 0 makes `totalPages` null; any positive limit gives the page count |
| `BookRoutes.PageOfItem` | backend/src/routes/bookRoutes.js:54 | item `i` lies on page `i / limit + 1`, and that page is within the page count |
| `BookRoutes.PageOfItemUnique` | backend/src/routes/bookRoutes.js:54 | no other page holds item `i`: pages do not overlap |
| `BookRoutes.BookCollection.Create` | backend/src/routes/bookRoutes.js:8-34 | a body with a falsy field gets 400, a throwing upload 500, both with the collection unchanged; otherwise exactly one book is appended, owned by the requester and carrying the uploaded URL, and returned with 201 |
| `BookRoutes.BookCollection.Delete` | backend/src/routes/bookRoutes.js:64-95 | an unknown id gets 404 and a non-owner 401, both with the collection unchanged; for the owner, cleanup is attempted with the public id exactly when the image mentions "cloudinary", its outcome changes nothing, exactly that book is removed, and the reply is 200 |
| `AuthStore.SessionStore.constructor` | mobile/store/authStore.tsx:29-31 | the store starts with `user` and `token` null and `isLoading` false, over whatever storage holds |
| `AuthStore.SignIn` | mobile/store/authStore.tsx:33-110 | the state and result of `register` or `login` once it completes; `AuthStore.SignInSucceeds`, `AuthStore.SignInOutcome` and `AuthStore.RejectionMessages` state them |
| `AuthStore.LoggedOut` | mobile/store/authStore.tsx:77-81 | the state after `logout`, given which removal throws; `AuthStore.LogoutIdempotent` and `AuthStore.FailedLogoutKeepsFields` state it |
| `AuthStore.Restored` | mobile/store/authStore.tsx:66-76 | the state after `checkAuth`; `AuthStore.RestoreCopiesStorage` states it |
| `AuthStore.SignInSucceeds` | mobile/store/authStore.tsx:49-53 | an ok reply whose writes succeed stores both entries, sets token and user together, and resolves to `{success: true}` |
| `AuthStore.SignInOutcome` | mobile/store/authStore.tsx:44-63 | success holds exactly when the reply is ok and both writes succeed; on failure `user` and `token` are unchanged and a message is returned; `isLoading` ends false either way |
| `AuthStore.RejectionMessages` | mobile/store/authStore.tsx:45-46 | a reply that is not ok resolves with the server's message, or "Registration failed" / "Login failed" (line 95) when there is none, whatever the storage would have done |
| `AuthStore.LogoutIdempotent` | mobile/store/authStore.tsx:77-81 | a completed logout clears both entries and both fields, and any later logout, failing or not, changes nothing |
| `AuthStore.FailedLogoutKeepsFields` | mobile/store/authStore.tsx:77-81 | a logout whose removal throws leaves `user` and `token` in memory as they were; when the first removal throws nothing changes |
| `AuthStore.RestoreCopiesStorage` | mobile/store/authStore.tsx:66-76 | `checkAuth` copies the stored token and user into memory, an absent entry as null; when a read throws, the state is unchanged |
| `AuthStore.PairingPreserved` | mobile/store/authStore.tsx:49-81 | user and token, in memory and in storage, stay present together through every transition except a sign-in whose token write throws and a logout whose token removal throws |
| `AuthStore.TokenWriteFailureUnpairs` | mobile/store/authStore.tsx:49-50 | when the token write throws after the user write, the next start restores a user without a token |
| `AuthStore.TokenRemoveFailureUnpairs` | mobile/store/authStore.tsx:78-79 | when removing the token throws after the user entry is removed, storage keeps a token without a user and memory stays signed in |
| `AuthStore.SessionStore.SignInSteps` | mobile/store/authStore.tsx:33-110 | the shared steps of register and login leave exactly the state and result of `SignIn` |
| `AuthStore.SessionStore.Register` | mobile/store/authStore.tsx:33-64 | the new state and the result are those of `SignIn` with the register messages |
| `AuthStore.SessionStore.Login` | mobile/store/authStore.tsx:82-110 | the new state and the result are those of `SignIn` with the login messages |
| `AuthStore.SessionStore.Logout` | mobile/store/authStore.tsx:77-81 | the new state is `LoggedOut` of the old one and the removal that throws, if any |
| `AuthStore.SessionStore.CheckAuth` | mobile/store/authStore.tsx:66-76 | the new state is `Restored` of the old one |
| `RootLayout.Redirect` | mobile/app/_layout.tsx:18-36 | the route the effect replaces the current one with; `RootLayout.RedirectCases` states each case |
| `RootLayout.RedirectCases` | mobile/app/_layout.tsx:20-33 | with no segments there is no decision; signed out outside "(auth)" goes to "/(auth)"; signed in inside "(auth)" goes to "/(tabs)"; every other case stays |
| `RootLayout.EmptyTokenIsSignedOut` | mobile/app/_layout.tsx:23 | a user with an empty token counts as signed out |
| `RootLayout.RedirectSettles` | mobile/app/_layout.tsx:28-34 | evaluated again on the route it redirected to, the guard does not redirect |
| `RootLayout.LoginLeavesAuthGroup` | mobile/app/_layout.tsx:31-32 | after a login that completes with a non-empty token, the sign-in screen is replaced by "/(tabs)" |
| `RootLayout.LogoutReturnsToAuthGroup` | mobile/app/_layout.tsx:29-30 | after a completed logout, every screen outside "(auth)" is replaced by "/(auth)" |
| `RootLayout.FailedLogoutKeepsRoute` | mobile/app/_layout.tsx:20-33 | a logout whose removal throws does not change the guard's decision |

## Left out

- JWT signing and verification, and the 15-day expiry (backend/src/routes/authRoutes.js:7-13, backend/src/middleware/auth.middleware.js:35). The library code is not visible. `verify` is a parameter that returns the claims or None, and a reply records only the user id a token is issued for.
- Password hashing and `matchPassword`. The User model file is not part of this model, so `matchPassword` is a parameter. Any normalisation the schema might apply to emails or usernames is not modelled either.
- Database failures. Every `findOne`, `findById`, `save` and `deleteOne` is assumed to succeed. The 500 "Internal server error" branches they would reach are therefore not modelled; the one exception is a throwing image upload in POST. Ids are natural numbers, so a malformed id string (a cast error, 500 in DELETE) cannot be written.
- Request bodies hold strings or nothing, and `rating` is an integer. A JSON number sent as a password, where `.length` is undefined and so passes the length check, is not representable.
- The GET `/api/books` handler. Its query chain throws as written, and the `skip`/`limit`/`populate` window it seems to intend would be invented behaviour. Also left out are the echoed `currentPage` and any `limit` other than an absent one or a non-negative whole number. That covers non-numeric limits, which give NaN, negative ones (`"-5"` would give `Math.ceil(12 / -5) = -2`), and fractional ones (`"2.5"`). Only `TotalPages` and `PageCount` are modelled.
- The Cloudinary network calls. The upload is an input (its URL, or None when it throws). The destroy outcome is an input that the model ignores, as the handler's catch does.
- JSON serialisation of the stored user. The `user` storage entry is held as the user its JSON text decodes to, so a round trip through `JSON.stringify`/`JSON.parse` is taken as exact. A failing read or parse is the `readFails` input of `checkAuth`.
- `fetch`, `AsyncStorage` and async/await. Server replies, storage write failures and `logout`'s removal failures are inputs. The rejected promise of a failing `logout` is not modelled beyond the state it leaves. `isLoading` is true only while a request awaits, and the model shows the state once each call completes. Every thrown value is taken to be an `Error`, so register's `'An error occurred'` fallback for non-Error exceptions is not modelled.
- Interleaving of concurrent client calls and concurrency between server requests.
- `requestAnimationFrame` deferral in the root layout, the JSX tree, and the effect that calls `checkAuth` on mount.
- The client feed screen (mobile/app/(tabs)/index.tsx) with its page merge and de-duplication, the other screens, and the Express bootstrap (backend/src/index.js). None of these is part of this model.
- `JsStrings.ReplaceFirst`: the `$$`, `$&`, `` $` `` and `$'` patterns of an ECMAScript replacement string are not expanded. The only replacement the code uses is `""`.
- Logging throughout.
