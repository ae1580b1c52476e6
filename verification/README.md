# Blog API core in Dafny

A model of the server side of a small blogging application: the auth
controller (`register`, `login`) and the post controller (`createPost`,
`getAllPosts`, `getPostById`, `updatePost`, `deletePost`), as pure transitions
over two immutable stores, plus the access guard that stands in front of the
mutating post routes.

- `results.dfy` — `Option`, `Result` and `Transition` (a handler's result paired with the store afterwards).
- `primitives.dfy` — bcrypt and the JSON Web Token signer as opaque function values in a `Crypto` record. The predicate `Sound` holds the only facts assumed of them: a password matches its own hash under any salt, and a signature verifies under the secret that made it. The file also defines the seven-day token issue (`IssueToken`) and the signer's expiry check (`Accepts`).
- `auth_controller.dfy` — the users collection is a sequence in insertion order with a counter for new identifiers. `findOne({ username })` returns the first match. Its invariant `Valid` says usernames are unique and identifiers are fresh.
- `post_controller.dfy` — the posts collection is a map from identifier to post with a counter for new identifiers. Identifiers are never reused. The file also holds the newest-first listing and a run of many post requests, used to state lifetime invariants.
- `api.dfy` — the access guard, a dispatcher from requests to replies (status code and JSON body) and next state, and the register / login / post / forbidden-edit walk-through.

bcrypt, the signer, the random salt, the signing secret and the clock arrive in
an `Env`; the two stores are the `State`. Time is one millisecond clock (`Date.now()`).
Post `createdAt` is that clock. Token claims are whole seconds, rounded down,
as the signer computes them.

## Model

| member | source | states |
|---|---|---|
| `PostController.CreatePost` | server/controllers/postController.js:4-13 | the new post has the requester as author and exactly the supplied title and content; it is stored under an identifier at or above the store's counter, so never one handed out before, and the other posts are untouched |
| `PostController.GetAllPosts` | server/controllers/postController.js:19-22 | the list holds every stored post exactly once (each entry is the stored post, every stored post appears, no identifier twice), ordered by `createdAt` newest first |
| `PostController.SortNewestFirst` | server/controllers/postController.js:21 | sorting by `createdAt` descending yields a newest-first list of the same length holding the same entries, and keeps identifiers distinct |
| `PostController.InsertPermutes` | server/controllers/postController.js:21 | inserting an entry into a newest-first list adds exactly that entry: the result's multiset is the input's plus the entry |
| `PostController.SortPermutes` | server/controllers/postController.js:21 | the newest-first sort is a permutation: its result has exactly the input's multiset of entries |
| `PostController.GetPostById` | server/controllers/postController.js:28-32 | succeeds exactly when the identifier is stored, returning that post unchanged; otherwise NotFound |
| `PostController.UpdatePost` | server/controllers/postController.js:38-50 | absent identifier gives NotFound, whoever asks; a non-author gets Forbidden; both leave the store unchanged. For the author, each of title and content takes the new value when present and non-empty and keeps the old one otherwise; author and `createdAt` stay; only the target changes |
| `PostController.DeletePost` | server/controllers/postController.js:56-64 | NotFound before Forbidden, both leaving the store unchanged; the author's delete removes exactly the target identifier and leaves every other post as it was |
| `PostController.OnlyAuthorMutates` | server/controllers/postController.js:43-61 | for a stored post, update and delete succeed if and only if the requester is its recorded author |
| `PostController.CreateThenGet` | server/controllers/postController.js:6-32 | reading a post back after creating it returns the same title, content, author and timestamp |
| `PostController.UpdateThenGet` | server/controllers/postController.js:46-50 | after a successful update, a read returns what the update answered with |
| `PostController.DeleteThenGet` | server/controllers/postController.js:60-64 | after a successful delete, a read of that identifier is NotFound |
| `PostController.EmptyUpdateChangesNothing` | server/controllers/postController.js:46-47 | an update whose title and content are both absent or empty leaves the store as it was |
| `PostController.UpdateIdempotent` | server/controllers/postController.js:46-48 | repeating the same update has no further effect |
| `PostController.Apply` | server/controllers/postController.js:7-64 | one request keeps the store invariant, never lowers the next identifier, never changes the author or timestamp of a post that survives it, and only adds posts with fresh identifiers |
| `PostController.RunPreservesValid` | server/controllers/postController.js:7-12 | any run of requests keeps every stored identifier below the next one handed out |
| `PostController.DeletedStaysDeleted` | server/controllers/postController.js:63 | an identifier that was handed out and is no longer stored never reappears |
| `PostController.AuthorNeverChanges` | server/controllers/postController.js:44-48 | across any run of requests, a post stored before and after keeps its author and creation time |
| `AuthController.FindByUsername` | server/controllers/authController.js:8 | finds nothing exactly when no user has the username; otherwise the position of the first user that has it |
| `AuthController.FirstIsOnly` | server/models/User.js:5 | in a valid store any user with a username is the first, and only, one found for it |
| `AuthController.Register` | server/controllers/authController.js:5-17 | a taken username gives UsernameTaken and adds no user; otherwise exactly one user is appended, with the given name and username, a fresh identifier, and `hash(password, salt)` as its password |
| `AuthController.RegisterPreservesValid` | server/controllers/authController.js:8-15 | registration keeps usernames unique and identifiers fresh |
| `AuthController.Login` | server/controllers/authController.js:23-37 | UserNotFound exactly when no user has the username; InvalidCredentials exactly when the found user's digest does not match; otherwise a token for that user's identifier and a summary of only id, name and username |
| `AuthController.LoginStoredUser` | server/controllers/authController.js:26-32 | in a valid store, login for a stored user succeeds if and only if the password matches that user's digest, and the token names that user |
| `AuthController.RegisterThenLogin` | server/controllers/authController.js:11-32 | under the hash/compare fact, registering and then logging in with the same credentials succeeds with a token for the new identifier |
| `AuthController.RegisterThenWrongPassword` | server/controllers/authController.js:29-30 | after registering, a password that does not match the stored digest is refused as InvalidCredentials with no token |
| `Primitives.IssueToken` | server/controllers/authController.js:32 | the token is bound to the user's identifier, issued in the current second, expires exactly seven days later, and is signed with the server secret |
| `Primitives.IssuedTokenLifetime` | server/controllers/authController.js:32 | an issued token is accepted if and only if the clock is before seven days after its issuing second; in particular throughout the first seven days less one second, and never from seven days on |
| `Api.Authenticate` | server/routes/postRoute.js:15-17 | no token gives MissingToken; a token passes exactly when its signature verifies and it has not expired, and then the requester is the token's user identifier |
| `Api.Handle` | server/routes/postRoute.js:13-17 | dispatches the public and guarded post routes and the `/auth` routes mounted at server/index.js:25: register stores what the auth controller's register leaves and answers 201, or 400 'Username already exists'; login answers 200 with its session, or 404 'User not found' / 400 'Invalid credentials'; GET /posts answers 200 with the newest-first listing and GET /posts/:id 200 with the post or 404 'Post not found'; a guarded route with an accepted token runs its post handler with the token's user as requester, keeps that handler's store, and answers 200/201 with its result, 404 'Post not found' or 403 'Unauthorized'; every failure reply leaves the state unchanged; login and reads never change it; register touches only users and post routes only posts; a guarded route without an accepted token is refused before its handler runs |
| `Api.GuardedMutationOnlyByAuthor` | server/routes/postRoute.js:16-17 | through the guard, an update or delete of a stored post answers 200 if and only if an accepted token names the post's author |
| `Api.HandlePreservesValid` | server/routes/postRoute.js:13-17 | every request keeps both store invariants |
| `Api.LoginTokenPassesGuard` | server/controllers/authController.js:32-37 | the token a successful login returns lets its holder through the guard as the logged-in user exactly until it expires |
| `Api.AliceAndBob` | server/controllers/postController.js:38-44 | register, login and create succeed for Alice with her as the post's author; Bob's edit of her post is answered 403 'Unauthorized' and changes nothing |

## Left out

- Mongoose `populate('author', 'name username')`: replies carry the author's identifier, not the joined name and username.
- The `updatedAt` timestamp a save refreshes is not modelled; only `createdAt` is.
- The 500 replies when the database, bcrypt or the signer throws, and schema validation of missing or empty fields. Request bodies are taken as well-typed strings.
- `updatePost` body values that are JSON but not strings, such as numbers or booleans. Title and content are modelled as absent or a string.
- Malformed identifiers in the URL, which fail the cast to an object id. Identifiers are natural numbers here.
- The salt's cost factor (`genSalt(10)`) and cryptographic strength: the salt is an opaque parameter. One-wayness cannot be stated about an opaque function. The digest's separate type keeps plaintext out of the stored record.
- The guard's middleware file is not part of this model. The guard is modelled as the usual bearer-token check: no token, or one that fails verification or has expired, is turned away. The 401 status of that reply is an assumption. Bearer-header parsing and token encoding are not modelled.
- The routes file for `/auth` and the server bootstrap in server/index.js: CORS, JSON parsing and the database connection.
- Concurrent requests: every request is served one after another, so read-modify-write races are outside the model.
- The client pages and their form checks.
- Identifiers come from counters in each store; the database's object ids are only required to be fresh.
