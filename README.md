# Fight Club community forum: a verified model of the server core

The forum's server (`server.js`, Express over MongoDB) keeps three
collections: users, posts and boards. It serves them through a few routes:

- registration and login;
- a JWT gate (`authenticateToken`) and an admin check (`requireAdmin`);
- the paged, sorted post listing `GET /api/posts`;
- post creation `POST /api/posts`;
- start-up seeding of the default boards and the administrator account (`initializeData`).

The model is split into modules:

- **Schema**: the User, Post and Board documents and the defaults their schemas fill in.
- **Crypto**: bcrypt and JWT as abstract functions. A digest remembers its password, and a signature can only be made from the claims and the secret.
- **Text**: JavaScript's `split` and `trim` on strings.
- **Accounts**: the registration and login handlers as transitions over the user collection.
- **Gate**: `authenticateToken` and `requireAdmin`.
- **Listing**: selection, the four sort orders, and the pagination arithmetic.
- **Posts**: form checks, tag parsing, attachment records and the new post.
- **Seed**: `initializeData`.
- **Server**: the class `Database`. Its fields are the three collections, and its methods run each handler in place. Each method's new state is the one the pure transition gives, and the store invariant is kept: unique usernames, emails and board ids, and every post's author a stored user.

A document's id is its position in its collection, because the forum never deletes documents. Times are milliseconds since the epoch.

The model follows the code in these places, where it departs from the forum's stated design:

- A token that fails verification is refused with 403, not 401.
- A failed save of the `lastActive` stamp is also refused with 403.
- Creating a post does not check that its board exists.
- Neither a board's `postCount` nor a user's stats are ever incremented.
- The page size is not clamped.
- There are no edit, delete, comment or moderation routes.

Login looks a name up as a username or as an email (server.js:274-277). Registration only compares a new username with usernames and a new email with emails (server.js:222-224). So a new username may equal an older active account's email, and logging in with that username then reaches the first such older account, never the new one. The login succeeds as the older account when the password matches that account's hash, so the new user's credentials can open someone else's account. Otherwise it is refused as a wrong password. `Accounts.LoginReachesAnotherAccount` states both outcomes for all inputs, `Accounts.LoginReachesAnotherAccountExample` gives one instance of the refusal, and `Accounts.RegisterThenLogin` states the register-then-login round trip under the condition that rules the collision out.

## Model

| member | source | states |
|---|---|---|
| Schema.NewUser | server.js:48-61 | a new user keeps the given name, email, digest and role; avatar is empty; it is active with zero stats; join, activity and both timestamps are now |
| Schema.NewPost | server.js:64-87 | a new post keeps its given fields; it is published, not pinned, not a notice, with all four counters zero and both timestamps now |
| Schema.NewBoard | server.js:101-108 | a new board keeps id, name and description; category is `general`; it is active with `postCount` 0 |
| Crypto.HashMatches | server.js:283 | a password matches its own bcrypt hash, and, under the collision-free digest, another password matches it exactly when the two are equal |
| Crypto.Issue | server.js:243-247 | an issued token carries the user id and name; its expiry is the lifetime after issued-at, which is the current second |
| Crypto.Verify | server.js:126 | verification succeeds exactly for a well-formed token whose signature is the secret's MAC of its claims and whose expiry second has not been reached, and then gives its claims |
| Crypto.IssuedTokenVerifies | server.js:126 | a token the server issued verifies to its subject exactly until its lifetime has passed, and never under another secret |
| Crypto.FreshTokenValidUntilExpiry | server.js:289-293 | a token with a positive lifetime is valid when issued and invalid once that lifetime has passed |
| Text.Split | server.js:404 | splitting gives one more piece than there are separators |
| Text.SplitPieces | server.js:404 | no piece of a split contains the separator, and joining the pieces with it gives the string back |
| Text.SplitJoin | server.js:404 | splitting the separator-join of separator-free pieces gives the pieces back |
| Text.LeadingSpace | server.js:404 | the count covers a run of white space at the start, and the character after it, if any, is not white space |
| Text.TrailingSpace | server.js:404 | the count covers a run of white space at the end, and the character before it, if any, is not white space |
| Text.Trim | server.js:404 | the trimmed string is an infix with only white space cut on both sides, and it neither starts nor ends with white space |
| Text.TrimIs | server.js:404 | any infix with white-space margins whose ends are not white space is the trimmed string |
| Text.TrimBlank | server.js:404 | a string of white space alone trims to the empty string |
| Text.TrimMargins | server.js:404 | a string is its trimmed form with white space, possibly none, on either side |
| Text.PaddedTrim | server.js:404 | a string that is `t` with white space around it trims to `t` when `t` neither starts nor ends with white space |
| Text.TrimUnique | server.js:404 | trimming a trimmed string padded with white space gives exactly that string |
| Accounts.FindOne | server.js:222-224 | `findOne` answers with the first user in collection order that the filter accepts, or with none when none does |
| Accounts.Register | server.js:210-258 | 400 for a missing field, for a password mismatch, or for a taken username or email, each leaving the users unchanged; otherwise exactly one user is appended with the hashed password and role `user`, the response carries no password, and the token is a 7-day token for the new id |
| Accounts.Registration.Status | server.js:214-258 | the response code is 201 exactly for a new account and 400 exactly for every refusal |
| Accounts.RegisterClashError | server.js:226-231 | the first clashing account decides the error: username taken when its username clashes, else email taken |
| Accounts.RegisterKeepsAccountsUnique | server.js:235-241 | registration keeps usernames and emails unique; a success appends one active user with role `user` and zero stats, and keeps the rest |
| Accounts.Touch | server.js:133-134 | stamping sets `lastActive` and `updatedAt` to now and changes nothing else in the user |
| Accounts.TokenTtl | server.js:288 | the token lifetime is 30 days with `remember`, else 7 days |
| Accounts.Login | server.js:266-307 | 400 for missing credentials, for no active user with that username or email, and for a wrong password against the first such user, each leaving the users unchanged; on success the token is issued to that user with the chosen lifetime, the session omits the password, and only that user's `lastActive` and `updatedAt` are stamped |
| Accounts.LoginResult.Status | server.js:270-307 | the response code is 200 exactly for a login and 400 exactly for every refusal |
| Accounts.LoginSucceedsIff | server.js:274-286 | when one active account answers to the name, login succeeds exactly when the password matches that account's digest (under the collision-free digest, exactly when its password is given), and as that account |
| Accounts.TouchKeepsAccountsUnique | server.js:133-134 | stamping one user's activity keeps usernames and emails unique |
| Accounts.LoginKeepsAccountsUnique | server.js:295-296 | logging in keeps usernames and emails unique |
| Accounts.RegisterThenLogin | server.js:210-307 | after registering, logging in with the same name and password succeeds as the new account, and its token verifies to the new id |
| Accounts.LoginReachesAnotherAccount | server.js:214-286 | registration accepts a username that an older active account has as its email; logging in with the new username and password then succeeds as the first such account when the password matches its hash, and is refused as a wrong password otherwise |
| Accounts.LoginReachesAnotherAccountExample | server.js:222-286 | one such registration is accepted and the new user's login is refused as a wrong password |
| Gate.BearerToken | server.js:119 | no header gives no token, and a token taken from a header is nonempty and has no space |
| Gate.BearerTokenFound | server.js:119 | a token taken from a header is its nonempty second space-separated field: scheme, one space, token, then nothing or a space |
| Gate.BearerTokenOfShape | server.js:119 | every header of that shape yields exactly that token |
| Gate.Authenticate | server.js:117-140 | 401 without a token; 403 when verification fails; 401 when the subject is missing or inactive; 403 when the stamp does not save; otherwise the subject is admitted and only its `lastActive` and `updatedAt` change; a refusal changes nothing |
| Gate.IssuedTokenAdmitted | server.js:117-140 | `Bearer` plus a token issued to an active user is admitted within the token's lifetime and refused with 403 after it |
| Gate.RequireAdmin | server.js:143-148 | the request proceeds exactly for an admin, and anyone else gets 403 |
| Listing.Select | server.js:337-341 | the selection holds exactly the published posts of the board (of any board for `best`), each as often as in the collection |
| Listing.SortOptionOf | server.js:344-356 | `popular`, `views` and `comments` pick the likes, views and comments orders, and every other value picks the default order |
| Listing.Rank | server.js:344-356 | the first sort key is the likes, views or comments counter of the chosen order, and for the default order it is 1 exactly for a pinned post and 0 otherwise |
| Listing.Insert | server.js:344-362 | inserting into an ordered run keeps it ordered and adds exactly that post |
| Listing.Sort | server.js:344-362 | the sorted posts are ordered by the sort option's key, descending, then `createdAt` descending, and are a permutation of the input |
| Listing.TotalPagesIsCeiling | server.js:365 | the page count is the ceiling of total over limit |
| Listing.PageOf | server.js:360-362 | skip and limit give at most `limit` posts, those from position `skip` on, and none past the end |
| Listing.Ranking | server.js:337-362 | the ranking is in sort order and is a permutation of the selection: each post as often as in the collection when the query selects it, else never |
| Listing.Paginate | server.js:358-374 | the page is the slice of the ranking from `(page-1)*limit`, full unless the ranking ends first and empty past its end; the summary reports the page, the total, `TotalPages` of the total, `hasNext` exactly when the page is before the last and `hasPrev` exactly when it is not the first |
| Listing.ListPosts | server.js:327-376 | the reported current page is the requested one, the total is the number of selected posts, the page count is `TotalPages` of that total, `hasNext` holds exactly when the page is before the last and `hasPrev` exactly when it is not the first, and no more posts than the page size are listed |
| Listing.ListedTotalPagesIsCeiling | server.js:364-365 | the reported page count is the fewest pages of the page size that hold all selected posts |
| Listing.RankingSelected | server.js:337-362 | every ranked post is selected by the query |
| Listing.PageKeepsOrder | server.js:358-362 | a page cut from an ordered run of selected posts is ordered and selected |
| Listing.ListedPostsSelectedAndOrdered | server.js:337-362 | every listed post is published and on the requested board unless it is `best`, and the page is in sort order |
| Listing.ListedPageIsSliceOfRanking | server.js:336-364 | the total counts the whole ranking, and each page is the ranking's slice starting at `(page-1)*limit`, full unless the ranking ends first |
| Listing.ListedPostsAreStored | server.js:358-362 | every listed post is a stored post |
| Listing.AppendedPostIsListed | server.js:337-362 | a published post added to the collection is ranked by its board and by `best`; added to an empty collection it is all of page 1 |
| Listing.PageArithmetic | server.js:365-374 | `page < totalPages` exactly when `page*limit < total`, and the skip passes the total exactly when the page lies past the last |
| Listing.PaginationFlags | server.js:365-374 | `hasNext` holds exactly when posts remain after the page, `hasPrev` exactly when the page is not the first, and the page is empty exactly when it lies past the last page |
| Listing.PageBeyondLast | server.js:336-374 | page 3 of two pages lists nothing, with no next page, a previous page and two pages in all |
| Posts.ParseTags | server.js:404 | absent tags give no tags; otherwise there is one tag per comma-separated piece, comma-free, neither starting nor ending with white space, and equal to its piece with white space removed around it |
| Posts.ParseTagsPieces | server.js:404 | each tag is exactly the trimmed comma-separated piece at its position |
| Posts.ParseTagsPadded | server.js:404 | comma-separated pieces that are tags padded with white space parse back to exactly those tags |
| Posts.ParseTagsJoin | server.js:404 | parsing the comma-join of trimmed, comma-free tags gives the tags back |
| Posts.Attachments | server.js:391-397 | one attachment per uploaded file, copying its name, original name, type and size, with url `/uploads/` plus the stored name; none without files |
| Posts.CreatePost | server.js:383-409 | 400 for a missing title, content or board and 500 for a title over 200 characters, each storing nothing; otherwise exactly one post is appended with the given author, category defaulting to `general`, parsed tags, the attachments, published, not pinned, zero stats |
| Posts.CreatedPostIsListed | server.js:399-409 | a created post is among those its board and `best` list, and on an empty forum page 1 lists it alone |
| Seed.AddIfMissing | server.js:463-467 | a seeded board is saved exactly when its id is missing, and afterwards it is present |
| Seed.SeedBoards | server.js:462-468 | seeding adds at most one board per seed and removes none |
| Seed.SeedBoardsExtends | server.js:462-468 | seeding keeps the existing boards as a prefix and appends only boards built from the seeds |
| Seed.SeedBoardsPresent | server.js:462-468 | after seeding, every seeded id names a board |
| Seed.SeedBoardsUnique | server.js:462-468 | seeding keeps board ids unique |
| Seed.SeedBoardsNoop | server.js:462-468 | when every default id is present, seeding adds nothing |
| Seed.SeedAdmin | server.js:470-480 | the admin account is added exactly when no user is named `admin` and its email is free, with role admin and the hashed default password |
| Seed.Initialize | server.js:451-486 | after seeding every default board exists, an admin account exists unless another account holds its email, and at most one user was added |
| Seed.InitializeSpec | server.js:451-486 | seeding keeps accounts and board ids unique, leaves every default board present, and leaves an admin account unless another account holds its email |
| Seed.InitializeIdempotent | server.js:451-486 | a second run of seeding, at any time, changes nothing |
| Server.Database.constructor | server.js:48-50 | the empty store satisfies the store invariant: unique usernames, emails and board ids, every author stored |
| Server.Database.Register | server.js:210-263 | the registration handler in place: the new user collection and the response are those of the registration transition, the invariant holds, and posts and boards are untouched |
| Server.Database.Login | server.js:266-313 | the login handler in place: the new user collection and the response are those of the login transition, the invariant holds, and posts and boards are untouched |
| Server.Database.AuthenticateToken | server.js:117-140 | the gate in place: its outcome and the new user collection are those of `Authenticate`, and the invariant holds |
| Server.Database.CreatePost | server.js:385-409 | post creation in place for a stored author: the outcome and the new post collection are those of `CreatePost`, and users and boards are untouched |
| Server.Database.SubmitPost | server.js:383 | a refused gate passes its status on and stores nothing; otherwise creation runs with the admitted user as author, so a created post's author is the gate's user |
| Server.Database.ListPosts | server.js:327-380 | the listing over the stored posts: only published posts, on the requested board unless it is `best`, each a stored post |
| Server.Database.SaveMissingBoards | server.js:462-468 | the board loop in place: for each seed in order the board is saved unless its id exists, so the boards become those of `SeedBoards`; users and posts are untouched |
| Server.Database.InitializeData | server.js:451-486 | seeding in place: boards and users become those of `Initialize`, every default board exists afterwards, and the invariant holds |

## Left out

- Express plumbing (security headers, compression, logging, CORS, the rate limiter, static files, the 404 and 500 fallbacks): framework wiring with no decisions of its own.
- The health, API-info and online-statistics routes and server start-up: constant replies, console output, and the wall clock with local-time midnight.
- `GET /api/boards` (server.js:316-324), which lists active boards by name: it is a plain query outside the modelled core, and comparing Korean names needs a model of the database's string collation.
- MongoDB itself: the connection, ObjectId generation (an id is a position), `populate` of the author, and storage failures outside the gate. Those failures reach each handler's catch and give 500. The race between a `findOne` check and the following `save` is concurrency and is not modelled.
- Unique indexes are modelled only where they decide an outcome without a race: the seeded admin account is not saved when its email is taken.
- The bcrypt salt and cost, and the JWT encoding and HMAC: foreign libraries. A digest and a signature are abstract values. Reading a header token into a JWT is a parameter `decode`, where `None` stands for a malformed token.
- Upload handling by multer: disk storage, directory creation, generated file names and the 10 MB limit are file I/O and randomness. The uploaded files reach the model as a list. Multer writes the files to disk even when creation is then refused; that is not modelled.
- JavaScript coercions: query values arrive as strings, so `page` and `limit` are taken here as naturals of at least 1. Body fields are taken as strings or absent, except `remember`, which is taken as a boolean that stands for JavaScript truthiness: any truthy value, the string `"false"` included, gives the 30-day token. Title length counts characters, where Mongoose counts UTF-16 code units.
- A `userId` claim that is not a valid ObjectId makes `findById` throw and the gate reply 403; here a claim is always an id, and an unknown one gives 401.
- Accounts.FindOne: MongoDB does not promise that `findOne` answers with the earliest matching document; the model takes the first match in collection order, so which of several matching accounts a login or a registration clash reaches is the model's choice.
- Crypto.HashMatches: the model's digest keeps the whole password, while bcrypt compares only the first 72 UTF-8 bytes of a password, so two longer passwords that agree on those bytes match each other's hash in the program and not in the model; `Accounts.LoginSucceedsIff` inherits this.
- Listing.Sort: MongoDB leaves the order of posts with equal sort keys unspecified; the model keeps them in collection order.
- Listing.ListPosts: the route builds its query object by mutation; the model states the query as the predicate `Selected`.
- Listing.ListPosts: what is listed is stated by the lemmas beside it rather than by its own contract.
- Gate.RequireAdmin: no route uses it, so it is modelled as a decision function only.
- The comment schema and board `postCount`: no code reads or updates them.
