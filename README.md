# Blog Space: a verified model of the server routes and page scripts

Blog Space is a small blogging site. Readers register and sign in. Creators
write blogs in one of three categories and attach images to them. Every
signed-in user can mark blogs as favourites. This project models two parts
of it:

- the three Express route modules (`/api/auth`, `/api/blogs`,
  `/api/favorites`), over one in-memory store;
- the browser logic that decides what those routes are sent: the
  registration form, the blog editor and the home page's blog list.

The store is the class `Store.Database`. It holds the four tables (users,
blogs, blog images, favourites) as sequences of rows in insertion order,
plus the auto-increment counters for users and blogs. Each route handler is
a method that takes that database and returns the handler's outcome. Most
outcomes give their HTTP status and JSON message; the exceptions are listed
under "Left out". Read-only queries are functions over the tables. SQL reads are modelled like this:

- `WHERE` is `Tables.Filter`;
- a single-row lookup is `Tables.Lookup`;
- `ORDER BY` is the stable sort `Ordering.SortBy`. A descending order sorts
  on the negated key.

The object `Database.Valid()` is the schema the code relies on:
- primary keys are unique, and ids are below the auto-increment counters;
- the foreign keys hold: every image row and every favourite row names a
  stored blog (`Store.ReferencesValid`);
- a blog's image rows appear in increasing position;
- favourite pairs are unique.

Every state-changing handler preserves it.

Module layout:

| module | models |
|---|---|
| `Wrappers`, `Tables`, `Ordering`, `JsStrings` | option values, SQL-style table reads, ORDER BY, and the JavaScript string operations used (`trim`, `includes`, `join`, `substring`, truthiness) |
| `Bcrypt`, `Jwt` | the hashing and token libraries as uninterpreted functions with their one law |
| `PasswordPolicy` | the password regular expression, and the plain-words policy it implements |
| `Store` | rows, table invariants and the `Database` class |
| `AuthRoutes` | register, login, logout and the session check |
| `BlogQuery` | the WHERE clause and parameter list built for the blog listing |
| `BlogRoutes` | list, get, create, update and delete of blogs |
| `FavoriteRoutes` | add, remove, list and check of favourites |
| `RegisterPage` | the registration form's validation and category toggle |
| `BlogEditor` | the editor's image list, save request and unsaved-changes flag |
| `HomePage` | the listing's query string, hero text, excerpt and favourite count |

Model assumptions the code relies on but does not show:

- Deleting a blog also deletes its images and its favourites. This is the
  schema's `ON DELETE CASCADE`, modelled as one atomic step.
- The favourites table has a unique key on (user, blog). The key is what
  makes a duplicate insert fail with `ER_DUP_ENTRY`.
- Adding a favourite for a blog that does not exist fails the foreign key,
  and the handler answers 500.
- `req.user`, which the authentication middleware would set, is a
  `Jwt.Claims` input to the handlers.
- Time is an integer number of seconds, passed in as `now`. A token expires
  86400 seconds after it was issued.

Where the written description of the system and the code differ, the code
is followed:

- The server never requires a category for creators. `AuthRoutes.Register`
  stores whatever category arrives, and only the registration page refuses
  a creator without one.
- Update and delete check ownership only, not the creator role.
- The favourites routes check no role at all.

## Model

| member | source | states |
|---|---|---|
| `PasswordPolicy.RepeatAllowedMeaning` | routes/auth.js:13 | `[A-Za-z\d@$!%*?&]{n,}$` matches exactly the strings of at least n characters that are all from the allowed set |
| `PasswordPolicy.LookAheadMeaning` | routes/auth.js:13 | each `(?=.*[class])` look-ahead succeeds only if a character of the class occurs, and on an all-allowed string it succeeds exactly when one occurs |
| `PasswordPolicy.RegexIsPolicy` | routes/auth.js:13 | the regular expression accepts exactly the passwords that have at least 8 allowed characters, including a lower-case letter, an upper-case letter, a digit and a special character |
| `Bcrypt.CompareOwnHash` | routes/auth.js:27-28 | a password compares equal to its own hash under any salt |
| `Jwt.SignThenVerify` | routes/auth.js:63-72 | a token the server signed verifies to its claims until, but not including, the expiry time |
| `Jwt.TamperedTokenRejected` | routes/auth.js:111 | with a collision-free signature, a token that is not the signature of its claims and times is rejected |
| `AuthRoutes.StoredCategory` | routes/auth.js:33 | `category \|\| null`: a missing or empty category is stored as NULL, and any other category is stored as given |
| `AuthRoutes.Register` | routes/auth.js:8-37 | a weak password gives 400 before the email is looked up, and a taken email gives 400 "User already exists"; in both cases the users table is unchanged; otherwise exactly one row is appended, with the next id and the hashed password, and 201 is returned with that id |
| `AuthRoutes.RegisteredUserCanLogIn` | routes/auth.js:27-57 | after a successful registration, the email lookup at login finds the new row, and its stored hash accepts the registered password |
| `AuthRoutes.Login` | routes/auth.js:44-90 | an unknown email and a wrong password give the same 400 "Invalid credentials"; otherwise the claims are the user's id, email, role and category, the token expires 24 h after `now`, and so does the cookie; the tables are unchanged |
| `AuthRoutes.Logout` | routes/auth.js:97-100 | always answers 200 and clears the token cookie, whatever the state |
| `AuthRoutes.Check` | routes/auth.js:103-134 | not authenticated when the cookie is missing, the token does not verify, or its user no longer exists; otherwise the profile fields come from that user's row |
| `Ordering.SortBy` | routes/blogs.js:45 | the result is a permutation of the rows, ordered by the key |
| `Ordering.InsertSorted` | routes/blogs.js:45 | inserting one row into rows in key order keeps them in key order |
| `Ordering.SortByMembers` | routes/blogs.js:45 | sorting keeps the row count and exactly the same rows |
| `Ordering.SortByDistinct` | routes/blogs.js:45 | sorting duplicates no row: rows with distinct ids keep distinct ids |
| `Ordering.SortBySortedIsIdentity` | routes/blogs.js:71 | rows already in key order come back unchanged |
| `JsStrings.ContainsAt` | routes/blogs.js:35-36 | `LIKE '%term%'` (plain substring) holds exactly when the term occurs at some position |
| `BlogQuery.EvalAppend` | routes/blogs.js:27-43 | appending one `AND` clause and its parameters adds exactly that clause's condition to the WHERE condition |
| `BlogQuery.CategoryStep` | routes/blogs.js:29-32 | the category clause holds exactly when the blog's category equals the filter |
| `BlogQuery.SearchStep` | routes/blogs.js:34-38 | the search clause holds exactly when the term is a substring of the title or of the author's first or last name |
| `BlogQuery.AuthorStep` | routes/blogs.js:40-43 | the author clause holds exactly when the blog's author id equals the filter |
| `BlogQuery.WhereMeaning` | routes/blogs.js:27-43 | the built condition selects a (blog, author) pair exactly when it satisfies every filter that was given |
| `BlogQuery.WhereArity` | routes/blogs.js:27-43 | the number of `?` placeholders equals the number of parameters pushed |
| `BlogQuery.ClauseListShape` | routes/blogs.js:29-43 | each clause appears exactly when its filter is given, at most once, and there are at most three |
| `BlogQuery.BuildWhere` | routes/blogs.js:27-43 | the `query +=` / `params.push` sequence builds the clauses and parameters whose meaning is the conjunction of the given filters, with matching arity |
| `Store.ImageRowsInTableOrder` | routes/blogs.js:70-73 | under the table invariant, a blog's images ordered by position are its image rows in table order |
| `Store.InsertedImagesReadBack` | routes/blogs.js:102-109 | inserting `images[i]` at position i for a blog with no images makes its ordered image list exactly the submitted list |
| `BlogRoutes.ThumbnailIsLowestPosition` | routes/blogs.js:14 | the thumbnail is NULL exactly when the blog has no image, and otherwise is the data of an image of the blog with the smallest position |
| `BlogRoutes.JoinedSound` | routes/blogs.js:15-17 | every joined row is a stored blog paired with its author, and the WHERE condition selects it |
| `BlogRoutes.JoinedComplete` | routes/blogs.js:15-17 | every stored blog whose author exists and which the WHERE condition selects is joined with that author |
| `BlogRoutes.ListingSound` | routes/blogs.js:11-45 | every listed row is a stored blog that has an author and matches every filter, and shows that author's name, the blog's favourite-row count and its thumbnail |
| `BlogRoutes.ListingComplete` | routes/blogs.js:11-45 | every stored blog that has an author and matches every filter is listed |
| `BlogRoutes.ListingNewestFirst` | routes/blogs.js:45 | the listing is ordered by creation time, newest first |
| `BlogRoutes.JoinedDistinct` | routes/blogs.js:15-17 | with unique blog ids, the join yields each blog at most once |
| `BlogRoutes.ListingDistinct` | routes/blogs.js:11-45 | with unique blog ids, no two listed rows name the same blog; with ListingSound and ListingComplete, every matching blog is listed exactly once |
| `BlogRoutes.ListBlogs` | routes/blogs.js:7-49 | the handler returns exactly the listing, each blog at most once, and changes nothing |
| `BlogRoutes.GetBlog` | routes/blogs.js:56-76 | 404 "Blog not found" exactly when the blog or its author is missing; otherwise the blog, its author's name and its images ordered by position |
| `BlogRoutes.InsertImages` | routes/blogs.js:102-109 | the loop appends one row per submitted image, with `images[i]` at position i, and keeps the table invariant |
| `Store.ReferencesAfterBlogAppend` | routes/blogs.js:94-99 | inserting a blog row with a fresh id keeps every image and favourite reference valid, and the new blog is found by its id |
| `BlogRoutes.CreateBlog` | routes/blogs.js:83-112 | a non-creator gets 403 and nothing is inserted; otherwise one blog row with the next id, the caller as author and `now` as its time is appended, and a later read of its images gives the submitted list in order, while other blogs' images are unchanged |
| `BlogRoutes.AddedRowsOtherBlog` | routes/blogs.js:103-108 | the rows inserted for one blog do not change any other blog's image list |
| `BlogRoutes.AuthorizeMeaning` | routes/blogs.js:125-131 | the answer is 404 exactly when the blog is missing, 403 exactly when it exists and the caller is not its author, and success otherwise |
| `BlogRoutes.Retitle` | routes/blogs.js:134-137 | only the row with that id changes, and it gets the new title, content and category |
| `BlogRoutes.RetitleEffect` | routes/blogs.js:134-137 | after the update, looking the blog up gives the updated row |
| `BlogRoutes.RetitleKeepsReferences` | routes/blogs.js:134-137 | the update changes no blog id, so every image and favourite row still names a stored blog |
| `Store.ReferencesOfSubsets` | routes/blogs.js:140 | rows kept after a delete still name stored blogs |
| `BlogRoutes.UpdateBlog` | routes/blogs.js:119-151 | 404, then 403, each leaving every table unchanged; on success the row is updated, the blog's images become exactly the new list in order, and every other blog's rows and images are unchanged |
| `Store.FindAfterDelete` | routes/blogs.js:171 | deleting one blog row leaves every other stored blog findable by its id |
| `Store.ReferencesAfterDelete` | routes/blogs.js:171 | deleting a blog together with its image and favourite rows (the cascade) leaves every remaining image and favourite row naming a stored blog |
| `BlogRoutes.CascadeDelete` | routes/blogs.js:171 | deleting a blog row with its images and favourites keeps every table invariant, the foreign keys included; afterwards none of them remain, and every other blog is kept |
| `BlogRoutes.DeleteBlog` | routes/blogs.js:158-173 | 404, then 403, each leaving every table unchanged; on success the blog row, its images and its favourites are removed, while every other blog and its rows are kept |
| `FavoriteRoutes.IsFavorited` | routes/favorites.js:67-78 | `isFavorited` is true exactly when the table holds the (user, blog) pair |
| `FavoriteRoutes.AddedIsFavorited` | routes/favorites.js:12-17 | after an insert, the pair is favourited |
| `FavoriteRoutes.RemovedIsNotFavorited` | routes/favorites.js:33-36 | after a delete, the pair is absent, every other row is kept, and nothing is added |
| `FavoriteRoutes.RemoveAbsentIsNoOp` | routes/favorites.js:33-38 | removing a pair that is absent leaves the table as it was |
| `FavoriteRoutes.AddFavorite` | routes/favorites.js:7-24 | 400 "Already in favorites" exactly when the pair exists, 500 exactly when it is new and the blog is missing, and otherwise 201 with one row appended; the table invariant (no duplicate pair) is kept, and afterwards the pair is favourited unless the answer is 500 |
| `FavoriteRoutes.RemoveFavorite` | routes/favorites.js:28-39 | always answers 200 "Removed from favorites"; afterwards the pair is absent, every other row is unchanged, and removing an absent pair changes nothing |
| `FavoriteRoutes.EntryForMeaning` | routes/favorites.js:51-54 | a favourite row produces a list entry exactly when its blog and that blog's author exist |
| `FavoriteRoutes.Entries` | routes/favorites.js:51-54 | at most one entry per favourite row; each entry comes from a row whose blog and author exist, and every such row's entry is present |
| `FavoriteRoutes.EntriesAppend` | routes/favorites.js:51-54 | one more favourite row adds its entry, when it has one, after the earlier rows' entries; together with the empty case this makes the list exactly one entry per producing row, in row order |
| `FavoriteRoutes.ListFavorites` | routes/favorites.js:46-60 | the list holds exactly the caller's joined favourites, newest favourite first |
| `FavoriteRoutes.ListedFavoritesAreTheCallers` | routes/favorites.js:50-57 | every listed entry comes from a favourite row of the caller for that blog, with that row's time |
| `JsStrings.TrimEmpty` | public/js/blog-editor.js:124-130 | a trimmed string is empty exactly when the string is all whitespace |
| `RegisterPage.FormData` | public/js/auth.js:29-36 | an empty category is sent as null and any other as given; the password and role are sent as typed |
| `RegisterPage.Validate` | public/js/auth.js:39-51 | the password is refused exactly when it fails the regular expression; otherwise a creator without a category is refused; otherwise the form data is sent |
| `RegisterPage.SentPasswordMeetsPolicy` | public/js/auth.js:39-44 | a sent password meets the policy, so the server will not answer it with the weak-password error |
| `RegisterPage.NonCreatorNotRefusedForCategory` | public/js/auth.js:47-51 | a non-creator with an acceptable password is never refused, whatever the category field holds |
| `RegisterPage.SentCategoryStoredAsSent` | public/js/auth.js:35 | the server stores the category the page sends, and a creator's request always carries a non-empty one |
| `RegisterPage.CategoryField.OnUserTypeChange` | public/js/auth.js:8-15 | choosing "creator" shows the field and makes it required; any other role hides it, makes it optional and clears it |
| `BlogEditor.EditorAccess` | public/js/blog-editor.js:12-22 | the editor stays open exactly for a signed-in creator, and an anonymous visitor is sent to the login page |
| `BlogEditor.AcceptedMeaning` | public/js/blog-editor.js:68-76 | a file's image is kept exactly when the file is not larger than 5 MiB |
| `BlogEditor.AcceptedAllSmall` | public/js/blog-editor.js:68-76 | with no file over the limit, every file's image is kept, in selection order |
| `BlogEditor.SpliceOneInRange` | public/js/blog-editor.js:110 | removing an index in range drops exactly that image, and the others keep their order |
| `BlogEditor.SpliceOnePastEnd` | public/js/blog-editor.js:110 | an index past the end removes nothing |
| `BlogEditor.Editor.constructor` | public/js/blog-editor.js:1-4 | a fresh editor has no images, is not in edit mode, and has no unsaved changes, so leaving warns of nothing and cancel leaves without asking |
| `BlogEditor.Editor.OpenForEditing` | public/js/blog-editor.js:28-55 | a non-empty `edit` id switches to edit mode and loads the blog into the form, and its images replace the selection only if it has some; loading is not an unsaved change, so whether leaving warns and whether cancel asks stay as they were |
| `BlogEditor.Editor.AddImages` | public/js/blog-editor.js:65-80 | the accepted files' images are appended after the current ones in selection order; the form is marked changed, so leaving the page warns and cancel leaves only when confirmed |
| `BlogEditor.Editor.RemoveImage` | public/js/blog-editor.js:109-113 | the image list is the JavaScript `splice(index, 1)` of the old one; the form is marked changed, so leaving warns and cancel leaves only when confirmed |
| `BlogEditor.Editor.OnInput` | public/js/blog-editor.js:174-176 | any input marks the form changed, so leaving warns and cancel leaves only when confirmed; nothing else changes |
| `BlogEditor.Editor.Submit` | public/js/blog-editor.js:123-142 | a save is refused exactly when the trimmed title, the category or the trimmed content is empty; otherwise it sends the trimmed fields with the selected images, with PUT to `/api/blogs/<id>` in edit mode and POST to `/api/blogs` otherwise |
| `BlogEditor.Editor.OnSaveResponse` | public/js/blog-editor.js:154-163 | only a successful save clears the unsaved-changes flag and shows the "created" or "updated" alert; after it, leaving no longer warns and cancel leaves without asking, while a failed save leaves both as they were |
| `HomePage.BuildQueryString` | public/js/main.js:82-87 | the pushes build exactly the query string of the present filters |
| `HomePage.QueryStringEmptyIffNoFilter` | public/js/main.js:82-87 | the query string is empty exactly when no filter is truthy, and otherwise starts with '?' |
| `HomePage.QueryParamsPresence` | public/js/main.js:82-85 | a filter's parameter is present exactly when its value is truthy; search is encoded, while category and author id are inserted as they are |
| `HomePage.QueryParamsOrder` | public/js/main.js:82-85 | the parameters come in the order category, search, author |
| `HomePage.Excerpt` | public/js/main.js:135 | at most 153 characters; the content itself when it has at most 150; otherwise its first 150 characters followed by "..." |
| `HomePage.HeroPrecedence` | public/js/main.js:101-113 | a category decides the hero over a search or author filter, and a search over an author filter; with no filter the welcome text shows |
| `HomePage.HeroNamesCategory` | public/js/main.js:101-103 | with a category filter, the hero title starts with the category's name |
| `HomePage.SentAuthorId` | public/js/main.js:85 | the author filter reaches the server exactly when the page's `authorId` is truthy, and unchanged |
| `HomePage.HeroKeptExactlyWhenNothingMatches` | public/js/main.js:90-113 | after the listing for the filters is fetched, the hero keeps its text exactly when no stored blog with an existing author meets the filters, and otherwise shows the text for those filters |
| `HomePage.DisplayedCount` | public/js/main.js:147 | `favorite_count \|\| 0`: the count, or 0 when it is absent |
| `HomePage.CardCountIsFavoriteRows` | public/js/main.js:147 | each card of the listing shows the number of favourite rows of its blog |

## Left out

- `public/js/blog-view.js` is not part of this model. It holds page rendering, date formatting and a favourite toggle driven by fetch responses.
- The login form handler in `public/js/auth.js` is left out. It only trims the email, calls fetch and redirects.
- The authentication middleware and the database configuration are not part of this model. `req.user` is an input, and the tables are in memory.
- DOM rendering, fetch calls, alerts (other than the editor's save alert text), redirects and `escapeHtml` are left out. They are browser effects, not logic.
- `FileReader` base64 conversion is left out. Each selected file arrives with its data URL already computed.
- `encodeURIComponent` is an uninterpreted function parameter (`encode`).
- `bcrypt.genSalt` randomness becomes a salt parameter. Hashing and comparison are uninterpreted, and the only law assumed is that a password compares equal to its own hash.
- JWT signing is an uninterpreted signature. A token that cannot be decoded counts as not verifying, and the `check` route's exception path answers "not authenticated".
- `server.js` and `test-server.js` (routing, static files, the 50 MB body limit) are Express set-up and are left out.
- LIKE is modelled as plain substring containment. MySQL's collation, which makes it case-insensitive, is not modelled, and neither are `%` and `_` inside the search term acting as wildcards.
- Concurrency and transactions are out: each handler is one atomic step. In particular, the update's delete-then-reinsert of images is not interleaved with other requests.
- 500 "Server error" answers from database failures are not modelled, except for the favourite whose blog is missing.
- Lengths are counted in code points, not UTF-16 code units.
- Rows with equal `created_at` keep table order in the model. MySQL leaves their order unspecified.
- Route parameters and query values arrive already parsed as natural numbers. The server's `authorId` filter is present exactly when the query value is non-empty. String-to-number coercion and non-numeric ids are not modelled.
- A request body whose `images` is not an array, or that lacks fields, is not modelled. Absent `images` is `None`, and the other fields are always present.
- `BlogEditor.Editor.OnSaveResponse`: the error alert text, which comes from the server's message, is not modelled. Only its absence on failure is stated.
- The cancel button's `confirm` dialog is an input (`confirmed`) of `BlogEditor.Editor.LeavesOnCancel`.
- `HomePage.HeroKeptExactlyWhenNothingMatches` assumes the server reads back the category and search the page put in the query string, and the query string is never parsed. That holds for the navigation bar's fixed category names (public/js/main.js:164-174) and for the encoded search. A category containing `&`, `=` or `%` would reach the server altered, because it is sent without `encodeURIComponent` (public/js/main.js:83).
- Some outcomes carry no status or message in the model. `BlogRoutes.ListBlogs` returns the bare list (always 200). `AuthRoutes.CheckResult` has no status, because the route always answers 200. `FavoriteRoutes.IsFavorited` and `FavoriteRoutes.ListFavorites` give only the response body's value.
- Equality on strings is exact in the model. Under a case-insensitive MySQL collation, the email lookups of register and login (routes/auth.js:21, routes/auth.js:49) and the category filter `b.category = ?` (routes/blogs.js:30) would ignore case. So registering "A@x.com" after "a@x.com" is 400 in the program and 201 in the model.
