# Posts and authentication backend of Tecknical_Stack, in Dafny

This project models the Laravel backend of a small social posting site. Users
register and log in, and receive a Sanctum personal access token that lives
for ten minutes. Logged-in users post a short text and/or an image, tag posts
with a comma-separated list, comment, and search. Only the author of a post or
a comment may change or delete it.

The model covers these parts of the backend:

- **Php**: the PHP string semantics the code relies on: truthiness of `""` and
  `"0"`, `trim`, `explode`/`implode` on `,`, `Str::lower` and integer printing.
- **Validation and FormRequests**: Laravel's validator reduced to the rules
  the application uses, the rule tables of its form requests, and the halt with
  422 that `failedValidation` produces.
- **TagList and Posts**: `PostService` as a class over its tables (`posts`,
  `tags`, `post_tag`, `comments`), including the tag-list pipeline of
  `resolveTagIds` and `Tag::firstOrCreate`.
- **PostModel and Base64**: the `Post` model's fillable and hidden columns, and
  its `image_base64` accessor with `base64_encode`.
- **PostControllers**: `PostController`, with every status code it can answer.
- **RateLimiting, LoginRequests, Accounts, AuthServices and AuthControllers**:
  the login throttle, `LoginRequest`, the user and token store, `AuthService`
  and `AuthController`.
- **Middleware**: the `Authenticate` middleware's guard loop and `using()`.
- **Seeders**: the comment and tag seeders, as row builders and as a class
  over the seeded tables.

Exceptions that handlers catch are modelled by a `Fault` parameter. It is
either `NoFault` or `Raises(afterWrite)`, which says whether the failure
happens before or after the database write. The fault strikes once the input
is validated; a write it follows stays, since no handler opens a transaction,
and on a path that writes nothing (403, 429) an after-write fault cannot
happen. Every handler answers 500 whenever the fault strikes. The current
time, the client address, the token's random secret and the rate limiter's
remaining seconds are parameters. Password hashing is an abstract `Hasher`
whose only law is that `check(p, make(p))` holds.

A user is looked up by name with `first()`, and names are not unique. The
query has no ORDER BY; the model takes the row with the lowest id, so when two
users share a name only the one with the lower id can log in
(`AuthControllers.OnlyFirstNamesakeLogsIn`). Which namesake the database
actually returns is left open by the program.

## Model

| member | source | states |
|---|---|---|
| Php.TrimIsInnerSlice | backend/laravel/app/Services/PostService.php:160 | trim() strips a run of the six PHP trim characters from each end and nothing else; the result is empty or starts and ends with a non-trim character |
| Php.TrimIdempotent | backend/laravel/app/Services/PostService.php:160 | trimming twice gives the same string as trimming once |
| Php.ImplodeExplode | backend/laravel/app/Services/PostService.php:159 | joining the pieces of explode(',', s) with commas gives s back |
| Php.ExplodeImplode | backend/laravel/app/Http/Middleware/Authenticate.php:21 | comma-free pieces joined with ',' explode back into the same pieces |
| Php.ExplodePiecesHaveNoComma | backend/laravel/app/Services/PostService.php:159 | no piece of explode(',', s) contains a comma |
| Php.Lower | backend/laravel/app/Http/Controllers/AuthController.php:69 | Str::lower keeps the length and lowers each ASCII capital, leaving every other character alone |
| Validation.Validate | backend/laravel/app/Http/Controllers/AuthController.php:30-34 | a failed validation reports a non-empty error bag over the table's attributes only; a passed one returns only attributes the table names |
| Validation.PassesIffEveryAttributePasses | backend/laravel/app/Http/Controllers/AuthController.php:30-34 | the error bag is empty exactly when no attribute of the table has a failed rule |
| Validation.FailedAttributeIsReported | backend/laravel/app/Http/Controllers/AuthController.php:30-34 | an attribute with failed rules is in the error bag with exactly those rules |
| Validation.AttributesNamed | backend/laravel/app/Http/Requests/RegisterRequest.php:28-35 | an attribute belongs to a rule table exactly when some entry of the table names it |
| FormRequests.FailedValidation | backend/laravel/app/Http/Requests/RegisterRequest.php:40-50 | failedValidation ends the request with 422 and the validator's errors |
| FormRequests.Resolve | backend/laravel/app/Http/Requests/PostStoreRequest.php:39-49 | a halted request answers 422 with a non-empty error bag; a request that proceeds carries only the input's own values for attributes the rules name |
| FormRequests.ResolveProceedsIff | backend/laravel/app/Http/Requests/PostUpdateRequest.php:38-48 | the form request proceeds exactly when every attribute passes its rules |
| FormRequests.RequiredStringMax | backend/laravel/app/Http/Requests/CommentStoreRequest.php:28-33 | the rules required, string and max:n pass exactly on a non-blank string of at most n characters |
| FormRequests.RequiredString | backend/laravel/app/Http/Requests/LoginRequest.php:31-37 | the rules required and string pass exactly on a non-blank string |
| FormRequests.RequiredEmail | backend/laravel/app/Http/Requests/LoginRequest.php:31-37 | the rules required and email pass exactly on a non-blank string the email check accepts |
| FormRequests.EmailThenUnique | backend/laravel/app/Http/Requests/RegisterRequest.php:32 | for a given email value, a failed `email` rule is reported alone, and `unique` is checked only once `email` has passed |
| FormRequests.RequiredEmailUnique | backend/laravel/app/Http/Requests/RegisterRequest.php:28-35 | the rules required, email and unique:users pass exactly on a non-blank, well-formed, untaken address; a well-formed taken one reports `unique` alone, a malformed one or a file `email` alone (unique is skipped after a failed rule), and a missing one `required` |
| FormRequests.RequiredMinConfirmed | backend/laravel/app/Http/Requests/RegisterRequest.php:28-35 | the rules required, min:6 and confirmed pass exactly on a non-blank string of six or more characters equal to its `_confirmation` field |
| FormRequests.ConfirmedRejectsFiles | backend/laravel/app/Http/Requests/RegisterRequest.php:33 | an uploaded file never passes the password rules |
| FormRequests.ConfirmedText | backend/laravel/app/Http/Requests/RegisterRequest.php:33 | for a non-blank password, the rules pass exactly when it is at least six characters long and equals its confirmation |
| FormRequests.PostStoreContentRule | backend/laravel/app/Http/Requests/PostStoreRequest.php:28-34 | the rules nullable, string and max:1000 on content pass exactly on null, a blank string, or a string of at most 1000 characters |
| FormRequests.PostStoreImageRule | backend/laravel/app/Http/Requests/PostStoreRequest.php:28-34 | the rules nullable, image and max:2048 pass exactly on null, a blank string, or an image file of at most 2048 KB |
| FormRequests.PostStoreAcceptsNeitherContentNorImage | backend/laravel/app/Http/Requests/PostStoreRequest.php:28-34 | a post with neither content nor image passes validation |
| FormRequests.PostStoreNeverCarriesTags | backend/laravel/app/Http/Requests/PostStoreRequest.php:28-34 | the validated input of a store request never holds `tags` |
| FormRequests.PostStoreValidatedShape | backend/laravel/app/Http/Requests/PostStoreRequest.php:28-34 | validated store input holds no `tags`, and its content is never a file |
| FormRequests.PostUpdateResolves | backend/laravel/app/Http/Requests/PostUpdateRequest.php:28-33 | an update proceeds exactly on a non-blank content of at most 1000 characters, and carries only that content |
| FormRequests.CommentStoreResolves | backend/laravel/app/Http/Requests/CommentStoreRequest.php:28-33 | a comment proceeds exactly on a non-blank content of at most 500 characters, and carries only that content |
| FormRequests.RegisterResolves | backend/laravel/app/Http/Requests/RegisterRequest.php:28-35 | registration proceeds exactly when name is given, email is well-formed and untaken, and password has six or more characters and matches its confirmation |
| FormRequests.RegisterRejectsTakenEmail | backend/laravel/app/Http/Requests/RegisterRequest.php:32 | a well-formed taken email halts registration with 422, and the errors on `email` are `unique` alone |
| FormRequests.RegisterRejectsMalformedEmail | backend/laravel/app/Http/Requests/RegisterRequest.php:32 | a malformed email halts registration with 422, and the errors on `email` are `email` alone, taken or not |
| FormRequests.LoginRulesPass | backend/laravel/app/Http/Requests/LoginRequest.php:31-37 | login input passes exactly on a non-blank, well-formed email and a non-blank password |
| TagList.KeepTruthyElements | backend/laravel/app/Services/PostService.php:161 | filter() keeps exactly the pieces that are neither "" nor "0" |
| TagList.KeepTruthySingle | backend/laravel/app/Services/PostService.php:161 | a single piece is kept exactly when it is neither "" nor "0" |
| TagList.KeepTruthyConcat | backend/laravel/app/Services/PostService.php:161 | filtering a concatenation is the concatenation of the filtered parts, so the kept pieces stay in order and keep their repeats |
| TagList.FirstIndex | backend/laravel/app/Services/PostService.php:162 | the index of the first occurrence of x, or the length when x does not occur |
| TagList.Take | backend/laravel/app/Services/PostService.php:163 | take(n) is a prefix of the list: exactly its first n elements when it is longer than n, the whole list otherwise |
| TagList.FirstDistinct | backend/laravel/app/Services/PostService.php:162-164 | unique() then take(10) gives at most ten distinct candidates in order of first appearance, and any candidate left out comes after ten kept ones |
| TagList.UniqueFromElements | backend/laravel/app/Services/PostService.php:162 | unique() keeps exactly the elements not seen before |
| TagList.UniqueFromNoDuplicates | backend/laravel/app/Services/PostService.php:162 | unique() never repeats an element |
| TagList.UniqueFromOrder | backend/laravel/app/Services/PostService.php:162 | unique() lists elements in order of their first occurrence |
| TagList.CandidateIsTrimmedPiece | backend/laravel/app/Services/PostService.php:159-161 | every candidate tag is truthy, has no comma, and is the trimmed form of a piece of the list |
| TagList.TagNamesAreFirstDistinctCandidates | backend/laravel/app/Services/PostService.php:159-164 | the tag names are the first ten distinct non-empty trimmed pieces, in order, each truthy and comma-free |
| TagList.TagNamesOfFalsyString | backend/laravel/app/Services/PostService.php:159-164 | the list "" or "0" names no tag |
| Posts.FirstOrCreate | backend/laravel/app/Services/PostService.php:173 | an existing tag keeps its id and the table is unchanged; a new name gets the next id; other names keep their ids and the table stays injective |
| Posts.ResolveAllSpec | backend/laravel/app/Services/PostService.php:170-177 | one id per name, each the id of that name; the table gains exactly the new names; old ids are kept; new ids are fresh; the id counter grows by the number of new names |
| Posts.ResolveAllFresh | backend/laravel/app/Services/PostService.php:170-177 | resolving keeps the table valid, keeps every existing id, and gives new names only fresh ids |
| Posts.ResolveAllIds | backend/laravel/app/Services/PostService.php:170-177 | the i-th id returned is the id the table now holds for the i-th name |
| Posts.ResolveAllKeys | backend/laravel/app/Services/PostService.php:170-177 | after resolving, the table holds exactly the old names plus the resolved ones |
| Posts.ResolveAllCount | backend/laravel/app/Services/PostService.php:170-177 | the id counter advances once per tag actually created |
| Posts.ResolveAllPresent | backend/laravel/app/Services/PostService.php:173 | names already in the table change nothing and resolve to their stored ids |
| Posts.ResolveAllIdempotent | backend/laravel/app/Services/PostService.php:170-177 | resolving the same names a second time changes nothing and gives the same ids |
| Posts.InsertNewestSorted | backend/laravel/app/Services/PostService.php:24 | inserting a post into a newest-first list keeps it newest first |
| Posts.InsertNewestPermutes | backend/laravel/app/Services/PostService.php:24 | insertion adds exactly that post |
| Posts.InsertNewestBounded | backend/laravel/app/Services/PostService.php:24 | insertion creates no timestamp above a bound that all its inputs respect |
| Posts.SortNewestFirstSpec | backend/laravel/app/Services/PostService.php:24 | orderByDesc('created_at') gives a permutation of the rows, newest first |
| Posts.Rows | backend/laravel/app/Services/PostService.php:25 | the table's rows are listed once each, in id order |
| Posts.Matching | backend/laravel/app/Services/PostService.php:111 | LIKE '%k%' keeps exactly the rows whose content contains k |
| Posts.PostService.constructor | backend/laravel/app/Services/PostService.php:14-15 | a fresh service has empty tables that satisfy the invariant |
| Posts.PostService.GetAll | backend/laravel/app/Services/PostService.php:21-26 | every post exactly once, newest first |
| Posts.PostService.Create | backend/laravel/app/Services/PostService.php:35-61 | a new post with the next id, its author, its content or null, the image bytes and MIME type only when an image was uploaded, and tags synced to the resolved names; comments are untouched |
| Posts.PostService.Delete | backend/laravel/app/Services/PostService.php:69-75 | returns the post as it was and removes only that row |
| Posts.PostService.Update | backend/laravel/app/Services/PostService.php:84-95 | only the content changes; the tags are re-synced only when `tags` is present |
| Posts.PostService.Search | backend/laravel/app/Services/PostService.php:103-113 | a falsy keyword gives nothing; otherwise exactly the posts whose content contains the keyword, newest first |
| Posts.PostService.CreateComment | backend/laravel/app/Services/PostService.php:123-131 | a new comment on the post with the next id, its author and content; no other table changes |
| Posts.PostService.DeleteComment | backend/laravel/app/Services/PostService.php:139-145 | returns the comment as it was and removes only that row |
| Posts.PostService.ResolveTagIds | backend/laravel/app/Services/PostService.php:153-178 | a falsy list gives no ids; otherwise the ids are those ResolveAll assigns to the tag names, and the tag table becomes ResolveAll's |
| Posts.PostService.FirstOrCreateEach | backend/laravel/app/Services/PostService.php:170-177 | the firstOrCreate loop computes ResolveAll of the names |
| Posts.PostService.FirstOrCreateTag | backend/laravel/app/Services/PostService.php:173 | one firstOrCreate is FirstOrCreate on the tag table |
| Posts.PostService.Sync | backend/laravel/app/Services/PostService.php:58 | sync() replaces the post's tag links with exactly the given ids and changes nothing else |
| PostModel.ImageBase64RoundTrip | backend/laravel/app/Models/Post.php:30-36 | the accessor gives null exactly when the image bytes or the MIME type is falsy; otherwise "data:", the MIME type, ";base64," and a text that decodes back to the image bytes |
| PostModel.DataUrlParts | backend/laravel/app/Models/Post.php:33 | the data URL is "data:", the MIME type, ";base64," and the base64 text, which decodes back to the image bytes |
| PostModel.Serialize | backend/laravel/app/Models/Post.php:19-23 | the serialized post hides image_data and appends image_base64 |
| PostModel.SerializedImageDecodes | backend/laravel/app/Models/Post.php:19-36 | the serialized image_base64 of an imaged post decodes back to its bytes |
| PostModel.FillGuards | backend/laravel/app/Models/Post.php:12-17 | an attribute outside the fillable list never reaches the model, and input holding just the four fillable columns is kept whole |
| Base64.DecodeEncode | backend/laravel/app/Models/Post.php:33 | base64_encode is inverted by decoding |
| Base64.EncodeLength | backend/laravel/app/Models/Post.php:33 | every three bytes, or part of three, become four characters |
| Base64.EncodeAlphabet | backend/laravel/app/Models/Post.php:33 | encoded text uses only the base64 alphabet, with at most two trailing '=' |
| Base64.DecodeEncodeBlock | backend/laravel/app/Models/Post.php:33 | a full three-byte block decodes back |
| Base64.ValueOfCharOf | backend/laravel/app/Models/Post.php:33 | each 6-bit value's character reads back as that value |
| PostControllers.PostController.Index | backend/laravel/app/Http/Controllers/PostController.php:28-43 | 200 with every post, newest first, or 500 on an exception |
| PostControllers.PostController.Store | backend/laravel/app/Http/Controllers/PostController.php:51-67 | 422 without writes on invalid input; 201 with a new post of the user's holding the validated content, the creation time, and the image bytes and MIME type only when an image was sent, with no tags and every other table as it was; 500 without writes for a text image or an exception before the insert; 500 after an exception that follows the insert, which stays with that same content, time and image |
| PostControllers.PostController.Destroy | backend/laravel/app/Http/Controllers/PostController.php:75-96 | 403 without writes for someone else's post; 200 with the deleted post for the author, with only that post row removed and comments, tags and tag links as they were; 500 without writes on an exception before the delete, and 500 with the post removed on one after it |
| PostControllers.PostController.Update | backend/laravel/app/Http/Controllers/PostController.php:105-129 | 422 or 403 without writes; 200 with the new content for the author; tags and comments untouched; 500 without writes on an exception before the update, and 500 with the content replaced on one after it |
| PostControllers.PostController.Search | backend/laravel/app/Http/Controllers/PostController.php:137-153 | 200 with the service's search result, empty for a falsy keyword, or 500 |
| PostControllers.PostController.StoreComment | backend/laravel/app/Http/Controllers/PostController.php:162-176 | 422 without writes; 201 with the new comment by the user on that post, posts, tags and tag links untouched; 500 without writes on an exception before the insert, and 500 with the comment stored on one after it |
| PostControllers.PostController.DestroyComment | backend/laravel/app/Http/Controllers/PostController.php:184-203 | 403 without writes for someone else's comment; 200 with the deleted comment for its author, posts, tags and tag links untouched; 500 without writes on an exception before the delete, and 500 with the comment removed on one after it |
| RateLimiting.ThrottleKey | backend/laravel/app/Http/Requests/LoginRequest.php:64 | the key is "login:" followed by the lowered client address |
| RateLimiting.ThrottleKeyInjective | backend/laravel/app/Http/Requests/LoginRequest.php:64 | two addresses share a key exactly when they agree up to case |
| RateLimiting.RateLimiter.Hit | backend/laravel/app/Http/Requests/LoginRequest.php:46 | hit() adds one attempt to its key and to no other |
| LoginRequests.LoginRequest.EnsureIsNotRateLimited | backend/laravel/app/Http/Requests/LoginRequest.php:61-80 | halts with 429 exactly when the client's key has five or more attempts, and records nothing |
| LoginRequests.LoginRequest.Authorize | backend/laravel/app/Http/Requests/LoginRequest.php:20-24 | authorization halts exactly when the rate limit is reached |
| LoginRequests.LoginRequest.FailedValidation | backend/laravel/app/Http/Requests/LoginRequest.php:42-56 | a validation failure counts one attempt on the client's key and halts with 422 |
| LoginRequests.LoginRequest.ValidateResolved | backend/laravel/app/Http/Requests/LoginRequest.php:20-56 | 429 when throttled, before any validation and without a hit; otherwise the validated input, or 422 plus one hit |
| Accounts.FirstFrom | backend/laravel/app/Http/Controllers/AuthController.php:79 | where(...)->first() finds the lowest id with that value, or none when no row has it |
| Accounts.PlainTextToken | backend/laravel/app/Services/AuthService.php:56 | the plain-text token is the token id in decimal, a vertical bar, then the secret |
| Accounts.UserStore.FindBy | backend/laravel/app/Services/AuthService.php:39 | a user found has that value in the column searched |
| Accounts.UserStore.FindByEmailFindsTaken | backend/laravel/app/Services/AuthService.php:39 | the email lookup finds a user exactly when the address is taken |
| Accounts.UserStore.Insert | backend/laravel/app/Services/AuthService.php:22-26 | a new user row with the next id, or nothing when the email is taken (its unique index) |
| Accounts.UserStore.CreateToken | backend/laravel/app/Services/AuthService.php:47 | createToken adds a token row with the next id and no expiry |
| Accounts.UserStore.IssueToken | backend/laravel/app/Services/AuthService.php:47-52 | a new token row with the next id that expires `lifetime` seconds after creation; users untouched |
| Accounts.UserStore.SaveToken | backend/laravel/app/Services/AuthService.php:52 | save() writes the token row back |
| AuthServices.AuthService.Register | backend/laravel/app/Services/AuthService.php:19-27 | stores the name, email and hash of the password, and the stored hash checks against the password; nothing is stored exactly when the email was taken |
| AuthServices.AuthService.AttemptLogin | backend/laravel/app/Services/AuthService.php:36-58 | null without writes exactly when no user has the email or the password does not check; otherwise that user and a token for user id, "user_login", expiring in 600 seconds |
| AuthControllers.RequiredOnly | backend/laravel/app/Http/Controllers/AuthController.php:64-67 | `required` alone fails exactly on a missing, null or blank value |
| AuthControllers.LoginFieldsPass | backend/laravel/app/Http/Controllers/AuthController.php:64-67 | login validation passes exactly when name and password are both present |
| AuthControllers.CredentialsIff | backend/laravel/app/Http/Controllers/AuthController.php:79-82 | credentials match user id exactly when name and password are given, id is the lowest-id user with that name, and the password checks against its hash |
| AuthControllers.OnlyFirstNamesakeLogsIn | backend/laravel/app/Http/Controllers/AuthController.php:79 | of two users with one name, the later one can never log in |
| AuthControllers.LoginKeyAsWritten | backend/laravel/app/Http/Controllers/AuthController.php:69 | without an `ip` field in the input the key is the bare "login:" |
| AuthControllers.AsWrittenKeyIsShared | backend/laravel/app/Http/Controllers/AuthController.php:69 | two clients at different addresses share one throttle key as written, but not under the corrected key |
| AuthControllers.AuthController.Register | backend/laravel/app/Http/Controllers/AuthController.php:26-51 | 422 with the errors and no write on invalid input; 201 after storing name, email and hashed password, with no token issued; on an exception after validation 500, without a write when it strikes before the insert and with the user stored, and still no token, when after |
| AuthControllers.AuthController.Login | backend/laravel/app/Http/Controllers/AuthController.php:60-104 | 422 without writes; 429 at five attempts with no writes; 401 plus one hit when credentials fail; 200 with the token id, a vertical bar and the secret and a token expiring in 600 seconds otherwise; on an exception 500, with no write before the throttle check, and with the hit or the token kept when it strikes after them |
| AuthControllers.AuthController.ThrottledLogin | backend/laravel/app/Http/Controllers/AuthController.php:69-96 | the throttle, credential check and token issue of login on a given key |
| AuthControllers.AuthController.LoginSuccess | backend/laravel/app/Http/Controllers/AuthController.php:112-121 | 200 with the user's name exactly when a user is logged in, 500 otherwise |
| Middleware.Tried | backend/laravel/app/Http/Middleware/Authenticate.php:32-34 | no guards means the default guard alone; otherwise the guards as given |
| Middleware.FirstPassingFrom | backend/laravel/app/Http/Middleware/Authenticate.php:36-40 | the first guard from k that passes, with every earlier one failing, or none |
| Middleware.UsingSplits | backend/laravel/app/Http/Middleware/Authenticate.php:19-22 | using() gives the class name, ':', and the guards, which split back on ',' |
| Middleware.AuthManager.ShouldUse | backend/laravel/app/Http/Middleware/Authenticate.php:38 | the chosen guard becomes the default |
| Middleware.Authenticate.Authenticate | backend/laravel/app/Http/Middleware/Authenticate.php:30-49 | the first passing guard is chosen and made default; with none, the exception carries the guards tried and nothing changes |
| Middleware.Authenticate.Handle | backend/laravel/app/Http/Middleware/Authenticate.php:24-28 | the request reaches the next handler exactly when some guard passes |
| Seeders.CommentRowsShape | backend/laravel/database/seeders/CommentsTableSeeder.php:27-47 | two rows per post, by users i mod n and i+1 mod n, with the texts for index i and the seeding time |
| Seeders.CommentRowsReferToSeededRows | backend/laravel/database/seeders/CommentsTableSeeder.php:27-47 | every comment row points at a seeded post and a seeded user |
| Seeders.CommentAuthorsDiffer | backend/laravel/database/seeders/CommentsTableSeeder.php:28-29 | with two or more distinct users, a post's two comments have different authors |
| Seeders.BuildCommentRows | backend/laravel/database/seeders/CommentsTableSeeder.php:27-47 | the loop builds exactly the comment rows |
| Seeders.SeedDatabase.SeedComments | backend/laravel/database/seeders/CommentsTableSeeder.php:10-50 | no comments without posts or users; otherwise the comment rows are appended |
| Seeders.TagSetFor | backend/laravel/database/seeders/TagsTableSeeder.php:29-37 | each post's tag set names only seeded tags |
| Seeders.NewTags | backend/laravel/database/seeders/TagsTableSeeder.php:15-22 | one pending tag row per name, stamped with the seeding time |
| Seeders.IdByNameLatest | backend/laravel/database/seeders/TagsTableSeeder.php:26 | pluck('id', 'name') maps a name to the id of its last row |
| Seeders.SeededNamesResolveToNewRows | backend/laravel/database/seeders/TagsTableSeeder.php:24-26 | each seeded name looks up the id of the row just inserted for it |
| Seeders.EverySeedSetResolves | backend/laravel/database/seeders/TagsTableSeeder.php:37-42 | every name of every post's tag set is found in the lookup, so the skip never fires |
| Seeders.LinkRowsSound | backend/laravel/database/seeders/TagsTableSeeder.php:39-50 | every link row belongs to the post and links a tag of its set; names not looked up give no row |
| Seeders.LinkRowsComplete | backend/laravel/database/seeders/TagsTableSeeder.php:39-50 | when every name is looked up, one row per name with that name's id |
| Seeders.SeededLinkCount | backend/laravel/database/seeders/TagsTableSeeder.php:36-51 | the first three posts get two links each and every later post one |
| Seeders.BuildNewTags | backend/laravel/database/seeders/TagsTableSeeder.php:16-22 | the loop builds exactly the pending tag rows |
| Seeders.BuildLinkRows | backend/laravel/database/seeders/TagsTableSeeder.php:39-50 | the inner loop builds exactly the post's link rows |
| Seeders.BuildPostTagRows | backend/laravel/database/seeders/TagsTableSeeder.php:36-51 | the outer loop builds exactly the link rows of all posts |
| Seeders.SeedDatabase.SeedTags | backend/laravel/database/seeders/TagsTableSeeder.php:10-56 | the six tags are appended with consecutive ids, then every post's links, and nothing else changes |

## Left out

- Hashing: bcrypt itself is not modelled. `Hasher` is abstract, and `AuthService.Register` assumes only that a hash checks against its own password.
- Token secret: Sanctum draws a random 40-character secret; it is a parameter of login.
- Rate limiter timing: the 60-second decay and `availableIn` are not modelled. The remaining seconds are a parameter, and attempts are never forgotten.
- The cache store behind the rate limiter, and the atomicity of concurrent requests, are not modelled.
- Logging (`Log::info`, `Log::warning`, `Log::error`) has no observable effect on replies and is left out.
- The framework's email-format check and image-MIME check are abstract predicates in `Checks`; `unique:users` is tied to the user table in the controller.
- Request values are null, strings or uploaded files. JSON numbers, booleans and arrays are not modelled.
- `Str::lower` and LIKE matching are modelled on ASCII only. Multibyte case folding and database collation are not modelled.
- Posts.PostService.Search: keywords holding the LIKE wildcards `%`, `_` or `\` are excluded by its precondition, because the model matches the keyword literally.
- PostControllers.PostController.Search: carries the same wildcard restriction as the service's search.
- Posts.PostService.GetAll: the order among posts created in the same second is left open (the database's tie order is unspecified); the contract states the permutation and newest-first order only.
- Eager loading (`with`, `load` of user, tags and comments) and `updated_at` are not modelled. A post carries its author id, not the loaded user.
- Files: `file_get_contents` of an upload is modelled as the file's bytes, and the upload's MIME type as a field of the file.
- The `TrimStrings` and `ConvertEmptyStringsToNull` middleware are not modelled. Blank strings reach the validator as they are, and `required` treats them as missing.
- `Auth::user()` and route-model binding are parameters: the logged-in user id and an existing post or comment id.
- The exception handler's 401 reply for an unauthenticated request is not modelled. The middleware's outcome carries the guards, as the exception does.
- Posts.PostService.Create: requires that a truthy `image` be an uploaded file, as validated input always is; the controller models a truthy string there as a 500 without a write.
- TagList.UniqueFromElements, TagList.UniqueFromNoDuplicates, TagList.UniqueFromOrder, TagList.FirstDistinct, TagList.TagNamesAreFirstDistinctCandidates: duplicates are found by exact string equality. `Collection::unique()` compares loosely, so PHP also merges numerically equal strings such as "1" and "01"; for such lists the model keeps, and creates, more tags than the source.
- Posts.PostService.Delete: the comments and post_tag migrations are not part of this model. Delete assumes that no foreign key on those tables constrains the post row, and leaves their rows in place. With a plain foreign key the delete of a post that has comments or tags would raise and the controller would answer 500; with ON DELETE CASCADE the database would remove those rows too.
- Accounts.FirstFrom: `first()` without ORDER BY is modelled as the row with the lowest id, the usual primary-key scan order, which the database does not guarantee; the same holds for which namesake `AuthControllers.OnlyFirstNamesakeLogsIn` lets in.
- Accounts.UserStore.Insert: the QueryException that the unique index on `email` raises for a taken address is modelled as None with nothing written. The registration controller answers 500 either way, and its validation already rejects a taken address.
- The `PostsTableSeeder` and `UsersTableSeeder` that fill the tables first are not part of this model; their ids are the seeders' inputs.

## Findings

| source | as written | input that shows it | evidently intended | confidence | as-written member | corrected member |
|---|---|---|---|---|---|---|
| backend/laravel/app/Http/Controllers/AuthController.php:69 | the throttle key is built from `$request->ip`, the request's `ip` input field, which a login form does not send, so every client shares the key "login:" | two logins without an `ip` field from addresses 10.0.0.1 and 10.0.0.2: both are counted on "login:", so five failures from one block the other | `$request->ip()`, the client address, as `LoginRequest` does, giving one key per address | not executed | AuthControllers.LoginKeyAsWritten, AuthControllers.AsWrittenKeyIsShared | RateLimiting.ThrottleKey, RateLimiting.ThrottleKeyInjective |
