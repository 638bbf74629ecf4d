# FastAPI blog backend: a verified model of its authentication core and services

This project is a Dafny model of the server side of a small blog API:
- user accounts with bcrypt passwords;
- JWT access and refresh tokens, and the bearer guards that check them;
- the identity lookup behind `get_current_user`;
- the account endpoints (login, signup, refresh, change password);
- the blog, tag and review services over their database tables.

Each core file of the repository becomes one Dafny module.

| module | file | models |
|---|---|---|
| `AuthUtils` | `auth_utils.dfy` | `src/auth/utils.py`: password hash and verify, token decode, token issue |
| `AuthDependencies` | `auth_dependencies.dfy` | `src/auth/dependencies.py`: the `TokenBearer` guard, its two kinds, `get_current_user` |
| `UserService` | `auth_service.dfy` | `src/auth/service.py`: user lookups, `create_user`, `update_user` |
| `AuthRouters` | `auth_routers.dfy` | `src/auth/routers.py`: login, signup, refresh, change password |
| `BlogService` | `blog_service.dfy` | `src/blog/service.py`, including the `%Y-%m-%d` date parse |
| `TagService` | `tags_service.dfy` | `src/tags/service.py` |
| `ReviewService` | `reviews_service.dfy` | `src/reviews/service.py` |
| `Store` | `store.dfy` | the rows of the four tables, the unique columns and the `Db` session object |
| `Errors`, `Wrappers` | `errors.dfy`, `wrappers.dfy` | the exceptions of `src/errors.py` and HTTP errors; `Option` and `Result` |

How the model represents the system:
- **Foreign libraries are abstract.**
  - A token is either `Jwt(payload, key, algorithm)` or a `Malformed` string. It decodes exactly when the key and algorithm are the configured ones and `now < exp`. PyJWT treats a token as expired once `exp <= now`.
  - A bcrypt hash is `Bcrypt(salt, preimage)`. The salt is the randomness `pwd_context.hash` draws, and it is passed in. The preimage is what bcrypt reads of the password: its UTF-8 encoding cut after 72 bytes. So two passwords that share their first 72 bytes verify against each other's hash.
- **Configuration, the clock and uuid4 are passed in.**
  - The settings read from the environment are a `Config` value.
  - The clock is an integer `now`, in seconds.
  - `uuid4` is the `Db.nextUid` counter.
- **The database is one `Db` object.** It is a class whose tables are sequences of rows in scan order, so `.first()` is the first matching row.
  - Its invariant `Valid()` holds the unique columns (username, email, slug, tag title, every uid), the review rating range 1..5, the rule that every tag attached to a blog exists, and the non-null foreign keys: from each review to its blog, and from each blog and each review to its author.
  - A commit that would break a unique column or a foreign key fails with `IntegrityError` and leaves every table as it was, as the session rollback does.
- **Service methods change the `Db` in place.** Their postconditions give the whole new state.
  - The `update_*` operations keep the source's loop of `setattr` over the dumped request.
  - Each loop is proved against a fold function (`SetAll`, `SetBlogAll`, `SetTagAll`, `AttachAll`).
  - Lemmas state what the folds of `update_user` and `add_tag_to_blog` do (`SetAllAssigns`, the `AttachAll*` lemmas). The two-item folds of `update_blog` and `update_tag` are unfolded in their methods' postconditions, which give the resulting row outright.
- **Handlers take what their FastAPI dependencies resolve to.** That is the guard's claims, or the current user as an `Option`. Lemmas state how the pieces compose.

Two behaviours of the code worth knowing:
- Access tokens live 15 minutes, hard-coded in `create_access_token`. The `ACCESS_TOKEN_EXPIRE_MINUTES` setting is read but never used (lemma `AuthUtils.AccessExpireMinutesUnused`).
- `get_current_user` returns `None` for a subject that no longer exists; it does not raise. Handlers then fail when they read an attribute of `None` (`AttributeError`).

Other behaviours of the code that the proofs make explicit:
- **A zero refresh lifetime.** A refresh lifetime of zero days is a falsy `timedelta`, so the refresh token lives 15 minutes (`AuthRouters.ZeroRefreshDaysGiveFifteenMinutes`).
- **The refresh endpoint's expiry test.** Behind the refresh guard, at the same instant, the test can never fail (`AuthRouters.RefreshCheckAfterGuardPasses`).
- **Signup with a partial match.** `user_exists` matches username AND email. A signup that shares only one of them passes the 404 check and is then refused by the unique column at commit (`AuthRouters.SignupPartialMatchReachesInsert`).
- **Tags created during one request.** In `add_tag_to_blog`, a tag created for one item is flushed before the next query, so a title repeated within one request reuses the tag created for it (`TagService.AttachAllUnique`).

## Model

| member | source | states |
|---|---|---|
| AuthUtils.BcryptInput | src/auth/utils.py:24-25 | what bcrypt reads of a password: a prefix of its UTF-8 encoding, the whole encoding when it fits in 72 bytes and exactly 72 bytes otherwise |
| AuthUtils.GeneratePasswordHash | src/auth/utils.py:24-25 | the hash carries the drawn salt and what bcrypt read (the whole UTF-8 encoding up to 72 bytes, otherwise its first 72 bytes), and a password of at most 72 bytes stores bytes no other password of at most 72 bytes encodes to; `HashVerifies`, `OtherPasswordFails` and `LongPasswordTailIgnored` state the consequences for verification |
| AuthUtils.VerifyPassword | src/auth/utils.py:20-25 | a password verifies against a hash exactly when hashing that password with the hash's salt gives the same hash, that is, when bcrypt reads the same first 72 UTF-8 bytes |
| AuthUtils.Utf8Injective | src/auth/utils.py:20-25 | distinct passwords have distinct UTF-8 encodings, the bytes passlib hands to bcrypt |
| AuthUtils.HashVerifies | src/auth/utils.py:20-25 | every password verifies against its own hash, whatever the salt |
| AuthUtils.OtherPasswordFails | src/auth/utils.py:20-25 | a hash made from a password of at most 72 UTF-8 bytes verifies no other password of at most 72 bytes |
| AuthUtils.LongPasswordTailIgnored | src/auth/utils.py:20-25 | once a password fills 72 bytes, anything appended to it gives the same hash and verifies against the shorter password's hash |
| AuthUtils.DecodeToken | src/auth/utils.py:28-39 | the round trip: decoding yields `p` for every token issued with the configured secret and algorithm and payload `p` while `now < exp`; it yields `None` for every other token, expired, foreign or malformed |
| AuthUtils.ForeignSecretRejected | src/auth/utils.py:30-39 | a token signed with another secret never decodes |
| AuthUtils.Expiry | src/auth/utils.py:47-51 | `exp` is `now + expires_delta` for a truthy delta, and `now` + 15 minutes for a missing or zero delta |
| AuthUtils.CreateAccessToken | src/auth/utils.py:42-55 | the issued token decodes to exactly `(sub, role, refresh, exp)` at every instant before `exp`, and to nothing from `exp` on |
| AuthUtils.ZeroDeltaFallsBack | src/auth/utils.py:47-50 | a zero delta issues the same token as no delta, one that is valid for 15 minutes |
| AuthUtils.NegativeDeltaIssuedExpired | src/auth/utils.py:47-48 | a negative delta issues a token that is already expired |
| AuthUtils.AccessExpireMinutesUnused | src/auth/utils.py:14-14 | the configured access lifetime has no influence on any issued token |
| AuthDependencies.ValidToken | src/auth/dependencies.py:46-49 | true exactly when the token is an issued, unexpired token of the configured secret |
| AuthDependencies.VerifyTokenData | src/auth/dependencies.py:52-67 | no error exactly when the refresh flag matches the guard kind; otherwise the kind's own 400 error |
| AuthDependencies.TokenBearerCall | src/auth/dependencies.py:22-44 | a non-`Bearer` scheme gives 403; then an undecodable token gives 401; then a kind mismatch gives 400; success exactly when all three pass, and then the result is the decoded claims |
| AuthDependencies.GuardsAreExclusive | src/auth/dependencies.py:52-67 | no token passes both guards at once, and every valid `Bearer` token passes one of them |
| AuthDependencies.LowerCaseSchemeRefused | src/auth/dependencies.py:28-32 | the scheme test is case-sensitive: `bearer` is refused with 403 for any token |
| AuthDependencies.GetCurrentUser | src/auth/dependencies.py:70-78 | the user whose username is the claims' `sub`; `None` exactly when no such user exists |
| UserService.GetUserByUsername | src/auth/service.py:10-16 | a user with that username from the table, and `None` exactly when there is none |
| UserService.UserExists | src/auth/service.py:18-24 | a user matching both username and email, and `None` exactly when no user matches both |
| UserService.Clashes | src/auth/models.py:12-16 | true exactly when another row has the same username or email (the unique columns) |
| UserService.NewUser | src/auth/service.py:29-33 | the new row copies the dumped request fields, stores a hash the password verifies against and, for a password of at most 72 UTF-8 bytes, no other password of at most 72 bytes does, and takes the column defaults `is_active` false and role `user` (src/auth/models.py:20-21) |
| UserService.CreateUser | src/auth/service.py:26-37 | a clash gives `IntegrityError` with nothing changed; otherwise the row is appended with the password hash, `is_active` false and role `user`; the table stays valid and the new user is found by username |
| UserService.SetAttr | src/auth/service.py:42-43 | one `setattr`: the named column takes the value, and the uid and every other column are kept |
| UserService.SetAllAssigns | src/auth/service.py:42-43 | after the loop, every key of `user_data` holds its value, every other column and the uid are unchanged |
| UserService.UpdateUser | src/auth/service.py:39-47 | the loop computes the fold of the items; a unique-column clash gives `IntegrityError` with nothing changed; otherwise that row is replaced and the table stays valid |
| AuthRouters.LoginForAccessToken | src/auth/routers.py:27-56 | failure (401) exactly when the username is unknown or the password does not verify; success carries an access token and a refresh token for the stored user, with token type `bearer` |
| AuthRouters.LoginTokensFitTheirGuards | src/auth/routers.py:39-48 | at login time the access token passes only the access guard (not refresh, 15 minutes) and the refresh token passes only the refresh guard (refresh, the configured days) |
| AuthRouters.ZeroRefreshDaysGiveFifteenMinutes | src/auth/routers.py:43-48 | with a zero-day setting the refresh token is valid for 15 minutes and not one second longer |
| AuthRouters.GetNewAccessToken | src/auth/routers.py:88-108 | success exactly when `exp` is later than now, and the new token is a 15-minute access token for the same `sub` and `role`; otherwise 400 |
| AuthRouters.RefreshCheckAfterGuardPasses | src/auth/routers.py:88-93 | claims yielded by the refresh guard always pass the endpoint's own expiry test at the same instant |
| AuthRouters.CreateUserAccount | src/auth/routers.py:63-81 | a user matching both username and email gives 404; otherwise the outcome of `create_user` |
| AuthRouters.SignupPartialMatchReachesInsert | src/auth/routers.py:67-79 | a signup sharing only the username is not stopped by `user_exists` and clashes at insert |
| AuthRouters.ChangeAccountPassword | src/auth/routers.py:115-146 | a missing current user fails; then a wrong old password gives 400; then a new and a confirmed password that differ give 400; otherwise only that user's hash changes, to a hash the new password verifies against |
| AuthRouters.OldPasswordStopsVerifying | src/auth/routers.py:136-139 | after a change to a different password, the old password no longer verifies, when both passwords are at most 72 UTF-8 bytes long |
| AuthRouters.OldPasswordSurvivesExtension | src/auth/routers.py:136-139 | a new password that only extends an old one of 72 bytes or more still lets the old password verify after the change |
| BlogService.NumberOfDigits | src/blog/service.py:47-49 | reading back zero-padded digits gives the number |
| BlogService.DigitsOfNumber | src/blog/service.py:47-49 | a digit string is the zero-padded rendering of its value |
| BlogService.ShapedTextIsCanonical | src/blog/service.py:47-49 | text of the form `dddd-dd-dd` that names a valid date is the rendering of that date |
| BlogService.ParseDate | src/blog/service.py:47-49 | a parsed date is a valid calendar date (leap years included) whose rendering is the input text |
| BlogService.FormatThenParse | src/blog/service.py:47-49 | the round trip: parsing the rendering of every valid date gives that date back |
| BlogService.GetBlogBySlug | src/blog/service.py:18-24 | a blog with that slug from the table, and `None` exactly when there is none |
| BlogService.GetUserBlogs | src/blog/service.py:26-32 | `.all()` of the author filter: the result is a subsequence of the table in table order, and every row of the user occurs in it exactly as often as in the table, and no other row does |
| BlogService.AddBlogKeepsConsistent | src/blog/service.py:43-52 | appending an untagged blog by a stored user, under a fresh uid and an unused slug, keeps every table invariant, and the slug then finds that blog |
| BlogService.CreateBlog | src/blog/service.py:34-54 | a taken slug gives `BlogAlreadyExists` before the date is read; a date that does not parse gives `ValueError`; an author uid that names no user gives `IntegrityError` at commit (the non-null foreign key `blogs.author_uid`, src/blog/models.py:31-33), with nothing changed; otherwise one untagged blog by the user is appended and is then found by its slug |
| BlogService.UpdateBlogKeepsConsistent | src/blog/service.py:64-70 | overwriting the title and description of a stored blog keeps every table invariant |
| BlogService.ReplacedBlogFound | src/blog/service.py:64-71 | with unique slugs, a blog rewritten under its own uid and slug is what that slug finds afterwards |
| BlogService.UpdateBlog | src/blog/service.py:56-72 | an unknown slug gives `BlogNotFound`; otherwise the loop over the dump overwrites the title and description only, and the blog is found under the same slug |
| BlogService.HasReviews | src/reviews/models.py:30-30 | true exactly when some review's non-null `blog_uid` names that blog |
| BlogService.RemoveBlogKeepsConsistent | src/blog/service.py:82-84 | removing a blog no review belongs to keeps every table invariant, the review-to-blog foreign key included |
| BlogService.RemoveBlogBySlug | src/blog/service.py:82-84 | with unique slugs, removing the blog's row removes exactly the blogs with that slug and keeps all others |
| BlogService.DeleteBlog | src/blog/service.py:74-87 | an unknown slug gives `BlogNotFound`; a blog that still has reviews gives `IntegrityError` with nothing changed (no delete cascade on `Blog.reviews`, src/blog/models.py:36, and a non-null `reviews.blog_uid`); otherwise exactly that blog is removed and the slug no longer resolves |
| TagService.GetTagByUid | src/tags/service.py:21-25 | a tag with that uid, and `None` exactly when there is none |
| TagService.GetTagByTitle | src/tags/service.py:30-33 | a tag with that title, and `None` exactly when there is none |
| TagService.CreateTag | src/tags/service.py:27-42 | a taken title gives `TagAlreadyExists` with nothing changed; otherwise one tag is appended and is then found by its title |
| TagService.AttachOneGrows | src/tags/service.py:53-61 | one iteration only appends: the tag table keeps its old rows, and one uid naming a tag with the item's title is attached |
| TagService.AttachOneUnique | src/tags/service.py:53-61 | one iteration keeps tag uids and titles unique |
| TagService.AttachAllGrows | src/tags/service.py:52-61 | the loop attaches one uid per item, and the tag table keeps its old rows in place |
| TagService.AttachAllUnique | src/tags/service.py:52-61 | the loop never creates a second tag with an existing title, a repeated title included |
| TagService.AttachAllNamesTitles | src/tags/service.py:52-61 | the k-th attached uid names a tag whose title is the k-th requested title |
| TagService.AttachAllReuses | src/tags/service.py:53-58 | a title that already named a tag is answered by that tag's uid |
| TagService.AttachKeepsTagsAttached | src/tags/service.py:61-64 | after the loop every blog refers only to existing tags |
| TagService.AttachKeepsConsistent | src/tags/service.py:44-66 | the state `add_tag_to_blog` commits satisfies every table invariant |
| TagService.AttachTags | src/tags/service.py:52-61 | the loop of `add_tag_to_blog` computes the fold `AttachAll`: the blog's tag list grows by the attached uids and the tag table and uid generator become the fold's, with users, blogs and reviews untouched |
| TagService.AddTagToBlog | src/tags/service.py:44-66 | an unknown slug gives `BlogNotFound` with nothing changed; otherwise the loop's uids are appended, in request order, to that blog's tags, and the tag table is the one the loop builds |
| TagService.AddTagToBlogAsWritten | src/tags/service.py:44-66 | with `Blog` lacking `tags` and the other mappers configured as intended: an unknown slug gives `BlogNotFound`, any non-empty request gives `AttributeError`, and only an empty request succeeds |
| TagService.AsWrittenNeverAttaches | src/tags/service.py:61-61 | for one requested tag, the code as written fails, while the intended operation attaches a tag with that title |
| TagService.TitleTaken | src/tags/models.py:19-19 | true exactly when another tag has the same title (the unique column) |
| TagService.RenameTagKeepsConsistent | src/tags/service.py:76-82 | renaming a stored tag to a title no other tag holds keeps every table invariant, and the tag is then found by its uid and by its new title |
| TagService.UpdateTag | src/tags/service.py:68-84 | an unknown uid gives `TagNotFound`; a title held by another tag gives `IntegrityError` with nothing changed; otherwise only that tag's title changes, and it is found by uid and by its new title |
| TagService.Detach | src/tags/service.py:94-95 | a blog's tag list without the deleted tag: exactly the other uids |
| TagService.DetachFromBlogs | src/tags/service.py:94-95 | deleting the tag also deletes its `blog_tags` rows: each blog keeps its uid and every other column, loses the deleted tag and keeps every other tag |
| TagService.RemoveTagByUid | src/tags/service.py:94-95 | with unique uids, removing the tag's row removes exactly the tags with that uid and keeps all others |
| TagService.RemoveTagKeepsConsistent | src/tags/service.py:94-95 | removing a tag together with its `blog_tags` rows keeps every table invariant |
| TagService.DeleteTag | src/tags/service.py:86-95 | an unknown uid gives `TagNotFound`; otherwise exactly that tag is removed and no blog refers to it any more |
| ReviewService.GetReviewByUid | src/reviews/service.py:24-28 | a review with that uid, and `None` exactly when there is none |
| ReviewService.AddReviewKeepsConsistent | src/reviews/service.py:47-53 | appending a review with a rating in 1..5, by a stored user on a stored blog, under a fresh uid, keeps every table invariant, the two review foreign keys included |
| ReviewService.AppendedReviewFound | src/reviews/service.py:47-54 | a review appended under a uid no earlier review carries is what that uid finds |
| ReviewService.AddReviewToBlog | src/reviews/service.py:30-55 | a missing current user fails; an unknown username gives `UserNotFound` before an unknown slug gives `BlogNotFound`; otherwise one review by that user on that blog is appended and is then found by its uid |
| ReviewService.MayDelete | src/reviews/service.py:60-66 | deletion is allowed only for an existing review by the current user, and never for a missing review or a missing user |
| ReviewService.OnlyAuthorMayDelete | src/reviews/service.py:62-66 | with unique review uids, deletion is allowed exactly for the review's author |
| ReviewService.RemoveReviewKeepsConsistent | src/reviews/service.py:68-69 | removing a review keeps every table invariant, since no row refers to a review |
| ReviewService.RemoveReviewByUid | src/reviews/service.py:68-69 | with unique review uids, removing the review's row removes exactly the reviews with that uid and keeps all others |
| ReviewService.DeleteReview | src/reviews/service.py:57-69 | refusal gives 403 `Cannot delete this review` with nothing changed; otherwise exactly that review is removed and its uid no longer resolves |
| Store.FirstIndex | src/auth/service.py:13-16 | `.scalars().first()`: the first row that matches, and `None` exactly when no row matches |
| Store.Replace | src/blog/service.py:66-71 | committing a row changed in place: the row with that primary key now reads the new value, every other row is as it was |
| Store.RemoveAt | src/blog/service.py:83-84 | `db.delete`: the table without that one row, the others in order |

## Left out

- JWT wire format, signature algorithms and claim serialisation: foreign code. The codec is abstract, and only its promised decode behaviour is modelled.
- bcrypt internals and one-wayness: foreign code. Hashing is an abstract value that carries its salt and the bytes bcrypt reads.
- AuthUtils.GeneratePasswordHash: follows the silent cut after 72 bytes. Some newer bcrypt backends instead refuse a longer password with an error, and passlib refuses a password containing a NUL character. Neither refusal is modelled.
- The extraction of the `Authorization` header by `HTTPBearer`, including its own 403 for a missing header: framework code. The guard starts from the scheme and credentials it yields.
- AuthDependencies.TokenBearerCall: accepts any scheme as input. `HTTPBearer` itself already refuses, with its own 403, every scheme whose lower case is not `bearer`. So in the running system the guard's `Invalid authentication scheme.` branch is reached only by case variants such as `bearer` or `BEARER`.
- Uid strings: uids are natural numbers here. The services take uids as `str` path parameters (src/tags/service.py:22, 69, 87; src/reviews/service.py:25, 58), passed on unchecked. A string that is not a UUID makes the query itself raise, instead of giving `None`, `TagNotFound` or 403. That error path is not modelled.
- Time zones and `datetime.fromtimestamp`: all instants are integer seconds on one clock.
- Request validation by pydantic: it is a precondition, not modelled as a rejection path. This covers `ValidCreateRequest` (field lengths), `ValidReviewRequest` (rating 1..5), and a request body that is not well-typed.
- BlogService.ParseDate: accepts only the zero-padded `YYYY-MM-DD` form in ASCII digits. `strptime` with `%Y-%m-%d` accepts more, and the model does not: one-digit months and days (`2024-1-5`), a day padded with a space (`2024-01- 5`), and any Unicode decimal digits (`２０２４-01-05`, full-width digits).
- BlogService.CreateBlog: for a date in one of those extra forms it gives `ValueError`, where the code creates the blog.
- `get_all_blogs`, `get_tags` and `get_all_reviews`: each returns a whole table, so each is the table itself.
- The routers of the blog, tag and review modules, `src/db/main.py` (engine, session factory, table creation) and the HTTP mapping of the exceptions in `src/errors.py`. Only the exception kinds are kept.
- Timestamp columns (`datetime_created`, `datetime_updated`) and `db.refresh`: the model returns the row as stored.
- Async execution and concurrency between requests: each operation runs alone, as one session.
- The broken ORM relationship declarations:
  - `Blog.author` back-populates `User.blogs`, `Review.author` back-populates `User.reviews`, and `Tag.blogs` back-populates `Blog.tags`. None of these three properties is declared.
  - A `back_populates` that names a missing property makes SQLAlchemy's mapper configuration fail, and with it the first query of the running system.
  - The model assumes the mappers are configured, with the relationships the columns and back-populations evidently intend. The Findings row records the `Blog.tags` case.
- TagService.AddTagToBlog: a tag attached twice to the same blog adds a second association row in the model. The composite primary key of `blog_tags` would refuse that row at commit.
- TagService.UpdateTag: commits inside its loop. The dumped request has exactly one key, so this is the same as one commit after the loop.
- UserService.UpdateUser: takes the dictionary as a sequence of distinct column items. Keys that are not columns (an arbitrary `setattr`) are not modelled.

## Findings

| source | as written | input that shows it | evidently intended | confidence | as-written member | corrected member |
|---|---|---|---|---|---|---|
| src/tags/service.py:61 | `blog.tags.append(tag)`, but `Blog` (src/blog/models.py:14-36) declares no `tags` relationship; only `Tag.blogs` names it as its back-population | an existing blog slug and a request with one tag title | the tag is found or created and attached to the blog through `blog_tags` | not executed; the missing attribute can be read from the class declarations, and SQLAlchemy may already refuse it when the mappers are configured | TagService.AddTagToBlogAsWritten, TagService.AsWrittenNeverAttaches | TagService.AddTagToBlog, TagService.AttachAllNamesTitles |
