# A verified model of the vk-dbms-project forum service

The modelled system is a forum backend. It has users, forums, threads inside forums, posts inside threads (answers form trees), and votes on threads. A set of HTTP handlers sits on repositories that each run one or a few SQL statements against PostgreSQL. This project models the repositories, the two services with logic of their own, the error-to-status table, and the decisions of the thread and forum handlers. It proves what they promise.

The store is an in-memory `Database` object (`store.dfy`). It has one `seq` per table and the id sequences as counters. `Tables` is its value snapshot. Statements that read are functions over the snapshot: filter, sort, limit and find, with PostgreSQL's array comparison for post paths (`order.dfy`). Statements that write are methods that update the object. Each is proved equal to a specification function on the snapshot, and the lemmas about that function carry the properties. The store invariant `Consistent` covers the following:
- the post path rule and serial post ids;
- the thread vote totals, which equal the sum of the thread's votes;
- one vote per user and thread;
- unique user nicknames, e-mails and ids;
- ids below their sequence counters.

Every writing method preserves this invariant.

A vote of +1 followed by -1 from the same user leaves the total one below where it stood before both votes. The second reply reads two below the first (ThreadService.VoteThenChange).

Modules follow the source files: `ThreadRepository`, `ThreadPostListing` (the three post listings of the thread repository), `ThreadService`, `ForumRepository`, `UserRepository`, `PostRepository`, `PostService`, `ServiceRepository`, `ThreadDelivery` and `ForumDelivery`. They share `Errors`, `Models`, `Store`, `Text` (Go's `strconv.Atoi`/`Itoa` and PostgreSQL `trim`), `Seqs` and `Order`.

## Model

| member | source | states |
|---|---|---|
| Errors.GetHTTPCodeByError | internal/pkg/errors/http_codes.go:5-46 | The table's flag is true for every error except ErrInvalidDescParam. Not-found errors map to 404, already-exists errors to 409, bad parameters and bodies to 400, and ErrInternal to 500. An error missing from the table gets 500. |
| Errors.StatusClasses | internal/pkg/errors/http_codes.go:5-46 | Each error gets exactly one status class. 404 holds exactly for the not-found kinds and 409 exactly for the already-exists kinds. 400 holds exactly for the bad-input kinds. 500 holds exactly for ErrInternal and ErrInvalidDescParam. |
| Errors.StatusOf | internal/pkg/errors/http_codes.go:5-38 | The corrected table: every error is a key, and 400 is given exactly to the bad-input errors plus ErrInvalidDescParam. Otherwise the status agrees with the table as written. |
| Text.AtoiItoa | internal/thread/repository/pgx/repository.go:134 | Parsing the decimal form of any 64-bit integer gives it back. |
| Text.Atoi | internal/thread/repository/pgx/repository.go:134 | A parsed value lies in the 64-bit range and comes from a string ending in a digit. A negative value comes from a string starting with '-'. |
| Text.Trim | internal/post/repository/pgx/repository.go:96-97 | The trimmed string neither starts nor ends with a space, and it is empty exactly when the input is all spaces. |
| Text.TrimIdempotent | internal/thread/repository/pgx/repository.go:153-154 | Trimming twice is trimming once. |
| Text.TrimPadded | internal/post/repository/pgx/repository.go:96 | Spaces around a string do not change its trimmed form. |
| Order.LexTotal | internal/thread/repository/pgx/repository.go:248-274 | PostgreSQL array comparison orders any two different paths one way or the other. |
| Order.LexTransitive | internal/thread/repository/pgx/repository.go:248-274 | The array comparison is transitive. |
| Order.PrefixFirst | internal/thread/repository/pgx/repository.go:248-274 | A path sorts before every path it is a proper prefix of. |
| Order.SubtreeContiguous | internal/thread/repository/pgx/repository.go:248-274 | A path that sorts between a path and one of its extensions is itself an extension of that path, so subtrees list contiguously. |
| Seqs.SortSorted | internal/thread/repository/pgx/repository.go:186-205 | Sorting by a strict weak order gives a sorted permutation; ORDER BY is modelled by this sort. |
| Seqs.SortedUnique | internal/thread/repository/pgx/repository.go:262-274 | Two sorted permutations of the same rows under an order total on them are equal. |
| Seqs.QueryProperties | internal/forum/repository/pgx/repository.go:161-187 | WHERE, ORDER BY, LIMIT: every row qualifies and the rows are sorted. There are at most `limit` rows and none if it is negative. No qualifying row left out sorts strictly before a returned one. |
| Store.RootAncestor | internal/thread/repository/pgx/repository.go:324-346 | Under the path rule, a post's `path[1]` is the id of a top-level post of the same thread. |
| Store.RowsDistinct | internal/thread/repository/pgx/repository.go:262-274 | Under the path rule, no two rows share a path. |
| ThreadRepository.GetThread | internal/thread/repository/pgx/repository.go:130-149 | A slug-or-id that parses as an integer selects by id, anything else by slug. The lookup succeeds exactly when some thread is selected and returns that thread. Otherwise it returns ErrThreadNotFound beside a zero thread. |
| ThreadRepository.NumericSlugShadowed | internal/thread/repository/pgx/repository.go:134-138 | A thread whose slug reads as a number, when no thread has that number as id, cannot be found by its slug. |
| ThreadRepository.EditThread | internal/thread/repository/pgx/repository.go:151-163 | A message or title that trims to nothing keeps the stored one; otherwise the new one is stored. No other field changes. |
| ThreadRepository.EditThreadIdempotent | internal/thread/repository/pgx/repository.go:151-163 | Applying the same edit twice is applying it once. |
| ThreadRepository.UpdateThreadResult | internal/thread/repository/pgx/repository.go:165-184 | After the UPDATE, the lookup finds the edited form of the row it found before, and fails exactly when it failed before. |
| ThreadRepository.UpdateThread | internal/thread/repository/pgx/repository.go:151-184 | The UPDATE edits the selected threads in the store object and keeps it valid. It returns the edited thread, or a zero thread with ErrThreadNotFound. |
| ThreadRepository.EditKeepsVotes | internal/thread/repository/pgx/repository.go:151-163 | Editing threads keeps the store consistent: no vote total or id changes. |
| ThreadRepository.CheckPost | internal/thread/repository/pgx/repository.go:63-86 | An unknown author gives ErrUserNotFound. A known author with a non-zero parent missing from the thread gives ErrParentPostNotFound. |
| ThreadRepository.BatchError | internal/thread/repository/pgx/repository.go:63-86 | The batch passes exactly when every post passes its checks. Otherwise the error is that of the first failing post in input order. |
| ThreadRepository.CreatePostsSpec | internal/thread/repository/pgx/repository.go:45-118 | The thread is resolved first. An empty batch stores nothing and is not an error. A failed check stores nothing. On success there is one post per input, in order, keeping parent, author and message. Each post has the thread's id and forum, the same `created` and serial ids, and the rows are appended. |
| ThreadRepository.InsertKeepsWellFormed | internal/thread/repository/pgx/repository.go:87-117 | The appended rows keep the path rule and the serial ids. |
| ThreadRepository.CreatePostsKeepsConsistent | internal/thread/repository/pgx/repository.go:45-118 | Batch creation keeps the store consistent. |
| ThreadRepository.CheckBatch | internal/thread/repository/pgx/repository.go:63-86 | The loop that checks each post and builds the rows returns the batch's first error, or the rows to insert. |
| ThreadRepository.CreatePosts | internal/thread/repository/pgx/repository.go:45-118 | Batch creation on the store object agrees with the specification and keeps it valid. |
| ThreadRepository.ScanPosts | internal/thread/repository/pgx/repository.go:238-243 | The scan loop returns the posts of the selected rows, in order. |
| ThreadRepository.GetVote | internal/thread/repository/pgx/repository.go:397-412 | The lookup succeeds exactly when the user has voted in the thread, and then carries that stored voice. Otherwise it returns ErrVoiceNotFound. |
| ThreadRepository.AdjustVotes | internal/thread/repository/pgx/repository.go:414-441 | The vote trigger moves the voted thread's total by the delta and leaves every other thread unchanged. |
| ThreadRepository.InsertVote | internal/thread/repository/pgx/repository.go:414-441 | An existing vote gives ErrVoiceAlreadyExists. Otherwise an unknown user gives ErrUserNotFound. Neither changes the store. On success the vote row is appended with the next vote id, and the voted thread's total moves by the voice. The thread comes back with the moved total. No other table or counter changes. |
| ThreadRepository.ReviseVote | internal/thread/repository/pgx/repository.go:443-460 | The guarded UPDATE rewrites only the user's vote in the thread, and only when its voice differs. The thread total moves by what changed, and the reply is the thread re-read by slug-or-id. |
| ThreadRepository.InsertVoteKeepsConsistent | internal/thread/repository/pgx/repository.go:414-441 | Inserting a vote keeps every thread total equal to the sum of its votes, with one vote per user and thread. |
| ThreadRepository.ReviseVoteKeepsConsistent | internal/thread/repository/pgx/repository.go:443-460 | Revising a vote keeps the store consistent. |
| ThreadRepository.AddVote | internal/thread/repository/pgx/repository.go:414-441 | The vote insert on the store object agrees with InsertVote and keeps it valid. |
| ThreadRepository.UpdateVote | internal/thread/repository/pgx/repository.go:443-460 | The guarded vote update on the store object agrees with ReviseVote and keeps it valid. |
| ThreadPostListing.FlatListingProperties | internal/thread/repository/pgx/repository.go:186-246 | Flat listing: rows of the thread only, with id > since ascending, or id < since descending when since ≠ 0. Rows are ordered by (created, id) and there are at most `limit`. No qualifying row is skipped before a returned one. A page shorter than `limit` holds every qualifying row. |
| ThreadPostListing.TreeListingProperties | internal/thread/repository/pgx/repository.go:248-322 | Tree listing: rows of the thread past the since post's path, in path order (descending reversed), at most `limit`. No qualifying row is skipped before a returned one. A page shorter than `limit` holds every qualifying row. |
| ThreadPostListing.TreeCursorStrict | internal/thread/repository/pgx/repository.go:255-274 | The tree cursor is strict: rows lie strictly beyond the since post's path, so that post never comes back. An unknown since id lists nothing. |
| ThreadPostListing.TreeDescIsReversedAsc | internal/thread/repository/pgx/repository.go:262-274 | Descending tree order is exactly the reverse of ascending tree order over the same rows. |
| ThreadPostListing.TreeReplyOrder | internal/thread/repository/pgx/repository.go:248-274 | Tree order is depth-first: ascending, a reply follows its parent; descending, it precedes it. |
| ThreadPostListing.PickedRootsProperties | internal/thread/repository/pgx/repository.go:324-346 | The inner query picks the first `limit` top-level posts of the thread past the since root, by id, ascending or descending. Each picked id is such a post, and the ids come in that order. No qualifying top-level post is passed over for a later one. Fewer than `limit` picks means every qualifying top-level post is picked. |
| ThreadPostListing.ParentTreeMembers | internal/thread/repository/pgx/repository.go:324-346 | A page holds exactly the rows whose `path[1]` is a picked root. It is ordered by path, or by `path[1]` descending and then path when `desc`. |
| ThreadPostListing.ParentTreeInThread | internal/thread/repository/pgx/repository.go:324-346 | Every returned row belongs to the thread, although the outer query has no thread filter. |
| ThreadPostListing.ParentTreeWholeSubtrees | internal/thread/repository/pgx/repository.go:324-346 | Every reply to a row on the page is on the page. |
| ThreadPostListing.ParentTreeHasRoots | internal/thread/repository/pgx/repository.go:324-346 | Each picked top-level post is on its page. |
| ThreadPostListing.ParentTreeReplyOrder | internal/thread/repository/pgx/repository.go:324-346 | Within a page, in either direction, a reply follows the post it answers. |
| ThreadPostListing.LimitCountsRoots | internal/thread/repository/pgx/repository.go:324-329 | LIMIT counts top-level posts, not rows: a page of limit 1 can hold a post and its reply. |
| ThreadPostListing.Listing | internal/thread/repository/pgx/repository.go:207-216 | A missing thread lists nothing and gives ErrThreadNotFound. Otherwise the listing holds the posts of the rows chosen for the thread's id. |
| ThreadPostListing.GetPostsFlat | internal/thread/repository/pgx/repository.go:207-246 | The scan loop returns the flat listing. |
| ThreadPostListing.GetPostsTree | internal/thread/repository/pgx/repository.go:276-322 | The scan loop returns the tree listing. |
| ThreadPostListing.GetPostsParentTree | internal/thread/repository/pgx/repository.go:348-395 | The scan loop returns the parent-tree listing. |
| ThreadService.SortOf | internal/thread/service/service.go:30-39 | "tree" and "parent_tree" select their listings; every other string, "" included, selects flat. |
| ThreadService.GetPosts | internal/thread/service/service.go:30-39 | The chosen listing gets slug-or-id, limit, since and desc unchanged. |
| ThreadService.CastVote | internal/thread/service/service.go:41-52 | A missing thread gives ErrThreadNotFound and changes nothing. The insert is tried only when no vote exists, so ErrVoiceAlreadyExists never surfaces. |
| ThreadService.CastVoteKeepsConsistent | internal/thread/service/service.go:41-52 | Voting keeps the store consistent. |
| ThreadService.AddVote | internal/thread/service/service.go:41-52 | The service upsert on the store object agrees with CastVote and keeps it valid. |
| ThreadService.FirstVote | internal/thread/service/service.go:41-52 | A known user's first vote adds its voice to the thread total, in the reply and in the store. |
| ThreadService.VoteByUnknownUser | internal/thread/service/service.go:41-52 | An unknown user's first vote gives ErrUserNotFound and changes nothing. |
| ThreadService.VoteOnMissingThread | internal/thread/service/service.go:41-52 | A vote on a missing thread gives ErrThreadNotFound and changes nothing. |
| ThreadService.ChangeVote | internal/thread/service/service.go:41-52 | Voting again returns the thread with its total moved by the new voice minus the old one. |
| ThreadService.RepeatVoteUnchanged | internal/thread/service/service.go:41-52 | Repeating the same voice changes no row and returns the thread as stored. |
| ThreadService.VoteThenChange | internal/thread/service/service.go:41-52 | A vote followed by the opposite vote moves the total by the second voice overall. The second reply differs from the first by the second voice minus the first. |
| ThreadService.VoiceDeltaOfUnique | internal/thread/repository/pgx/repository.go:443-448 | Under the unique key, the UPDATE moves the total by new minus old voice when the voice differs, and by nothing otherwise. |
| ForumRepository.Get | internal/forum/repository/pgx/repository.go:69-86 | The lookup succeeds exactly when a forum has the slug, and returns that forum. Otherwise it returns ErrForumNotFound. |
| ForumRepository.CreateForum | internal/forum/repository/pgx/repository.go:39-67 | An unknown owner gives ErrUserNotFound and leaves the store unchanged. A taken slug gives ErrForumAlreadyExists with the stored forum. The refused INSERT has drawn an id, so the forum sequence advances by one and nothing else changes. On success the new forum has the next id, no posts and no threads, and is appended. |
| ForumRepository.CreateThenGet | internal/forum/repository/pgx/repository.go:39-86 | Get then finds a created forum under its slug. |
| ForumRepository.CreateTwice | internal/forum/repository/pgx/repository.go:39-67 | Creating the same slug again is refused with the forum the first call stored. |
| ForumRepository.CreateKeepsSlugsUnique | internal/forum/repository/pgx/repository.go:34-67 | Creation keeps forum slugs unique. |
| ForumRepository.Create | internal/forum/repository/pgx/repository.go:39-67 | Forum creation on the store object agrees with CreateForum and keeps it valid. |
| ForumRepository.InsertThread | internal/forum/repository/pgx/repository.go:88-128 | Error order and outcomes:<br>1. The slug pre-check finds the thread and answers ErrThreadAlreadyExists with it, leaving the store unchanged.<br>2. A taken slug past the pre-check (numeric slugs only) gives ErrInternal.<br>3. An unknown author gives ErrUserNotFound.<br>4. An unknown forum gives ErrForumNotFound.<br>Errors 2-4 are raised by the INSERT, which has drawn an id: the thread sequence advances by one and nothing else changes.<br>On success the thread gets the next id and no votes, and is appended. |
| ForumRepository.InsertThreadKeepsConsistent | internal/forum/repository/pgx/repository.go:88-128 | Thread creation keeps the store consistent: a new thread has no votes. |
| ForumRepository.InsertThreadKeepsSlugsUnique | internal/forum/repository/pgx/repository.go:88-128 | Thread creation keeps non-empty thread slugs unique. |
| ForumRepository.CreateThread | internal/forum/repository/pgx/repository.go:88-128 | Thread creation on the store object agrees with InsertThread and keeps it valid. |
| ForumRepository.CreatedThreadById | internal/forum/repository/pgx/repository.go:88-159 | A created thread is found again by the decimal form of its id. |
| ForumRepository.CreatedThreadBySlug | internal/forum/repository/pgx/repository.go:88-159 | A created thread with a non-numeric slug is found again by that slug. |
| ForumRepository.ForumUsersProperties | internal/forum/repository/pgx/repository.go:161-187 | The selected rows are the forum's users strictly beyond `since`, ordered by nickname. There are at most `limit` and none is skipped. A page shorter than `limit` holds every qualifying user. |
| ForumRepository.ForumUsers | internal/forum/repository/pgx/repository.go:189-226 | A missing forum gives no users and ErrForumNotFound. Otherwise there is no error, and the users of the selected rows come back. |
| ForumRepository.UsersCursorStrict | internal/forum/repository/pgx/repository.go:168-187 | The user cursor is strict: the since nickname itself never comes back. |
| ForumRepository.ScanUsers | internal/forum/repository/pgx/repository.go:218-224 | The scan loop returns the users of the selected rows, in order. |
| ForumRepository.GetForumUsers | internal/forum/repository/pgx/repository.go:189-226 | The method agrees with the listing specification. |
| ForumRepository.ForumThreadsProperties | internal/forum/repository/pgx/repository.go:228-254 | The selected rows are the forum's threads from the time cursor inclusive, by creation time, at most `limit`. None is skipped. A page shorter than `limit` holds every qualifying thread. |
| ForumRepository.ForumThreadRows | internal/forum/repository/pgx/repository.go:256-317 | No `since` reads without a time bound. A `since` the store cannot read as a time lists nothing, because the query error is only logged. A readable one bounds the rows by that time. |
| ForumRepository.ForumThreads | internal/forum/repository/pgx/repository.go:256-317 | A missing forum gives no threads and ErrForumNotFound. Otherwise there is never an error, and the rows read for the cursor come back. |
| ForumRepository.ThreadsCursorInclusive | internal/forum/repository/pgx/repository.go:235-254 | The thread cursor is inclusive: a thread created exactly at `since` is listed. |
| ForumRepository.ScanThreads | internal/forum/repository/pgx/repository.go:297-314 | The scan loop returns the selected threads, in order. |
| ForumRepository.GetForumThreads | internal/forum/repository/pgx/repository.go:256-317 | The method agrees with the listing specification. |
| UserRepository.GetByNickname | internal/user/repository/pgx/repository.go:68-88 | The lookup succeeds exactly when a user has the nickname, and returns that user. Otherwise it returns ErrUserNotFound beside a zero user. |
| UserRepository.GetByEmail | internal/user/repository/pgx/repository.go:90-110 | The lookup succeeds exactly when a user has the e-mail, and returns that user. Otherwise it returns ErrUserNotFound beside a zero user. |
| UserRepository.ConflictsProperties | internal/user/repository/pgx/repository.go:40-56 | The conflict list holds at most two users, with distinct ids. Each holds the nickname or the e-mail. The nickname's owner comes first, and the e-mail's owner is always listed. The list is empty exactly when neither is taken. |
| UserRepository.CollectConflicts | internal/user/repository/pgx/repository.go:41-55 | The conditional appends build the conflict list. |
| UserRepository.InsertUser | internal/user/repository/pgx/repository.go:28-66 | A taken nickname or e-mail gives ErrUserAlreadyExists with the conflict list. The refused INSERT has drawn an id, so the user sequence advances by one and no row changes. Otherwise a single new user with the next id is appended and returned. |
| UserRepository.InsertUserKeepsConsistent | internal/user/repository/pgx/repository.go:28-66 | Creation keeps nicknames, e-mails and ids unique. |
| UserRepository.RefusedCreateSkipsId | internal/user/repository/pgx/repository.go:33-56 | After a refused create, the next user created gets the id one past the one the refused INSERT drew. |
| UserRepository.CreatedUserFound | internal/user/repository/pgx/repository.go:28-110 | Both lookups then find a created user. |
| UserRepository.Create | internal/user/repository/pgx/repository.go:33-66 | User creation on the store object agrees with InsertUser and keeps it valid. |
| UserRepository.Rebind | internal/user/repository/pgx/repository.go:112-143 | The UPDATE's outcomes:<br>- No row for the WHERE nickname gives ErrUserNotFound.<br>- An e-mail held by another row gives ErrUserAlreadyExists, beside the user named by the nickname parameter. Neither outcome changes the store.<br>- Otherwise every row with the nickname has fullname, about and email rewritten and the edited user comes back. No other table or row changes.<br>`UpdateUser` applies it with the values in the order the source passes them. |
| UserRepository.RebindKeepsConsistent | internal/user/repository/pgx/repository.go:112-143 | The update keeps nicknames, e-mails and ids unique. |
| UserRepository.UpdateMissesOwnProfile | internal/user/repository/pgx/repository.go:112-121 | As written, a user updating their own profile with a new e-mail gets ErrUserNotFound. |
| UserRepository.IntendedUpdateEdits | internal/user/repository/pgx/repository.go:112-118 | The corrected update edits the named user, and the nickname lookup then returns the new profile. |
| UserRepository.Update | internal/user/repository/pgx/repository.go:120-143 | The update on the store object agrees with UpdateUser, the binding as written, and keeps it valid. |
| PostRepository.GetPost | internal/post/repository/pgx/repository.go:25-41 | The lookup succeeds exactly when a post has the id, and returns it. Otherwise it returns ErrPostNotFound beside a zero post. |
| PostRepository.GetPostAuthor | internal/post/repository/pgx/repository.go:43-58 | The lookup succeeds exactly when the author exists. Otherwise it returns ErrUserNotFound. |
| PostRepository.GetPostForum | internal/post/repository/pgx/repository.go:60-75 | The lookup succeeds exactly when the forum exists, and returns what the forum lookup returns. A missing forum is reported as ErrUserNotFound. |
| PostRepository.GetPostThread | internal/post/repository/pgx/repository.go:77-92 | The lookup succeeds exactly when a thread has the post's thread id. A missing thread is reported as ErrUserNotFound. |
| PostRepository.PostThreadIsThreadById | internal/post/repository/pgx/repository.go:77-92 | The post's thread is the row the slug-or-id lookup finds under its id. A missing row is missing in both lookups, under different errors. |
| PostRepository.EditPost | internal/post/repository/pgx/repository.go:94-99 | A message that trims to nothing keeps the text and clears the edited flag. Otherwise the new message is stored. The flag is set exactly when the trimmed new text differs from the trimmed old text. No other field changes. |
| PostRepository.EditAgainClearsFlag | internal/post/repository/pgx/repository.go:96-97 | Sending the same message twice clears the edited flag and changes nothing else. |
| PostRepository.PaddingIsNoEdit | internal/post/repository/pgx/repository.go:96 | Resending the message with spaces around it is not an edit. |
| PostRepository.UpdatePostResult | internal/post/repository/pgx/repository.go:94-114 | The UPDATE returns the edited form of the row GetPost finds; a missing id gives ErrPostNotFound. |
| PostRepository.EditKeepsConsistent | internal/post/repository/pgx/repository.go:94-99 | Editing posts keeps the path rule and the serial ids. |
| PostRepository.UpdatePost | internal/post/repository/pgx/repository.go:101-114 | The UPDATE edits the post with the id in the store object and keeps it valid. It returns the edited post, or a zero post with ErrPostNotFound. |
| PostService.FirstFailure | internal/post/service/service.go:30-53 | The position of the first tag whose lookup fails: every earlier tag's lookup succeeds. |
| PostService.ExpandOutcome | internal/post/service/service.go:30-53 | The expansion fills the fields of the tags before the first failing one. It has no error exactly when no tag fails; otherwise the error is ErrUserNotFound, whichever lookup failed. |
| PostService.ExpandSucceeds | internal/post/service/service.go:30-54 | Success exactly when no requested lookup fails; then "user" fills Author, "thread" fills Thread and "forum" fills Forum. |
| PostService.ExpandKeepsUnrequested | internal/post/service/service.go:23-53 | The post is never replaced, and a field no tag asks for stays nil. |
| PostService.ExpandOrderFree | internal/post/service/service.go:30-53 | Tags in another order or repeated give the same error, and on success the same result. |
| PostService.GetFullPost | internal/post/service/service.go:18-28 | A missing post gives an empty result with ErrPostNotFound. Otherwise the result holds the post. |
| PostService.GetPostFull | internal/post/service/service.go:18-55 | The tag loop, with early returns, computes the expansion. |
| ServiceRepository.GetStatus | internal/service/repository/pgx/repository.go:23-39 | The status counts the users, forums, threads and posts, and not the votes. StatusAfterClear, StatusCountsCreatedUser, StatusCountsBatch and StatusIgnoresVotes relate it to Clear, user creation, post batches and votes. |
| ServiceRepository.ClearTables | internal/service/repository/pgx/repository.go:41-48 | Clear empties users, forums, threads, posts, votes and forum users, and keeps the id sequences. |
| ServiceRepository.StatusAfterClear | internal/service/repository/pgx/repository.go:23-48 | After Clear every count is zero. |
| ServiceRepository.ClearKeepsConsistent | internal/service/repository/pgx/repository.go:41-56 | Clear keeps the store consistent. |
| ServiceRepository.StatusCountsCreatedUser | internal/service/repository/pgx/repository.go:23-28 | A created user adds one to the user count and to no other. |
| ServiceRepository.StatusCountsBatch | internal/service/repository/pgx/repository.go:23-28 | A stored batch adds its size to the post count; a refused batch changes no count. |
| ServiceRepository.StatusIgnoresVotes | internal/service/repository/pgx/repository.go:23-28 | Votes are not counted: casting one changes no count. |
| ServiceRepository.Clear | internal/service/repository/pgx/repository.go:50-57 | The method empties the tables of the store object and keeps it valid. |
| ThreadDelivery.ParsePostsQuery | internal/thread/delivery/http/delivery.go:153-183 | A present `limit`, `since` or `desc` that is not a non-negative integer gives ErrInvalidLimitParam. Every query that passes reaches the service as limit 30, since 0, its `sort` and ascending order. |
| ThreadDelivery.QueryValuesIgnored | internal/thread/delivery/http/delivery.go:157-181 | As written, a valid limit n reaches the service as 30, and `desc=true` is refused. |
| ThreadDelivery.ParsePostsQueryIntended | internal/thread/delivery/http/delivery.go:153-181 | The corrected parse accepts exactly valid numbers and a `desc` of "", "true" or "false". A missing limit is 30. |
| ThreadDelivery.PostsQueryRoundTrip | internal/thread/delivery/http/delivery.go:153-181 | The corrected parse reads back any arguments written as a query. |
| ForumDelivery.ErrorResponse | internal/pkg/middleware/error_handler.go:21-38 | A returned error is answered with its table status (500 when it is not in the table). The body is the error's message for an error in the table. For one not in the table, which is exactly ErrInvalidDescParam, it is that message wrapped as "undefined error: …". |
| ForumDelivery.CreateForumResponse | internal/forum/delivery/http/delivery.go:82-120 | A slug other than "create" is a 404 with no body. The handler answers 201 exactly when creation succeeds, with the new forum. Whenever a body is decoded, the store ends as CreateForum leaves it; otherwise it is unchanged. A taken slug is a 409 with the stored forum, and an unknown owner a 404. |
| ForumDelivery.Create | internal/forum/delivery/http/delivery.go:82-120 | The handler answers as CreateForumResponse says and leaves the store as it says. |
| ForumDelivery.ThreadResponse | internal/forum/delivery/http/delivery.go:57-68 | Success is a 201 and a taken slug a 409, both with the thread. An unknown author or forum is a 404. The answer is 200 exactly for any other error. |
| ForumDelivery.ThreadResponseIntended | internal/forum/delivery/http/delivery.go:57-68 | The corrected switch answers 201 exactly on success and never 200. Other errors go to the middleware. |
| ForumDelivery.CreateThreadResponse | internal/forum/delivery/http/delivery.go:35-80 | An action other than "create" is a 404 with no body. Otherwise the thread is created in the path's forum and the status switch answers. |
| ForumDelivery.CreateThread | internal/forum/delivery/http/delivery.go:35-80 | The handler answers as CreateThreadResponse says and leaves the store as it says. |
| ForumDelivery.CreateThreadInternalIsOK | internal/forum/delivery/http/delivery.go:57-68 | A taken numeric slug that names no thread id is answered 200 with an empty thread. |
| ForumDelivery.ParseLimit | internal/forum/delivery/http/delivery.go:146-153 | A missing limit is 100. A present one is accepted exactly when it is a non-negative integer, which it then is; otherwise ErrInvalidLimitParam. |
| ForumDelivery.ParseDesc | internal/forum/delivery/http/delivery.go:157-165 | Accepted exactly for "", "true" and "false", and true exactly for "true"; otherwise ErrInvalidDescParam. |
| ForumDelivery.ParseListingQuery | internal/forum/delivery/http/delivery.go:146-165 | `limit` is checked before `desc`, and `since` is passed on unchanged. |
| ForumDelivery.ListingQueryRoundTrip | internal/forum/delivery/http/delivery.go:146-165 | Listing arguments written as a query are read back unchanged. |
| ForumDelivery.BadDescIsServerError | internal/forum/delivery/http/delivery.go:157-165 | An unreadable `desc` on either listing is answered 500 with the "undefined error" message, while the completed table gives 400. |
| ForumDelivery.UsersResponse | internal/forum/delivery/http/delivery.go:141-182 | A query that fails to parse is answered with its error's response. An unknown forum is ErrForumNotFound's 404. Otherwise the answer is a 200 with the forum's users under the parsed limit, since and desc. |
| ForumDelivery.GetForumUsers | internal/forum/delivery/http/delivery.go:141-182 | The handler answers as UsersResponse says. |
| ForumDelivery.ThreadsResponse | internal/forum/delivery/http/delivery.go:184-225 | A query that fails to parse is answered with its error's response. An unknown forum is ErrForumNotFound's 404. Otherwise the answer is a 200 with the threads ForumThreadRows reads under the parsed limit, since and desc. |
| ForumDelivery.GetForumThreads | internal/forum/delivery/http/delivery.go:184-225 | The handler answers as ThreadsResponse says. |

## Left out

- I/O and store failures are not modelled. The branches that turn a failing statement, scan or response write into ErrInternal cannot be reached, and neither can the middleware's panic recovery.
- Concurrency and transactions are not modelled. Every operation runs alone, so CreatePosts' checks and its INSERT see the same store.
- JSON decoding and encoding, and the request and response plumbing, are not modelled. A body that cannot be read or decoded is the `Decoded` value passed to a handler, and an error message is its `Error` value.
- The user, post and service handlers, the forum `Get` handler and the pass-through services are not modelled.
- Clocks: the `created` time of a post batch is a parameter. A thread's `created` comes from the request body. Parsing the forum threads `since` is a parameter `parseTime`.
- PostgreSQL `citext` case-insensitivity is not modelled: every text comparison is exact.
- ForumRepository.ForumUsers orders nicknames, and compares them with the `since` cursor, by character code. That is a "C" collation. The database collation that PostgreSQL would apply is not part of the model.
- The database triggers the code relies on are modelled by their effects: post paths and the vote totals. The forum post and thread counters, and the filling of `forum_users`, are left out. `forum_users` is a table the listings read.
- The thread slug index ignores empty slugs: the model treats "" as no slug.
- ForumRepository.InsertThread: when both the author and the forum are unknown, the model reports the author's foreign key first. PostgreSQL's order of foreign-key checks is not part of the model.
- ForumRepository.CreateForum: the INSERT's foreign-key branch (a user removed between the lookup and the INSERT) cannot be reached when operations run alone.
- A negative LIMIT makes PostgreSQL fail the query. The listings never check the rows' error, so the model lists nothing, without error.
- Ties in the forum thread listing (equal `created`) are ordered by id. PostgreSQL leaves their order unspecified.
- The error files spell the JSON parse error two ways (ErrParseJson, ErrParseJSON). The model has one kind, ParseJSON, mapped to 400.
- ThreadRepository.InsertVote: a vote INSERT refused by the database also draws an id from the votes sequence in PostgreSQL. The model keeps `nextVoteId` unchanged on refusal, because vote ids are never returned or read.
- Store is not a source entity: the `Database` class stands for the PostgreSQL tables behind the repositories.

## Findings

| source | as written | input that shows it | evidently intended | confidence | as-written member | corrected member |
|---|---|---|---|---|---|---|
| internal/user/repository/pgx/repository.go:112-121 | The values are passed as (Nickname, Fullname, About, Email) to SET fullname = $1, about = $2, email = $3 WHERE nickname = $4. | User "alice" posts a profile with e-mail "smith@example.org": the row searched for is the one whose nickname is the e-mail, and ErrUserNotFound comes back. | Pass (Fullname, About, Email, Nickname), so the named user's profile is rewritten. | medium, not executed | UserRepository.UpdateMissesOwnProfile | UserRepository.IntendedUpdateEdits |
| internal/thread/delivery/http/delivery.go:157-181 | `limit, err := ...`, `since, err := ...` and `desc, err := ...` declare new variables inside their `if` blocks, and `desc` is parsed as an integer. | `?limit=10` reaches the service as limit 30; `?desc=true` is refused with ErrInvalidLimitParam. | Assign the parsed limit and since to the outer variables, and read `desc` as the forum listings do. | high, not executed | ThreadDelivery.QueryValuesIgnored | ThreadDelivery.PostsQueryRoundTrip |
| internal/pkg/errors/http_codes.go:5-38 | ErrInvalidDescParam has no entry in the table. | `GET /api/forum/f/users?desc=yes` is answered 500 with the message "undefined error: …". | A bad `desc` is a 400, like a bad `limit`. | medium, not executed | ForumDelivery.BadDescIsServerError | Errors.StatusOf |
| internal/forum/delivery/http/delivery.go:57-68 | The status switch has no default case, so any other error falls through to writing the zero thread. | A new thread whose numeric slug "7" is taken by thread 1 (no thread has id 7) gets ErrInternal, answered 200 with an empty thread. | Return every other error to the middleware. | medium, not executed | ForumDelivery.CreateThreadInternalIsOK | ForumDelivery.ThreadResponseIntended |
