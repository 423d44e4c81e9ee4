/**
 * The forum repository: forum lookup and creation, thread creation inside a
 * forum, and the two forum listings (the forum's users by nickname, the
 * forum's threads by creation time). Text comparison is exact here; the
 * case-insensitive `citext` columns of the store are not modelled.
 */
module ForumRepository {
  import opened Wrappers
  import opened Errors
  import opened Models
  import opened Text
  import opened Seqs
  import opened Order
  import opened Store
  import opened ThreadRepository
  import opened UserRepository

  // ---------------------------------------------------------------- lookup

  function SlugIs(slug: string): Forum -> bool {
    (f: Forum) => f.slug == slug
  }

  predicate ForumKnown(forums: seq<Forum>, slug: string) {
    exists f :: f in forums && f.slug == slug
  }

  /** Get: the forum with this slug; no row is ErrForumNotFound. */
  function Get(forums: seq<Forum>, slug: string): (r: Result<Forum>)
    ensures r.Ok? <==> ForumKnown(forums, slug)
    ensures r.Ok? ==> r.value in forums && r.value.slug == slug
    ensures r.Err? ==> r.error == ForumNotFound
  {
    match Find(forums, SlugIs(slug))
    case Some(f) => Ok(f)
    case None => Err(ForumNotFound)
  }

  /** The primary key of forums is the slug. */
  ghost predicate ForumSlugsUnique(forums: seq<Forum>) {
    forall i, j :: 0 <= i < j < |forums| ==> forums[i].slug != forums[j].slug
  }

  // ---------------------------------------------------------- create forum

  /**
   * Create: the owner is looked up first and its stored nickname is written
   * into the forum; the INSERT then fails on a taken slug (forums_pkey),
   * answering with the stored forum. The refused INSERT has already drawn an
   * id from the sequence, which is not given back. A new forum has no posts
   * and no threads.
   */
  function CreateForum(t: Tables, forum: Forum): (r: (Reply<Option<Forum>>, Tables))
    ensures r.0.err == Some(UserNotFound) ==> r.1 == t
    ensures r.0.err == Some(ForumAlreadyExists) ==> r.1 == t.(nextForumId := t.nextForumId + 1)
    ensures r.0.err == Some(UserNotFound) <==> !AuthorKnown(t.users, forum.user)
    ensures r.0.err == Some(UserNotFound) ==> r.0.value.None?
    ensures r.0.err == Some(ForumAlreadyExists) <==> AuthorKnown(t.users, forum.user) && ForumKnown(t.forums, forum.slug)
    ensures r.0.err == Some(ForumAlreadyExists) ==> r.0.value == Some(Get(t.forums, forum.slug).value)
    ensures r.0.err.None? ==>
      && r.0.value.Some?
      && r.0.value.value.id == t.nextForumId
      && r.0.value.value == forum.(id := t.nextForumId, posts := 0, threads := 0)
      && r.1 == t.(forums := t.forums + [r.0.value.value], nextForumId := t.nextForumId + 1)
  {
    var owner := GetByNickname(t.users, forum.user);
    if owner.err.Some? then (Reply(None, Some(UserNotFound)), t)
    else
      var f := forum.(user := owner.value.nickname);
      if ForumKnown(t.forums, f.slug) then
        match Get(t.forums, f.slug)
        case Ok(existing) => (Reply(Some(existing), Some(ForumAlreadyExists)), t.(nextForumId := t.nextForumId + 1))
        case Err(_) => (Reply(None, Some(ForumAlreadyExists)), t.(nextForumId := t.nextForumId + 1))
      else
        var row := f.(id := t.nextForumId, posts := 0, threads := 0);
        (Reply(Some(row), None), t.(forums := t.forums + [row], nextForumId := t.nextForumId + 1))
  }

  /** A created forum is what Get then finds under its slug. */
  lemma CreateThenGet(t: Tables, forum: Forum)
    requires CreateForum(t, forum).0.err.None?
    ensures Get(CreateForum(t, forum).1.forums, forum.slug) == Ok(CreateForum(t, forum).0.value.value)
  {
    var row := CreateForum(t, forum).0.value.value;
    FindAppend(t.forums, [row], SlugIs(forum.slug));
    assert Find([row], SlugIs(forum.slug)) == Some(row);
  }

  /** Creating the same slug again is refused with the forum the first call stored. */
  lemma CreateTwice(t: Tables, forum: Forum, again: Forum)
    requires CreateForum(t, forum).0.err.None?
    requires again.slug == forum.slug && again.user == forum.user
    ensures var t' := CreateForum(t, forum).1;
      CreateForum(t', again).0 == Reply(CreateForum(t, forum).0.value, Some(ForumAlreadyExists))
  {
    var t' := CreateForum(t, forum).1;
    CreateThenGet(t, forum);
    assert CreateForum(t, forum).0.value.value in t'.forums;
    assert AuthorKnown(t'.users, again.user);
  }

  lemma CreateKeepsSlugsUnique(t: Tables, forum: Forum)
    requires ForumSlugsUnique(t.forums)
    ensures ForumSlugsUnique(CreateForum(t, forum).1.forums)
  {
    var r := CreateForum(t, forum);
    if r.0.err.None? {
      var forums := r.1.forums;
      forall i, j | 0 <= i < j < |forums| ensures forums[i].slug != forums[j].slug {
        if j == |t.forums| {
          assert forums[i] in t.forums;
        }
      }
    }
  }

  method Create(db: Database, forum: Forum) returns (r: Option<Forum>, err: Option<Error>)
    modifies db
    requires db.Valid()
    ensures db.Valid()
    ensures (Reply(r, err), db.Snapshot()) == CreateForum(old(db.Snapshot()), forum)
  {
    var owner := GetByNickname(db.users, forum.user);
    if owner.err.Some? {
      return None, Some(UserNotFound);
    }
    var f := forum.(user := owner.value.nickname);
    if ForumKnown(db.forums, f.slug) {
      db.nextForumId := db.nextForumId + 1;
      var existing := Get(db.forums, f.slug);
      if existing.Ok? {
        return Some(existing.value), Some(ForumAlreadyExists);
      }
      return None, Some(ForumAlreadyExists);
    }
    ghost var t := db.Snapshot();
    f := f.(id := db.nextForumId, posts := 0, threads := 0);
    db.forums := db.forums + [f];
    db.nextForumId := db.nextForumId + 1;
    assert db.Snapshot() == t.(forums := t.forums + [f], nextForumId := t.nextForumId + 1);
    return Some(f), None;
  }

  // --------------------------------------------------------- create thread

  /** The unique index on thread slugs, which leaves slug-less threads out. */
  predicate SlugTaken(threads: seq<Thread>, slug: string) {
    slug != "" && exists th :: th in threads && th.slug == slug
  }

  ghost predicate ThreadSlugsUnique(threads: seq<Thread>) {
    forall i, j :: 0 <= i < j < |threads| ==> threads[i].slug == "" || threads[i].slug != threads[j].slug
  }

  /** The pre-check: a non-empty slug is resolved as `slug_or_id`, so a numeric slug is looked up as an id. */
  predicate SlugFound(threads: seq<Thread>, slug: string) {
    slug != "" && GetThread(threads, slug).err.None?
  }

  /**
   * CreateThread: the slug pre-check answers with the thread it finds; then
   * the INSERT fails on the slug index (an internal error), on the author key,
   * then on the forum key. Each refused INSERT has already drawn an id from
   * the sequence, which is not given back. The row comes back with no votes.
   */
  function InsertThread(t: Tables, thread: Thread): (r: (Reply<Thread>, Tables))
    ensures r.0.err == Some(ThreadAlreadyExists) <==> SlugFound(t.threads, thread.slug)
    ensures r.0.err == Some(ThreadAlreadyExists) ==> r.1 == t
    ensures r.0.err.Some? && r.0.err != Some(ThreadAlreadyExists) ==> r.1 == t.(nextThreadId := t.nextThreadId + 1)
    ensures SlugFound(t.threads, thread.slug) ==>
      r.0.err == Some(ThreadAlreadyExists) && r.0.value == GetThread(t.threads, thread.slug).value
    // only a numeric slug that names no thread id gets past the pre-check onto a taken slug
    ensures !SlugFound(t.threads, thread.slug) && SlugTaken(t.threads, thread.slug) ==>
      Atoi(thread.slug).Some? && r.0 == Reply(ZeroThread, Some(Internal))
    ensures r.0.err == Some(UserNotFound) <==>
      !SlugFound(t.threads, thread.slug) && !SlugTaken(t.threads, thread.slug) && !AuthorKnown(t.users, thread.author)
    ensures r.0.err == Some(ForumNotFound) <==>
      !SlugFound(t.threads, thread.slug) && !SlugTaken(t.threads, thread.slug) && AuthorKnown(t.users, thread.author)
      && !ForumKnown(t.forums, thread.forum)
    ensures r.0.err.Some? && r.0.err != Some(ThreadAlreadyExists) ==> r.0.value == ZeroThread
    ensures r.0.err.None? ==>
      && r.0.value == thread.(id := t.nextThreadId, votes := 0)
      && r.1 == t.(threads := t.threads + [r.0.value], nextThreadId := t.nextThreadId + 1)
  {
    if SlugFound(t.threads, thread.slug) then
      (Reply(GetThread(t.threads, thread.slug).value, Some(ThreadAlreadyExists)), t)
    else
      var drawn := t.(nextThreadId := t.nextThreadId + 1);
      if SlugTaken(t.threads, thread.slug) then (Reply(ZeroThread, Some(Internal)), drawn)
      else if !AuthorKnown(t.users, thread.author) then (Reply(ZeroThread, Some(UserNotFound)), drawn)
      else if !ForumKnown(t.forums, thread.forum) then (Reply(ZeroThread, Some(ForumNotFound)), drawn)
      else
      var row := thread.(id := t.nextThreadId, votes := 0);
      (Reply(row, None), t.(threads := t.threads + [row], nextThreadId := t.nextThreadId + 1))
  }

  lemma {:induction false} NoVotesForThread(votes: seq<VoteRow>, thread: int)
    requires forall i :: 0 <= i < |votes| ==> votes[i].thread != thread
    ensures SumVoices(votes, thread) == 0
  {
    if votes != [] {
      NoVotesForThread(votes[1..], thread);
    }
  }

  /** A new thread takes a fresh id, so no vote names it and its zero total is the sum of its votes. */
  lemma InsertThreadKeepsConsistent(t: Tables, thread: Thread)
    requires Consistent(t)
    ensures Consistent(InsertThread(t, thread).1)
  {
    var r := InsertThread(t, thread);
    if r.0.err.None? {
      NoVotesForThread(t.votes, t.nextThreadId);
    }
  }

  lemma InsertThreadKeepsSlugsUnique(t: Tables, thread: Thread)
    requires ThreadSlugsUnique(t.threads)
    ensures ThreadSlugsUnique(InsertThread(t, thread).1.threads)
  {
    var r := InsertThread(t, thread);
    if r.0.err.None? {
      var threads := r.1.threads;
      forall i, j | 0 <= i < j < |threads| ensures threads[i].slug == "" || threads[i].slug != threads[j].slug {
        if j == |t.threads| {
          assert threads[i] in t.threads;
        }
      }
    }
  }

  /** The new thread is what a lookup by its id (written in decimal) finds. */
  lemma CreatedThreadById(t: Tables, thread: Thread)
    requires Consistent(t)
    requires Int64Min <= t.nextThreadId <= Int64Max
    requires InsertThread(t, thread).0.err.None?
    ensures var r := InsertThread(t, thread);
      GetThread(r.1.threads, Itoa(r.0.value.id)).err.None? && GetThread(r.1.threads, Itoa(r.0.value.id)).value == r.0.value
  {
    var r := InsertThread(t, thread);
    var row := r.0.value;
    AtoiItoa(row.id);
    assert Find(t.threads, SelectsKey(Itoa(row.id))).None? by {
      forall th | th in t.threads ensures !SelectsKey(Itoa(row.id))(th) {
        var i :| 0 <= i < |t.threads| && t.threads[i] == th;
      }
    }
    FindAppend(t.threads, [row], SelectsKey(Itoa(row.id)));
    assert Find([row], SelectsKey(Itoa(row.id))) == Some(row);
  }

  /** A new thread with a slug that does not read as a number is what a lookup by that slug finds. */
  lemma CreatedThreadBySlug(t: Tables, thread: Thread)
    requires InsertThread(t, thread).0.err.None?
    requires thread.slug != "" && Atoi(thread.slug).None?
    ensures var r := InsertThread(t, thread);
      GetThread(r.1.threads, thread.slug).err.None? && GetThread(r.1.threads, thread.slug).value == r.0.value
  {
    var r := InsertThread(t, thread);
    var row := r.0.value;
    assert Find(t.threads, SelectsKey(thread.slug)).None?;
    FindAppend(t.threads, [row], SelectsKey(thread.slug));
    assert Find([row], SelectsKey(thread.slug)) == Some(row);
  }

  method CreateThread(db: Database, thread: Thread) returns (r: Thread, err: Option<Error>)
    modifies db
    requires db.Valid()
    ensures db.Valid()
    ensures (Reply(r, err), db.Snapshot()) == InsertThread(old(db.Snapshot()), thread)
  {
    InsertThreadKeepsConsistent(db.Snapshot(), thread);
    if thread.slug != "" {
      var existing := GetThread(db.threads, thread.slug);
      if existing.err.None? {
        return existing.value, Some(ThreadAlreadyExists);
      }
    }
    // the INSERT draws the id before any constraint refuses the row
    var id := db.nextThreadId;
    db.nextThreadId := db.nextThreadId + 1;
    if SlugTaken(db.threads, thread.slug) {
      return ZeroThread, Some(Internal);
    }
    if !AuthorKnown(db.users, thread.author) {
      return ZeroThread, Some(UserNotFound);
    }
    if !ForumKnown(db.forums, thread.forum) {
      return ZeroThread, Some(ForumNotFound);
    }
    r := thread.(id := id, votes := 0);
    db.threads := db.threads + [r];
    err := None;
  }

  // ------------------------------------------------------------ forum users

  function Nickname(u: ForumUser): string { u.nickname }

  /** ORDER BY nickname, and ORDER BY nickname DESC */
  const UsersAsc: (ForumUser, ForumUser) -> bool := ByText(Nickname)
  const UsersDesc: (ForumUser, ForumUser) -> bool := ByTextDesc(Nickname)

  function UsersOrder(desc: bool): (ForumUser, ForumUser) -> bool {
    if desc then UsersDesc else UsersAsc
  }

  /** WHERE forum = $1 [AND nickname > / < $2]; an empty `since` adds no bound. */
  function UsersWhere(slug: string, since: string, desc: bool): ForumUser -> bool {
    (u: ForumUser) => u.forum == slug
      && (since == "" || if desc then StrLess(u.nickname, since) else StrLess(since, u.nickname))
  }

  function UserRows(forumUsers: seq<ForumUser>, slug: string, limit: int, since: string, desc: bool): seq<ForumUser> {
    Query(forumUsers, UsersWhere(slug, since, desc), UsersOrder(desc), limit)
  }

  /** The scan fills nickname, fullname, about and email; the id stays zero. */
  function UserOf(u: ForumUser): User {
    User(0, u.nickname, u.fullname, u.about, u.email)
  }

  function Users(rows: seq<ForumUser>): (r: seq<User>)
    ensures |r| == |rows| && forall i :: 0 <= i < |rows| ==> r[i] == UserOf(rows[i])
  {
    Map(rows, UserOf)
  }

  /** GetForumUsers: the forum must exist; then the users of the rows the query selects. */
  function ForumUsers(forums: seq<Forum>, forumUsers: seq<ForumUser>, slug: string, limit: int, since: string, desc: bool)
    : (r: (seq<User>, Option<Error>))
    ensures !ForumKnown(forums, slug) ==> r.0 == [] && r.1 == Some(ForumNotFound)
    ensures ForumKnown(forums, slug) ==> r.1.None? && r.0 == Users(UserRows(forumUsers, slug, limit, since, desc))
  {
    match Get(forums, slug)
    case Err(e) => ([], Some(e))
    case Ok(_) => (Users(UserRows(forumUsers, slug, limit, since, desc)), None)
  }

  lemma UsersSorts(s: seq<ForumUser>, desc: bool)
    ensures Sorted(SortBy(s, UsersOrder(desc)), UsersOrder(desc))
  {
    ByTextOrder(Nickname);
    SortSorted(s, UsersOrder(desc));
  }

  /**
   * The users listing: members of the forum strictly beyond the nickname
   * cursor, in nickname order, at most `limit`, none skipped.
   */
  lemma ForumUsersProperties(forumUsers: seq<ForumUser>, slug: string, limit: int, since: string, desc: bool)
    ensures forall u :: u in UserRows(forumUsers, slug, limit, since, desc) ==> u in forumUsers && u.forum == slug
    ensures since != "" && !desc ==> forall u :: u in UserRows(forumUsers, slug, limit, since, desc) ==> StrLess(since, u.nickname)
    ensures since != "" && desc ==> forall u :: u in UserRows(forumUsers, slug, limit, since, desc) ==> StrLess(u.nickname, since)
    ensures Sorted(UserRows(forumUsers, slug, limit, since, desc), UsersOrder(desc))
    ensures limit < 0 ==> UserRows(forumUsers, slug, limit, since, desc) == []
    ensures limit >= 0 ==> |UserRows(forumUsers, slug, limit, since, desc)| <= limit
    ensures forall q, u ::
      q in forumUsers && UsersWhere(slug, since, desc)(q)
      && q !in UserRows(forumUsers, slug, limit, since, desc) && u in UserRows(forumUsers, slug, limit, since, desc)
      ==> !UsersOrder(desc)(q, u)
    ensures |UserRows(forumUsers, slug, limit, since, desc)| < limit ==>
      forall q :: q in forumUsers && UsersWhere(slug, since, desc)(q) ==> q in UserRows(forumUsers, slug, limit, since, desc)
  {
    UsersSorts(Filter(forumUsers, UsersWhere(slug, since, desc)), desc);
    QueryOfSorted(forumUsers, UsersWhere(slug, since, desc), UsersOrder(desc), limit);
  }

  /** The nickname cursor is strict: the user named by `since` is never listed again. */
  lemma UsersCursorStrict(forumUsers: seq<ForumUser>, slug: string, limit: int, since: string, desc: bool)
    requires since != ""
    ensures forall u :: u in UserRows(forumUsers, slug, limit, since, desc) ==> u.nickname != since
  {
    ForumUsersProperties(forumUsers, slug, limit, since, desc);
    forall u | u in UserRows(forumUsers, slug, limit, since, desc) ensures u.nickname != since {
      LexIrreflexive(Codes(since));
    }
  }

  /** The scan loop: one user per row, in order. */
  method ScanUsers(rows: seq<ForumUser>) returns (users: seq<User>)
    ensures users == Users(rows)
  {
    users := [];
    for i := 0 to |rows|
      invariant users == Users(rows[..i])
    {
      users := users + [UserOf(rows[i])];
    }
    assert rows[..|rows|] == rows;
  }

  method GetForumUsers(db: Database, slug: string, limit: int, since: string, desc: bool) returns (users: seq<User>, err: Option<Error>)
    ensures (users, err) == ForumUsers(db.forums, db.forumUsers, slug, limit, since, desc)
  {
    var forum := Get(db.forums, slug);
    if forum.Err? {
      return [], Some(forum.error);
    }
    users := ScanUsers(UserRows(db.forumUsers, slug, limit, since, desc));
    err := None;
  }

  // ---------------------------------------------------------- forum threads

  function ThreadCreated(th: Thread): int { th.created }

  /** ORDER BY created, and ORDER BY created DESC */
  const ThreadsAsc: (Thread, Thread) -> bool := ByInt(ThreadCreated)
  const ThreadsDesc: (Thread, Thread) -> bool := ByIntDesc(ThreadCreated)

  function ThreadsOrder(desc: bool): (Thread, Thread) -> bool {
    if desc then ThreadsDesc else ThreadsAsc
  }

  /** WHERE forum = $1 [AND created >= / <= $3]: both bounds include the cursor time. */
  function ThreadsWhere(slug: string, bound: Option<int>, desc: bool): Thread -> bool {
    (th: Thread) => th.forum == slug
      && (bound.None? || if desc then th.created <= bound.value else th.created >= bound.value)
  }

  function ThreadRows(threads: seq<Thread>, slug: string, limit: int, bound: Option<int>, desc: bool): seq<Thread> {
    Query(threads, ThreadsWhere(slug, bound, desc), ThreadsOrder(desc), limit)
  }

  /**
   * The rows GetForumThreads reads. `parseTime` is the store's reading of the
   * `since` text as a timestamp; a text it cannot read fails the query, the
   * failure is only logged, and the row loop then sees no row.
   */
  function ForumThreadRows(threads: seq<Thread>, slug: string, limit: int, since: string, desc: bool, parseTime: string -> Option<int>)
    : (r: seq<Thread>)
    ensures since == "" ==> r == ThreadRows(threads, slug, limit, None, desc)
    ensures since != "" && parseTime(since).None? ==> r == []
    ensures since != "" && parseTime(since).Some? ==> r == ThreadRows(threads, slug, limit, parseTime(since), desc)
  {
    if since == "" then ThreadRows(threads, slug, limit, None, desc)
    else
      match parseTime(since)
      case None => []
      case Some(time) => ThreadRows(threads, slug, limit, Some(time), desc)
  }

  /** GetForumThreads: the forum must exist; then the rows read for the cursor, never with an error. */
  function ForumThreads(forums: seq<Forum>, threads: seq<Thread>, slug: string, limit: int, since: string, desc: bool,
    parseTime: string -> Option<int>): (r: (seq<Thread>, Option<Error>))
    ensures !ForumKnown(forums, slug) ==> r.0 == [] && r.1 == Some(ForumNotFound)
    ensures ForumKnown(forums, slug) ==> r.1.None? && r.0 == ForumThreadRows(threads, slug, limit, since, desc, parseTime)
  {
    match Get(forums, slug)
    case Err(e) => ([], Some(e))
    case Ok(_) => (ForumThreadRows(threads, slug, limit, since, desc, parseTime), None)
  }

  lemma ThreadsSorts(s: seq<Thread>, desc: bool)
    ensures Sorted(SortBy(s, ThreadsOrder(desc)), ThreadsOrder(desc))
  {
    ByIntOrder(ThreadCreated);
    SortSorted(s, ThreadsOrder(desc));
  }

  /**
   * The threads listing: threads of the forum at or beyond the time cursor,
   * by creation time, at most `limit`, none skipped.
   */
  lemma ForumThreadsProperties(threads: seq<Thread>, slug: string, limit: int, bound: Option<int>, desc: bool)
    ensures forall th :: th in ThreadRows(threads, slug, limit, bound, desc) ==> th in threads && th.forum == slug
    ensures bound.Some? && !desc ==> forall th :: th in ThreadRows(threads, slug, limit, bound, desc) ==> th.created >= bound.value
    ensures bound.Some? && desc ==> forall th :: th in ThreadRows(threads, slug, limit, bound, desc) ==> th.created <= bound.value
    ensures Sorted(ThreadRows(threads, slug, limit, bound, desc), ThreadsOrder(desc))
    ensures limit < 0 ==> ThreadRows(threads, slug, limit, bound, desc) == []
    ensures limit >= 0 ==> |ThreadRows(threads, slug, limit, bound, desc)| <= limit
    ensures forall q, th ::
      q in threads && ThreadsWhere(slug, bound, desc)(q)
      && q !in ThreadRows(threads, slug, limit, bound, desc) && th in ThreadRows(threads, slug, limit, bound, desc)
      ==> !ThreadsOrder(desc)(q, th)
    ensures |ThreadRows(threads, slug, limit, bound, desc)| < limit ==>
      forall q :: q in threads && ThreadsWhere(slug, bound, desc)(q) ==> q in ThreadRows(threads, slug, limit, bound, desc)
  {
    ThreadsSorts(Filter(threads, ThreadsWhere(slug, bound, desc)), desc);
    QueryOfSorted(threads, ThreadsWhere(slug, bound, desc), ThreadsOrder(desc), limit);
  }

  /**
   * The time cursor is inclusive: when the page is not full, a thread of the
   * forum created exactly at the cursor time is listed, in either direction.
   */
  lemma ThreadsCursorInclusive(threads: seq<Thread>, slug: string, limit: int, time: int, desc: bool, th: Thread)
    requires th in threads && th.forum == slug && th.created == time
    requires |ThreadRows(threads, slug, limit, Some(time), desc)| < limit
    ensures th in ThreadRows(threads, slug, limit, Some(time), desc)
  {
    ForumThreadsProperties(threads, slug, limit, Some(time), desc);
    assert ThreadsWhere(slug, Some(time), desc)(th);
  }

  /** The scan loop: every row read is appended as it comes. */
  method ScanThreads(rows: seq<Thread>) returns (threads: seq<Thread>)
    ensures threads == rows
  {
    threads := [];
    for i := 0 to |rows|
      invariant threads == rows[..i]
    {
      threads := threads + [rows[i]];
    }
  }

  method GetForumThreads(db: Database, slug: string, limit: int, since: string, desc: bool, parseTime: string -> Option<int>)
    returns (threads: seq<Thread>, err: Option<Error>)
    ensures (threads, err) == ForumThreads(db.forums, db.threads, slug, limit, since, desc, parseTime)
  {
    var forum := Get(db.forums, slug);
    if forum.Err? {
      return [], Some(forum.error);
    }
    threads := ScanThreads(ForumThreadRows(db.threads, slug, limit, since, desc, parseTime));
    err := None;
  }
}
