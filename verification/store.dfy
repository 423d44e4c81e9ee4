/**
 * The relational store the repositories run against, as an in-memory object:
 * one sequence per table, in insertion order, and one counter per serial id.
 * `Consistent` collects what the database's triggers and constraints keep
 * true and the repositories rely on: the post path rule, serial ids, the
 * thread vote totals, one vote per user and thread, unique user names and
 * e-mails.
 */
module Store {
  import opened Models

  datatype Tables = Tables(
    users: seq<User>, forums: seq<Forum>, threads: seq<Thread>, posts: seq<PostRow>,
    votes: seq<VoteRow>, forumUsers: seq<ForumUser>,
    nextUserId: int, nextForumId: int, nextThreadId: int, nextPostId: int, nextVoteId: int)

  const Empty := Tables([], [], [], [], [], [], 1, 1, 1, 1, 1)

  /**
   * The path rule: a root post's path is its own id; a reply's path is its
   * parent's path followed by its own id, the parent being an earlier post of
   * the same thread.
   */
  ghost predicate PathOk(posts: seq<PostRow>, i: int)
    requires 0 <= i < |posts|
  {
    var p := posts[i];
    if p.post.parent == 0 then p.path == [p.post.id]
    else exists j ::
      0 <= j < i && posts[j].post.id == p.post.parent
      && posts[j].post.thread == p.post.thread && p.path == posts[j].path + [p.post.id]
  }

  /** Serial post ids (positive, below the next one, increasing) and the path rule. */
  ghost predicate PostsWellFormed(posts: seq<PostRow>, nextId: int) {
    && 0 < nextId
    && (forall i :: 0 <= i < |posts| ==> 0 < posts[i].post.id < nextId)
    && (forall i, j :: 0 <= i < j < |posts| ==> posts[i].post.id < posts[j].post.id)
    && (forall i :: 0 <= i < |posts| ==> PathOk(posts, i))
  }

  /** The total of the voices cast in one thread. */
  function SumVoices(votes: seq<VoteRow>, thread: int): int {
    if votes == [] then 0
    else (if votes[0].thread == thread then votes[0].voice else 0) + SumVoices(votes[1..], thread)
  }

  ghost predicate VotesConsistent(threads: seq<Thread>, votes: seq<VoteRow>) {
    forall i :: 0 <= i < |threads| ==> threads[i].votes == SumVoices(votes, threads[i].id)
  }

  /** The unique key on (nickname, thread) of the votes table. */
  ghost predicate VotesUnique(votes: seq<VoteRow>) {
    forall i, j :: 0 <= i < j < |votes| ==>
      votes[i].nickname != votes[j].nickname || votes[i].thread != votes[j].thread
  }

  /** A user with this nickname exists: what the foreign keys to users.nickname check. */
  predicate AuthorKnown(users: seq<User>, nickname: string) {
    exists u :: u in users && u.nickname == nickname
  }

  /** The unique keys on the id, the nickname and the email of the users table. */
  ghost predicate UsersUnique(users: seq<User>) {
    forall i, j :: 0 <= i < j < |users| ==>
      users[i].id != users[j].id && users[i].nickname != users[j].nickname && users[i].email != users[j].email
  }

  /** Serial user ids. */
  ghost predicate UserIdsIssued(users: seq<User>, nextId: int) {
    forall i :: 0 <= i < |users| ==> users[i].id < nextId
  }

  /** Serial thread ids: every stored thread's id was issued before the next one. */
  ghost predicate ThreadIdsIssued(threads: seq<Thread>, nextId: int) {
    forall i :: 0 <= i < |threads| ==> threads[i].id < nextId
  }

  /**
   * The foreign key from votes to threads, with serial thread ids: every vote
   * names a thread id already issued, so a new thread starts with no votes.
   */
  ghost predicate VotesNameIssuedThreads(votes: seq<VoteRow>, nextId: int) {
    forall i :: 0 <= i < |votes| ==> votes[i].thread < nextId
  }

  ghost predicate Consistent(t: Tables) {
    && PostsWellFormed(t.posts, t.nextPostId)
    && VotesConsistent(t.threads, t.votes)
    && VotesUnique(t.votes)
    && UsersUnique(t.users)
    && UserIdsIssued(t.users, t.nextUserId)
    && ThreadIdsIssued(t.threads, t.nextThreadId)
    && VotesNameIssuedThreads(t.votes, t.nextThreadId)
  }

  class Database {
    var users: seq<User>
    var forums: seq<Forum>
    var threads: seq<Thread>
    var posts: seq<PostRow>
    var votes: seq<VoteRow>
    var forumUsers: seq<ForumUser>
    var nextUserId: int
    var nextForumId: int
    var nextThreadId: int
    var nextPostId: int
    var nextVoteId: int

    /** A freshly created schema: every table empty, every sequence at 1. */
    constructor ()
      ensures Snapshot() == Empty && Valid()
    {
      users, forums, threads, posts, votes, forumUsers := [], [], [], [], [], [];
      nextUserId, nextForumId, nextThreadId, nextPostId, nextVoteId := 1, 1, 1, 1, 1;
    }

    function Snapshot(): Tables
      reads this
    {
      Tables(users, forums, threads, posts, votes, forumUsers,
        nextUserId, nextForumId, nextThreadId, nextPostId, nextVoteId)
    }

    ghost predicate Valid()
      reads this
    {
      Consistent(Snapshot())
    }
  }

  /** Every path ends in the post's own id. */
  lemma PathEndsInId(posts: seq<PostRow>, nextId: int, i: int)
    requires PostsWellFormed(posts, nextId) && 0 <= i < |posts|
    ensures |posts[i].path| > 0 && posts[i].path[|posts[i].path| - 1] == posts[i].post.id
  {
    assert PathOk(posts, i);
    if posts[i].post.parent != 0 {
      var j :| 0 <= j < i && posts[j].post.id == posts[i].post.parent
        && posts[j].post.thread == posts[i].post.thread && posts[i].path == posts[j].path + [posts[i].post.id];
    }
  }

  /** Two different rows never share a path, so ordering by path alone is total. */
  lemma DistinctPaths(posts: seq<PostRow>, nextId: int, i: int, j: int)
    requires PostsWellFormed(posts, nextId) && 0 <= i < |posts| && 0 <= j < |posts| && i != j
    ensures posts[i].path != posts[j].path
  {
    PathEndsInId(posts, nextId, i);
    PathEndsInId(posts, nextId, j);
  }

  /** Ids identify rows. */
  lemma IdsIdentify(posts: seq<PostRow>, nextId: int, i: int, j: int)
    requires PostsWellFormed(posts, nextId) && 0 <= i < |posts| && 0 <= j < |posts|
    requires posts[i].post.id == posts[j].post.id
    ensures i == j
  {
  }

  /** Two different rows differ in id and in path. */
  lemma RowsDistinct(posts: seq<PostRow>, nextId: int)
    requires PostsWellFormed(posts, nextId)
    ensures forall x, y :: x in posts && y in posts && x != y ==> x.post.id != y.post.id && x.path != y.path
  {
    forall x, y | x in posts && y in posts && x != y ensures x.post.id != y.post.id && x.path != y.path {
      var i :| 0 <= i < |posts| && posts[i] == x;
      var j :| 0 <= j < |posts| && posts[j] == y;
      DistinctPaths(posts, nextId, i, j);
    }
  }

  /**
   * The first element of every path is the id of a root post of the same
   * thread: `path[1]` in the queries names the top-level comment a post hangs under.
   */
  lemma {:induction false} RootAncestor(posts: seq<PostRow>, nextId: int, i: int)
    requires PostsWellFormed(posts, nextId) && 0 <= i < |posts|
    ensures |posts[i].path| > 0
    ensures exists j ::
      0 <= j <= i && posts[j].post.parent == 0 && posts[j].post.id == posts[i].path[0]
      && posts[j].path == [posts[i].path[0]] && posts[j].post.thread == posts[i].post.thread
    decreases i
  {
    assert PathOk(posts, i);
    if posts[i].post.parent != 0 {
      var k :| 0 <= k < i && posts[k].post.id == posts[i].post.parent
        && posts[k].post.thread == posts[i].post.thread && posts[i].path == posts[k].path + [posts[i].post.id];
      RootAncestor(posts, nextId, k);
      assert posts[i].path[0] == posts[k].path[0];
      var j :| 0 <= j <= k && posts[j].post.parent == 0 && posts[j].post.id == posts[k].path[0]
        && posts[j].path == [posts[k].path[0]] && posts[j].post.thread == posts[k].post.thread;
    }
  }

  /** A reply's path starts where its parent's path starts. */
  lemma ChildSharesRoot(posts: seq<PostRow>, nextId: int, p: int, c: int)
    requires PostsWellFormed(posts, nextId) && 0 <= p < |posts| && 0 <= c < |posts|
    requires posts[c].post.parent != 0 && posts[c].post.parent == posts[p].post.id
    ensures |posts[p].path| > 0 && |posts[c].path| > 0 && posts[c].path[0] == posts[p].path[0]
    ensures posts[c].post.thread == posts[p].post.thread
  {
    assert PathOk(posts, c);
    var j :| 0 <= j < c && posts[j].post.id == posts[c].post.parent
      && posts[j].post.thread == posts[c].post.thread && posts[c].path == posts[j].path + [posts[c].post.id];
    assert j == p;
    PathEndsInId(posts, nextId, p);
  }
}
