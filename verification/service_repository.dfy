/**
 * The service repository: the row counts of the status endpoint and the
 * truncation of every table.
 */
module ServiceRepository {
  import opened Wrappers
  import opened Errors
  import opened Models
  import opened Store
  import opened ThreadRepository
  import opened ThreadService
  import opened UserRepository

  /** GetStatus: the number of users, forums, threads and posts; votes are not counted. */
  function GetStatus(t: Tables): (r: Status)
    ensures r.user == |t.users| && r.forum == |t.forums| && r.thread == |t.threads| && r.post == |t.posts|
  {
    Status(|t.users|, |t.forums|, |t.threads|, |t.posts|)
  }

  /**
   * Clear: TRUNCATE users, forums, threads, posts and votes CASCADE, which
   * also empties forum_users (its rows refer to users and forums). A TRUNCATE
   * without RESTART IDENTITY keeps the id sequences where they were.
   */
  function ClearTables(t: Tables): (r: Tables)
    ensures r.users == [] && r.forums == [] && r.threads == [] && r.posts == [] && r.votes == [] && r.forumUsers == []
    ensures r.nextUserId == t.nextUserId && r.nextForumId == t.nextForumId && r.nextThreadId == t.nextThreadId
      && r.nextPostId == t.nextPostId && r.nextVoteId == t.nextVoteId
  {
    t.(users := [], forums := [], threads := [], posts := [], votes := [], forumUsers := [])
  }

  /** After Clear, every count is zero. */
  lemma StatusAfterClear(t: Tables)
    ensures GetStatus(ClearTables(t)) == Status(0, 0, 0, 0)
  {
  }

  lemma ClearKeepsConsistent(t: Tables)
    requires Consistent(t)
    ensures Consistent(ClearTables(t))
  {
  }

  /** A created user is counted; nothing else changes. */
  lemma StatusCountsCreatedUser(t: Tables, params: Params)
    requires InsertUser(t, params).0.err.None?
    ensures var before, after := GetStatus(t), GetStatus(InsertUser(t, params).1);
      after == before.(user := before.user + 1)
  {
  }

  /** A stored batch of posts is counted post by post; a refused batch changes no count. */
  lemma StatusCountsBatch(t: Tables, slugOrId: string, batch: seq<Post>, created: int)
    ensures var r := CreatePostsSpec(t, slugOrId, batch, created);
      var before, after := GetStatus(t), GetStatus(r.2);
      after == if r.1.None? then before.(post := before.post + |batch|) else before
  {
    var r := CreatePostsSpec(t, slugOrId, batch, created);
    if r.1.None? && batch != [] {
      var th := GetThread(t.threads, slugOrId).value;
      assert |NewRows(t, th, batch, created)| == |batch|;
    }
  }

  /** Votes are not counted: casting one changes no count. */
  lemma StatusIgnoresVotes(t: Tables, slugOrId: string, vote: Vote)
    ensures GetStatus(CastVote(t, slugOrId, vote).1) == GetStatus(t)
  {
    var th := GetThread(t.threads, slugOrId);
    if th.err.None? {
      assert |AdjustVotes(t.threads, th.value.id, vote.voice)| == |t.threads|;
    }
  }

  method Clear(db: Database)
    modifies db
    requires db.Valid()
    ensures db.Valid()
    ensures db.Snapshot() == ClearTables(old(db.Snapshot()))
  {
    db.users, db.forums, db.threads, db.posts, db.votes, db.forumUsers := [], [], [], [], [], [];
  }
}
