/**
 * The thread repository: thread lookup and edit, batch post creation and the
 * two halves of the vote upsert, over the in-memory store.
 */
module ThreadRepository {
  import opened Wrappers
  import opened Errors
  import opened Models
  import opened Text
  import opened Seqs
  import opened Store

  // ---------------------------------------------------------------- lookup

  /** A `slug_or_id` that parses as an integer selects by id, anything else by slug. */
  predicate Selects(slugOrId: string, th: Thread) {
    match Atoi(slugOrId)
    case Some(id) => th.id == id
    case None => th.slug == slugOrId
  }

  function SelectsKey(slugOrId: string): Thread -> bool {
    (th: Thread) => Selects(slugOrId, th)
  }

  function GetThread(threads: seq<Thread>, slugOrId: string): (r: Reply<Thread>)
    ensures r.err.None? <==> exists th :: th in threads && Selects(slugOrId, th)
    ensures r.err.None? ==> r.value in threads
    ensures r.err.None? && Atoi(slugOrId).Some? ==> r.value.id == Atoi(slugOrId).value
    ensures r.err.None? && Atoi(slugOrId).None? ==> r.value.slug == slugOrId
    ensures r.err.Some? ==> r == Reply(ZeroThread, Some(ThreadNotFound))
  {
    match Find(threads, SelectsKey(slugOrId))
    case Some(th) => Reply(th, None)
    case None => Reply(ZeroThread, Some(ThreadNotFound))
  }

  /** A thread whose slug reads as a number cannot be reached through that slug unless its id is that number. */
  lemma NumericSlugShadowed(threads: seq<Thread>, th: Thread)
    requires th in threads && Atoi(th.slug).Some?
    requires forall other :: other in threads ==> other.id != Atoi(th.slug).value
    ensures GetThread(threads, th.slug).err == Some(ThreadNotFound)
  {
  }

  // ------------------------------------------------------------------ edit

  /** The SET clause of the thread update: a new value that trims to nothing keeps the stored one. */
  function EditThread(th: Thread, message: string, title: string): (r: Thread)
    ensures IsBlank(message) ==> r.message == th.message
    ensures !IsBlank(message) ==> r.message == message
    ensures IsBlank(title) ==> r.title == th.title
    ensures !IsBlank(title) ==> r.title == title
    ensures r.(message := th.message, title := th.title) == th
  {
    th.(message := if Trim(message) == "" then th.message else message,
        title := if Trim(title) == "" then th.title else title)
  }

  lemma EditThreadIdempotent(th: Thread, message: string, title: string)
    ensures EditThread(EditThread(th, message, title), message, title) == EditThread(th, message, title)
  {
  }

  function EditIfSelected(slugOrId: string, message: string, title: string): Thread -> Thread {
    (th: Thread) => if Selects(slugOrId, th) then EditThread(th, message, title) else th
  }

  /** The UPDATE statement: every selected row is edited, the others are kept. */
  function EditThreads(threads: seq<Thread>, slugOrId: string, message: string, title: string): (r: seq<Thread>)
    ensures |r| == |threads|
    ensures forall i :: 0 <= i < |threads| ==>
      r[i] == if Selects(slugOrId, threads[i]) then EditThread(threads[i], message, title) else threads[i]
  {
    Map(threads, EditIfSelected(slugOrId, message, title))
  }

  /** The row the update returns is the edited form of the row the lookup finds; no row means not found. */
  lemma UpdateThreadResult(threads: seq<Thread>, slugOrId: string, message: string, title: string)
    ensures var before := GetThread(threads, slugOrId);
      var after := GetThread(EditThreads(threads, slugOrId, message, title), slugOrId);
      after.err == before.err && (before.err.None? ==> after.value == EditThread(before.value, message, title))
  {
    FindMap(threads, EditIfSelected(slugOrId, message, title), SelectsKey(slugOrId), SelectsKey(slugOrId));
  }

  lemma EditKeepsVotes(t: Tables, slugOrId: string, message: string, title: string)
    requires Consistent(t)
    ensures Consistent(t.(threads := EditThreads(t.threads, slugOrId, message, title)))
  {
    var edited := EditThreads(t.threads, slugOrId, message, title);
    forall i | 0 <= i < |edited| ensures edited[i].votes == SumVoices(t.votes, edited[i].id) {
      assert edited[i].id == t.threads[i].id && edited[i].votes == t.threads[i].votes;
    }
  }

  method UpdateThread(db: Database, slugOrId: string, thread: Thread) returns (r: Thread, err: Option<Error>)
    modifies db
    requires db.Valid()
    ensures db.Valid()
    ensures db.Snapshot() == old(db.Snapshot()).(threads := EditThreads(old(db.threads), slugOrId, thread.message, thread.title))
    ensures var before := GetThread(old(db.threads), slugOrId);
      if before.err.Some? then r == ZeroThread && err == Some(ThreadNotFound)
      else r == EditThread(before.value, thread.message, thread.title) && err == None
  {
    UpdateThreadResult(db.threads, slugOrId, thread.message, thread.title);
    EditKeepsVotes(db.Snapshot(), slugOrId, thread.message, thread.title);
    db.threads := EditThreads(db.threads, slugOrId, thread.message, thread.title);
    var found := GetThread(db.threads, slugOrId);
    r, err := found.value, found.err;
  }

  // ----------------------------------------------------------- batch insert

  predicate ParentKnown(posts: seq<PostRow>, thread: int, parent: int) {
    exists row :: row in posts && row.post.id == parent && row.post.thread == thread
  }

  /** The two checks the loop runs for one post: its author, then its parent within the thread. */
  function CheckPost(t: Tables, thread: Thread, p: Post): (r: Option<Error>)
    ensures r == Some(UserNotFound) <==> !AuthorKnown(t.users, p.author)
    ensures r == Some(ParentPostNotFound) <==>
      AuthorKnown(t.users, p.author) && p.parent != 0 && !ParentKnown(t.posts, thread.id, p.parent)
    ensures r == None || r == Some(UserNotFound) || r == Some(ParentPostNotFound)
  {
    if !AuthorKnown(t.users, p.author) then Some(UserNotFound)
    else if p.parent != 0 && !ParentKnown(t.posts, thread.id, p.parent) then Some(ParentPostNotFound)
    else None
  }

  /** The error of the first post, in input order, that fails a check. */
  function BatchError(t: Tables, thread: Thread, batch: seq<Post>): (r: Option<Error>)
    ensures r == None <==> forall k :: 0 <= k < |batch| ==> CheckPost(t, thread, batch[k]) == None
    ensures r != None ==> exists k ::
      0 <= k < |batch| && r == CheckPost(t, thread, batch[k])
      && forall j :: 0 <= j < k ==> CheckPost(t, thread, batch[j]) == None
    decreases |batch|
  {
    if batch == [] then None
    else
      var init := batch[..|batch| - 1];
      var e := BatchError(t, thread, init);
      assert forall k :: 0 <= k < |init| ==> init[k] == batch[k];
      if e != None then e else CheckPost(t, thread, batch[|batch| - 1])
  }

  function ParentOf(thread: int, parent: int): PostRow -> bool {
    (row: PostRow) => row.post.id == parent && row.post.thread == thread
  }

  /** The path the insert trigger gives a post: its parent's path and its own id. */
  function NewPath(posts: seq<PostRow>, thread: int, parent: int, id: int): seq<int> {
    if parent == 0 then [id]
    else match Find(posts, ParentOf(thread, parent))
      case Some(row) => row.path + [id]
      case None => [id]
  }

  /** One row of the multi-row INSERT: the input's parent, author and message, the thread's id and forum, the batch time. */
  function NewRow(t: Tables, thread: Thread, p: Post, created: int, id: int): PostRow {
    PostRow(Post(id, p.parent, p.author, p.message, false, thread.forum, thread.id, created),
      NewPath(t.posts, thread.id, p.parent, id))
  }

  function NewRows(t: Tables, thread: Thread, batch: seq<Post>, created: int): (r: seq<PostRow>)
    ensures |r| == |batch|
    ensures forall k :: 0 <= k < |batch| ==> r[k] == NewRow(t, thread, batch[k], created, t.nextPostId + k)
  {
    seq(|batch|, k requires 0 <= k < |batch| => NewRow(t, thread, batch[k], created, t.nextPostId + k))
  }

  function PostOf(row: PostRow): Post {
    row.post
  }

  function Posts(rows: seq<PostRow>): (r: seq<Post>)
    ensures |r| == |rows| && forall i :: 0 <= i < |rows| ==> r[i] == rows[i].post
  {
    Map(rows, PostOf)
  }

  /** What CreatePosts returns and what it leaves in the store. */
  function CreatePostsSpec(t: Tables, slugOrId: string, batch: seq<Post>, created: int): (r: (seq<Post>, Option<Error>, Tables))
    // the thread is resolved before anything else
    ensures GetThread(t.threads, slugOrId).err.Some? ==> r.1 == Some(ThreadNotFound)
    // an empty batch inserts nothing and is not an error when the thread exists
    ensures batch == [] ==> r.0 == [] && r.2 == t && r.1 == GetThread(t.threads, slugOrId).err
    // a failed check stores nothing
    ensures r.1.Some? ==> r.0 == [] && r.2 == t
    ensures r.1.Some? && GetThread(t.threads, slugOrId).err.None? ==>
      r.1 == BatchError(t, GetThread(t.threads, slugOrId).value, batch)
    // on success one post per input, in input order, all with the same created time
    ensures r.1.None? ==> var th := GetThread(t.threads, slugOrId).value;
      && th in t.threads
      && |r.0| == |batch|
      && (forall k :: 0 <= k < |batch| ==>
           && r.0[k].id == t.nextPostId + k
           && r.0[k].parent == batch[k].parent && r.0[k].author == batch[k].author
           && r.0[k].message == batch[k].message && !r.0[k].isEdited
           && r.0[k].thread == th.id && r.0[k].forum == th.forum && r.0[k].created == created)
      && r.2 == t.(posts := t.posts + NewRows(t, th, batch, created), nextPostId := t.nextPostId + |batch|)
  {
    var th := GetThread(t.threads, slugOrId);
    if th.err.Some? then ([], th.err, t)
    else if batch == [] then ([], None, t)
    else match BatchError(t, th.value, batch)
      case Some(e) => ([], Some(e), t)
      case None =>
        var rows := NewRows(t, th.value, batch, created);
        (Posts(rows), None, t.(posts := t.posts + rows, nextPostId := t.nextPostId + |batch|))
  }

  /** The inserted rows keep the path rule and the serial ids. */
  lemma InsertKeepsWellFormed(t: Tables, thread: Thread, batch: seq<Post>, created: int)
    requires PostsWellFormed(t.posts, t.nextPostId)
    requires BatchError(t, thread, batch) == None
    ensures PostsWellFormed(t.posts + NewRows(t, thread, batch, created), t.nextPostId + |batch|)
  {
    var rows := NewRows(t, thread, batch, created);
    SerialIdsAppend(t.posts, t.nextPostId, rows);
    forall i | 0 <= i < |t.posts + rows| ensures PathOk(t.posts + rows, i) {
      if i < |t.posts| {
        PathOkKept(t.posts, rows, i);
      } else {
        PathOkOfNewRow(t, thread, batch, created, i - |t.posts|);
      }
    }
  }

  /** Rows numbered on from the next id keep the ids serial. */
  lemma SerialIdsAppend(posts: seq<PostRow>, nextId: int, rows: seq<PostRow>)
    requires 0 < nextId
    requires forall i :: 0 <= i < |posts| ==> 0 < posts[i].post.id < nextId
    requires forall i, j :: 0 <= i < j < |posts| ==> posts[i].post.id < posts[j].post.id
    requires forall k :: 0 <= k < |rows| ==> rows[k].post.id == nextId + k
    ensures forall i :: 0 <= i < |posts + rows| ==> 0 < (posts + rows)[i].post.id < nextId + |rows|
    ensures forall i, j :: 0 <= i < j < |posts + rows| ==> (posts + rows)[i].post.id < (posts + rows)[j].post.id
  {
    var all := posts + rows;
    forall i | 0 <= i < |all| ensures all[i].post.id == if i < |posts| then posts[i].post.id else nextId + i - |posts| {
      if i < |posts| { assert all[i] == posts[i]; } else { assert all[i] == rows[i - |posts|]; }
    }
  }

  /** Appending rows keeps an existing row's path justified. */
  lemma PathOkKept(posts: seq<PostRow>, rows: seq<PostRow>, i: int)
    requires 0 <= i < |posts| && PathOk(posts, i)
    ensures PathOk(posts + rows, i)
  {
    var all := posts + rows;
    assert all[i] == posts[i];
    if posts[i].post.parent != 0 {
      var j :| 0 <= j < i && posts[j].post.id == posts[i].post.parent
        && posts[j].post.thread == posts[i].post.thread && posts[i].path == posts[j].path + [posts[i].post.id];
      assert all[j] == posts[j];
    }
  }

  /** A new row whose checks pass extends the path of its parent, which is an existing row. */
  lemma PathOkOfNewRow(t: Tables, thread: Thread, batch: seq<Post>, created: int, k: int)
    requires 0 <= k < |batch| && CheckPost(t, thread, batch[k]) == None
    ensures PathOk(t.posts + NewRows(t, thread, batch, created), |t.posts| + k)
  {
    var all := t.posts + NewRows(t, thread, batch, created);
    assert all[|t.posts| + k] == NewRow(t, thread, batch[k], created, t.nextPostId + k);
    if batch[k].parent != 0 {
      var found := Find(t.posts, ParentOf(thread.id, batch[k].parent));
      assert found.Some?;
      var j :| 0 <= j < |t.posts| && t.posts[j] == found.value;
      assert all[j] == t.posts[j];
    }
  }

  lemma CreatePostsKeepsConsistent(t: Tables, slugOrId: string, batch: seq<Post>, created: int)
    requires Consistent(t)
    ensures Consistent(CreatePostsSpec(t, slugOrId, batch, created).2)
  {
    var th := GetThread(t.threads, slugOrId);
    if th.err.None? && BatchError(t, th.value, batch) == None {
      InsertKeepsWellFormed(t, th.value, batch, created);
    }
  }

  /**
   * The loop over the batch: each post's author and parent are checked in
   * input order, and the VALUES row of each post that passes is built; the
   * first failure stops the loop.
   */
  method CheckBatch(t: Tables, thread: Thread, batch: seq<Post>, created: int) returns (e: Option<Error>, rows: seq<PostRow>)
    ensures e == BatchError(t, thread, batch)
    ensures e == None ==> rows == NewRows(t, thread, batch, created)
  {
    rows := [];
    var k := 0;
    while k < |batch|
      invariant 0 <= k <= |batch|
      invariant forall j :: 0 <= j < k ==> CheckPost(t, thread, batch[j]) == None
      invariant |rows| == k
      invariant forall j :: 0 <= j < k ==> rows[j] == NewRow(t, thread, batch[j], created, t.nextPostId + j)
    {
      e := CheckPost(t, thread, batch[k]);
      if e.Some? {
        assert BatchError(t, thread, batch) == e;
        return;
      }
      rows := rows + [NewRow(t, thread, batch[k], created, t.nextPostId + k)];
      k := k + 1;
    }
    e := None;
  }

  method CreatePosts(db: Database, slugOrId: string, batch: seq<Post>, created: int) returns (result: seq<Post>, err: Option<Error>)
    modifies db
    requires db.Valid()
    ensures db.Valid()
    ensures (result, err, db.Snapshot()) == CreatePostsSpec(old(db.Snapshot()), slugOrId, batch, created)
  {
    var t := db.Snapshot();
    CreatePostsKeepsConsistent(t, slugOrId, batch, created);
    var thread := GetThread(db.threads, slugOrId);
    if thread.err.Some? {
      return [], thread.err;
    }
    if |batch| == 0 {
      return [], None;
    }
    var e, rows := CheckBatch(t, thread.value, batch, created);
    if e.Some? {
      return [], e;
    }
    db.posts := db.posts + rows;
    db.nextPostId := db.nextPostId + |batch|;
    result := ScanPosts(rows);
    err := None;
    assert db.Snapshot() == t.(posts := t.posts + rows, nextPostId := t.nextPostId + |batch|);
    CreatePostsStored(t, slugOrId, batch, created, rows);
  }

  /** A checked, non-empty batch on a found thread is stored as its new rows. */
  lemma CreatePostsStored(t: Tables, slugOrId: string, batch: seq<Post>, created: int, rows: seq<PostRow>)
    requires GetThread(t.threads, slugOrId).err.None? && batch != []
    requires BatchError(t, GetThread(t.threads, slugOrId).value, batch) == None
    requires rows == NewRows(t, GetThread(t.threads, slugOrId).value, batch, created)
    ensures CreatePostsSpec(t, slugOrId, batch, created)
      == (Posts(rows), None, t.(posts := t.posts + rows, nextPostId := t.nextPostId + |batch|))
  {
  }

  /** The scan loop over result rows (here the RETURNING rows): one post per row, in order. */
  method ScanPosts(rows: seq<PostRow>) returns (result: seq<Post>)
    ensures result == Posts(rows)
  {
    result := [];
    for i := 0 to |rows|
      invariant result == Posts(rows[..i])
    {
      result := result + [rows[i].post];
    }
    assert rows[..|rows|] == rows;
  }

  // ------------------------------------------------------------------ votes

  function VoteOf(nickname: string, thread: int): VoteRow -> bool {
    (row: VoteRow) => row.nickname == nickname && row.thread == thread
  }

  predicate HasVoted(votes: seq<VoteRow>, nickname: string, thread: int) {
    exists row :: row in votes && row.nickname == nickname && row.thread == thread
  }

  /** The voice a user has cast in a thread; none is ErrVoiceNotFound beside the unchanged vote. */
  function GetVote(votes: seq<VoteRow>, thread: Thread, vote: Vote): (r: Reply<Vote>)
    ensures r.err.None? <==> HasVoted(votes, vote.nickname, thread.id)
    ensures r.err.None? ==> r.value.nickname == vote.nickname
    ensures r.err.None? ==> exists row ::
      row in votes && row.nickname == vote.nickname && row.thread == thread.id && row.voice == r.value.voice
    ensures r.err.Some? ==> r == Reply(vote, Some(VoiceNotFound))
  {
    match Find(votes, VoteOf(vote.nickname, thread.id))
    case Some(row) => Reply(vote.(voice := row.voice), None)
    case None => Reply(vote, Some(VoiceNotFound))
  }

  function AdjustBy(thread: int, delta: int): Thread -> Thread {
    (th: Thread) => if th.id == thread then th.(votes := th.votes + delta) else th
  }

  /** The trigger on votes: the total of the voted thread moves by `delta`. */
  function AdjustVotes(threads: seq<Thread>, thread: int, delta: int): (r: seq<Thread>)
    ensures |r| == |threads|
    ensures forall i :: 0 <= i < |threads| ==>
      r[i] == if threads[i].id == thread then threads[i].(votes := threads[i].votes + delta) else threads[i]
  {
    Map(threads, AdjustBy(thread, delta))
  }

  /** The repository's AddVote: the INSERT into votes and what the caller gets back. */
  function InsertVote(t: Tables, thread: Thread, vote: Vote): (r: (Reply<Thread>, Tables))
    ensures r.0.err.Some? ==> r.1 == t && r.0.value == ZeroThread
    ensures r.0.err == Some(VoiceAlreadyExists) <==> HasVoted(t.votes, vote.nickname, thread.id)
    ensures r.0.err == Some(UserNotFound) <==>
      !HasVoted(t.votes, vote.nickname, thread.id) && !AuthorKnown(t.users, vote.nickname)
    ensures r.0.err.None? ==> (
      && r.0.value.votes == thread.votes + vote.voice
      && r.0.value.(votes := thread.votes) == thread
      && r.1.votes == t.votes + [VoteRow(t.nextVoteId, vote.nickname, vote.voice, thread.id)]
      && r.1.threads == AdjustVotes(t.threads, thread.id, vote.voice)
      && r.1 == t.(votes := r.1.votes, nextVoteId := t.nextVoteId + 1, threads := r.1.threads))
  {
    if HasVoted(t.votes, vote.nickname, thread.id) then (Reply(ZeroThread, Some(VoiceAlreadyExists)), t)
    else if !AuthorKnown(t.users, vote.nickname) then (Reply(ZeroThread, Some(UserNotFound)), t)
    else
      var row := VoteRow(t.nextVoteId, vote.nickname, vote.voice, thread.id);
      (Reply(thread.(votes := thread.votes + vote.voice), None),
       t.(votes := t.votes + [row], nextVoteId := t.nextVoteId + 1,
          threads := AdjustVotes(t.threads, thread.id, vote.voice)))
  }

  /** The rows the guarded UPDATE rewrites: this user's vote in this thread, when its voice differs. */
  predicate Revised(row: VoteRow, nickname: string, thread: int, voice: int) {
    row.nickname == nickname && row.thread == thread && row.voice != voice
  }

  function ReviseRow(nickname: string, thread: int, voice: int): VoteRow -> VoteRow {
    (row: VoteRow) => if Revised(row, nickname, thread, voice) then row.(voice := voice) else row
  }

  function SetVoice(votes: seq<VoteRow>, nickname: string, thread: int, voice: int): (r: seq<VoteRow>)
    ensures |r| == |votes|
    ensures forall i :: 0 <= i < |votes| ==>
      r[i] == if Revised(votes[i], nickname, thread, voice) then votes[i].(voice := voice) else votes[i]
  {
    Map(votes, ReviseRow(nickname, thread, voice))
  }

  /** How much a row-level trigger moves the thread total for the rows the UPDATE rewrites. */
  function VoiceDelta(votes: seq<VoteRow>, nickname: string, thread: int, voice: int): int {
    if votes == [] then 0
    else
      (if Revised(votes[0], nickname, thread, voice) then voice - votes[0].voice else 0)
      + VoiceDelta(votes[1..], nickname, thread, voice)
  }

  /** The repository's UpdateVote: the guarded UPDATE, then the thread read again by `slugOrId`. */
  function ReviseVote(t: Tables, slugOrId: string, thread: Thread, vote: Vote): (r: (Reply<Thread>, Tables))
    ensures r.0 == GetThread(r.1.threads, slugOrId)
    ensures r.1 == t.(votes := SetVoice(t.votes, vote.nickname, thread.id, vote.voice),
      threads := AdjustVotes(t.threads, thread.id, VoiceDelta(t.votes, vote.nickname, thread.id, vote.voice)))
  {
    var t' := t.(votes := SetVoice(t.votes, vote.nickname, thread.id, vote.voice),
      threads := AdjustVotes(t.threads, thread.id, VoiceDelta(t.votes, vote.nickname, thread.id, vote.voice)));
    (GetThread(t'.threads, slugOrId), t')
  }

  lemma {:induction false} SumAppend(votes: seq<VoteRow>, row: VoteRow, thread: int)
    ensures SumVoices(votes + [row], thread) == SumVoices(votes, thread) + (if row.thread == thread then row.voice else 0)
  {
    if votes != [] {
      assert (votes + [row])[1..] == votes[1..] + [row];
      SumAppend(votes[1..], row, thread);
    } else {
      assert [row][1..] == [];
    }
  }

  lemma {:induction false} SumSetVoice(votes: seq<VoteRow>, nickname: string, thread: int, voice: int, other: int)
    ensures SumVoices(SetVoice(votes, nickname, thread, voice), other)
      == SumVoices(votes, other) + (if other == thread then VoiceDelta(votes, nickname, thread, voice) else 0)
  {
    if votes != [] {
      assert SetVoice(votes, nickname, thread, voice)[1..] == SetVoice(votes[1..], nickname, thread, voice);
      SumSetVoice(votes[1..], nickname, thread, voice, other);
    }
  }

  lemma InsertVoteKeepsConsistent(t: Tables, thread: Thread, vote: Vote)
    requires Consistent(t) && thread in t.threads
    ensures Consistent(InsertVote(t, thread, vote).1)
  {
    var r := InsertVote(t, thread, vote);
    if r.0.err.None? {
      var row := VoteRow(t.nextVoteId, vote.nickname, vote.voice, thread.id);
      forall i | 0 <= i < |r.1.threads| ensures r.1.threads[i].votes == SumVoices(r.1.votes, r.1.threads[i].id) {
        SumAppend(t.votes, row, t.threads[i].id);
      }
      forall i, j | 0 <= i < j < |r.1.votes|
        ensures r.1.votes[i].nickname != r.1.votes[j].nickname || r.1.votes[i].thread != r.1.votes[j].thread
      {
        if j == |t.votes| {
          assert r.1.votes[i] in t.votes;
        }
      }
    }
  }

  lemma ReviseVoteKeepsConsistent(t: Tables, slugOrId: string, thread: Thread, vote: Vote)
    requires Consistent(t)
    ensures Consistent(ReviseVote(t, slugOrId, thread, vote).1)
  {
    var r := ReviseVote(t, slugOrId, thread, vote);
    forall i | 0 <= i < |r.1.threads| ensures r.1.threads[i].votes == SumVoices(r.1.votes, r.1.threads[i].id) {
      SumSetVoice(t.votes, vote.nickname, thread.id, vote.voice, t.threads[i].id);
    }
  }

  method AddVote(db: Database, thread: Thread, vote: Vote) returns (r: Thread, err: Option<Error>)
    modifies db
    requires db.Valid() && thread in db.threads
    ensures db.Valid()
    ensures (Reply(r, err), db.Snapshot()) == InsertVote(old(db.Snapshot()), thread, vote)
  {
    InsertVoteKeepsConsistent(db.Snapshot(), thread, vote);
    if HasVoted(db.votes, vote.nickname, thread.id) {
      return ZeroThread, Some(VoiceAlreadyExists);
    }
    if !AuthorKnown(db.users, vote.nickname) {
      return ZeroThread, Some(UserNotFound);
    }
    db.votes := db.votes + [VoteRow(db.nextVoteId, vote.nickname, vote.voice, thread.id)];
    db.nextVoteId := db.nextVoteId + 1;
    db.threads := AdjustVotes(db.threads, thread.id, vote.voice);
    r, err := thread.(votes := thread.votes + vote.voice), None;
  }

  method UpdateVote(db: Database, slugOrId: string, thread: Thread, vote: Vote) returns (r: Thread, err: Option<Error>)
    modifies db
    requires db.Valid()
    ensures db.Valid()
    ensures (Reply(r, err), db.Snapshot()) == ReviseVote(old(db.Snapshot()), slugOrId, thread, vote)
  {
    ReviseVoteKeepsConsistent(db.Snapshot(), slugOrId, thread, vote);
    var delta := VoiceDelta(db.votes, vote.nickname, thread.id, vote.voice);
    db.votes := SetVoice(db.votes, vote.nickname, thread.id, vote.voice);
    db.threads := AdjustVotes(db.threads, thread.id, delta);
    var found := GetThread(db.threads, slugOrId);
    r, err := found.value, found.err;
  }
}
