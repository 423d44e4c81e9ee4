/**
 * The post repository: a post by id, the three lookups of a post's related
 * entities (each of which reports a missing row as a missing user), and the
 * message edit.
 */
module PostRepository {
  import opened Wrappers
  import opened Errors
  import opened Models
  import opened Text
  import opened Seqs
  import opened Store
  import opened UserRepository
  import opened ForumRepository
  import opened ThreadRepository

  // --------------------------------------------------------------- lookups

  function PostIdIs(id: int): PostRow -> bool {
    (row: PostRow) => row.post.id == id
  }

  predicate PostKnown(posts: seq<PostRow>, id: int) {
    exists row :: row in posts && row.post.id == id
  }

  /** GetPost: the post with this id; no row is ErrPostNotFound beside a zero post. */
  function GetPost(posts: seq<PostRow>, id: int): (r: Reply<Post>)
    ensures r.err.None? <==> PostKnown(posts, id)
    ensures r.err.None? ==> r.value.id == id && exists row :: row in posts && row.post == r.value
    ensures r.err.Some? ==> r.value == ZeroPost && r.err == Some(PostNotFound)
  {
    match Find(posts, PostIdIs(id))
    case Some(row) => Reply(row.post, None)
    case None => Reply(ZeroPost, Some(PostNotFound))
  }

  /** GetPostAuthor: the users row named by the post's author. */
  function GetPostAuthor(users: seq<User>, post: Post): (r: Reply<User>)
    ensures r.err.None? <==> AuthorKnown(users, post.author)
    ensures r.err.None? ==> r.value in users && r.value.nickname == post.author
    ensures r.err.Some? ==> r == Reply(ZeroUser, Some(UserNotFound))
  {
    GetByNickname(users, post.author)
  }

  /** GetPostForum: the forum named by the post's forum slug; no row is reported as ErrUserNotFound. */
  function GetPostForum(forums: seq<Forum>, post: Post): (r: Reply<Forum>)
    ensures r.err.None? <==> ForumKnown(forums, post.forum)
    ensures r.err.None? ==> Get(forums, post.forum) == Ok(r.value)
    ensures r.err.Some? ==> r == Reply(ZeroForum, Some(UserNotFound))
  {
    match Get(forums, post.forum)
    case Ok(f) => Reply(f, None)
    case Err(_) => Reply(ZeroForum, Some(UserNotFound))
  }

  function ThreadIdIs(id: int): Thread -> bool {
    (th: Thread) => th.id == id
  }

  /** GetPostThread: the thread with the post's thread id; no row is reported as ErrUserNotFound. */
  function GetPostThread(threads: seq<Thread>, post: Post): (r: Reply<Thread>)
    ensures r.err.None? <==> exists th :: th in threads && th.id == post.thread
    ensures r.err.None? ==> r.value in threads && r.value.id == post.thread
    ensures r.err.Some? ==> r == Reply(ZeroThread, Some(UserNotFound))
  {
    match Find(threads, ThreadIdIs(post.thread))
    case Some(th) => Reply(th, None)
    case None => Reply(ZeroThread, Some(UserNotFound))
  }

  /**
   * The post's thread is the thread `slug_or_id` lookups find under the
   * decimal form of its id: the same row, and a missing row either way,
   * though under different errors.
   */
  lemma PostThreadIsThreadById(threads: seq<Thread>, post: Post)
    requires Int64Min <= post.thread <= Int64Max
    ensures var byPost := GetPostThread(threads, post);
      var byId := GetThread(threads, Itoa(post.thread));
      && byPost.value == byId.value
      && (byPost.err.None? <==> byId.err.None?)
      && (byPost.err.Some? ==> byPost.err == Some(UserNotFound) && byId.err == Some(ThreadNotFound))
  {
    AtoiItoa(post.thread);
    assert forall th :: ThreadIdIs(post.thread)(th) == SelectsKey(Itoa(post.thread))(th);
    FindSame(threads, ThreadIdIs(post.thread), SelectsKey(Itoa(post.thread)));
  }

  // ------------------------------------------------------------------ edit

  /**
   * The SET clause of the post update: a message that trims to nothing keeps
   * the stored one; the edited flag is raised only by a message whose trimmed
   * text differs from the stored message's trimmed text.
   */
  function EditPost(p: Post, message: string): (r: Post)
    ensures IsBlank(message) ==> r == p.(isEdited := false)
    ensures !IsBlank(message) ==> r.message == message
    ensures r.isEdited <==> !IsBlank(message) && Trim(message) != Trim(p.message)
    ensures r.(message := p.message, isEdited := p.isEdited) == p
  {
    p.(isEdited := if Trim(message) == "" || Trim(message) == Trim(p.message) then false else true,
       message := if Trim(message) == "" then p.message else message)
  }

  /** Sending the same message a second time clears the edited flag and changes nothing else. */
  lemma EditAgainClearsFlag(p: Post, message: string)
    ensures EditPost(EditPost(p, message), message) == EditPost(p, message).(isEdited := false)
  {
    if !IsBlank(message) {
      assert EditPost(p, message).message == message;
    }
  }

  /** Whitespace around a message is not an edit. */
  lemma PaddingIsNoEdit(p: Post)
    ensures !EditPost(p, " " + p.message + " ").isEdited
  {
    TrimPadded(p.message);
  }

  function EditIfId(id: int, message: string): PostRow -> PostRow {
    (row: PostRow) => if row.post.id == id then row.(post := EditPost(row.post, message)) else row
  }

  /** The UPDATE statement: the row with this id is edited, the others are kept. */
  function EditPosts(posts: seq<PostRow>, id: int, message: string): (r: seq<PostRow>)
    ensures |r| == |posts|
    ensures forall i :: 0 <= i < |posts| ==>
      r[i] == if posts[i].post.id == id then posts[i].(post := EditPost(posts[i].post, message)) else posts[i]
  {
    Map(posts, EditIfId(id, message))
  }

  /** The row the update returns is the edited form of the row GetPost finds; no row means not found. */
  lemma UpdatePostResult(posts: seq<PostRow>, id: int, message: string)
    ensures var before := GetPost(posts, id);
      var after := GetPost(EditPosts(posts, id, message), id);
      after.err == before.err && (before.err.None? ==> after.value == EditPost(before.value, message))
  {
    FindMap(posts, EditIfId(id, message), PostIdIs(id), PostIdIs(id));
  }

  lemma EditKeepsConsistent(t: Tables, id: int, message: string)
    requires Consistent(t)
    ensures Consistent(t.(posts := EditPosts(t.posts, id, message)))
  {
    var posts := EditPosts(t.posts, id, message);
    forall i | 0 <= i < |posts| ensures PathOk(posts, i) {
      assert PathOk(t.posts, i);
      if t.posts[i].post.parent != 0 {
        var j :| 0 <= j < i && t.posts[j].post.id == t.posts[i].post.parent
          && t.posts[j].post.thread == t.posts[i].post.thread && t.posts[i].path == t.posts[j].path + [t.posts[i].post.id];
        assert posts[j].post.id == t.posts[j].post.id && posts[j].path == t.posts[j].path;
      }
    }
  }

  method UpdatePost(db: Database, post: Post) returns (r: Post, err: Option<Error>)
    modifies db
    requires db.Valid()
    ensures db.Valid()
    ensures db.Snapshot() == old(db.Snapshot()).(posts := EditPosts(old(db.posts), post.id, post.message))
    ensures var before := GetPost(old(db.posts), post.id);
      if before.err.Some? then r == ZeroPost && err == Some(PostNotFound)
      else r == EditPost(before.value, post.message) && err == None
  {
    UpdatePostResult(db.posts, post.id, post.message);
    EditKeepsConsistent(db.Snapshot(), post.id, post.message);
    db.posts := EditPosts(db.posts, post.id, post.message);
    var found := GetPost(db.posts, post.id);
    r, err := found.value, found.err;
  }
}
