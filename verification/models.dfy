/**
 * The entities of the forum service (internal/models) and the rows the
 * relational store keeps for them. Timestamps are integers; ids are unbounded.
 */
module Models {
  import opened Wrappers

  datatype User = User(id: int, nickname: string, fullname: string, about: string, email: string)

  datatype Forum = Forum(id: int, title: string, user: string, slug: string, posts: int, threads: int)

  /** Field order of the scan lists `id, title, author, forum, message, slug, votes, created`. */
  datatype Thread = Thread(
    id: int, title: string, author: string, forum: string,
    message: string, slug: string, votes: int, created: int)

  datatype Post = Post(
    id: int, parent: int, author: string, message: string, isEdited: bool,
    forum: string, thread: int, created: int)

  datatype Vote = Vote(nickname: string, voice: int)

  datatype Status = Status(user: int, forum: int, thread: int, post: int)

  /** A post with the related entities GetPost was asked for; None is a nil pointer. */
  datatype FullPost = FullPost(post: Option<Post>, author: Option<User>, thread: Option<Thread>, forum: Option<Forum>)

  /** A row of the `posts` table: the post and its ancestry path (ancestor ids, ending in its own id). */
  datatype PostRow = PostRow(post: Post, path: seq<int>)

  /** A row of the `votes` table. */
  datatype VoteRow = VoteRow(id: int, nickname: string, voice: int, thread: int)

  /** A row of the `forum_users` relation read by the forum user listing. */
  datatype ForumUser = ForumUser(forum: string, nickname: string, fullname: string, about: string, email: string)

  /** Go zero values, returned beside most errors. */
  const ZeroUser := User(0, "", "", "", "")
  const ZeroForum := Forum(0, "", "", "", 0, 0)
  const ZeroThread := Thread(0, "", "", "", "", "", 0, 0)
  const ZeroPost := Post(0, 0, "", "", false, "", 0, 0)
  const EmptyFullPost := FullPost(None, None, None, None)
}
