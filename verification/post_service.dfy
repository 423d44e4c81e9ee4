/**
 * The post service: a post with the related entities the caller asks for by
 * tag ("user", "thread", "forum"), each filled by one repository lookup, the
 * first failing lookup ending the expansion.
 */
module PostService {
  import opened Wrappers
  import opened Errors
  import opened Models
  import opened Store
  import opened PostRepository

  /** The lookup a tag asks for finds no row; other tags ask for nothing. */
  predicate Fails(t: Tables, p: Post, tag: string) {
    || (tag == "user" && GetPostAuthor(t.users, p).err.Some?)
    || (tag == "thread" && GetPostThread(t.threads, p).err.Some?)
    || (tag == "forum" && GetPostForum(t.forums, p).err.Some?)
  }

  /** The expansion loop, tag by tag: each tag writes its own field or stops with its lookup's error. */
  function Expand(t: Tables, p: Post, fp: FullPost, related: seq<string>): (FullPost, Option<Error>)
    decreases |related|
  {
    if related == [] then (fp, None)
    else
      var tag := related[0];
      if tag == "user" then
        var a := GetPostAuthor(t.users, p);
        if a.err.Some? then (fp, a.err) else Expand(t, p, fp.(author := Some(a.value)), related[1..])
      else if tag == "thread" then
        var th := GetPostThread(t.threads, p);
        if th.err.Some? then (fp, th.err) else Expand(t, p, fp.(thread := Some(th.value)), related[1..])
      else if tag == "forum" then
        var f := GetPostForum(t.forums, p);
        if f.err.Some? then (fp, f.err) else Expand(t, p, fp.(forum := Some(f.value)), related[1..])
      else Expand(t, p, fp, related[1..])
  }

  /** The fields the tags in `related` fill, whatever their order and repetition. */
  function Filled(t: Tables, p: Post, fp: FullPost, related: seq<string>): FullPost {
    fp.(author := if "user" in related then Some(GetPostAuthor(t.users, p).value) else fp.author,
        thread := if "thread" in related then Some(GetPostThread(t.threads, p).value) else fp.thread,
        forum := if "forum" in related then Some(GetPostForum(t.forums, p).value) else fp.forum)
  }

  /** The position of the first tag whose lookup fails, or the length when none does. */
  function FirstFailure(t: Tables, p: Post, related: seq<string>): (k: nat)
    ensures k <= |related|
    ensures forall i :: 0 <= i < k ==> !Fails(t, p, related[i])
    ensures k < |related| ==> Fails(t, p, related[k])
  {
    if related == [] || Fails(t, p, related[0]) then 0 else 1 + FirstFailure(t, p, related[1..])
  }

  lemma ExpandStep(t: Tables, p: Post, fp: FullPost, related: seq<string>)
    requires related != [] && !Fails(t, p, related[0])
    ensures Expand(t, p, fp, related) == Expand(t, p, Filled(t, p, fp, [related[0]]), related[1..])
  {
  }

  lemma FilledCons(t: Tables, p: Post, fp: FullPost, tag: string, rest: seq<string>)
    ensures Filled(t, p, Filled(t, p, fp, [tag]), rest) == Filled(t, p, fp, [tag] + rest)
  {
    assert forall x :: x in [tag] + rest <==> x == tag || x in rest;
  }

  /**
   * The expansion fills the fields of the tags before the first failing one;
   * it succeeds exactly when no requested lookup fails, and otherwise the
   * error is ErrUserNotFound whichever lookup failed.
   */
  lemma {:induction false} ExpandOutcome(t: Tables, p: Post, fp: FullPost, related: seq<string>)
    ensures var k := FirstFailure(t, p, related);
      && Expand(t, p, fp, related).0 == Filled(t, p, fp, related[..k])
      && Expand(t, p, fp, related).1 == if k == |related| then None else Some(UserNotFound)
    decreases |related|
  {
    var k := FirstFailure(t, p, related);
    if related == [] {
    } else if Fails(t, p, related[0]) {
      assert related[..k] == [];
    } else {
      var tag, rest := related[0], related[1..];
      ExpandStep(t, p, fp, related);
      ExpandOutcome(t, p, Filled(t, p, fp, [tag]), rest);
      FilledCons(t, p, fp, tag, rest[..k - 1]);
      assert [tag] + rest[..k - 1] == related[..k];
    }
  }

  /** Success exactly when no requested lookup fails; then every requested field is filled. */
  lemma ExpandSucceeds(t: Tables, p: Post, fp: FullPost, related: seq<string>)
    ensures Expand(t, p, fp, related).1.None? <==> forall i :: 0 <= i < |related| ==> !Fails(t, p, related[i])
    ensures Expand(t, p, fp, related).1.None? ==> Expand(t, p, fp, related).0 == Filled(t, p, fp, related)
  {
    ExpandOutcome(t, p, fp, related);
    assert related[..|related|] == related;
  }

  /** The expansion never replaces the post, and leaves the fields no tag asks for as they were. */
  lemma ExpandKeepsUnrequested(t: Tables, p: Post, fp: FullPost, related: seq<string>)
    ensures var r := Expand(t, p, fp, related).0;
      && r.post == fp.post
      && ("user" !in related ==> r.author == fp.author)
      && ("thread" !in related ==> r.thread == fp.thread)
      && ("forum" !in related ==> r.forum == fp.forum)
  {
    ExpandOutcome(t, p, fp, related);
    var k := FirstFailure(t, p, related);
    assert forall x :: x in related[..k] ==> x in related;
  }

  /** Tags given in another order or repeated give the same error, and on success the same post. */
  lemma ExpandOrderFree(t: Tables, p: Post, fp: FullPost, related: seq<string>, other: seq<string>)
    requires forall tag :: tag in related <==> tag in other
    ensures Expand(t, p, fp, related).1 == Expand(t, p, fp, other).1
    ensures Expand(t, p, fp, related).1.None? ==> Expand(t, p, fp, related).0 == Expand(t, p, fp, other).0
  {
    ExpandSucceeds(t, p, fp, related);
    ExpandSucceeds(t, p, fp, other);
    ExpandOutcome(t, p, fp, related);
    ExpandOutcome(t, p, fp, other);
  }

  /** GetPost: no post is an empty result with ErrPostNotFound; otherwise the post, expanded. */
  function GetFullPost(t: Tables, id: int, related: seq<string>): (r: (FullPost, Option<Error>))
    ensures GetPost(t.posts, id).err.Some? ==> r == (EmptyFullPost, Some(PostNotFound))
    ensures GetPost(t.posts, id).err.None? ==> r.0.post == Some(GetPost(t.posts, id).value)
  {
    var found := GetPost(t.posts, id);
    if found.err.Some? then (EmptyFullPost, found.err)
    else
      ExpandKeepsUnrequested(t, found.value, FullPost(Some(found.value), None, None, None), related);
      Expand(t, found.value, FullPost(Some(found.value), None, None, None), related)
  }

  /** The tags fill one field at a time; the first failing lookup returns what is filled so far. */
  method GetPostFull(t: Tables, id: int, related: seq<string>) returns (fp: FullPost, err: Option<Error>)
    ensures (fp, err) == GetFullPost(t, id, related)
  {
    var found := GetPost(t.posts, id);
    if found.err.Some? {
      return EmptyFullPost, found.err;
    }
    var post := found.value;
    fp, err := FullPost(Some(post), None, None, None), None;
    ghost var start := fp;
    for i := 0 to |related|
      invariant Expand(t, post, fp, related[i..]) == Expand(t, post, start, related)
    {
      assert related[i..][0] == related[i] && related[i..][1..] == related[i + 1..];
      var tag := related[i];
      if tag == "user" {
        var author := GetPostAuthor(t.users, post);
        if author.err.Some? {
          return fp, author.err;
        }
        fp := fp.(author := Some(author.value));
      } else if tag == "thread" {
        var thread := GetPostThread(t.threads, post);
        if thread.err.Some? {
          return fp, thread.err;
        }
        fp := fp.(thread := Some(thread.value));
      } else if tag == "forum" {
        var forum := GetPostForum(t.forums, post);
        if forum.err.Some? {
          return fp, forum.err;
        }
        fp := fp.(forum := Some(forum.value));
      }
    }
    assert related[|related|..] == [];
  }
}
