/**
 * The three post listings of a thread (GetPostsFlat, GetPostsTree,
 * GetPostsParentTree): each resolves the thread, runs one SELECT whose
 * WHERE / ORDER BY / LIMIT clauses are spelled out below, and scans the
 * result rows in order. A negative LIMIT fails only when the statement runs;
 * that failure reaches the code through the row iterator, which then yields
 * no row, so the listing is empty and carries no error.
 */
module ThreadPostListing {
  import opened Wrappers
  import opened Errors
  import opened Models
  import opened Seqs
  import opened Order
  import opened Store
  import opened ThreadRepository

  // ------------------------------------------------------------ sort keys

  function Created(r: PostRow): int { r.post.created }
  function Id(r: PostRow): int { r.post.id }
  function PathOf(r: PostRow): seq<int> { r.path }

  /** `path[1]`: the top-level post a row hangs under (arrays are 1-based in the store). */
  function RootOf(r: PostRow): int { if |r.path| > 0 then r.path[0] else 0 }

  /** ORDER BY created, id */
  const FlatAsc: (PostRow, PostRow) -> bool := Then(ByInt(Created), ByInt(Id))
  /** ORDER BY created DESC, id DESC */
  const FlatDesc: (PostRow, PostRow) -> bool := Then(ByIntDesc(Created), ByIntDesc(Id))
  /** ORDER BY path, id */
  const TreeAsc: (PostRow, PostRow) -> bool := Then(ByPath(PathOf), ByInt(Id))
  /** ORDER BY path DESC, id */
  const TreeDesc: (PostRow, PostRow) -> bool := Then(ByPathDesc(PathOf), ByInt(Id))
  /** ORDER BY path[1] DESC, path, id */
  const ParentTreeDesc: (PostRow, PostRow) -> bool := Then(ByIntDesc(RootOf), TreeAsc)
  /** ORDER BY id, and ORDER BY id DESC, over the top-level posts */
  const RootsAsc: (PostRow, PostRow) -> bool := ByInt(Id)
  const RootsDesc: (PostRow, PostRow) -> bool := ByIntDesc(Id)

  lemma FlatSorts(s: seq<PostRow>, desc: bool)
    ensures Sorted(SortBy(s, if desc then FlatDesc else FlatAsc), if desc then FlatDesc else FlatAsc)
  {
    ByIntOrder(Created);
    ByIntOrder(Id);
    if desc {
      ThenOrder(ByIntDesc(Created), ByIntDesc(Id));
      SortSorted(s, FlatDesc);
    } else {
      ThenOrder(ByInt(Created), ByInt(Id));
      SortSorted(s, FlatAsc);
    }
  }

  lemma TreeAscOrder()
    ensures StrictWeakOrder(TreeAsc)
  {
    ByIntOrder(Id);
    ByPathOrder(PathOf);
    ThenOrder(ByPath(PathOf), ByInt(Id));
  }

  lemma TreeSorts(s: seq<PostRow>, desc: bool)
    ensures Sorted(SortBy(s, if desc then TreeDesc else TreeAsc), if desc then TreeDesc else TreeAsc)
  {
    if desc {
      ByIntOrder(Id);
      ByPathOrder(PathOf);
      ThenOrder(ByPathDesc(PathOf), ByInt(Id));
      SortSorted(s, TreeDesc);
    } else {
      TreeAscOrder();
      SortSorted(s, TreeAsc);
    }
  }

  lemma RootsSorts(s: seq<PostRow>, desc: bool)
    ensures Sorted(SortBy(s, if desc then RootsDesc else RootsAsc), if desc then RootsDesc else RootsAsc)
  {
    ByIntOrder(Id);
    if desc {
      SortSorted(s, RootsDesc);
    } else {
      SortSorted(s, RootsAsc);
    }
  }

  lemma ParentTreeSorts(s: seq<PostRow>, desc: bool)
    ensures Sorted(SortBy(s, if desc then ParentTreeDesc else TreeAsc), if desc then ParentTreeDesc else TreeAsc)
  {
    TreeAscOrder();
    if desc {
      ByIntOrder(RootOf);
      ThenOrder(ByIntDesc(RootOf), TreeAsc);
      SortSorted(s, ParentTreeDesc);
    } else {
      SortSorted(s, TreeAsc);
    }
  }

  /** A path sorts before its extensions in both path orders of a single tree. */
  lemma PrefixSortsFirst(a: PostRow, b: PostRow)
    requires |a.path| > 0 && a.path < b.path
    ensures TreeAsc(a, b) && !TreeAsc(b, a) && TreeDesc(b, a) && ParentTreeDesc(a, b)
  {
    PrefixFirst(a.path, b.path);
    LexAsymmetric(a.path, b.path);
    assert LexLess(PathOf(a), PathOf(b));
    assert ByPath(PathOf)(a, b) && ByPathDesc(PathOf)(b, a);
    assert RootOf(a) == RootOf(b) by {
      assert b.path[0] == a.path[0];
    }
    assert !ByIntDesc(RootOf)(a, b) && !ByIntDesc(RootOf)(b, a);
  }

  // ------------------------------------------------------------------ flat

  /** WHERE thread = $1 AND id > since (ascending); AND id < since only when descending with since ≠ 0. */
  function FlatWhere(thread: int, since: int, desc: bool): PostRow -> bool {
    (r: PostRow) => r.post.thread == thread && (if desc then since == 0 || r.post.id < since else r.post.id > since)
  }

  function FlatOrder(desc: bool): (PostRow, PostRow) -> bool {
    if desc then FlatDesc else FlatAsc
  }

  function FlatRows(posts: seq<PostRow>, thread: int, limit: int, since: int, desc: bool): seq<PostRow> {
    Query(posts, FlatWhere(thread, since, desc), FlatOrder(desc), limit)
  }

  /** The flat listing: thread posts beyond the id cursor, by (created, id), at most `limit`, none skipped. */
  lemma FlatListingProperties(posts: seq<PostRow>, thread: int, limit: int, since: int, desc: bool)
    ensures forall x :: x in FlatRows(posts, thread, limit, since, desc) ==> x in posts && x.post.thread == thread
    ensures !desc ==> forall x :: x in FlatRows(posts, thread, limit, since, desc) ==> x.post.id > since
    ensures desc && since != 0 ==> forall x :: x in FlatRows(posts, thread, limit, since, desc) ==> x.post.id < since
    ensures Sorted(FlatRows(posts, thread, limit, since, desc), FlatOrder(desc))
    ensures limit < 0 ==> FlatRows(posts, thread, limit, since, desc) == []
    ensures limit >= 0 ==> |FlatRows(posts, thread, limit, since, desc)| <= limit
    ensures forall q, x ::
      q in posts && FlatWhere(thread, since, desc)(q)
      && q !in FlatRows(posts, thread, limit, since, desc) && x in FlatRows(posts, thread, limit, since, desc)
      ==> !FlatOrder(desc)(q, x)
    // a page that is not full holds every qualifying row
    ensures |FlatRows(posts, thread, limit, since, desc)| < limit ==>
      forall q :: q in posts && FlatWhere(thread, since, desc)(q) ==> q in FlatRows(posts, thread, limit, since, desc)
  {
    FlatSorts(Filter(posts, FlatWhere(thread, since, desc)), desc);
    QueryOfSorted(posts, FlatWhere(thread, since, desc), FlatOrder(desc), limit);
  }

  // ------------------------------------------------------------------ tree

  function IdIs(id: int): PostRow -> bool {
    (r: PostRow) => r.post.id == id
  }

  /** (SELECT path FROM posts WHERE id = since): any thread; no row is NULL. */
  function SincePath(posts: seq<PostRow>, since: int): Option<seq<int>> {
    match Find(posts, IdIs(since))
    case Some(r) => Some(r.path)
    case None => None
  }

  /** WHERE thread = $1 [AND path > / < the since post's path]; a comparison with NULL holds for no row. */
  function TreeWhere(thread: int, since: int, bound: Option<seq<int>>, desc: bool): PostRow -> bool {
    (r: PostRow) => r.post.thread == thread
      && (since == 0 || (bound.Some? && if desc then LexLess(r.path, bound.value) else LexLess(bound.value, r.path)))
  }

  function TreeOrder(desc: bool): (PostRow, PostRow) -> bool {
    if desc then TreeDesc else TreeAsc
  }

  function TreeRows(posts: seq<PostRow>, thread: int, limit: int, since: int, desc: bool): seq<PostRow> {
    Query(posts, TreeWhere(thread, since, SincePath(posts, since), desc), TreeOrder(desc), limit)
  }

  /** The tree listing: thread posts in path order, at most `limit`, none skipped. */
  lemma TreeListingProperties(posts: seq<PostRow>, thread: int, limit: int, since: int, desc: bool)
    ensures forall x :: x in TreeRows(posts, thread, limit, since, desc) ==>
      x in posts && TreeWhere(thread, since, SincePath(posts, since), desc)(x)
    ensures Sorted(TreeRows(posts, thread, limit, since, desc), TreeOrder(desc))
    ensures limit < 0 ==> TreeRows(posts, thread, limit, since, desc) == []
    ensures limit >= 0 ==> |TreeRows(posts, thread, limit, since, desc)| <= limit
    ensures forall q, x ::
      q in posts && TreeWhere(thread, since, SincePath(posts, since), desc)(q)
      && q !in TreeRows(posts, thread, limit, since, desc) && x in TreeRows(posts, thread, limit, since, desc)
      ==> !TreeOrder(desc)(q, x)
    // a page that is not full holds every qualifying row
    ensures |TreeRows(posts, thread, limit, since, desc)| < limit ==>
      forall q :: q in posts && TreeWhere(thread, since, SincePath(posts, since), desc)(q) ==> q in TreeRows(posts, thread, limit, since, desc)
  {
    var where := TreeWhere(thread, since, SincePath(posts, since), desc);
    TreeSorts(Filter(posts, where), desc);
    QueryOfSorted(posts, where, TreeOrder(desc), limit);
  }

  /**
   * The tree cursor is strict: every row lies strictly after (ascending) or
   * strictly before (descending) the since post in path order, so the since
   * post itself never comes back; an unknown since id lists nothing.
   */
  lemma TreeCursorStrict(posts: seq<PostRow>, nextId: int, thread: int, limit: int, since: int, desc: bool)
    requires PostsWellFormed(posts, nextId) && since != 0
    ensures SincePath(posts, since).None? ==> TreeRows(posts, thread, limit, since, desc) == []
    ensures forall x :: x in TreeRows(posts, thread, limit, since, desc) ==>
      && x.post.thread == thread
      && SincePath(posts, since).Some?
      && (if desc then LexLess(x.path, SincePath(posts, since).value) else LexLess(SincePath(posts, since).value, x.path))
      && x.post.id != since
  {
    var r := TreeRows(posts, thread, limit, since, desc);
    TreeListingProperties(posts, thread, limit, since, desc);
    if r != [] {
      assert r[0] in r;
    }
    RowsDistinct(posts, nextId);
    forall x | x in r && SincePath(posts, since).Some? ensures x.post.id != since {
      var s := Find(posts, IdIs(since)).value;
      if x.post.id == since {
        assert x == s;
        LexIrreflexive(x.path);
      }
    }
  }

  /** Between rows of different paths, path DESC is the converse of path ascending, and one of the two orders them. */
  lemma PathOrdersConverse(x: PostRow, y: PostRow)
    requires x.path != y.path || x == y
    ensures TreeDesc(x, y) ==> TreeAsc(y, x)
    ensures x != y ==> TreeDesc(x, y) || TreeDesc(y, x)
  {
    LexIrreflexive(x.path);
    if x.path != y.path {
      LexTotal(x.path, y.path);
      if LexLess(x.path, y.path) {
        LexAsymmetric(x.path, y.path);
      } else {
        LexAsymmetric(y.path, x.path);
      }
    }
    assert LexLess(PathOf(x), PathOf(y)) == LexLess(x.path, y.path);
    assert LexLess(PathOf(y), PathOf(x)) == LexLess(y.path, x.path);
  }

  /** No two different rows of `c` share a path. */
  predicate DistinctPathRows(c: seq<PostRow>) {
    forall x, y :: x in c && y in c && x != y ==> x.path != y.path
  }

  lemma ReversedAscSorted(c: seq<PostRow>)
    requires DistinctPathRows(c)
    ensures Sorted(Reverse(SortBy(c, TreeAsc)), TreeDesc)
  {
    var asc := SortBy(c, TreeAsc);
    TreeSorts(c, false);
    forall x, y | x in asc && y in asc ensures TreeDesc(x, y) ==> TreeAsc(y, x) {
      assert x in multiset(asc) && y in multiset(asc);
      PathOrdersConverse(x, y);
    }
    ReverseSorted(asc, TreeAsc, TreeDesc);
  }

  lemma DescTotal(c: seq<PostRow>)
    requires DistinctPathRows(c)
    ensures TotalOn(SortBy(c, TreeDesc), TreeDesc)
  {
    var desc := SortBy(c, TreeDesc);
    forall x, y | x in desc && y in desc && x != y ensures TreeDesc(x, y) || TreeDesc(y, x) {
      assert x in multiset(desc) && y in multiset(desc);
      PathOrdersConverse(x, y);
    }
  }

  /** Without ties in path order, path DESC is the exact reverse of path ascending. */
  lemma DescReversesAsc(c: seq<PostRow>)
    requires DistinctPathRows(c)
    ensures SortBy(c, TreeDesc) == Reverse(SortBy(c, TreeAsc))
  {
    TreeSorts(c, true);
    ReversedAscSorted(c);
    ReverseMultiset(SortBy(c, TreeAsc));
    DescTotal(c);
    SortedUnique(SortBy(c, TreeDesc), Reverse(SortBy(c, TreeAsc)), TreeDesc);
  }

  /** Within one table paths are distinct, so path DESC reverses path ascending for any WHERE. */
  lemma TreeDescReversesAsc(posts: seq<PostRow>, nextId: int, where: PostRow -> bool)
    requires PostsWellFormed(posts, nextId)
    ensures SortBy(Filter(posts, where), TreeDesc) == Reverse(SortBy(Filter(posts, where), TreeAsc))
  {
    RowsDistinct(posts, nextId);
    DescReversesAsc(Filter(posts, where));
  }

  /** Tree DESC lists the first `limit` rows of the reversed ascending order of the same rows. */
  lemma TreeDescIsReversedAsc(posts: seq<PostRow>, nextId: int, thread: int, limit: int, since: int)
    requires PostsWellFormed(posts, nextId)
    ensures TreeRows(posts, thread, limit, since, true)
      == Limit(Reverse(SortBy(Filter(posts, TreeWhere(thread, since, SincePath(posts, since), true)), TreeAsc)), limit)
  {
    TreeDescReversesAsc(posts, nextId, TreeWhere(thread, since, SincePath(posts, since), true));
  }

  /** A reply's path extends the path of the post it answers. */
  lemma ReplyExtendsPath(posts: seq<PostRow>, nextId: int, p: PostRow, c: PostRow)
    requires PostsWellFormed(posts, nextId) && p in posts && c in posts
    requires c.post.parent != 0 && c.post.parent == p.post.id
    ensures |p.path| > 0 && p.path < c.path && RootOf(c) == RootOf(p)
  {
    var i :| 0 <= i < |posts| && posts[i] == p;
    var k :| 0 <= k < |posts| && posts[k] == c;
    assert PathOk(posts, k);
    var j :| 0 <= j < k && posts[j].post.id == c.post.parent
      && posts[j].post.thread == c.post.thread && c.path == posts[j].path + [c.post.id];
    IdsIdentify(posts, nextId, i, j);
    PathEndsInId(posts, nextId, i);
  }

  /** The tree listing is depth-first: ascending, a reply follows its parent; descending, it precedes it. */
  lemma TreeReplyOrder(posts: seq<PostRow>, nextId: int, thread: int, limit: int, since: int, desc: bool)
    requires PostsWellFormed(posts, nextId)
    ensures var r := TreeRows(posts, thread, limit, since, desc);
      forall i, j :: 0 <= i < |r| && 0 <= j < |r| && r[j].post.parent != 0 && r[j].post.parent == r[i].post.id
        ==> if desc then j < i else i < j
  {
    var r := TreeRows(posts, thread, limit, since, desc);
    TreeListingProperties(posts, thread, limit, since, desc);
    forall i, j | 0 <= i < |r| && 0 <= j < |r| && r[j].post.parent != 0 && r[j].post.parent == r[i].post.id
      ensures if desc then j < i else i < j
    {
      assert r[i] in r && r[j] in r;
      ReplyExtendsPath(posts, nextId, r[i], r[j]);
      PrefixSortsFirst(r[i], r[j]);
      assert r[i] != r[j];
      if desc {
        SortedBefore(r, TreeDesc, j, i);
      } else {
        SortedBefore(r, TreeAsc, i, j);
      }
    }
  }

  // ----------------------------------------------------------- parent tree

  /** (SELECT path[1] FROM posts WHERE id = since); no row, or an empty path, is NULL. */
  function SinceRoot(posts: seq<PostRow>, since: int): Option<int> {
    match Find(posts, IdIs(since))
    case Some(r) => if |r.path| > 0 then Some(r.path[0]) else None
    case None => None
  }

  /** The inner WHERE: top-level posts of the thread, beyond the since post's top-level id. */
  function RootWhere(thread: int, since: int, bound: Option<int>, desc: bool): PostRow -> bool {
    (r: PostRow) => r.post.thread == thread && r.post.parent == 0
      && (since == 0 || (bound.Some? && |r.path| > 0
            && if desc then r.path[0] < bound.value else r.path[0] > bound.value))
  }

  function RootsOrder(desc: bool): (PostRow, PostRow) -> bool {
    if desc then RootsDesc else RootsAsc
  }

  /** The inner SELECT id ... ORDER BY id LIMIT: the top-level posts one page shows. */
  function PickedRoots(posts: seq<PostRow>, thread: int, limit: int, since: int, desc: bool): seq<int> {
    Map(Query(posts, RootWhere(thread, since, SinceRoot(posts, since), desc), RootsOrder(desc), limit), Id)
  }

  /** The outer WHERE path[1] IN (...): no thread filter and no limit. */
  function UnderRoots(roots: seq<int>): PostRow -> bool {
    (r: PostRow) => |r.path| > 0 && r.path[0] in roots
  }

  function ParentTreeOrder(desc: bool): (PostRow, PostRow) -> bool {
    if desc then ParentTreeDesc else TreeAsc
  }

  function ParentTreeRows(posts: seq<PostRow>, thread: int, limit: int, since: int, desc: bool): seq<PostRow> {
    SortBy(Filter(posts, UnderRoots(PickedRoots(posts, thread, limit, since, desc))), ParentTreeOrder(desc))
  }

  /**
   * The inner query picks the first `limit` top-level posts of the thread
   * past the cursor, by id (descending when `desc`): each picked id is such a
   * post, ids come in order, no qualifying post with a smaller (descending:
   * larger) id is passed over, and when fewer than `limit` are picked every
   * qualifying post is.
   */
  lemma PickedRootsProperties(posts: seq<PostRow>, thread: int, limit: int, since: int, desc: bool)
    ensures limit < 0 ==> PickedRoots(posts, thread, limit, since, desc) == []
    ensures limit >= 0 ==> |PickedRoots(posts, thread, limit, since, desc)| <= limit
    ensures forall id :: id in PickedRoots(posts, thread, limit, since, desc) ==>
      exists x :: x in posts && x.post.id == id && RootWhere(thread, since, SinceRoot(posts, since), desc)(x)
    ensures var ids := PickedRoots(posts, thread, limit, since, desc);
      forall i, j :: 0 <= i < j < |ids| ==> if desc then ids[j] <= ids[i] else ids[i] <= ids[j]
    ensures var ids := PickedRoots(posts, thread, limit, since, desc);
      forall q, id ::
        (q in posts && RootWhere(thread, since, SinceRoot(posts, since), desc)(q) && q.post.id !in ids && id in ids)
        ==> if desc then q.post.id <= id else id <= q.post.id
    ensures var ids := PickedRoots(posts, thread, limit, since, desc);
      |ids| < limit ==> forall q :: q in posts && RootWhere(thread, since, SinceRoot(posts, since), desc)(q) ==> q.post.id in ids
  {
    var where := RootWhere(thread, since, SinceRoot(posts, since), desc);
    RootsSorts(Filter(posts, where), desc);
    QueryOfSorted(posts, where, RootsOrder(desc), limit);
    var q := Query(posts, where, RootsOrder(desc), limit);
    RootIdsPicked(posts, where, q);
    RootIdsOrdered(q, desc);
    RootIdsNoSkip(posts, where, q, desc);
    if |q| < limit {
      RootIdsComplete(posts, where, q);
    }
  }

  lemma RootIdsPicked(posts: seq<PostRow>, where: PostRow -> bool, q: seq<PostRow>)
    requires forall x :: x in q ==> x in posts && where(x)
    ensures forall id :: id in Map(q, Id) ==> exists x :: x in posts && x.post.id == id && where(x)
  {
    forall id | id in Map(q, Id) ensures exists x :: x in posts && x.post.id == id && where(x) {
      var i :| 0 <= i < |q| && Map(q, Id)[i] == id;
      assert q[i] in q;
    }
  }

  lemma RootIdsOrdered(q: seq<PostRow>, desc: bool)
    requires Sorted(q, RootsOrder(desc))
    ensures var ids := Map(q, Id);
      forall i, j :: 0 <= i < j < |ids| ==> if desc then ids[j] <= ids[i] else ids[i] <= ids[j]
  {
    var ids := Map(q, Id);
    forall i, j | 0 <= i < j < |ids| ensures if desc then ids[j] <= ids[i] else ids[i] <= ids[j] {
      assert !RootsOrder(desc)(q[j], q[i]);
      assert ids[i] == Id(q[i]) && ids[j] == Id(q[j]);
      if desc {
        assert RootsDesc(q[j], q[i]) == (Id(q[i]) < Id(q[j]));
      } else {
        assert RootsAsc(q[j], q[i]) == (Id(q[j]) < Id(q[i]));
      }
    }
  }

  lemma RootIdsNoSkip(posts: seq<PostRow>, where: PostRow -> bool, q: seq<PostRow>, desc: bool)
    requires forall y, x :: y in posts && where(y) && y !in q && x in q ==> !RootsOrder(desc)(y, x)
    ensures var ids := Map(q, Id);
      forall y, id :: (y in posts && where(y) && y.post.id !in ids && id in ids)
        ==> if desc then y.post.id <= id else id <= y.post.id
  {
    var ids := Map(q, Id);
    forall y, id | y in posts && where(y) && y.post.id !in ids && id in ids
      ensures if desc then y.post.id <= id else id <= y.post.id
    {
      var i :| 0 <= i < |q| && ids[i] == id;
      assert q[i] in q;
      forall k | 0 <= k < |q| ensures q[k] != y {
        assert ids[k] == Id(q[k]);
      }
      assert !RootsOrder(desc)(y, q[i]) && ids[i] == Id(q[i]);
      if desc {
        assert RootsDesc(y, q[i]) == (Id(q[i]) < Id(y));
      } else {
        assert RootsAsc(y, q[i]) == (Id(y) < Id(q[i]));
      }
    }
  }

  lemma RootIdsComplete(posts: seq<PostRow>, where: PostRow -> bool, q: seq<PostRow>)
    requires forall y :: y in posts && where(y) ==> y in q
    ensures forall y :: y in posts && where(y) ==> y.post.id in Map(q, Id)
  {
    forall y | y in posts && where(y) ensures y.post.id in Map(q, Id) {
      var k :| 0 <= k < |q| && q[k] == y;
      assert Map(q, Id)[k] == y.post.id;
    }
  }

  /** The page holds exactly the rows hanging under the picked top-level posts, from any thread. */
  lemma ParentTreeMembers(posts: seq<PostRow>, thread: int, limit: int, since: int, desc: bool)
    ensures forall x :: x in ParentTreeRows(posts, thread, limit, since, desc) <==>
      x in posts && |x.path| > 0 && x.path[0] in PickedRoots(posts, thread, limit, since, desc)
    // ORDER BY path (ascending), or ORDER BY path[1] DESC, path (descending)
    ensures Sorted(ParentTreeRows(posts, thread, limit, since, desc), ParentTreeOrder(desc))
  {
    ParentTreeSorts(Filter(posts, UnderRoots(PickedRoots(posts, thread, limit, since, desc))), desc);
    var r := ParentTreeRows(posts, thread, limit, since, desc);
    var c := Filter(posts, UnderRoots(PickedRoots(posts, thread, limit, since, desc)));
    forall x ensures x in r <==> x in c {
      assert x in r <==> x in multiset(r);
      assert x in c <==> x in multiset(c);
    }
  }

  /** Although the outer query does not filter by thread, every row it returns is in the thread. */
  lemma ParentTreeInThread(posts: seq<PostRow>, nextId: int, thread: int, limit: int, since: int, desc: bool)
    requires PostsWellFormed(posts, nextId)
    ensures forall x :: x in ParentTreeRows(posts, thread, limit, since, desc) ==> x.post.thread == thread
  {
    var where := RootWhere(thread, since, SinceRoot(posts, since), desc);
    ParentTreeMembers(posts, thread, limit, since, desc);
    PickedRootsProperties(posts, thread, limit, since, desc);
    forall x | x in ParentTreeRows(posts, thread, limit, since, desc) ensures x.post.thread == thread {
      var i :| 0 <= i < |posts| && posts[i] == x;
      RootAncestor(posts, nextId, i);
      var j :|
        0 <= j <= i && posts[j].post.parent == 0 && posts[j].post.id == posts[i].path[0]
        && posts[j].path == [posts[i].path[0]] && posts[j].post.thread == posts[i].post.thread;
      var y :| y in posts && y.post.id == x.path[0] && where(y);
      var k :| 0 <= k < |posts| && posts[k] == y;
      IdsIdentify(posts, nextId, j, k);
    }
  }

  /** Subtrees come whole: every reply to a row on the page is on the page. */
  lemma ParentTreeWholeSubtrees(posts: seq<PostRow>, nextId: int, thread: int, limit: int, since: int, desc: bool)
    requires PostsWellFormed(posts, nextId)
    ensures forall x, c ::
      x in ParentTreeRows(posts, thread, limit, since, desc) && c in posts && c.post.parent != 0 && c.post.parent == x.post.id
      ==> c in ParentTreeRows(posts, thread, limit, since, desc)
  {
    ParentTreeMembers(posts, thread, limit, since, desc);
    forall x, ch | x in ParentTreeRows(posts, thread, limit, since, desc) && ch in posts
      && ch.post.parent != 0 && ch.post.parent == x.post.id
      ensures ch in ParentTreeRows(posts, thread, limit, since, desc)
    {
      ReplyExtendsPath(posts, nextId, x, ch);
    }
  }

  /** Each picked top-level post is itself on the page. */
  lemma ParentTreeHasRoots(posts: seq<PostRow>, nextId: int, thread: int, limit: int, since: int, desc: bool)
    requires PostsWellFormed(posts, nextId)
    ensures forall id :: id in PickedRoots(posts, thread, limit, since, desc) ==>
      exists x :: x in ParentTreeRows(posts, thread, limit, since, desc) && x.post.id == id && x.post.parent == 0
  {
    var where := RootWhere(thread, since, SinceRoot(posts, since), desc);
    ParentTreeMembers(posts, thread, limit, since, desc);
    PickedRootsProperties(posts, thread, limit, since, desc);
    forall id | id in PickedRoots(posts, thread, limit, since, desc)
      ensures exists x :: x in ParentTreeRows(posts, thread, limit, since, desc) && x.post.id == id && x.post.parent == 0
    {
      var y :| y in posts && y.post.id == id && where(y);
      var k :| 0 <= k < |posts| && posts[k] == y;
      assert PathOk(posts, k);
      assert y in ParentTreeRows(posts, thread, limit, since, desc);
    }
  }

  /** Within a page, in either direction, a reply follows the post it answers. */
  lemma ParentTreeReplyOrder(posts: seq<PostRow>, nextId: int, thread: int, limit: int, since: int, desc: bool)
    requires PostsWellFormed(posts, nextId)
    ensures var r := ParentTreeRows(posts, thread, limit, since, desc);
      forall i, j :: 0 <= i < |r| && 0 <= j < |r| && r[j].post.parent != 0 && r[j].post.parent == r[i].post.id ==> i < j
  {
    var r := ParentTreeRows(posts, thread, limit, since, desc);
    var c := Filter(posts, UnderRoots(PickedRoots(posts, thread, limit, since, desc)));
    ParentTreeSorts(c, desc);
    forall i, j | 0 <= i < |r| && 0 <= j < |r| && r[j].post.parent != 0 && r[j].post.parent == r[i].post.id
      ensures i < j
    {
      assert r[i] in multiset(r) && r[j] in multiset(r);
      ReplyExtendsPath(posts, nextId, r[i], r[j]);
      PrefixSortsFirst(r[i], r[j]);
      assert r[i] != r[j];
      SortedBefore(r, ParentTreeOrder(desc), i, j);
    }
  }

  /** One top-level post with a reply, and a second top-level post. */
  const ExampleFirst := PostRow(Post(1, 0, "a", "first", false, "f", 1, 0), [1])
  const ExampleReply := PostRow(Post(2, 1, "b", "reply", false, "f", 1, 0), [1, 2])
  const ExampleSecond := PostRow(Post(3, 0, "c", "second", false, "f", 1, 0), [3])

  const ExampleRows := [ExampleFirst, ExampleReply, ExampleSecond]

  lemma ExampleRootFilter()
    ensures Filter(ExampleRows, RootWhere(1, 0, SinceRoot(ExampleRows, 0), false)) == [ExampleFirst, ExampleSecond]
  {
    var where := RootWhere(1, 0, SinceRoot(ExampleRows, 0), false);
    assert ExampleRows[1..] == [ExampleReply, ExampleSecond];
    assert [ExampleReply, ExampleSecond][1..] == [ExampleSecond];
    assert Filter([ExampleSecond], where) == [ExampleSecond] by {
      assert [ExampleSecond][1..] == [];
    }
  }

  lemma ExampleRootOrder()
    ensures SortBy([ExampleFirst, ExampleSecond], RootsAsc) == [ExampleFirst, ExampleSecond]
  {
    assert [ExampleFirst, ExampleSecond][1..] == [ExampleSecond];
    assert SortBy([ExampleSecond], RootsAsc) == [ExampleSecond] by {
      assert [ExampleSecond][1..] == [];
    }
    assert !ByInt(Id)(ExampleSecond, ExampleFirst) by {
      assert Id(ExampleSecond) == 3 && Id(ExampleFirst) == 1;
    }
  }

  lemma ExamplePageRows()
    ensures Filter(ExampleRows, UnderRoots([1])) == [ExampleFirst, ExampleReply]
  {
    assert ExampleRows[1..] == [ExampleReply, ExampleSecond];
    assert [ExampleReply, ExampleSecond][1..] == [ExampleSecond];
    assert Filter([ExampleSecond], UnderRoots([1])) == [] by {
      assert [ExampleSecond][1..] == [];
    }
  }

  lemma ExamplePageOrder()
    ensures SortBy([ExampleFirst, ExampleReply], TreeAsc) == [ExampleFirst, ExampleReply]
  {
    assert [ExampleFirst, ExampleReply][1..] == [ExampleReply];
    assert SortBy([ExampleReply], TreeAsc) == [ExampleReply] by {
      assert [ExampleReply][1..] == [];
    }
    PrefixSortsFirst(ExampleFirst, ExampleReply);
  }

  /** LIMIT counts top-level posts, not rows: a page of limit 1 can hold two posts. */
  lemma LimitCountsRoots()
    ensures PickedRoots(ExampleRows, 1, 1, 0, false) == [1]
    ensures ParentTreeRows(ExampleRows, 1, 1, 0, false) == [ExampleFirst, ExampleReply]
  {
    ExampleRootFilter();
    ExampleRootOrder();
    assert Limit([ExampleFirst, ExampleSecond], 1) == [ExampleFirst];
    assert Map([ExampleFirst], Id) == [1];
    ExamplePageRows();
    ExamplePageOrder();
  }

  // -------------------------------------------------------------- listings

  /** A listing as the repository returns it: the thread's error with no posts, or the posts of the rows chosen for the thread. */
  function Listing(threads: seq<Thread>, slugOrId: string, rows: int -> seq<PostRow>): (r: (seq<Post>, Option<Error>))
    ensures GetThread(threads, slugOrId).err.Some? ==> r == ([], Some(ThreadNotFound))
    ensures GetThread(threads, slugOrId).err.None? ==> r == (Posts(rows(GetThread(threads, slugOrId).value.id)), None)
  {
    var th := GetThread(threads, slugOrId);
    if th.err.Some? then ([], th.err) else (Posts(rows(th.value.id)), None)
  }

  function FlatSelect(posts: seq<PostRow>, limit: int, since: int, desc: bool): int -> seq<PostRow> {
    (thread: int) => FlatRows(posts, thread, limit, since, desc)
  }

  function TreeSelect(posts: seq<PostRow>, limit: int, since: int, desc: bool): int -> seq<PostRow> {
    (thread: int) => TreeRows(posts, thread, limit, since, desc)
  }

  function ParentTreeSelect(posts: seq<PostRow>, limit: int, since: int, desc: bool): int -> seq<PostRow> {
    (thread: int) => ParentTreeRows(posts, thread, limit, since, desc)
  }

  method GetPostsFlat(db: Database, slugOrId: string, limit: int, since: int, desc: bool) returns (posts: seq<Post>, err: Option<Error>)
    ensures (posts, err) == Listing(db.threads, slugOrId, FlatSelect(db.posts, limit, since, desc))
  {
    var thread := GetThread(db.threads, slugOrId);
    if thread.err.Some? {
      return [], thread.err;
    }
    posts := ScanPosts(FlatRows(db.posts, thread.value.id, limit, since, desc));
    err := None;
  }

  method GetPostsTree(db: Database, slugOrId: string, limit: int, since: int, desc: bool) returns (posts: seq<Post>, err: Option<Error>)
    ensures (posts, err) == Listing(db.threads, slugOrId, TreeSelect(db.posts, limit, since, desc))
  {
    var thread := GetThread(db.threads, slugOrId);
    if thread.err.Some? {
      return [], thread.err;
    }
    posts := ScanPosts(TreeRows(db.posts, thread.value.id, limit, since, desc));
    err := None;
  }

  method GetPostsParentTree(db: Database, slugOrId: string, limit: int, since: int, desc: bool) returns (posts: seq<Post>, err: Option<Error>)
    ensures (posts, err) == Listing(db.threads, slugOrId, ParentTreeSelect(db.posts, limit, since, desc))
  {
    var thread := GetThread(db.threads, slugOrId);
    if thread.err.Some? {
      return [], thread.err;
    }
    posts := ScanPosts(ParentTreeRows(db.posts, thread.value.id, limit, since, desc));
    err := None;
  }
}
