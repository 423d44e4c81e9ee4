/**
 * How the thread posts handler reads its query. Each guard parses its
 * parameter into a variable of its own block, so the values the service
 * receives are always the defaults; only the validation has an effect.
 */
module ThreadDelivery {
  import opened Wrappers
  import opened Errors
  import opened Text
  import opened ForumDelivery

  /** The arguments GetPosts hands to the service: limit, since, sort and desc. */
  datatype PostsArgs = PostsArgs(limit: int, since: int, sort: string, desc: bool)

  const DefaultPostsLimit := 30

  /** A present parameter that is not a non-negative integer. */
  predicate BadNumber(s: string) {
    s != "" && (Atoi(s).None? || Atoi(s).value < 0)
  }

  /** GetPosts as written: `limit`, `since` and `desc` are only validated, each as a non-negative integer. */
  function ParsePostsQuery(limit: string, since: string, sort: string, desc: string): (r: Result<PostsArgs>)
    ensures r.Err? <==> BadNumber(limit) || BadNumber(since) || BadNumber(desc)
    ensures r.Err? ==> r.error == InvalidLimitParam
    // whatever passes validation, the service gets limit 30, since 0 and ascending order
    ensures r.Ok? ==> r.value == PostsArgs(DefaultPostsLimit, 0, sort, false)
  {
    if BadNumber(limit) || BadNumber(since) || BadNumber(desc) then Err(InvalidLimitParam)
    else Ok(PostsArgs(DefaultPostsLimit, 0, sort, false))
  }

  /** With no parameters the service is called with limit 30, since 0, no sort and ascending order. */
  lemma NoQueryDefaults()
    ensures ParsePostsQuery("", "", "", "") == Ok(PostsArgs(30, 0, "", false))
  {
  }

  /**
   * Whatever valid values are given, the service receives the defaults: a
   * limit of n is a limit of 30. And `desc=true`, the form the other listings
   * accept, is refused.
   */
  lemma QueryValuesIgnored(n: int, since: string, sort: string)
    requires 0 <= n <= Int64Max && !BadNumber(since)
    ensures ParsePostsQuery(Itoa(n), since, sort, "") == Ok(PostsArgs(DefaultPostsLimit, 0, sort, false))
    ensures ParsePostsQuery("", since, sort, "true") == Err(InvalidLimitParam)
  {
    AtoiItoa(n);
    assert Atoi("true").None? by {
      assert !IsDigit("true"[|"true"| - 1]);
    }
  }

  function ParseCount(s: string): (r: Result<int>)
    ensures r.Err? <==> BadNumber(s)
    ensures r.Ok? ==> 0 <= r.value <= Int64Max
    ensures r.Ok? && s != "" ==> r.value == Atoi(s).value
  {
    if s == "" then Ok(0)
    else match Atoi(s)
      case Some(n) => if n < 0 then Err(InvalidLimitParam) else Ok(n)
      case None => Err(InvalidLimitParam)
  }

  /** GetPosts as evidently intended: the parsed `limit` and `since` reach the service, `desc` is read as the other listings read it. */
  function ParsePostsQueryIntended(limit: string, since: string, sort: string, desc: string): (r: Result<PostsArgs>)
    ensures r.Ok? <==> !BadNumber(limit) && !BadNumber(since) && ParseDesc(desc).Ok?
    ensures r.Ok? ==> r.value.sort == sort && (r.value.desc <==> desc == "true")
    ensures r.Ok? && limit == "" ==> r.value.limit == DefaultPostsLimit
  {
    match ParseCount(limit)
    case Err(e) => Err(e)
    case Ok(n) =>
      match ParseCount(since)
      case Err(e) => Err(e)
      case Ok(s) =>
        match ParseDesc(desc)
        case Err(e) => Err(e)
        case Ok(d) => Ok(PostsArgs(if limit == "" then DefaultPostsLimit else n, s, sort, d))
  }

  /** Writing the arguments as a query and reading it back gives them back. */
  lemma PostsQueryRoundTrip(args: PostsArgs)
    requires 0 <= args.limit <= Int64Max && 0 <= args.since <= Int64Max
    ensures ParsePostsQueryIntended(Itoa(args.limit), Itoa(args.since), args.sort, if args.desc then "true" else "false") == Ok(args)
  {
    AtoiItoa(args.limit);
    AtoiItoa(args.since);
  }
}
