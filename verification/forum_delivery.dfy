/**
 * The forum handlers' decisions: which status each outcome of forum and
 * thread creation is answered with, and how the listing handlers read their
 * `limit` and `desc` query parameters. Writing the response is modelled as
 * returning it; an error a handler returns becomes the error middleware's
 * response, whose status comes from the error table.
 */
module ForumDelivery {
  import opened Wrappers
  import opened Errors
  import opened Models
  import opened Text
  import opened Store
  import opened ForumRepository
  import opened ThreadRepository

  /** What a request body decodes to: the entity, or the read or JSON failure. */
  datatype Decoded<T> = Body(value: T) | Unreadable | Malformed

  /** An error body carries the error's message, or that message behind a context ("context: message"). */
  datatype ResponseBody<T> = NoBody | Json(value: T) | Message(error: Error) | Wrapped(context: string, error: Error)

  datatype Response<T> = Response(status: int, body: ResponseBody<T>)

  /** The context HandleError puts in front of an error the status table does not know. */
  const UndefinedError := "undefined error"

  /**
   * HandleError: a returned error is answered with its table status (500 when
   * not in the table) and its message; an error not in the table is first
   * wrapped as "undefined error: <message>".
   */
  function ErrorResponse<T>(e: Error): (r: Response<T>)
    ensures r.status == if e == InvalidDescParam then StatusInternalServerError else StatusOf(e)
    ensures GetHTTPCodeByError(e).1 ==> r.body == Message(e)
    ensures !GetHTTPCodeByError(e).1 ==> r.body == Wrapped(UndefinedError, e)
    ensures r.body.Wrapped? <==> e == InvalidDescParam
  {
    var found := GetHTTPCodeByError(e);
    Response(found.0, if found.1 then Message(e) else Wrapped(UndefinedError, e))
  }

  function DecodeError<T>(d: Decoded<T>): Error
    requires !d.Body?
  {
    if d.Unreadable? then ReadBody else ParseJSON
  }

  // ---------------------------------------------------------------- create

  /**
   * Create is routed for every `/api/forum/:slug` and only acts when the slug
   * is "create". A taken slug is a 409 with the stored forum, success a 201
   * with the new one; any other error is returned to the middleware.
   */
  function CreateForumResponse(t: Tables, slug: string, decoded: Decoded<Forum>): (r: (Response<Option<Forum>>, Tables))
    ensures slug != "create" ==> r.0 == Response(StatusNotFound, NoBody)
    ensures r.0.status == StatusCreated <==> slug == "create" && decoded.Body? && CreateForum(t, decoded.value).0.err.None?
    ensures r.0.status == StatusCreated ==> r.0.body == Json(CreateForum(t, decoded.value).0.value) && r.1 == CreateForum(t, decoded.value).1
    ensures slug == "create" && decoded.Body? ==> r.1 == CreateForum(t, decoded.value).1
    ensures !(slug == "create" && decoded.Body?) ==> r.1 == t
    ensures slug == "create" && decoded.Body? && CreateForum(t, decoded.value).0.err == Some(ForumAlreadyExists) ==>
      r.0 == Response(StatusConflict, Json(Some(Get(t.forums, decoded.value.slug).value)))
    ensures slug == "create" && decoded.Body? && CreateForum(t, decoded.value).0.err == Some(UserNotFound) ==>
      r.0 == Response(StatusNotFound, Message(UserNotFound))
  {
    if slug != "create" then (Response(StatusNotFound, NoBody), t)
    else if !decoded.Body? then (ErrorResponse(DecodeError(decoded)), t)
    else
      var res := CreateForum(t, decoded.value);
      if res.0.err.Some? then
        if res.0.err.value != ForumAlreadyExists then (ErrorResponse(res.0.err.value), res.1)
        else (Response(StatusConflict, Json(res.0.value)), res.1)
      else (Response(StatusCreated, Json(res.0.value)), res.1)
  }

  method Create(db: Database, slug: string, decoded: Decoded<Forum>) returns (resp: Response<Option<Forum>>)
    modifies db
    requires db.Valid()
    ensures db.Valid()
    ensures (resp, db.Snapshot()) == CreateForumResponse(old(db.Snapshot()), slug, decoded)
  {
    if slug != "create" {
      return Response(StatusNotFound, NoBody);
    }
    if !decoded.Body? {
      return ErrorResponse(DecodeError(decoded));
    }
    var forum, err := ForumRepository.Create(db, decoded.value);
    if err.Some? {
      if err.value != ForumAlreadyExists {
        return ErrorResponse(err.value);
      }
      return Response(StatusConflict, Json(forum));
    }
    resp := Response(StatusCreated, Json(forum));
  }

  // --------------------------------------------------------- create thread

  /**
   * The status switch of CreateThread: a missing author or forum is returned
   * to the middleware, a taken slug is a 409 and success a 201, each with the
   * thread; any other error matches no case and falls through to the body
   * write with the default status.
   */
  function ThreadResponse(r: Reply<Thread>): (resp: Response<Thread>)
    ensures r.err.None? ==> resp == Response(StatusCreated, Json(r.value))
    ensures r.err == Some(ThreadAlreadyExists) ==> resp == Response(StatusConflict, Json(r.value))
    ensures r.err == Some(UserNotFound) || r.err == Some(ForumNotFound) ==> resp == Response(StatusNotFound, Message(r.err.value))
    ensures resp.status == StatusOK <==>
      r.err.Some? && r.err.value != UserNotFound && r.err.value != ForumNotFound && r.err.value != ThreadAlreadyExists
  {
    match r.err
    case None => Response(StatusCreated, Json(r.value))
    case Some(e) =>
      if e == UserNotFound || e == ForumNotFound then ErrorResponse(e)
      else if e == ThreadAlreadyExists then Response(StatusConflict, Json(r.value))
      else Response(StatusOK, Json(r.value))
  }

  /** The switch with every other error returned to the middleware: a 2xx answer means a stored thread. */
  function ThreadResponseIntended(r: Reply<Thread>): (resp: Response<Thread>)
    ensures resp.status == StatusCreated <==> r.err.None?
    ensures resp.status != StatusOK
    ensures r.err.Some? && r.err != Some(ThreadAlreadyExists) ==> resp == Response(StatusOf(r.err.value), Message(r.err.value))
    ensures r.err.Some? ==> resp.status != StatusCreated
  {
    match r.err
    case None => Response(StatusCreated, Json(r.value))
    case Some(e) =>
      if e == ThreadAlreadyExists then Response(StatusConflict, Json(r.value))
      else
        StatusClasses(e);
        Response(StatusOf(e), Message(e))
  }

  /** CreateThread: routed for every `/api/forum/:slug/:action`, acting only for "create"; the forum comes from the path. */
  function CreateThreadResponse(t: Tables, slug: string, action: string, decoded: Decoded<Thread>): (r: (Response<Thread>, Tables))
    ensures action != "create" ==> r == (Response(StatusNotFound, NoBody), t)
    ensures action == "create" && decoded.Body? ==>
      var res := InsertThread(t, decoded.value.(forum := slug));
      r.0 == ThreadResponse(res.0) && r.1 == res.1
  {
    if action != "create" then (Response(StatusNotFound, NoBody), t)
    else if !decoded.Body? then (ErrorResponse(DecodeError(decoded)), t)
    else
      var res := InsertThread(t, decoded.value.(forum := slug));
      (ThreadResponse(res.0), res.1)
  }

  /**
   * A numeric slug that is taken but names no thread id passes the pre-check
   * and fails on the unique index; the internal error is answered 200 with an
   * empty thread.
   */
  lemma CreateThreadInternalIsOK()
    ensures var taken := ZeroThread.(id := 1, slug := "7");
      var t := Empty.(threads := [taken], nextThreadId := 2);
      var thread := ZeroThread.(slug := "7");
      CreateThreadResponse(t, "forum", "create", Body(thread)).0 == Response(StatusOK, Json(ZeroThread))
  {
    var taken := ZeroThread.(id := 1, slug := "7");
    var threads := [taken];
    assert Atoi("7") == Some(7) by {
      assert "7"[0] == '7';
    }
    assert GetThread(threads, "7").err.Some? by {
      assert !Selects("7", taken);
    }
    assert SlugTaken(threads, "7") by {
      assert taken in threads;
    }
  }

  method CreateThread(db: Database, slug: string, action: string, decoded: Decoded<Thread>) returns (resp: Response<Thread>)
    modifies db
    requires db.Valid()
    ensures db.Valid()
    ensures (resp, db.Snapshot()) == CreateThreadResponse(old(db.Snapshot()), slug, action, decoded)
  {
    if action != "create" {
      return Response(StatusNotFound, NoBody);
    }
    if !decoded.Body? {
      return ErrorResponse(DecodeError(decoded));
    }
    var thread, err := ForumRepository.CreateThread(db, decoded.value.(forum := slug));
    if err.Some? {
      if err.value == UserNotFound || err.value == ForumNotFound {
        return ErrorResponse(err.value);
      } else if err.value == ThreadAlreadyExists {
        return Response(StatusConflict, Json(thread));
      }
      return Response(StatusOK, Json(thread));
    }
    resp := Response(StatusCreated, Json(thread));
  }

  // -------------------------------------------------------------- listings

  /** The listing arguments after the query is read: the `since` string is passed on as it is. */
  datatype ListingArgs = ListingArgs(limit: int, since: string, desc: bool)

  const DefaultListingLimit := 100

  /** `limit`: absent is 100; anything but a non-negative integer is ErrInvalidLimitParam. */
  function ParseLimit(s: string): (r: Result<int>)
    ensures s == "" ==> r == Ok(DefaultListingLimit)
    ensures s != "" ==> (r.Ok? <==> Atoi(s).Some? && Atoi(s).value >= 0)
    ensures s != "" && r.Ok? ==> r.value == Atoi(s).value
    ensures r.Err? ==> r.error == InvalidLimitParam
    ensures r.Ok? ==> 0 <= r.value <= Int64Max
  {
    if s == "" then Ok(DefaultListingLimit)
    else match Atoi(s)
      case Some(n) => if n < 0 then Err(InvalidLimitParam) else Ok(n)
      case None => Err(InvalidLimitParam)
  }

  /** `desc`: absent or "false" is ascending, "true" descending, anything else ErrInvalidDescParam. */
  function ParseDesc(s: string): (r: Result<bool>)
    ensures r.Ok? <==> s == "" || s == "true" || s == "false"
    ensures r.Ok? ==> (r.value <==> s == "true")
    ensures r.Err? ==> r.error == InvalidDescParam
  {
    if s == "" || s == "false" then Ok(false)
    else if s == "true" then Ok(true)
    else Err(InvalidDescParam)
  }

  /** GetForumUsers and GetForumThreads read `limit`, then `since`, then `desc`. */
  function ParseListingQuery(limit: string, since: string, desc: string): (r: Result<ListingArgs>)
    ensures r.Ok? <==> ParseLimit(limit).Ok? && ParseDesc(desc).Ok?
    ensures ParseLimit(limit).Err? ==> r == Err(InvalidLimitParam)
    ensures ParseLimit(limit).Ok? && ParseDesc(desc).Err? ==> r == Err(InvalidDescParam)
    ensures r.Ok? ==> r.value == ListingArgs(ParseLimit(limit).value, since, ParseDesc(desc).value)
  {
    match ParseLimit(limit)
    case Err(e) => Err(e)
    case Ok(n) =>
      match ParseDesc(desc)
      case Err(e) => Err(e)
      case Ok(d) => Ok(ListingArgs(n, since, d))
  }

  /** Writing the arguments back as a query gives them back. */
  lemma ListingQueryRoundTrip(args: ListingArgs)
    requires 0 <= args.limit <= Int64Max
    ensures ParseListingQuery(Itoa(args.limit), args.since, if args.desc then "true" else "false") == Ok(args)
  {
    AtoiItoa(args.limit);
  }

  /**
   * GetForumUsers: a bad query is the parse error's response, an unknown forum
   * ErrForumNotFound's (404), and otherwise a 200 with the forum's users
   * under the parsed arguments.
   */
  function UsersResponse(t: Tables, slug: string, limit: string, since: string, desc: string): (r: Response<seq<User>>)
    ensures ParseListingQuery(limit, since, desc).Err? ==> r == ErrorResponse(ParseListingQuery(limit, since, desc).error)
    ensures ParseListingQuery(limit, since, desc).Ok? && !ForumKnown(t.forums, slug) ==>
      r == ErrorResponse(ForumNotFound) && r.status == StatusNotFound
    ensures ParseListingQuery(limit, since, desc).Ok? && ForumKnown(t.forums, slug) ==>
      var a := ParseListingQuery(limit, since, desc).value;
      r == Response(StatusOK, Json(Users(UserRows(t.forumUsers, slug, a.limit, a.since, a.desc))))
  {
    match ParseListingQuery(limit, since, desc)
    case Err(e) => ErrorResponse(e)
    case Ok(a) =>
      var res := ForumUsers(t.forums, t.forumUsers, slug, a.limit, a.since, a.desc);
      if res.1.Some? then ErrorResponse(res.1.value) else Response(StatusOK, Json(res.0))
  }

  /**
   * GetForumThreads: a bad query is the parse error's response, an unknown
   * forum ErrForumNotFound's (404), and otherwise a 200 with the threads read
   * under the parsed arguments.
   */
  function ThreadsResponse(t: Tables, slug: string, limit: string, since: string, desc: string, parseTime: string -> Option<int>)
    : (r: Response<seq<Thread>>)
    ensures ParseListingQuery(limit, since, desc).Err? ==> r == ErrorResponse(ParseListingQuery(limit, since, desc).error)
    ensures ParseListingQuery(limit, since, desc).Ok? && !ForumKnown(t.forums, slug) ==>
      r == ErrorResponse(ForumNotFound) && r.status == StatusNotFound
    ensures ParseListingQuery(limit, since, desc).Ok? && ForumKnown(t.forums, slug) ==>
      var a := ParseListingQuery(limit, since, desc).value;
      r == Response(StatusOK, Json(ForumThreadRows(t.threads, slug, a.limit, a.since, a.desc, parseTime)))
  {
    match ParseListingQuery(limit, since, desc)
    case Err(e) => ErrorResponse(e)
    case Ok(a) =>
      var res := ForumThreads(t.forums, t.threads, slug, a.limit, a.since, a.desc, parseTime);
      if res.1.Some? then ErrorResponse(res.1.value) else Response(StatusOK, Json(res.0))
  }

  /** An unreadable `desc` is answered as a server error with an "undefined error" message, since its error is not in the table. */
  lemma BadDescIsServerError(t: Tables, slug: string, limit: string, since: string, desc: string, parseTime: string -> Option<int>)
    requires ParseLimit(limit).Ok? && ParseDesc(desc).Err?
    ensures UsersResponse(t, slug, limit, since, desc).status == StatusInternalServerError
    ensures ThreadsResponse(t, slug, limit, since, desc, parseTime).status == StatusInternalServerError
    ensures UsersResponse(t, slug, limit, since, desc).body == Wrapped(UndefinedError, InvalidDescParam)
    ensures ThreadsResponse(t, slug, limit, since, desc, parseTime).body == Wrapped(UndefinedError, InvalidDescParam)
    ensures StatusOf(InvalidDescParam) == StatusBadRequest
  {
  }

  method GetForumUsers(db: Database, slug: string, limit: string, since: string, desc: string) returns (resp: Response<seq<User>>)
    ensures resp == UsersResponse(db.Snapshot(), slug, limit, since, desc)
  {
    var args := ParseListingQuery(limit, since, desc);
    if args.Err? {
      return ErrorResponse(args.error);
    }
    var users, err := ForumRepository.GetForumUsers(db, slug, args.value.limit, args.value.since, args.value.desc);
    if err.Some? {
      return ErrorResponse(err.value);
    }
    resp := Response(StatusOK, Json(users));
  }

  method GetForumThreads(db: Database, slug: string, limit: string, since: string, desc: string, parseTime: string -> Option<int>)
    returns (resp: Response<seq<Thread>>)
    ensures resp == ThreadsResponse(db.Snapshot(), slug, limit, since, desc, parseTime)
  {
    var args := ParseListingQuery(limit, since, desc);
    if args.Err? {
      return ErrorResponse(args.error);
    }
    var threads, err := ForumRepository.GetForumThreads(db, slug, args.value.limit, args.value.since, args.value.desc, parseTime);
    if err.Some? {
      return ErrorResponse(err.value);
    }
    resp := Response(StatusOK, Json(threads));
  }
}
