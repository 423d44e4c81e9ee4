/**
 * The user repository: lookups by nickname and by e-mail, creation (which on
 * a taken nickname or e-mail reports the users that hold them), and the
 * profile update. The update binds its four arguments in a different order
 * from the one its statement expects; `UpdateUser` models the statement as
 * the arguments reach it, `UpdateUserIntended` the evident intent.
 */
module UserRepository {
  import opened Wrappers
  import opened Errors
  import opened Models
  import opened Seqs
  import opened Store

  /** CreateParams and UpdateParams: the nickname from the path, the rest from the body. */
  datatype Params = Params(nickname: string, fullname: string, about: string, email: string)

  // --------------------------------------------------------------- lookups

  function NicknameIs(nickname: string): User -> bool {
    (u: User) => u.nickname == nickname
  }

  function EmailIs(email: string): User -> bool {
    (u: User) => u.email == email
  }

  predicate EmailTaken(users: seq<User>, email: string) {
    exists u :: u in users && u.email == email
  }

  /** GetByNickname: the user with this nickname; no row is ErrUserNotFound beside a zero user. */
  function GetByNickname(users: seq<User>, nickname: string): (r: Reply<User>)
    ensures r.err.None? <==> AuthorKnown(users, nickname)
    ensures r.err.None? ==> r.value in users && r.value.nickname == nickname
    ensures r.err.Some? ==> r.value == ZeroUser && r.err == Some(UserNotFound)
  {
    match Find(users, NicknameIs(nickname))
    case Some(u) => Reply(u, None)
    case None => Reply(ZeroUser, Some(UserNotFound))
  }

  /** GetByEmail: the user with this e-mail; no row is ErrUserNotFound beside a zero user. */
  function GetByEmail(users: seq<User>, email: string): (r: Reply<User>)
    ensures r.err.None? <==> EmailTaken(users, email)
    ensures r.err.None? ==> r.value in users && r.value.email == email
    ensures r.err.Some? ==> r.value == ZeroUser && r.err == Some(UserNotFound)
  {
    match Find(users, EmailIs(email))
    case Some(u) => Reply(u, None)
    case None => Reply(ZeroUser, Some(UserNotFound))
  }

  // ---------------------------------------------------------------- create

  /** The users a refused insert reports: the nickname's owner, then the e-mail's owner unless it has the same id. */
  function Conflicts(users: seq<User>, nickname: string, email: string): seq<User> {
    var byNickname := GetByNickname(users, nickname);
    var byEmail := GetByEmail(users, email);
    var first := if byNickname.err.None? then [byNickname.value] else [];
    if byEmail.err.None? && (first == [] || byEmail.value.id != first[0].id) then first + [byEmail.value]
    else first
  }

  /**
   * At most two users, with different ids, each holding the nickname or the
   * e-mail; the nickname's owner first; the e-mail's owner always among them.
   */
  lemma ConflictsProperties(users: seq<User>, nickname: string, email: string)
    requires UsersUnique(users)
    ensures var r := Conflicts(users, nickname, email);
      && |r| <= 2
      && (|r| == 2 ==> r[0].id != r[1].id && r[0] != r[1])
      && (forall u :: u in r ==> u in users && (u.nickname == nickname || u.email == email))
      && (r != [] <==> AuthorKnown(users, nickname) || EmailTaken(users, email))
      && (AuthorKnown(users, nickname) ==> r[0].nickname == nickname)
      && (EmailTaken(users, email) ==> exists i :: 0 <= i < |r| && r[i].email == email)
  {
    var r := Conflicts(users, nickname, email);
    var byNickname := GetByNickname(users, nickname);
    var byEmail := GetByEmail(users, email);
    if byEmail.err.None? {
      if byNickname.err.None? && byEmail.value.id == byNickname.value.id {
        var i :| 0 <= i < |users| && users[i] == byNickname.value;
        var j :| 0 <= j < |users| && users[j] == byEmail.value;
        assert i == j;
        assert r[0].email == email;
      } else {
        assert r[|r| - 1] == byEmail.value;
      }
    }
  }

  /** The conflict branch's conditional appends. */
  method CollectConflicts(users: seq<User>, nickname: string, email: string) returns (found: seq<User>)
    ensures found == Conflicts(users, nickname, email)
  {
    found := [];
    var byNickname := GetByNickname(users, nickname);
    if byNickname.err.None? {
      found := found + [byNickname.value];
    }
    var byEmail := GetByEmail(users, email);
    if byEmail.err.None? {
      if |found| > 0 {
        if byEmail.value.id != found[0].id {
          found := found + [byEmail.value];
        }
      } else {
        found := found + [byEmail.value];
      }
    }
  }

  /**
   * Create: the INSERT fails on the nickname or the e-mail key, answering with
   * the users that hold them; the refused INSERT has already drawn an id
   * from the sequence, which is not given back. Otherwise the new row is the
   * only user returned.
   */
  function InsertUser(t: Tables, params: Params): (r: (Reply<seq<User>>, Tables))
    ensures r.0.err.Some? <==> AuthorKnown(t.users, params.nickname) || EmailTaken(t.users, params.email)
    ensures r.0.err.Some? ==>
      && r.0.err == Some(UserAlreadyExists) && r.1 == t.(nextUserId := t.nextUserId + 1)
      && r.0.value == Conflicts(t.users, params.nickname, params.email)
    ensures r.0.err.None? ==>
      && |r.0.value| == 1
      && r.0.value[0] == User(t.nextUserId, params.nickname, params.fullname, params.about, params.email)
      && r.1 == t.(users := t.users + r.0.value, nextUserId := t.nextUserId + 1)
  {
    if AuthorKnown(t.users, params.nickname) || EmailTaken(t.users, params.email) then
      (Reply(Conflicts(t.users, params.nickname, params.email), Some(UserAlreadyExists)), t.(nextUserId := t.nextUserId + 1))
    else
      var row := User(t.nextUserId, params.nickname, params.fullname, params.about, params.email);
      (Reply([row], None), t.(users := t.users + [row], nextUserId := t.nextUserId + 1))
  }

  lemma InsertUserKeepsConsistent(t: Tables, params: Params)
    requires Consistent(t)
    ensures Consistent(InsertUser(t, params).1)
  {
    var r := InsertUser(t, params);
    if r.0.err.None? {
      var users := r.1.users;
      forall i, j | 0 <= i < j < |users|
        ensures users[i].id != users[j].id && users[i].nickname != users[j].nickname && users[i].email != users[j].email
      {
        if j == |t.users| {
          assert users[i] in t.users;
        }
      }
    }
  }

  /** A created user is what both lookups then find. */
  lemma CreatedUserFound(t: Tables, params: Params)
    requires InsertUser(t, params).0.err.None?
    ensures var r := InsertUser(t, params);
      && GetByNickname(r.1.users, params.nickname) == Reply(r.0.value[0], None)
      && GetByEmail(r.1.users, params.email) == Reply(r.0.value[0], None)
  {
    var row := InsertUser(t, params).0.value[0];
    FindAppend(t.users, [row], NicknameIs(params.nickname));
    FindAppend(t.users, [row], EmailIs(params.email));
    assert Find([row], NicknameIs(params.nickname)) == Some(row);
    assert Find([row], EmailIs(params.email)) == Some(row);
  }

  /** A refused create still uses up an id: the next user created gets the one after it. */
  lemma RefusedCreateSkipsId(t: Tables, refused: Params, next: Params)
    requires InsertUser(t, refused).0.err.Some?
    requires InsertUser(InsertUser(t, refused).1, next).0.err.None?
    ensures InsertUser(InsertUser(t, refused).1, next).0.value[0].id == t.nextUserId + 1
  {
  }

  method Create(db: Database, params: Params) returns (users: seq<User>, err: Option<Error>)
    modifies db
    requires db.Valid()
    ensures db.Valid()
    ensures (Reply(users, err), db.Snapshot()) == InsertUser(old(db.Snapshot()), params)
  {
    InsertUserKeepsConsistent(db.Snapshot(), params);
    if AuthorKnown(db.users, params.nickname) || EmailTaken(db.users, params.email) {
      users := CollectConflicts(db.users, params.nickname, params.email);
      err := Some(UserAlreadyExists);
      db.nextUserId := db.nextUserId + 1;
      return;
    }
    var row := User(db.nextUserId, params.nickname, params.fullname, params.about, params.email);
    db.users := db.users + [row];
    db.nextUserId := db.nextUserId + 1;
    users, err := [row], None;
  }

  // ---------------------------------------------------------------- update

  /** The SET clause: fullname, about and email take the first three arguments. */
  function Rewrite(u: User, fullname: string, about: string, email: string): User {
    u.(fullname := fullname, about := about, email := email)
  }

  function RewriteIf(nickname: string, fullname: string, about: string, email: string): User -> User {
    (u: User) => if u.nickname == nickname then Rewrite(u, fullname, about, email) else u
  }

  /** The e-mail is held by a row the update does not touch: the e-mail key would be violated. */
  predicate EmailHeldByOther(users: seq<User>, nickname: string, email: string) {
    exists u :: u in users && u.nickname != nickname && u.email == email
  }

  /**
   * UPDATE users SET fullname, about, email WHERE nickname, with the four
   * values given in that order: no row is ErrUserNotFound; a clash on the
   * e-mail key answers with the user named by `reply` and ErrUserAlreadyExists.
   */
  function Rebind(t: Tables, fullname: string, about: string, email: string, nickname: string, reply: string)
    : (r: (Reply<Option<User>>, Tables))
    ensures r.0.err.Some? ==> r.1 == t
    ensures r.0.err == Some(UserNotFound) <==> !AuthorKnown(t.users, nickname)
    ensures r.0.err == Some(UserNotFound) ==> r.0.value.None?
    ensures r.0.err == Some(UserAlreadyExists) <==> AuthorKnown(t.users, nickname) && EmailHeldByOther(t.users, nickname, email)
    ensures r.0.err == Some(UserAlreadyExists) ==> r.0.value == Some(GetByNickname(t.users, reply).value)
    ensures r.0.err.None? ==>
      && r.0.value.Some? && r.0.value.value in r.1.users
      && r.0.value.value == GetByNickname(t.users, nickname).value.(fullname := fullname, about := about, email := email)
      && |r.1.users| == |t.users|
      && forall i :: 0 <= i < |t.users| ==>
        r.1.users[i] == if t.users[i].nickname == nickname then Rewrite(t.users[i], fullname, about, email) else t.users[i]
    ensures r.0.err.None? ==> r.1 == t.(users := r.1.users)
  {
    var target := GetByNickname(t.users, nickname);
    if target.err.Some? then (Reply(None, Some(UserNotFound)), t)
    else if EmailHeldByOther(t.users, nickname, email) then
      (Reply(Some(GetByNickname(t.users, reply).value), Some(UserAlreadyExists)), t)
    else
      var users := Map(t.users, RewriteIf(nickname, fullname, about, email));
      assert exists i :: 0 <= i < |t.users| && t.users[i] == target.value;
      (Reply(Some(Rewrite(target.value, fullname, about, email)), None), t.(users := users))
  }

  /** Update as written: fullname := Nickname, about := Fullname, email := About, WHERE nickname = Email. */
  function UpdateUser(t: Tables, params: Params): (Reply<Option<User>>, Tables) {
    Rebind(t, params.nickname, params.fullname, params.about, params.email, params.nickname)
  }

  /** Update as evidently intended: the row named by the nickname takes the given fullname, about and email. */
  function UpdateUserIntended(t: Tables, params: Params): (Reply<Option<User>>, Tables) {
    Rebind(t, params.fullname, params.about, params.email, params.nickname, params.nickname)
  }

  lemma RebindKeepsConsistent(t: Tables, fullname: string, about: string, email: string, nickname: string, reply: string)
    requires Consistent(t)
    ensures Consistent(Rebind(t, fullname, about, email, nickname, reply).1)
  {
    var r := Rebind(t, fullname, about, email, nickname, reply);
    if r.0.err.None? {
      var users := r.1.users;
      forall i, j | 0 <= i < j < |users|
        ensures users[i].id != users[j].id && users[i].nickname != users[j].nickname && users[i].email != users[j].email
      {
        if t.users[i].nickname == nickname {
          assert t.users[j] in t.users;
        } else if t.users[j].nickname == nickname {
          assert t.users[i] in t.users;
        }
      }
    }
  }

  /**
   * A user who resubmits their own profile with a new e-mail is not found,
   * unless that e-mail happens to be someone's nickname.
   */
  lemma UpdateMissesOwnProfile()
    ensures var alice := User(1, "alice", "Alice", "", "alice@example.org");
      var t := Empty.(users := [alice], nextUserId := 2);
      var params := Params("alice", "Alice Smith", "about me", "smith@example.org");
      && AuthorKnown(t.users, params.nickname)
      && UpdateUser(t, params).0 == Reply(None, Some(UserNotFound))
  {
    var alice := User(1, "alice", "Alice", "", "alice@example.org");
    assert !AuthorKnown([alice], "smith@example.org") by {
      assert "alice" != "smith@example.org";
    }
  }

  /** The intended update edits the named user's profile, which the nickname lookup then returns. */
  lemma IntendedUpdateEdits(t: Tables, params: Params)
    requires Consistent(t)
    requires AuthorKnown(t.users, params.nickname) && !EmailHeldByOther(t.users, params.nickname, params.email)
    ensures var r := UpdateUserIntended(t, params);
      && r.0.err.None?
      && GetByNickname(r.1.users, params.nickname).err.None?
      && GetByNickname(r.1.users, params.nickname).value == r.0.value.value
      && r.0.value.value.fullname == params.fullname && r.0.value.value.about == params.about
      && r.0.value.value.email == params.email
  {
    var r := UpdateUserIntended(t, params);
    RebindKeepsConsistent(t, params.fullname, params.about, params.email, params.nickname, params.nickname);
    var u := r.0.value.value;
    var found := GetByNickname(r.1.users, params.nickname);
    var i :| 0 <= i < |r.1.users| && r.1.users[i] == found.value;
    var j :| 0 <= j < |r.1.users| && r.1.users[j] == u;
    assert i == j;
  }

  method Update(db: Database, params: Params) returns (user: Option<User>, err: Option<Error>)
    modifies db
    requires db.Valid()
    ensures db.Valid()
    ensures (Reply(user, err), db.Snapshot()) == UpdateUser(old(db.Snapshot()), params)
  {
    RebindKeepsConsistent(db.Snapshot(), params.nickname, params.fullname, params.about, params.email, params.nickname);
    // the values in argument order: $1 Nickname, $2 Fullname, $3 About, $4 Email
    var fullname, about, email, nickname := params.nickname, params.fullname, params.about, params.email;
    var target := GetByNickname(db.users, nickname);
    if target.err.Some? {
      return None, Some(UserNotFound);
    }
    if EmailHeldByOther(db.users, nickname, email) {
      var owner := GetByNickname(db.users, params.nickname);
      return Some(owner.value), Some(UserAlreadyExists);
    }
    db.users := Map(db.users, RewriteIf(nickname, fullname, about, email));
    user, err := Some(Rewrite(target.value, fullname, about, email)), None;
  }
}
