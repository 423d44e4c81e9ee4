/**
 * The thread service: the choice of post ordering by the `sort` string, and
 * the vote upsert (read the user's vote, then either insert a new vote or
 * rewrite the existing one).
 */
module ThreadService {
  import opened Wrappers
  import opened Errors
  import opened Models
  import opened Seqs
  import opened Store
  import opened ThreadRepository
  import opened ThreadPostListing

  // ------------------------------------------------------------- GetPosts

  datatype Sort = Flat | Tree | ParentTree

  /** The `switch sort`: "tree" and "parent_tree" are recognised, every other string is flat. */
  function SortOf(sort: string): (r: Sort)
    ensures r == Tree <==> sort == "tree"
    ensures r == ParentTree <==> sort == "parent_tree"
    ensures r == Flat <==> sort != "tree" && sort != "parent_tree"
  {
    if sort == "tree" then Tree
    else if sort == "parent_tree" then ParentTree
    else Flat
  }

  function Selection(kind: Sort, posts: seq<PostRow>, limit: int, since: int, desc: bool): int -> seq<PostRow> {
    match kind
    case Flat => FlatSelect(posts, limit, since, desc)
    case Tree => TreeSelect(posts, limit, since, desc)
    case ParentTree => ParentTreeSelect(posts, limit, since, desc)
  }

  /** The listing chosen by `sort`, with `slugOrId`, `limit`, `since` and `desc` passed on unchanged. */
  method GetPosts(db: Database, slugOrId: string, limit: int, since: int, sort: string, desc: bool)
    returns (posts: seq<Post>, err: Option<Error>)
    ensures (posts, err) == Listing(db.threads, slugOrId, Selection(SortOf(sort), db.posts, limit, since, desc))
  {
    if sort == "tree" {
      posts, err := GetPostsTree(db, slugOrId, limit, since, desc);
    } else if sort == "parent_tree" {
      posts, err := GetPostsParentTree(db, slugOrId, limit, since, desc);
    } else {
      posts, err := GetPostsFlat(db, slugOrId, limit, since, desc);
    }
  }

  // --------------------------------------------------------------- voting

  /** AddVote: resolve the thread; an existing vote goes to the guarded update, anything else to the insert. */
  function CastVote(t: Tables, slugOrId: string, vote: Vote): (r: (Reply<Thread>, Tables))
    ensures GetThread(t.threads, slugOrId).err.Some? ==> r == (Reply(ZeroThread, Some(ThreadNotFound)), t)
    // the insert is only tried when no vote exists, so its duplicate error never surfaces
    ensures r.0.err != Some(VoiceAlreadyExists)
  {
    var th := GetThread(t.threads, slugOrId);
    if th.err.Some? then (th, t)
    else if GetVote(t.votes, th.value, vote).err.None? then ReviseVote(t, slugOrId, th.value, vote)
    else InsertVote(t, th.value, vote)
  }

  lemma CastVoteKeepsConsistent(t: Tables, slugOrId: string, vote: Vote)
    requires Consistent(t)
    ensures Consistent(CastVote(t, slugOrId, vote).1)
  {
    var th := GetThread(t.threads, slugOrId);
    if th.err.None? {
      InsertVoteKeepsConsistent(t, th.value, vote);
      ReviseVoteKeepsConsistent(t, slugOrId, th.value, vote);
    }
  }

  method AddVote(db: Database, slugOrId: string, vote: Vote) returns (r: Thread, err: Option<Error>)
    modifies db
    requires db.Valid()
    ensures db.Valid()
    ensures (Reply(r, err), db.Snapshot()) == CastVote(old(db.Snapshot()), slugOrId, vote)
  {
    var thread := GetThread(db.threads, slugOrId);
    if thread.err.Some? {
      return thread.value, thread.err;
    }
    var existing := GetVote(db.votes, thread.value, vote);
    if existing.err.None? {
      r, err := UpdateVote(db, slugOrId, thread.value, vote);
    } else {
      r, err := ThreadRepository.AddVote(db, thread.value, vote);
    }
  }

  // ------------------------------------------------- what a vote does

  /** Adjusting a vote total keeps id and slug, so the lookup finds the adjusted row of the thread it found before. */
  lemma GetThreadAfterAdjust(threads: seq<Thread>, slugOrId: string, thread: int, delta: int)
    ensures var before := GetThread(threads, slugOrId);
      var after := GetThread(AdjustVotes(threads, thread, delta), slugOrId);
      after.err == before.err && (before.err.None? ==> after.value == AdjustBy(thread, delta)(before.value))
  {
    FindMap(threads, AdjustBy(thread, delta), SelectsKey(slugOrId), SelectsKey(slugOrId));
  }

  /** The thread found before the adjustment comes back with its total moved by `delta`. */
  lemma GetAdjustedThread(threads: seq<Thread>, slugOrId: string, th: Thread, delta: int)
    requires GetThread(threads, slugOrId).err.None? && GetThread(threads, slugOrId).value == th
    ensures GetThread(AdjustVotes(threads, th.id, delta), slugOrId).err.None?
    ensures GetThread(AdjustVotes(threads, th.id, delta), slugOrId).value == th.(votes := th.votes + delta)
  {
    GetThreadAfterAdjust(threads, slugOrId, th.id, delta);
    assert AdjustBy(th.id, delta)(th) == th.(votes := th.votes + delta);
  }

  /** With one vote per user and thread, the UPDATE moves the total by new minus old voice, or not at all. */
  lemma {:induction false} VoiceDeltaOfUnique(votes: seq<VoteRow>, nickname: string, thread: int, voice: int)
    requires VotesUnique(votes)
    ensures VoiceDelta(votes, nickname, thread, voice) ==
      match Find(votes, VoteOf(nickname, thread))
      case Some(row) => voice - row.voice
      case None => 0
  {
    if votes != [] {
      var tail := votes[1..];
      assert VotesUnique(tail) by {
        forall i, j | 0 <= i < j < |tail| ensures tail[i].nickname != tail[j].nickname || tail[i].thread != tail[j].thread {
          assert tail[i] == votes[i + 1] && tail[j] == votes[j + 1];
        }
      }
      VoiceDeltaOfUnique(tail, nickname, thread, voice);
      if VoteOf(nickname, thread)(votes[0]) {
        assert Find(tail, VoteOf(nickname, thread)).None? by {
          forall x | x in tail ensures !VoteOf(nickname, thread)(x) {
            var j :| 0 <= j < |tail| && tail[j] == x;
            assert votes[j + 1] == x;
          }
        }
      }
    }
  }

  /** Nothing is rewritten when the user's only vote in the thread already has this voice. */
  lemma SetVoiceUnchanged(votes: seq<VoteRow>, nickname: string, thread: int, voice: int)
    requires VotesUnique(votes)
    requires Find(votes, VoteOf(nickname, thread)).Some? && Find(votes, VoteOf(nickname, thread)).value.voice == voice
    ensures SetVoice(votes, nickname, thread, voice) == votes
  {
    var row := Find(votes, VoteOf(nickname, thread)).value;
    var k :| 0 <= k < |votes| && votes[k] == row;
    forall i | 0 <= i < |votes| ensures !Revised(votes[i], nickname, thread, voice) {
      if i < k {
        assert votes[i].nickname != nickname || votes[i].thread != thread;
      } else if i > k {
        assert votes[i].nickname != nickname || votes[i].thread != thread;
      }
    }
  }

  lemma AdjustByZero(threads: seq<Thread>, thread: int)
    ensures AdjustVotes(threads, thread, 0) == threads
  {
  }

  /** A missing thread changes nothing and is reported as not found. */
  lemma VoteOnMissingThread(t: Tables, slugOrId: string, vote: Vote)
    requires GetThread(t.threads, slugOrId).err.Some?
    ensures CastVote(t, slugOrId, vote) == (Reply(ZeroThread, Some(ThreadNotFound)), t)
  {
  }

  /** A first vote by a known user adds its voice to the thread total, in the reply and in the store. */
  lemma FirstVote(t: Tables, slugOrId: string, vote: Vote)
    requires GetThread(t.threads, slugOrId).err.None?
    requires !HasVoted(t.votes, vote.nickname, GetThread(t.threads, slugOrId).value.id)
    requires AuthorKnown(t.users, vote.nickname)
    ensures var th := GetThread(t.threads, slugOrId).value;
      var r := CastVote(t, slugOrId, vote);
      && r.0.err.None? && r.0.value == th.(votes := th.votes + vote.voice)
      && GetThread(r.1.threads, slugOrId).err.None? && GetThread(r.1.threads, slugOrId).value == r.0.value
      && r.1.votes == t.votes + [VoteRow(t.nextVoteId, vote.nickname, vote.voice, th.id)]
  {
    var th := GetThread(t.threads, slugOrId).value;
    assert GetVote(t.votes, th, vote).err.Some?;
    assert CastVote(t, slugOrId, vote) == InsertVote(t, th, vote);
    GetAdjustedThread(t.threads, slugOrId, th, vote.voice);
  }

  /** A first vote by an unknown user is refused and changes nothing. */
  lemma VoteByUnknownUser(t: Tables, slugOrId: string, vote: Vote)
    requires GetThread(t.threads, slugOrId).err.None?
    requires !HasVoted(t.votes, vote.nickname, GetThread(t.threads, slugOrId).value.id)
    requires !AuthorKnown(t.users, vote.nickname)
    ensures CastVote(t, slugOrId, vote) == (Reply(ZeroThread, Some(UserNotFound)), t)
  {
  }

  /** Under the unique key, the UPDATE moves the total by exactly new minus old voice. */
  lemma DeltaOfExistingVote(votes: seq<VoteRow>, th: Thread, vote: Vote)
    requires VotesUnique(votes)
    requires GetVote(votes, th, vote).err.None?
    ensures VoiceDelta(votes, vote.nickname, th.id, vote.voice) == vote.voice - GetVote(votes, th, vote).value.voice
  {
    VoiceDeltaOfUnique(votes, vote.nickname, th.id, vote.voice);
  }

  /** The re-read after the UPDATE is the lookup on the adjusted threads. */
  lemma ReviseVoteReply(t: Tables, slugOrId: string, th: Thread, vote: Vote, delta: int)
    requires delta == VoiceDelta(t.votes, vote.nickname, th.id, vote.voice)
    ensures ReviseVote(t, slugOrId, th, vote).0 == GetThread(AdjustVotes(t.threads, th.id, delta), slugOrId)
  {
  }

  /** The guarded UPDATE then the re-read: the thread comes back with its total moved by new minus old voice. */
  lemma ReviseVoteResult(t: Tables, slugOrId: string, th: Thread, vote: Vote)
    requires VotesUnique(t.votes)
    requires GetThread(t.threads, slugOrId).err.None? && GetThread(t.threads, slugOrId).value == th
    requires GetVote(t.votes, th, vote).err.None?
    ensures ReviseVote(t, slugOrId, th, vote).0.err.None?
    ensures ReviseVote(t, slugOrId, th, vote).0.value == th.(votes := th.votes + (vote.voice - GetVote(t.votes, th, vote).value.voice))
  {
    var delta := vote.voice - GetVote(t.votes, th, vote).value.voice;
    DeltaOfExistingVote(t.votes, th, vote);
    ReviseVoteReply(t, slugOrId, th, vote, delta);
    GetAdjustedThread(t.threads, slugOrId, th, delta);
  }

  /** An existing vote sends the call down the update path. */
  lemma CastVoteRevises(t: Tables, slugOrId: string, vote: Vote)
    requires GetThread(t.threads, slugOrId).err.None?
    requires HasVoted(t.votes, vote.nickname, GetThread(t.threads, slugOrId).value.id)
    ensures CastVote(t, slugOrId, vote) == ReviseVote(t, slugOrId, GetThread(t.threads, slugOrId).value, vote)
  {
  }

  /** Voting again moves the total by the new voice minus the old one; the thread comes back re-read. */
  lemma ChangeVote(t: Tables, slugOrId: string, vote: Vote)
    requires VotesUnique(t.votes)
    requires GetThread(t.threads, slugOrId).err.None?
    requires HasVoted(t.votes, vote.nickname, GetThread(t.threads, slugOrId).value.id)
    ensures CastVote(t, slugOrId, vote).0.err.None?
    ensures CastVote(t, slugOrId, vote).0.value == GetThread(t.threads, slugOrId).value.(votes :=
      GetThread(t.threads, slugOrId).value.votes + (vote.voice - GetVote(t.votes, GetThread(t.threads, slugOrId).value, vote).value.voice))
  {
    var th := GetThread(t.threads, slugOrId).value;
    ReviseVoteResult(t, slugOrId, th, vote);
    CastVoteRevises(t, slugOrId, vote);
  }

  /** Repeating the same voice takes the guarded update path, which rewrites no row: the store is unchanged. */
  lemma RepeatVoteUnchanged(t: Tables, slugOrId: string, vote: Vote)
    requires VotesUnique(t.votes)
    requires GetThread(t.threads, slugOrId).err.None?
    requires GetVote(t.votes, GetThread(t.threads, slugOrId).value, vote) == Reply(vote, None)
    ensures CastVote(t, slugOrId, vote).0 == GetThread(t.threads, slugOrId)
    ensures CastVote(t, slugOrId, vote).1 == t
  {
    var th := GetThread(t.threads, slugOrId).value;
    assert Find(t.votes, VoteOf(vote.nickname, th.id)).Some?;
    CastVoteRevises(t, slugOrId, vote);
    ReviseSameVoice(t, slugOrId, th, vote);
  }

  /** The guarded UPDATE with the voice already stored rewrites nothing. */
  lemma ReviseSameVoice(t: Tables, slugOrId: string, th: Thread, vote: Vote)
    requires VotesUnique(t.votes)
    requires Find(t.votes, VoteOf(vote.nickname, th.id)).Some?
    requires Find(t.votes, VoteOf(vote.nickname, th.id)).value.voice == vote.voice
    ensures ReviseVote(t, slugOrId, th, vote).1 == t
  {
    VoiceDeltaOfUnique(t.votes, vote.nickname, th.id, vote.voice);
    SetVoiceUnchanged(t.votes, vote.nickname, th.id, vote.voice);
    AdjustByZero(t.threads, th.id);
  }

  /**
   * A first vote and then a different voice from the same user: the second
   * reply's total is the first one's plus the new voice minus the first
   * (+1 then -1 reads two lower, one below the total before both).
   */
  lemma VoteThenChange(t: Tables, slugOrId: string, nickname: string, first: int, second: int)
    requires Consistent(t)
    requires GetThread(t.threads, slugOrId).err.None?
    requires !HasVoted(t.votes, nickname, GetThread(t.threads, slugOrId).value.id)
    requires AuthorKnown(t.users, nickname)
    ensures var r1 := CastVote(t, slugOrId, Vote(nickname, first));
      var r2 := CastVote(r1.1, slugOrId, Vote(nickname, second));
      && r1.0.err.None? && r2.0.err.None?
      && r1.0.value.votes == GetThread(t.threads, slugOrId).value.votes + first
      && r2.0.value.votes == r1.0.value.votes + (second - first)
  {
    var th := GetThread(t.threads, slugOrId).value;
    var r1 := CastVote(t, slugOrId, Vote(nickname, first));
    FirstVote(t, slugOrId, Vote(nickname, first));
    CastVoteKeepsConsistent(t, slugOrId, Vote(nickname, first));
    var row := VoteRow(t.nextVoteId, nickname, first, th.id);
    FindAppend(t.votes, [row], VoteOf(nickname, th.id));
    assert Find([row], VoteOf(nickname, th.id)) == Some(row);
    assert GetThread(r1.1.threads, slugOrId).value.id == th.id;
    ChangeVote(r1.1, slugOrId, Vote(nickname, second));
  }
}
