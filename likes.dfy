/** The like list embedded in a post, and the toggle that `likePost`
    performs on it. */
module Likes {

  /** An ISO-8601 timestamp as produced by `new Date().toISOString()`; the
      model treats it as an opaque string. */
  type Timestamp = string

  /** One endorsement of a post: who gave it and when. */
  datatype Like = Like(username: string, createdAt: Timestamp)

  /** The usernames that have a like in `likes`. */
  function Likers(likes: seq<Like>): set<string> {
    set l | l in likes :: l.username
  }

  /** At most one like per username: the invariant the toggle maintains.
      Each like's username appears in no later like. */
  predicate NoDuplicateUsernames(likes: seq<Like>) {
    likes == [] || (likes[0].username !in Likers(likes[1..]) && NoDuplicateUsernames(likes[1..]))
  }

  lemma LikersOfCons(l: Like, likes: seq<Like>)
    ensures Likers([l] + likes) == {l.username} + Likers(likes)
  {
    assert forall x :: x in [l] + likes <==> x == l || x in likes;
  }

  lemma LikersOfAppend(a: seq<Like>, b: seq<Like>)
    ensures Likers(a + b) == Likers(a) + Likers(b)
  {
    assert forall x :: x in a + b <==> x in a || x in b;
  }

  /** `likes.findIndex(like => like.username === username)`: the position
      of the first like by `username`, or -1 when there is none. */
  function FindIndex(likes: seq<Like>, username: string): (r: int)
    ensures -1 <= r < |likes|
    ensures r == -1 <==> username !in Likers(likes)
    ensures 0 <= r ==> likes[r].username == username
    ensures 0 <= r ==> forall j :: 0 <= j < r ==> likes[j].username != username
  {
    if likes == [] then -1
    else if likes[0].username == username then 0
    else
      var k := FindIndex(likes[1..], username);
      LikersOfCons(likes[0], likes[1..]);
      assert likes == [likes[0]] + likes[1..];
      if k == -1 then -1 else k + 1
  }

  /** Toggling `username`'s like, defined independently of positions: the
      first like by `username` is dropped, and when there is none a like by
      `username` stamped `now` goes at the end. Exactly one like leaves or
      exactly one arrives. */
  function ToggleLike(likes: seq<Like>, username: string, now: Timestamp): (r: seq<Like>)
    ensures |r| == if username in Likers(likes) then |likes| - 1 else |likes| + 1
  {
    if likes == [] then [Like(username, now)]
    else if likes[0].username == username then
      assert likes[0] in likes;
      likes[1..]
    else
      assert likes == [likes[0]] + likes[1..];
      LikersOfCons(likes[0], likes[1..]);
      [likes[0]] + ToggleLike(likes[1..], username, now)
  }

  /** Dropping the first like by `username`, found at position `i`, is a
      splice at `i`. */
  lemma {:induction false} ToggleSplicesAt(likes: seq<Like>, username: string, now: Timestamp, i: nat)
    requires i < |likes| && likes[i].username == username
    requires forall j :: 0 <= j < i ==> likes[j].username != username
    ensures ToggleLike(likes, username, now) == likes[..i] + likes[i + 1..]
  {
    if i > 0 {
      var tail := likes[1..];
      ToggleSplicesAt(tail, username, now, i - 1);
      assert likes[..i] == [likes[0]] + tail[..i - 1];
      assert likes[i + 1..] == tail[i..];
    }
  }

  /** When `username` has liked, the toggle splices out exactly the entry
      that `FindIndex` finds (the first by `username`); the likes before and
      after it keep their order. */
  lemma ToggleRemovesFirstMatch(likes: seq<Like>, username: string, now: Timestamp)
    requires username in Likers(likes)
    ensures 0 <= FindIndex(likes, username) < |likes|
    ensures
      var i := FindIndex(likes, username);
      ToggleLike(likes, username, now) == likes[..i] + likes[i + 1..]
    ensures |ToggleLike(likes, username, now)| == |likes| - 1
  {
    ToggleSplicesAt(likes, username, now, FindIndex(likes, username));
  }

  /** When `username` has not liked, the toggle appends exactly one like by
      `username` stamped `now`, and the earlier likes are unchanged. */
  lemma {:induction false} ToggleAppendsWhenAbsent(likes: seq<Like>, username: string, now: Timestamp)
    requires username !in Likers(likes)
    ensures ToggleLike(likes, username, now) == likes + [Like(username, now)]
  {
    if likes != [] {
      assert likes == [likes[0]] + likes[1..];
      LikersOfCons(likes[0], likes[1..]);
      ToggleAppendsWhenAbsent(likes[1..], username, now);
    }
  }

  /** Whoever else has liked still has, and nobody new but `username` has. */
  lemma {:induction false} ToggleLikersBounds(likes: seq<Like>, username: string, now: Timestamp)
    ensures Likers(likes) - {username} <= Likers(ToggleLike(likes, username, now))
    ensures Likers(ToggleLike(likes, username, now)) <= Likers(likes) + {username}
  {
    if likes == [] {
      LikersOfCons(Like(username, now), []);
    } else {
      assert likes == [likes[0]] + likes[1..];
      LikersOfCons(likes[0], likes[1..]);
      if likes[0].username != username {
        ToggleLikersBounds(likes[1..], username, now);
        LikersOfCons(likes[0], ToggleLike(likes[1..], username, now));
      }
    }
  }

  /** The recursive definition says what it should: no two positions hold
      likes by the same user. */
  lemma {:induction false} NoDuplicatesPairwise(likes: seq<Like>)
    ensures NoDuplicateUsernames(likes) <==>
      forall i, j :: 0 <= i < j < |likes| ==> likes[i].username != likes[j].username
  {
    if likes != [] {
      var tail := likes[1..];
      NoDuplicatesPairwise(tail);
      if NoDuplicateUsernames(likes) {
        forall i, j | 0 <= i < j < |likes| ensures likes[i].username != likes[j].username {
          if i == 0 {
            assert likes[j] == tail[j - 1];
            assert likes[j] in tail;
          } else {
            assert likes[i] == tail[i - 1] && likes[j] == tail[j - 1];
          }
        }
      }
      if forall i, j :: 0 <= i < j < |likes| ==> likes[i].username != likes[j].username {
        forall i, j | 0 <= i < j < |tail| ensures tail[i].username != tail[j].username {
          assert tail[i] == likes[i + 1] && tail[j] == likes[j + 1];
        }
      }
    }
  }

  /** With no duplicate usernames, a toggle by a user who has liked leaves
      no like by that user behind. */
  lemma {:induction false} ToggleUnlikes(likes: seq<Like>, username: string, now: Timestamp)
    requires NoDuplicateUsernames(likes)
    requires username in Likers(likes)
    ensures username !in Likers(ToggleLike(likes, username, now))
  {
    if likes[0].username != username {
      assert likes == [likes[0]] + likes[1..];
      LikersOfCons(likes[0], likes[1..]);
      ToggleUnlikes(likes[1..], username, now);
      LikersOfCons(likes[0], ToggleLike(likes[1..], username, now));
    }
  }

  /** The toggle keeps the at-most-one-like-per-user invariant. */
  lemma {:induction false} ToggleKeepsNoDuplicates(likes: seq<Like>, username: string, now: Timestamp)
    requires NoDuplicateUsernames(likes)
    ensures NoDuplicateUsernames(ToggleLike(likes, username, now))
  {
    if likes != [] && likes[0].username != username {
      ToggleKeepsNoDuplicates(likes[1..], username, now);
      ToggleLikersBounds(likes[1..], username, now);
      LikersOfCons(likes[0], ToggleLike(likes[1..], username, now));
      assert ([likes[0]] + ToggleLike(likes[1..], username, now))[1..] == ToggleLike(likes[1..], username, now);
    }
  }

  /** Each toggle flips whether `username` has liked and leaves every other
      user's like status alone. */
  lemma ToggleFlipsLiked(likes: seq<Like>, username: string, now: Timestamp)
    requires NoDuplicateUsernames(likes)
    ensures Likers(ToggleLike(likes, username, now)) ==
      if username in Likers(likes) then Likers(likes) - {username} else Likers(likes) + {username}
  {
    ToggleLikersBounds(likes, username, now);
    if username in Likers(likes) {
      ToggleUnlikes(likes, username, now);
    } else {
      ToggleAppendsWhenAbsent(likes, username, now);
      LikersOfAppend(likes, [Like(username, now)]);
      LikersOfCons(Like(username, now), []);
    }
  }

  /** Two toggles by the same user restore the set of users who have
      liked. */
  lemma ToggleTwiceRestoresLikers(likes: seq<Like>, username: string, t1: Timestamp, t2: Timestamp)
    requires NoDuplicateUsernames(likes)
    ensures Likers(ToggleLike(ToggleLike(likes, username, t1), username, t2)) == Likers(likes)
  {
    ToggleFlipsLiked(likes, username, t1);
    ToggleKeepsNoDuplicates(likes, username, t1);
    ToggleFlipsLiked(ToggleLike(likes, username, t1), username, t2);
  }

  /** Liking and then unliking restores the like list exactly. */
  lemma ToggleTwiceRestoresUnliked(likes: seq<Like>, username: string, t1: Timestamp, t2: Timestamp)
    requires username !in Likers(likes)
    ensures ToggleLike(ToggleLike(likes, username, t1), username, t2) == likes
  {
    ToggleAppendsWhenAbsent(likes, username, t1);
    var liked := likes + [Like(username, t1)];
    assert liked[|likes|].username == username;
    assert username in Likers(liked);
    ToggleRemovesFirstMatch(liked, username, t2);
    var i := FindIndex(liked, username);
    assert liked[..i] == likes;
  }

  /** Unliking and then liking again does not restore the list: the user's
      like moves to the end and carries the second timestamp. */
  lemma ToggleTwiceMovesLiked(likes: seq<Like>, username: string, t1: Timestamp, t2: Timestamp)
    requires NoDuplicateUsernames(likes)
    requires username in Likers(likes)
    ensures
      var i := FindIndex(likes, username);
      ToggleLike(ToggleLike(likes, username, t1), username, t2)
        == likes[..i] + likes[i + 1..] + [Like(username, t2)]
  {
    ToggleRemovesFirstMatch(likes, username, t1);
    ToggleUnlikes(likes, username, t1);
    ToggleAppendsWhenAbsent(ToggleLike(likes, username, t1), username, t2);
  }
}
