/** The post resolvers: the `getPosts` and `getPost` queries and the
    `createPost`, `deletePost` and `likePost` mutations, over an in-memory
    stand-in for the post collection and the log of events published on the
    NEW_POST topic. */
module Resolvers {
  import opened Text
  import opened Likes
  import opened PostModel
  import opened Listing

  /** The ways a resolver call fails, one per error the resolvers raise. */
  datatype Error =
    | Unauthenticated  // the authentication helper rejected the request
    | EmptyBody        // "Post body must not be empty"
    | NoSuchPost       // "No such post"
    | ActionNotAllowed // "Action not allowed": the caller is not the author
    | PostNotFound     // "Post not found"
    | NullPostAccess   // the TypeError of reading `username` from a null lookup result

  datatype Result<T> = Success(value: T) | Failure(error: Error)

  datatype Option<T> = None | Some(value: T)

  /** What `deletePost` returns on success. */
  const DeletedMessage: string := "Post deleted successfully"

  /** `Post.findById(postId)`: the document stored under `postId`, or null
      when there is none. */
  function FindById(posts: map<PostId, Post>, postId: PostId): (r: Option<Post>)
    ensures r.Some? <==> postId in posts
    ensures r.Some? ==> r.value == posts[postId] && r.value in posts.Values
  {
    if postId in posts then Some(posts[postId]) else None
  }

  /** The decision `deletePost` takes after its lookup, as the source writes
      it: the author comparison reads `post.username` even when the lookup
      found nothing, which raises a TypeError instead of a not-found error. */
  function DeleteVerdictAsWritten(found: Option<Post>, caller: string): (r: Result<string>)
    ensures r.Success? <==> found.Some? && found.value.username == caller
    ensures r.Success? ==> r.value == DeletedMessage
    ensures found.None? ==> r == Failure(NullPostAccess)
    ensures found.Some? && found.value.username != caller ==> r == Failure(ActionNotAllowed)
  {
    match found
    case None => Failure(NullPostAccess)
    case Some(post) => if caller == post.username then Success(DeletedMessage) else Failure(ActionNotAllowed)
  }

  /** The same decision with the missing existence check added: only the
      author may delete, and an absent post is reported as such. */
  function DeleteVerdict(found: Option<Post>, caller: string): (r: Result<string>)
    ensures r.Success? <==> found.Some? && found.value.username == caller
    ensures r.Success? ==> r.value == DeletedMessage
    ensures found.None? ==> r == Failure(NoSuchPost)
    ensures found.Some? && found.value.username != caller ==> r == Failure(ActionNotAllowed)
  {
    match found
    case None => Failure(NoSuchPost)
    case Some(post) => if caller == post.username then Success(DeletedMessage) else Failure(ActionNotAllowed)
  }

  /** As written, deleting a post that does not exist fails with the null
      access, not with a not-found error. */
  lemma DeleteOfAbsentPostAsWritten(caller: string)
    ensures DeleteVerdictAsWritten(None, caller) == Failure(NullPostAccess)
    ensures DeleteVerdictAsWritten(None, caller) != DeleteVerdict(None, caller)
  {
  }

  /** The correction changes nothing once the lookup has found a post. */
  lemma DeleteVerdictAgreesOnFound(post: Post, caller: string)
    ensures DeleteVerdict(Some(post), caller) == DeleteVerdictAsWritten(Some(post), caller)
  {
  }

  /** Some id that the store does not use yet exists. */
  lemma {:induction false} IdsBounded(ids: set<PostId>) returns (bound: PostId)
    ensures forall k | k in ids :: k < bound
  {
    if ids == {} {
      bound := 0;
    } else {
      var k :| k in ids;
      var b := IdsBounded(ids - {k});
      bound := if b > k then b else k + 1;
      forall j | j in ids ensures j < bound {
        if j != k { assert j in ids - {k}; }
      }
    }
  }

  /** The store after `username` toggles a like on the post `postId`: that
      post's likes go through `ToggleLike`, and nothing else changes. */
  function LikeToggled(posts: map<PostId, Post>, postId: PostId, username: string, now: Timestamp): (r: map<PostId, Post>)
    requires postId in posts
    ensures r.Keys == posts.Keys
    ensures forall id | id in posts && id != postId :: r[id] == posts[id]
    ensures r[postId].(likes := posts[postId].likes) == posts[postId]
    ensures r[postId].likes == ToggleLike(posts[postId].likes, username, now)
  {
    posts[postId := posts[postId].(likes := ToggleLike(posts[postId].likes, username, now))]
  }

  /** Toggling a like keeps every stored post well formed. */
  lemma LikeToggledKeepsWellFormed(posts: map<PostId, Post>, postId: PostId, username: string, now: Timestamp)
    requires postId in posts && WellFormedStore(posts)
    ensures WellFormedStore(LikeToggled(posts, postId, username, now))
  {
    var post := posts[postId];
    ToggleKeepsNoDuplicates(post.likes, username, now);
    WellFormedAfterStore(posts, postId, post.(likes := ToggleLike(post.likes, username, now)));
  }

  /** Two toggles by the same user keep the store's ids and the post's set
      of likers; when the user had not liked the post, they restore the
      store exactly. */
  lemma LikeToggledTwice(posts: map<PostId, Post>, postId: PostId, username: string, t1: Timestamp, t2: Timestamp)
    requires postId in posts && NoDuplicateUsernames(posts[postId].likes)
    ensures
      var after := LikeToggled(LikeToggled(posts, postId, username, t1), postId, username, t2);
      && after.Keys == posts.Keys
      && Likers(after[postId].likes) == Likers(posts[postId].likes)
      && (username !in Likers(posts[postId].likes) ==> after == posts)
  {
    var before := posts[postId];
    ToggleTwiceRestoresLikers(before.likes, username, t1, t2);
    if username !in Likers(before.likes) {
      ToggleTwiceRestoresUnliked(before.likes, username, t1, t2);
      assert posts[postId := before] == posts;
    }
  }

  /** The post collection together with the NEW_POST event log. */
  class PostStore {
    /** The stored posts, by id. */
    var posts: map<PostId, Post>
    /** Every event published on the NEW_POST topic, oldest first. */
    var published: seq<Post>

    ghost predicate Valid()
      reads this
    {
      WellFormedStore(posts)
    }

    constructor ()
      ensures Valid()
      ensures posts == map[] && published == []
    {
      posts := map[];
      published := [];
    }

    /** `getPost`: the stored post, or "No such post" when the id is absent. */
    function GetPost(postId: PostId): (r: Result<Post>)
      reads this
      ensures r.Success? <==> postId in posts
      ensures r.Success? ==> r.value == posts[postId]
      ensures r.Failure? ==> r.error == NoSuchPost
    {
      match FindById(posts, postId)
      case None => Failure(NoSuchPost)
      case Some(post) => Success(post)
    }

    /** `getPosts`: exactly the stored posts, latest `createdAt` first. */
    function GetPosts(): (r: seq<Post>)
      reads this
      ensures ListsExactly(r, posts)
      ensures NewestFirstOrder(r)
    {
      ListNewestFirst(posts)
    }

    /** `createPost`: rejects an unauthenticated caller, then a body that
        trims to nothing; otherwise stores a new post built from the body,
        the caller's identity and the time `now`, publishes it once, and
        returns it. */
    method CreatePost(auth: Auth, body: string, now: Timestamp) returns (r: Result<Post>)
      requires Valid()
      modifies this
      ensures Valid()
      ensures auth.AuthFailed? ==> r == Failure(Unauthenticated)
      ensures auth.Authenticated? && IsBlank(body) ==> r == Failure(EmptyBody)
      ensures auth.Authenticated? && !IsBlank(body) ==> r.Success?
      ensures r.Failure? ==> posts == old(posts) && published == old(published)
      ensures r.Success? ==>
        && auth.Authenticated?
        && var post := r.value;
        && post.id !in old(posts)
        && post == Post(post.id, body, auth.identity.username, auth.identity.id, now, [])
        && posts == old(posts)[post.id := post]
        && published == old(published) + [post]
        && GetPost(post.id) == Success(post)
    {
      if auth.AuthFailed? {
        return Failure(Unauthenticated);
      }
      var user := auth.identity;
      if IsBlank(body) {
        return Failure(EmptyBody);
      }
      HasContentIffNotBlank(body);
      ghost var bound := IdsBounded(posts.Keys);
      assert bound !in posts;
      var id: PostId :| id !in posts;
      var post := Post(id, body, user.username, user.id, now, []);
      posts := posts[id := post];
      published := published + [post];
      return Success(post);
    }

    /** `deletePost`: rejects an unauthenticated caller; then deletes the
        post and confirms when the caller is its author, and otherwise fails
        without changing the store. */
    method DeletePost(auth: Auth, postId: PostId) returns (r: Result<string>)
      requires Valid()
      modifies this
      ensures Valid()
      ensures published == old(published)
      ensures auth.AuthFailed? ==> r == Failure(Unauthenticated)
      ensures auth.Authenticated? ==> r == DeleteVerdict(FindById(old(posts), postId), auth.identity.username)
      ensures r.Success? ==> posts == old(posts) - {postId} && GetPost(postId) == Failure(NoSuchPost)
      ensures r.Failure? ==> posts == old(posts)
    {
      if auth.AuthFailed? {
        return Failure(Unauthenticated);
      }
      var user := auth.identity;
      var found := FindById(posts, postId);
      r := DeleteVerdict(found, user.username);
      if r.Success? {
        posts := posts - {postId};
      }
    }

    /** `likePost`: rejects an unauthenticated caller, then an absent post;
        otherwise finds the caller's like, splices it out when there is one
        and appends a like stamped `now` when there is none, saves the post
        and returns it. Only that post's likes change. */
    method LikePost(auth: Auth, postId: PostId, now: Timestamp) returns (r: Result<Post>)
      requires Valid()
      modifies this
      ensures Valid()
      ensures published == old(published)
      ensures auth.AuthFailed? ==> r == Failure(Unauthenticated) && posts == old(posts)
      ensures auth.Authenticated? && postId !in old(posts) ==> r == Failure(PostNotFound) && posts == old(posts)
      ensures auth.Authenticated? && postId in old(posts) ==>
        && posts == LikeToggled(old(posts), postId, auth.identity.username, now)
        && r == Success(posts[postId])
    {
      if auth.AuthFailed? {
        return Failure(Unauthenticated);
      }
      var username := auth.identity.username;
      if postId !in posts {
        return Failure(PostNotFound);
      }
      var post := posts[postId];
      var likes := post.likes;
      var likeIndex := FindIndex(likes, username);
      if likeIndex > -1 {
        likes := likes[..likeIndex] + likes[likeIndex + 1..];
      } else {
        likes := likes + [Like(username, now)];
      }
      assert likes == ToggleLike(post.likes, username, now) by {
        if likeIndex > -1 {
          ToggleRemovesFirstMatch(post.likes, username, now);
        } else {
          ToggleAppendsWhenAbsent(post.likes, username, now);
        }
      }
      LikeToggledKeepsWellFormed(posts, postId, username, now);
      post := post.(likes := likes);
      posts := posts[postId := post];
      return Success(post);
    }
  }

  /** Two `likePost` calls by the same caller on the same post: the set of
      users who like it is back where it was, and if the caller had not
      liked it the store is exactly as before. */
  method LikeTwice(store: PostStore, auth: Auth, postId: PostId, t1: Timestamp, t2: Timestamp)
    returns (first: Result<Post>, second: Result<Post>)
    requires store.Valid()
    modifies store
    ensures store.Valid() && store.published == old(store.published)
    ensures auth.Authenticated? && postId in old(store.posts) ==>
      && first.Success? && second.Success?
      && store.posts.Keys == old(store.posts.Keys)
      && Likers(store.posts[postId].likes) == Likers(old(store.posts)[postId].likes)
      && (auth.identity.username !in Likers(old(store.posts)[postId].likes) ==> store.posts == old(store.posts))
    ensures !(auth.Authenticated? && postId in old(store.posts)) ==> store.posts == old(store.posts)
  {
    first := store.LikePost(auth, postId, t1);
    second := store.LikePost(auth, postId, t2);
    if auth.Authenticated? && postId in old(store.posts) {
      LikeToggledTwice(old(store.posts), postId, auth.identity.username, t1, t2);
    }
  }

  /** A run of the resolvers: alice posts, bob likes and unlikes, bob may
      not delete, alice may, and the post is gone afterwards. */
  method AliceAndBob() {
    var store := new PostStore();
    var alice := Authenticated(Identity("alice", "user-1"));
    var bob := Authenticated(Identity("bob", "user-2"));
    BlankIffAllWhitespace("hello");
    assert !IsWhitespace("hello"[0]);
    var created := store.CreatePost(alice, "hello", "2020-01-01T00:00:00.000Z");
    var id := created.value.id;
    assert created.value.username == "alice" && created.value.likes == [];
    var liked := store.LikePost(bob, id, "2020-01-01T00:01:00.000Z");
    assert liked.value.likes == [Like("bob", "2020-01-01T00:01:00.000Z")];
    var unliked := store.LikePost(bob, id, "2020-01-01T00:02:00.000Z");
    assert unliked.value.likes == [];
    var denied := store.DeletePost(bob, id);
    assert denied == Failure(ActionNotAllowed);
    var deleted := store.DeletePost(alice, id);
    assert deleted == Success(DeletedMessage);
    assert store.GetPost(id) == Failure(NoSuchPost);
    assert store.published == [created.value];
  }
}
