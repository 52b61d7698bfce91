/** The post document the resolvers read and write, and the caller identity
    that the authentication helper hands them. */
module PostModel {
  import opened Text
  import opened Likes

  /** The store-assigned document id. */
  type PostId = nat

  /** The id of a user, as carried in the identity token. */
  type UserId = string

  /** A post document: its id, the body as submitted, the author's username
      and user id (copied from the identity at creation), the creation
      timestamp, and its likes in the order they were given. */
  datatype Post = Post(
    id: PostId,
    body: string,
    username: string,
    user: UserId,
    createdAt: Timestamp,
    likes: seq<Like>)

  /** What the authentication helper extracted from the request. */
  datatype Identity = Identity(username: string, id: UserId)

  /** The outcome of `checkAuth(context)`: an identity, or the
      authentication failure it throws. */
  datatype Auth = Authenticated(identity: Identity) | AuthFailed

  /** A post as it may sit in the store under `id`: its own id is `id`, its
      body is not blank (creation rejects blank bodies and nothing edits a
      body later), and no user has liked it twice. */
  predicate StoredUnder(id: PostId, p: Post) {
    p.id == id && HasContent(p.body) && NoDuplicateUsernames(p.likes)
  }

  /** Every post of the store is well formed under its key. */
  predicate WellFormedStore(posts: map<PostId, Post>) {
    forall id | id in posts :: StoredUnder(id, posts[id])
  }

  lemma WellFormedAfterStore(posts: map<PostId, Post>, id: PostId, p: Post)
    requires WellFormedStore(posts) && StoredUnder(id, p)
    ensures WellFormedStore(posts[id := p])
  {
  }
}
