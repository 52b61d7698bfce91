# Post resolvers of a GraphQL social-posting server, in Dafny

This project models the post resolvers of a small GraphQL backend. The
backend lists posts, fetches one post, creates and deletes posts, and toggles
a user's like on a post. Each post is a document: a body, the author's
username and user id, a creation timestamp and an ordered list of likes.
The model replaces the document collection with an in-memory map from post
id to post. It replaces the publish/subscribe bus with a log of the posts
published on the NEW_POST topic.

Layout, one module per file:

- `text.dfy` (`Text`): `String.prototype.trim` over the ECMAScript
  WhiteSpace and LineTerminator code points. Also the code-point-wise
  lexicographic order the store uses to compare `createdAt` strings, with
  proofs that it is a total order (reflexive, total, transitive and
  antisymmetric).
- `likes.dfy` (`Likes`): the like list. `FindIndex` mirrors
  `likes.findIndex(...)`. `ToggleLike` is a reference definition of the
  toggle that does not use positions. The lemmas tie the two together (a
  splice at the found index, or a push) and prove the invariant and
  involution properties.
- `post.dfy` (`PostModel`): the post document, the caller identity, the
  authentication outcome, and the store invariant. Each stored post sits
  under its own id, has a non-blank body and has no duplicate likers.
- `listing.dfy` (`Listing`): `Post.find().sort({ createdAt: -1 })`. It
  enumerates the map and then runs an insertion sort that is proved ordered
  and a permutation.
- `resolvers.dfy` (`Resolvers`): the `PostStore` class. It has the `posts`
  map and the `published` log as fields, `GetPost` and `GetPosts` as
  functions, and `CreatePost`, `DeletePost` and `LikePost` as methods.
  `LikePost` does what the source does: it finds the index, then splices or
  pushes. It is proved equal to the reference toggle. The module ends with
  two client methods: `LikeTwice`, and `AliceAndBob`, which walks through a
  create, like, unlike and delete sequence.

Inputs the model takes as parameters:

- The caller's identity comes in as `Auth`: either `Authenticated(identity)`
  or `AuthFailed`. This is what `checkAuth(context)` returns or throws.
- The current time comes in as a string parameter `now`.
- When a post is created, the store picks an id it does not yet use.

## Model

| member | source | states |
|---|---|---|
| `Text.Trim` | graphql/resolvers/posts.js:31 | `body.trim()` is the infix of `body` that starts after the leading whitespace. Everything after it is whitespace. It neither starts nor ends with whitespace. |
| `Text.IsBlank` | graphql/resolvers/posts.js:31 | `body.trim() === ""` holds exactly when the run of leading whitespace covers the whole body. |
| `Text.BlankIffAllWhitespace` | graphql/resolvers/posts.js:31 | `body.trim() === ""` holds exactly when every character of the body is whitespace. |
| `Text.HasContentIffNotBlank` | graphql/resolvers/posts.js:31-33 | The stored-body invariant (some non-whitespace character) is equivalent to passing the emptiness check. |
| `Text.LexLeReflexive` | graphql/resolvers/posts.js:9 | Every `createdAt` string sorts no later than itself. |
| `Text.LexLeTotal` | graphql/resolvers/posts.js:9 | Any two `createdAt` strings are comparable under the sort's order. |
| `Text.LexLeTransitive` | graphql/resolvers/posts.js:9 | The sort's order on `createdAt` strings is transitive. |
| `Text.LexLeAntisymmetric` | graphql/resolvers/posts.js:9 | Two `createdAt` strings that each sort no later than the other are equal. |
| `Likes.FindIndex` | graphql/resolvers/posts.js:68-70 | The result is -1 exactly when no like has the caller's username. Otherwise it is the position of the first like with that username. |
| `Likes.ToggleLike` | graphql/resolvers/posts.js:67-78 | The toggle without positions: it drops the first like by `username` and otherwise appends `Like(username, now)`. The list shrinks by one exactly when the user had liked, and grows by one otherwise. |
| `Likes.ToggleSplicesAt` | graphql/resolvers/posts.js:71-72 | Dropping the first like by the user, found at position i, equals `splice(i, 1)`. |
| `Likes.ToggleRemovesFirstMatch` | graphql/resolvers/posts.js:68-72 | When the user has liked, the toggle removes exactly the entry `findIndex` finds. The likes before and after it keep their order, and the length drops by one. |
| `Likes.ToggleAppendsWhenAbsent` | graphql/resolvers/posts.js:73-78 | When the user has not liked, the toggle appends exactly `{ username, createdAt: now }` after the unchanged earlier likes. |
| `Likes.ToggleLikersBounds` | graphql/resolvers/posts.js:67-79 | Every other user who had liked still has, and no user other than the caller gains a like. |
| `Likes.ToggleUnlikes` | graphql/resolvers/posts.js:68-72 | With no duplicate likers, a toggle by a user who has liked leaves no like by that user. |
| `Likes.NoDuplicatesPairwise` | graphql/resolvers/posts.js:68-78 | The recursive no-duplicate-likers invariant holds exactly when no two positions carry the same username. |
| `Likes.ToggleKeepsNoDuplicates` | graphql/resolvers/posts.js:68-78 | If no username appears twice in the likes before the toggle, none does after it. |
| `Likes.ToggleFlipsLiked` | graphql/resolvers/posts.js:67-79 | The set of likers loses the caller if the caller had liked. Otherwise it gains the caller. Nobody else changes. |
| `Likes.ToggleTwiceRestoresLikers` | graphql/resolvers/posts.js:67-79 | Two toggles by the same user restore the set of likers. |
| `Likes.ToggleTwiceRestoresUnliked` | graphql/resolvers/posts.js:67-79 | If the user had not liked, two toggles restore the like list exactly. |
| `Likes.ToggleTwiceMovesLiked` | graphql/resolvers/posts.js:67-79 | If the user had liked, two toggles move that like to the end and stamp it with the second time. The list is not restored. |
| `Listing.Enumerate` | graphql/resolvers/posts.js:9 | `Post.find()` yields one entry per stored post, and exactly the stored posts. |
| `Listing.Insert` | graphql/resolvers/posts.js:9 | One insertion step of the sort adds exactly one element to the multiset. |
| `Listing.InsertKeepsOrder` | graphql/resolvers/posts.js:9 | Inserting into a newest-first sequence keeps it newest first. |
| `Listing.SortNewestFirst` | graphql/resolvers/posts.js:9 | `.sort({ createdAt: -1 })` returns a permutation of its input, ordered by `createdAt` descending. |
| `Listing.ListNewestFirst` | graphql/resolvers/posts.js:9 | The listing holds exactly the stored posts, latest first. |
| `Listing.LatestPostListedFirst` | graphql/resolvers/posts.js:9 | A post stamped later than every stored post comes first in the listing once stored. |
| `Resolvers.PostStore.GetPost` | graphql/resolvers/posts.js:14-24 | Succeeds exactly when the id is stored and returns that post. Otherwise it fails with "No such post". |
| `Resolvers.PostStore.GetPosts` | graphql/resolvers/posts.js:7-13 | Returns exactly the stored posts, ordered by `createdAt` descending. |
| `Resolvers.PostStore.CreatePost` | graphql/resolvers/posts.js:28-47 | An unauthenticated caller fails first. A body that trims to "" then fails with "Post body must not be empty", with no insert and no publish. Otherwise the post is built from the body, the caller's username and id, `now` and no likes. It is stored under a fresh id, published exactly once after the save, and returned. |
| `Resolvers.FindById` | graphql/resolvers/posts.js:66 | `Post.findById(postId)`, also used at lines 16 and 52: the post stored under the id, or nothing exactly when no post has it. |
| `Resolvers.DeleteVerdictAsWritten` | graphql/resolvers/posts.js:52-57 | The decision as the source writes it. Success exactly when a post was found and the caller is its author. A mismatch fails with "Action not allowed". A null lookup fails with the null-access error. |
| `Resolvers.DeleteVerdict` | graphql/resolvers/posts.js:52-58 | Deletion is allowed exactly when the post exists and the caller is its author. A mismatch fails with "Action not allowed". An absent post is a not-found error. |
| `Resolvers.DeleteOfAbsentPostAsWritten` | graphql/resolvers/posts.js:52-53 | As written, deleting an absent post fails with the null-access error, not with a not-found error. |
| `Resolvers.DeleteVerdictAgreesOnFound` | graphql/resolvers/posts.js:53-57 | When the lookup finds a post, the corrected decision and the as-written decision agree. |
| `Resolvers.PostStore.DeletePost` | graphql/resolvers/posts.js:48-62 | An unauthenticated caller fails. Otherwise the outcome is `DeleteVerdict` on the lookup. On success the post is removed, "Post deleted successfully" is returned, and a later `GetPost` fails. On any failure the store is unchanged. |
| `Resolvers.PostStore.LikePost` | graphql/resolvers/posts.js:63-83 | An unauthenticated caller fails, and so does an absent post ("Post not found"); neither changes the store. Otherwise only that post's likes change, through the toggle, and the saved post is returned. The store invariant is kept. |
| `Resolvers.LikeToggled` | graphql/resolvers/posts.js:66-79 | The store after a successful `likePost`. It has the same ids, and every other post is unchanged. That post differs only in its likes, which are `ToggleLike` of the old ones. |
| `Resolvers.LikeToggledKeepsWellFormed` | graphql/resolvers/posts.js:66-79 | A toggle keeps every stored post well formed, in particular free of duplicate likers. |
| `Resolvers.LikeToggledTwice` | graphql/resolvers/posts.js:63-83 | Two toggles on the store keep its ids and the post's likers. They restore the whole store when the caller had not liked. |
| `Resolvers.LikeTwice` | graphql/resolvers/posts.js:63-83 | Two `likePost` calls by one caller on a stored post both succeed and restore its likers. They leave the store exactly as it was if the caller had not liked. |

## Left out

- `checkAuth` (ulil/check-auth) is not part of this model. It reads a
  bearer token from the request and verifies it. The model takes its
  outcome as the `Auth` parameter.
- `new Date().toISOString()`: the clock is the `now` parameter. The model
  treats timestamps as opaque strings.
- Document ids: Mongoose assigns an ObjectId when the document is
  constructed (`new Post({...})`, before `save`). The model
  uses natural numbers and lets the store choose any unused one. Ids
  therefore cannot be malformed, and the cast failure `findById` raises on a
  malformed id is not modelled.
- Store failures: the abstract store never fails. The `catch (err) { throw
  new Error(err) }` blocks at posts.js:10-11, 21-22 and 59-60 re-wrap every
  error as a plain `Error` whose message carries the original one, so the
  caller sees "No such post" and "Action not allowed" inside a generic
  error. The model keeps the error kinds apart. It models neither the
  message text nor the re-wrapping.
- `Subscription.newPost` (posts.js:86-90) and the delivery of
  `pubsub.asyncIterator` events to subscribers: this is asynchronous,
  in-process event delivery. Only the log of published posts is kept.
- Concurrency: `likePost` reads, modifies and then writes with no guard, so
  two overlapping calls can lose an update or record the same user's like
  twice. A model of one call after another cannot express this.
- The order of posts with equal `createdAt` in `getPosts`: the store leaves
  it unspecified. `GetPosts` promises only the order on `createdAt`. The
  definition happens to keep ascending id order among equal timestamps.
- The `Post` schema, the GraphQL type definitions (including any
  `likeCount` field) and index.js (server bootstrap, database connection,
  port, logging) are not part of this model.
- Each like's own subdocument id, which Mongoose adds, is not modelled.
- `PostStore.Valid` assumes the store holds only posts that satisfy the
  invariant (non-blank body, no duplicate likers). These are the posts
  `createPost` and `likePost` produce when calls do not overlap. Documents
  written by other means are outside the model.

## Findings

| source | as written | input that shows it | evidently intended | confidence | as-written member | corrected member |
|---|---|---|---|---|---|---|
| graphql/resolvers/posts.js:52-53 | `deletePost` compares `user.username === post.username` without checking that `findById` found a post. | A `postId` of a post that does not exist, such as one deleted earlier. `post` is `null`, so reading `post.username` throws a TypeError, which is re-wrapped as a generic error. | An absent post is reported as not found, as `getPost` (line 17) and `likePost` (line 80) do. | not executed; high | `Resolvers.DeleteVerdictAsWritten`, `Resolvers.DeleteOfAbsentPostAsWritten` | `Resolvers.DeleteVerdict` (used by `Resolvers.PostStore.DeletePost`) |
