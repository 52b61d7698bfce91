/** The listing behind `getPosts`: every stored post, newest first. The
    store enumerates its documents and then sorts them on `createdAt`
    descending, comparing the timestamp strings lexicographically. */
module Listing {
  import opened Text
  import opened PostModel

  /** `s` is ordered by `createdAt`, latest first. */
  predicate NewestFirstOrder(s: seq<Post>) {
    forall i, j :: 0 <= i < j < |s| ==> LexLe(s[j].createdAt, s[i].createdAt)
  }

  /** `r` lists exactly the posts of `posts`, one entry per stored post. */
  ghost predicate ListsExactly(r: seq<Post>, posts: map<PostId, Post>) {
    && |r| == |posts|
    && (forall p :: p in r <==> p in posts.Values)
  }

  /** `k` is the smallest of `ids`. */
  predicate IsLeast(k: PostId, ids: set<PostId>) {
    k in ids && forall j | j in ids :: k <= j
  }

  lemma MinimumExists(ids: set<PostId>)
    requires ids != {}
    ensures exists k :: IsLeast(k, ids)
  {
    var k :| k in ids;
    if ids == {k} {
      assert IsLeast(k, ids);
    } else {
      MinimumExists(ids - {k});
      var m :| IsLeast(m, ids - {k});
      var least := if k < m then k else m;
      forall j | j in ids ensures least <= j {
        if j != k { assert j in ids - {k}; }
      }
      assert IsLeast(least, ids);
    }
  }

  lemma ValuesOfRemove(posts: map<PostId, Post>, k: PostId)
    requires k in posts
    ensures posts.Values == {posts[k]} + (posts - {k}).Values
  {
    var rest := posts - {k};
    forall p | p in posts.Values ensures p == posts[k] || p in rest.Values {
      var j :| j in posts && posts[j] == p;
      if j != k { assert rest[j] == p; }
    }
    forall p | p in rest.Values ensures p in posts.Values {
      var j :| j in rest && rest[j] == p;
      assert posts[j] == p;
    }
  }

  lemma ValuesOfUpdate(posts: map<PostId, Post>, p: Post)
    ensures forall q | q in posts[p.id := p].Values :: q == p || q in posts.Values
    ensures p in posts[p.id := p].Values
  {
    var after := posts[p.id := p];
    forall q | q in after.Values ensures q == p || q in posts.Values {
      var j :| j in after && after[j] == q;
      if j != p.id { assert posts[j] == q; }
    }
    assert after[p.id] == p;
  }

  /** The stored posts in ascending order of id, one per stored post. */
  function Enumerate(posts: map<PostId, Post>): (r: seq<Post>)
    ensures ListsExactly(r, posts)
    decreases |posts|
  {
    if posts == map[] then []
    else
      MinimumExists(posts.Keys);
      var k :| IsLeast(k, posts.Keys);
      var rest := posts - {k};
      ValuesOfRemove(posts, k);
      assert rest.Keys == posts.Keys - {k};
      assert |rest| == |posts| - 1;
      [posts[k]] + Enumerate(rest)
  }

  /** `Insert(x, s)` places `x` before the first post of `s` that is not
      later than it. */
  function Insert(x: Post, s: seq<Post>): (r: seq<Post>)
    ensures multiset(r) == multiset(s) + multiset{x}
  {
    if s == [] then [x]
    else if LexLe(s[0].createdAt, x.createdAt) then [x] + s
    else
      assert s == [s[0]] + s[1..];
      [s[0]] + Insert(x, s[1..])
  }

  /** Inserting into a newest-first sequence keeps it newest first. */
  lemma {:induction false} InsertKeepsOrder(x: Post, s: seq<Post>)
    requires NewestFirstOrder(s)
    ensures NewestFirstOrder(Insert(x, s))
  {
    if s == [] {
    } else if LexLe(s[0].createdAt, x.createdAt) {
      forall j | 0 < j < |s| ensures LexLe(s[j].createdAt, x.createdAt) {
        LexLeTransitive(s[j].createdAt, s[0].createdAt, x.createdAt);
      }
    } else {
      LexLeTotal(s[0].createdAt, x.createdAt);
      var rest := Insert(x, s[1..]);
      InsertKeepsOrder(x, s[1..]);
      forall y | y in rest ensures LexLe(y.createdAt, s[0].createdAt) {
        assert y in multiset(rest);
        assert y == x || y in s[1..];
      }
      var r := [s[0]] + rest;
      forall i, j | 0 <= i < j < |r| ensures LexLe(r[j].createdAt, r[i].createdAt) {
        assert r[j] == rest[j - 1];
        if i > 0 { assert r[i] == rest[i - 1]; }
      }
    }
  }

  /** The store's sort on `createdAt` descending: the same posts, latest
      first. Posts with equal timestamps may come in any order; this one
      keeps their enumeration order. */
  function SortNewestFirst(s: seq<Post>): (r: seq<Post>)
    ensures NewestFirstOrder(r)
    ensures multiset(r) == multiset(s)
  {
    if s == [] then []
    else
      assert s == [s[0]] + s[1..];
      InsertKeepsOrder(s[0], SortNewestFirst(s[1..]));
      Insert(s[0], SortNewestFirst(s[1..]))
  }

  /** `Post.find().sort({ createdAt: -1 })`. */
  function ListNewestFirst(posts: map<PostId, Post>): (r: seq<Post>)
    ensures ListsExactly(r, posts)
    ensures NewestFirstOrder(r)
  {
    var all := Enumerate(posts);
    var r := SortNewestFirst(all);
    assert forall p :: p in r <==> p in all by {
      forall p ensures p in r <==> p in all {
        assert p in r <==> p in multiset(r);
        assert p in all <==> p in multiset(all);
      }
    }
    assert |r| == |multiset(r)| == |multiset(all)| == |all|;
    r
  }

  /** A post stamped strictly later than every stored post is listed first
      once it is stored. */
  lemma LatestPostListedFirst(posts: map<PostId, Post>, p: Post)
    requires forall q | q in posts.Values :: LexLe(q.createdAt, p.createdAt) && q.createdAt != p.createdAt
    ensures ListNewestFirst(posts[p.id := p])[0] == p
  {
    var r := ListNewestFirst(posts[p.id := p]);
    ValuesOfUpdate(posts, p);
    var k :| 0 <= k < |r| && r[k] == p;
    if r[0] != p {
      assert r[0] in posts.Values;
      assert LexLe(p.createdAt, r[0].createdAt);
      LexLeAntisymmetric(p.createdAt, r[0].createdAt);
    }
  }
}
