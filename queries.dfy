/**
 * The queries the handlers run against the tables. `.first()` orders an
 * unordered query by primary key, so it returns the matching row with the
 * lowest key. Other queries have no defined order; the model keeps rows in
 * key order as one order the database may use. `exclude`/`delete` drops the
 * matching rows, and a queryset `update(...)` rewrites them in place.
 */
module Queries {
  import opened Models

  /** The first User row with key `id`. */
  function FindUser(users: seq<User>, id: UserId): (r: Option<User>)
    ensures r.None? <==> id !in UserIds(users)
    ensures r.Some? ==> r.value in users && r.value.id == id
  {
    if users == [] then None
    else if users[0].id == id then Some(users[0])
    else
      assert users == [users[0]] + users[1..];
      FindUser(users[1..], id)
  }

  /** The first User row whose username is `name`. */
  function FindUserByName(users: seq<User>, name: string): (r: Option<User>)
    ensures r.None? <==> forall u :: u in users ==> u.username != name
    ensures r.Some? ==> r.value in users && r.value.username == name
  {
    if users == [] then None
    else if users[0].username == name then Some(users[0])
    else
      assert users == [users[0]] + users[1..];
      FindUserByName(users[1..], name)
  }

  /** The first Post row with key `id`. */
  function FindPost(posts: seq<Post>, id: PostId): (r: Option<Post>)
    ensures r.None? <==> id !in PostIds(posts)
    ensures r.Some? ==> r.value in posts && r.value.id == id
  {
    if posts == [] then None
    else if posts[0].id == id then Some(posts[0])
    else
      assert posts == [posts[0]] + posts[1..];
      FindPost(posts[1..], id)
  }

  /** The post with key `id` exists and its stored owner is `caller`. */
  predicate OwnedBy(posts: seq<Post>, id: PostId, caller: UserId)
  {
    var found := FindPost(posts, id);
    found.Some? && found.value.owner == Some(caller)
  }

  /** The posts whose owner is `owner`; in a table with unique keys, each is listed once. */
  function PostsOwnedBy(posts: seq<Post>, owner: UserId): (r: seq<Post>)
    ensures forall p :: p in r <==> p in posts && p.owner == Some(owner)
    ensures InPkOrder(posts, PostPk) ==> forall i, j :: 0 <= i < j < |r| ==> r[i].id != r[j].id
  {
    if posts == [] then []
    else
      assert posts == [posts[0]] + posts[1..];
      (if posts[0].owner == Some(owner) then [posts[0]] else []) + PostsOwnedBy(posts[1..], owner)
  }

  /** The Post table once the rows with key `id` are deleted. */
  function ExcludePost(posts: seq<Post>, id: PostId): (r: seq<Post>)
    ensures forall p :: p in r <==> p in posts && p.id != id
    ensures InPkOrder(posts, PostPk) ==> InPkOrder(r, PostPk)
  {
    if posts == [] then []
    else
      assert posts == [posts[0]] + posts[1..];
      var rest := ExcludePost(posts[1..], id);
      if posts[0].id != id then
        assert ([posts[0]] + rest)[1..] == rest;
        [posts[0]] + rest
      else rest
  }

  /** The User table once the rows with key `id` are deleted. */
  function ExcludeUser(users: seq<User>, id: UserId): (r: seq<User>)
    ensures forall u :: u in r <==> u in users && u.id != id
    ensures InPkOrder(users, UserPk) ==> InPkOrder(r, UserPk)
  {
    if users == [] then []
    else
      assert users == [users[0]] + users[1..];
      var rest := ExcludeUser(users[1..], id);
      if users[0].id != id then
        assert ([users[0]] + rest)[1..] == rest;
        [users[0]] + rest
      else rest
  }

  /**
   * The Post table once the owner `owner` is gone: every post is kept, the
   * posts `owner` owned get a null owner, and no other column changes.
   */
  function SetNullOwner(posts: seq<Post>, owner: UserId): (r: seq<Post>)
    ensures |r| == |posts|
    ensures forall i :: 0 <= i < |posts| ==>
      r[i] == posts[i].(owner := if posts[i].owner == Some(owner) then None else posts[i].owner)
  {
    if posts == [] then []
    else
      var p := posts[0];
      [p.(owner := if p.owner == Some(owner) then None else p.owner)] + SetNullOwner(posts[1..], owner)
  }

  /** The columns a post update may supply; an absent column is left as it is. */
  datatype PostFields = PostFields(title: Option<string>, body: Option<string>, owner: Option<Option<UserId>>)

  function ApplyFields(p: Post, f: PostFields): Post
  {
    Post(p.id,
         if f.title.Some? then f.title.value else p.title,
         if f.body.Some? then f.body.value else p.body,
         if f.owner.Some? then f.owner.value else p.owner)
  }

  /** The Post table after `filter(pk=id).update(**fields)`. */
  function UpdatePost(posts: seq<Post>, id: PostId, f: PostFields): (r: seq<Post>)
    ensures |r| == |posts|
    ensures forall i :: 0 <= i < |posts| ==>
      r[i] == if posts[i].id == id then ApplyFields(posts[i], f) else posts[i]
  {
    if posts == [] then []
    else [if posts[0].id == id then ApplyFields(posts[0], f) else posts[0]] + UpdatePost(posts[1..], id, f)
  }

  /** The keyword arguments of a `Like.objects.filter(...)`; `None` leaves a column unconstrained. */
  datatype LikeQuery = LikeQuery(id: Option<LikeId>, user: Option<UserId>, post: Option<PostId>,
                                 dateRange: Option<(int, int)>)

  function ById(id: LikeId): LikeQuery { LikeQuery(Some(id), None, None, None) }
  function ByUser(user: UserId): LikeQuery { LikeQuery(None, Some(user), None, None) }
  function ByPost(post: PostId): LikeQuery { LikeQuery(None, None, Some(post), None) }
  function ByPair(user: UserId, post: PostId): LikeQuery { LikeQuery(None, Some(user), Some(post), None) }

  /** `date__range=(lo, hi)` is inclusive at both ends. */
  predicate Matches(q: LikeQuery, l: Like)
  {
    && (q.id.None? || l.id == q.id.value)
    && (q.user.None? || l.user == q.user.value)
    && (q.post.None? || l.post == q.post.value)
    && (q.dateRange.None? || q.dateRange.value.0 <= l.date <= q.dateRange.value.1)
  }

  /** The likes `q` matches, in key order. */
  function FilterLikes(likes: seq<Like>, q: LikeQuery): (r: seq<Like>)
    ensures forall l :: l in r <==> l in likes && Matches(q, l)
    ensures |r| <= |likes|
    ensures InPkOrder(likes, LikePk) ==> InPkOrder(r, LikePk)
  {
    if likes == [] then []
    else
      assert likes == [likes[0]] + likes[1..];
      var rest := FilterLikes(likes[1..], q);
      if Matches(q, likes[0]) then
        assert ([likes[0]] + rest)[1..] == rest;
        [likes[0]] + rest
      else rest
  }

  /** The Like table once the likes `q` matches are deleted. */
  function ExcludeLikes(likes: seq<Like>, q: LikeQuery): (r: seq<Like>)
    ensures forall l :: l in r <==> l in likes && !Matches(q, l)
    ensures InPkOrder(likes, LikePk) ==> InPkOrder(r, LikePk)
  {
    if likes == [] then []
    else
      assert likes == [likes[0]] + likes[1..];
      var rest := ExcludeLikes(likes[1..], q);
      if !Matches(q, likes[0]) then
        assert ([likes[0]] + rest)[1..] == rest;
        [likes[0]] + rest
      else rest
  }

  /** A query over a table with one more row sees the old answer, then the new row if it matches. */
  lemma {:induction false} FilterLikesAppend(likes: seq<Like>, x: Like, q: LikeQuery)
    ensures FilterLikes(likes + [x], q) == FilterLikes(likes, q) + (if Matches(q, x) then [x] else [])
  {
    if likes != [] {
      assert (likes + [x])[1..] == likes[1..] + [x];
      FilterLikesAppend(likes[1..], x, q);
    }
  }

  /** Deleting some likes and then querying gives the query's answer less the deleted likes. */
  lemma {:induction false} FilterAfterExclude(likes: seq<Like>, gone: LikeQuery, q: LikeQuery)
    ensures FilterLikes(ExcludeLikes(likes, gone), q) == ExcludeLikes(FilterLikes(likes, q), gone)
  {
    if likes != [] {
      FilterAfterExclude(likes[1..], gone, q);
    }
  }

  /** Each like is either matched or kept, so the two parts add up to the table. */
  lemma {:induction false} FilterExcludeSizes(likes: seq<Like>, q: LikeQuery)
    ensures |FilterLikes(likes, q)| + |ExcludeLikes(likes, q)| == |likes|
  {
    if likes != [] {
      FilterExcludeSizes(likes[1..], q);
    }
  }

  /** Deleting never makes a table longer. */
  lemma {:induction false} ExcludeLikesShrinks(likes: seq<Like>, q: LikeQuery)
    ensures |ExcludeLikes(likes, q)| <= |likes|
  {
    FilterExcludeSizes(likes, q);
  }

  /** `.first()` on a table in key order returns the matching like with the lowest key. */
  lemma FirstMatchHasLowestKey(likes: seq<Like>, q: LikeQuery)
    requires InPkOrder(likes, LikePk)
    requires FilterLikes(likes, q) != []
    ensures forall l :: l in likes && Matches(q, l) ==> FilterLikes(likes, q)[0].id <= l.id
  {
    var r := FilterLikes(likes, q);
    assert r == [r[0]] + r[1..];
  }

  /** A query that matches no row returns nothing. */
  lemma {:induction false} NoMatchNoLikes(likes: seq<Like>, q: LikeQuery)
    requires forall l :: l in likes ==> !Matches(q, l)
    ensures FilterLikes(likes, q) == []
  {
    if likes != [] {
      assert likes[0] in likes;
      NoMatchNoLikes(likes[1..], q);
    }
  }

  /** In a table in key order, the query by the key of a present row finds exactly that row. */
  lemma {:induction false} ByIdFindsOne(likes: seq<Like>, l: Like)
    requires InPkOrder(likes, LikePk)
    requires l in likes
    ensures FilterLikes(likes, ById(l.id)) == [l]
  {
    assert likes == [likes[0]] + likes[1..];
    var rest := FilterLikes(likes[1..], ById(l.id));
    if likes[0] == l {
      NoMatchNoLikes(likes[1..], ById(l.id));
    } else {
      ByIdFindsOne(likes[1..], l);
    }
  }

  lemma UserIdsExclude(users: seq<User>, id: UserId)
    ensures UserIds(ExcludeUser(users, id)) == UserIds(users) - {id}
  {
    var r := ExcludeUser(users, id);
    forall x | x in UserIds(users) - {id}
      ensures x in UserIds(r)
    {
      var u :| u in users && u.id == x;
      assert u in r;
    }
  }

  lemma PostIdsExclude(posts: seq<Post>, id: PostId)
    ensures PostIds(ExcludePost(posts, id)) == PostIds(posts) - {id}
  {
    var r := ExcludePost(posts, id);
    forall x | x in PostIds(posts) - {id}
      ensures x in PostIds(r)
    {
      var p :| p in posts && p.id == x;
      assert p in r;
    }
  }

  /** Rewriting non-key columns leaves the set of post keys as it was. */
  lemma PostIdsPointwise(posts: seq<Post>, posts': seq<Post>)
    requires |posts'| == |posts|
    requires forall i :: 0 <= i < |posts| ==> posts'[i].id == posts[i].id
    ensures PostIds(posts') == PostIds(posts)
  {
    forall x | x in PostIds(posts)
      ensures x in PostIds(posts')
    {
      var p :| p in posts && p.id == x;
      var i :| 0 <= i < |posts| && posts[i] == p;
      assert posts'[i] in posts';
    }
    forall x | x in PostIds(posts')
      ensures x in PostIds(posts)
    {
      var p :| p in posts' && p.id == x;
      var i :| 0 <= i < |posts'| && posts'[i] == p;
      assert posts[i] in posts;
    }
  }
}
