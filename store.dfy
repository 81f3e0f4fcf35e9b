/**
 * The request handlers of the API, as methods of an in-memory store that
 * holds the three tables. The requester is an input: `caller` is the
 * authenticated user's key. A handler either answers with a value (`Ok`)
 * or with what the framework makes of an exception: `NotFound` for the
 * not-found exception, `BadRequest`, and `ServerError` for any other
 * exception that escapes the handler.
 */
module Api {
  import opened Models
  import opened Queries
  import opened LikeInvariant
  import opened Analytics

  datatype Reply<+T> = Ok(value: T) | BadRequest | NotFound | ServerError

  /** A `{status, message}` body and the HTTP status it is sent with. */
  datatype Envelope = Envelope(httpStatus: int, status: int, message: string)

  /** The body of the user-activity answer. */
  datatype Activity = Activity(username: string, lastLogin: Option<int>, lastRequestTime: int)

  const StatusOk: int := 200
  const StatusAlreadyReported: int := 208
  const StatusForbidden: int := 403
  const StatusNotFound: int := 404

  const PostCreated := Envelope(StatusOk, StatusOk, "Post is created")
  const PostNotFound := Envelope(StatusOk, StatusNotFound, "Post is not found")
  const PostUpdated := Envelope(StatusOk, StatusOk, "Post successfully updated")
  const CannotUpdate := Envelope(StatusOk, StatusForbidden, "Cannot update post by current user")
  const PostDeleted := Envelope(StatusOk, StatusOk, "Post successfully deleted")
  const CannotDelete := Envelope(StatusOk, StatusForbidden, "Cannot delete post by current user")
  const Liked := Envelope(StatusOk, StatusOk, "Liked the post")
  const AlreadyLiked := Envelope(StatusAlreadyReported, StatusAlreadyReported, "You have already liked the post")
  const Unliked := Envelope(StatusOk, StatusOk, "Unliked the post")
  const AlreadyUnliked := Envelope(StatusAlreadyReported, StatusAlreadyReported, "You have already unliked the post")

  /**
   * The supplied columns can be written: a title within the declared bound,
   * and an owner that is null or an existing user. Otherwise the database
   * rejects the update and the handler fails.
   */
  predicate Admissible(f: PostFields, users: seq<User>)
  {
    && (f.title.Some? ==> |f.title.value| <= TitleMaxLength)
    && (f.owner.Some? && f.owner.value.Some? ==> FindUser(users, f.owner.value.value).Some?)
  }

  /**
   * What an update request does, from the Post table before (`posts`) and
   * after (`posts'`): a missing post gets a 404 body, a requester other than
   * the stored owner a 403 body, and only the owner's update is applied.
   */
  ghost predicate UpdateOutcome(posts: seq<Post>, users: seq<User>, caller: UserId, id: PostId, f: PostFields,
                                r: Reply<Envelope>, posts': seq<Post>)
  {
    if id !in PostIds(posts) then r == Ok(PostNotFound) && posts' == posts
    else if !OwnedBy(posts, id, caller) then r == Ok(CannotUpdate) && posts' == posts
    else if !Admissible(f, users) then r == ServerError && posts' == posts
    else r == Ok(PostUpdated) && posts' == UpdatePost(posts, id, f)
  }

  /** Whoever asks, an update either leaves the table as it was or was asked by the stored owner. */
  lemma OnlyOwnerChangesPost(posts: seq<Post>, users: seq<User>, caller: UserId, id: PostId, f: PostFields,
                             r: Reply<Envelope>, posts': seq<Post>)
    requires UpdateOutcome(posts, users, caller, id, f, r, posts')
    requires posts' != posts
    ensures OwnedBy(posts, id, caller) && r == Ok(PostUpdated)
    ensures forall i :: 0 <= i < |posts| && posts[i].id != id ==> posts'[i] == posts[i]
  {
  }

  /** An admissible update keeps the Post table and the likes referring to it well formed. */
  lemma UpdateKeepsSchema(posts: seq<Post>, nextPostId: nat, users: seq<User>, likes: seq<Like>, nextLikeId: nat,
                          id: PostId, f: PostFields)
    requires PostTable(posts, nextPostId, users) && LikeTable(likes, nextLikeId, users, posts)
    requires Admissible(f, users)
    ensures PostTable(UpdatePost(posts, id, f), nextPostId, users)
    ensures LikeTable(likes, nextLikeId, users, UpdatePost(posts, id, f))
  {
    var posts' := UpdatePost(posts, id, f);
    PkOrderPointwise(posts, posts', PostPk);
    PostIdsPointwise(posts, posts');
    forall p | p in posts'
      ensures p.id < nextPostId && |p.title| <= TitleMaxLength
      ensures p.owner.Some? ==> p.owner.value in UserIds(users)
    {
      var i :| 0 <= i < |posts'| && posts'[i] == p;
      assert posts[i] in posts;
    }
  }

  /** Once its owner's user row is deleted, no requester owns a post that user owned. */
  lemma {:induction false} OrphanedPostsAreFrozen(posts: seq<Post>, owner: UserId, p: Post, caller: UserId)
    requires InPkOrder(posts, PostPk)
    requires p in posts && p.owner == Some(owner)
    ensures !OwnedBy(SetNullOwner(posts, owner), p.id, caller)
  {
    var posts' := SetNullOwner(posts, owner);
    PkOrderPointwise(posts, posts', PostPk);
    PostIdsPointwise(posts, posts');
    var found := FindPost(posts', p.id);
    var i :| 0 <= i < |posts'| && posts'[i] == found.value;
    assert posts[i] in posts;
    PkOrderUnique(posts, PostPk, posts[i], p);
  }

  class Store {
    var users: seq<User>
    var posts: seq<Post>
    var likes: seq<Like>
    var nextUserId: nat
    var nextPostId: nat
    var nextLikeId: nat

    ghost predicate Valid()
      reads this
    {
      && UserTable(users, nextUserId)
      && PostTable(posts, nextPostId, users)
      && LikeTable(likes, nextLikeId, users, posts)
    }

    constructor ()
      ensures Valid()
      ensures users == [] && posts == [] && likes == []
      ensures nextUserId == 0 && nextPostId == 0 && nextLikeId == 0
    {
      users, posts, likes := [], [], [];
      nextUserId, nextPostId, nextLikeId := 0, 0, 0;
    }

    /** Inserts the User row of a new account; the username must be new. */
    method AddUser(username: string, now: int) returns (id: Option<UserId>)
      requires Valid()
      modifies this
      ensures Valid()
      ensures posts == old(posts) && likes == old(likes)
      ensures nextPostId == old(nextPostId) && nextLikeId == old(nextLikeId)
      ensures (exists u :: u in old(users) && u.username == username) ==>
                id.None? && users == old(users) && nextUserId == old(nextUserId)
      ensures (forall u :: u in old(users) ==> u.username != username) ==>
                && id == Some(old(nextUserId))
                && users == old(users) + [User(old(nextUserId), username, None, now)]
                && nextUserId == old(nextUserId) + 1
    {
      if FindUserByName(users, username).Some? {
        return None;
      }
      var u := User(nextUserId, username, None, now);
      PkOrderAppend(users, u, UserPk);
      UserIdsAppend(users, u);
      users := users + [u];
      nextUserId := nextUserId + 1;
      id := Some(u.id);
    }

    /** Creating a post: the caller becomes its owner. */
    method CreatePost(caller: UserId, title: string, body: string) returns (r: Reply<Envelope>)
      requires Valid() && caller in UserIds(users)
      modifies this
      ensures Valid()
      ensures users == old(users) && likes == old(likes)
      ensures nextUserId == old(nextUserId) && nextLikeId == old(nextLikeId)
      ensures |title| > TitleMaxLength ==> r == ServerError && posts == old(posts) && nextPostId == old(nextPostId)
      ensures |title| <= TitleMaxLength ==>
                && r == Ok(PostCreated)
                && posts == old(posts) + [Post(old(nextPostId), title, body, Some(caller))]
                && nextPostId == old(nextPostId) + 1
    {
      if |title| > TitleMaxLength {
        return ServerError;
      }
      var p := Post(nextPostId, title, body, Some(caller));
      PkOrderAppend(posts, p, PostPk);
      PostIdsAppend(posts, p);
      posts := posts + [p];
      nextPostId := nextPostId + 1;
      r := Ok(PostCreated);
    }

    /** Retrieving a post by key. */
    function GetPost(id: PostId): (r: Reply<Post>)
      reads this
      ensures r.Ok? <==> id in PostIds(posts)
      ensures r.Ok? ==> r.value in posts && r.value.id == id
      ensures !r.Ok? ==> r == NotFound
    {
      match FindPost(posts, id)
      case Some(p) => Ok(p)
      case None => NotFound
    }

    /**
     * Listing the posts of the user named by the `username` query parameter:
     * no parameter is a bad request, an unknown name is not found.
     */
    function ListPosts(username: Option<string>): (r: Reply<seq<Post>>)
      reads this
      ensures username.None? ==> r == BadRequest
      ensures username.Some? ==>
                (r.Ok? <==> exists u :: u in users && u.username == username.value)
      ensures username.Some? && !r.Ok? ==> r == NotFound
      ensures r.Ok? ==> exists u :: u in users && u.username == username.value &&
                          forall p :: p in r.value <==> p in posts && p.owner == Some(u.id)
      ensures r.Ok? && InPkOrder(posts, PostPk) ==>
                forall i, j :: 0 <= i < j < |r.value| ==> r.value[i].id != r.value[j].id
    {
      if username.None? then BadRequest
      else
        match FindUserByName(users, username.value)
        case None => NotFound
        case Some(u) => Ok(PostsOwnedBy(posts, u.id))
    }

    /** The activity record of a user, looked up by key. */
    function UserActivity(id: UserId): (r: Reply<Activity>)
      reads this
      ensures r.Ok? <==> id in UserIds(users)
      ensures !r.Ok? ==> r == NotFound
      ensures r.Ok? ==> exists u :: u in users && u.id == id &&
                          r.value == Activity(u.username, u.lastLogin, u.lastRequestTime)
    {
      match FindUser(users, id)
      case Some(u) => Ok(Activity(u.username, u.lastLogin, u.lastRequestTime))
      case None => NotFound
    }

    /**
     * The full-update handler as written: its owner branch calls `update` on
     * a model instance, which has no such method, so it never updates.
     */
    method PutPost(caller: UserId, id: PostId, fields: PostFields) returns (r: Reply<Envelope>)
      ensures id !in PostIds(posts) ==> r == Ok(PostNotFound)
      ensures OwnedBy(posts, id, caller) ==> r == ServerError
      ensures id in PostIds(posts) && !OwnedBy(posts, id, caller) ==> r == Ok(CannotUpdate)
      ensures r != Ok(PostUpdated)
    {
      var post := FindPost(posts, id);
      if post.None? {
        return Ok(PostNotFound);
      }
      if post.value.owner == Some(caller) {
        r := ServerError;
      } else {
        r := Ok(CannotUpdate);
      }
    }

    /** The full-update handler as evidently intended: it applies the owner's update. */
    method PutPostIntended(caller: UserId, id: PostId, fields: PostFields) returns (r: Reply<Envelope>)
      requires Valid()
      modifies this
      ensures Valid()
      ensures UpdateOutcome(old(posts), users, caller, id, fields, r, posts)
      ensures users == old(users) && likes == old(likes)
      ensures nextUserId == old(nextUserId) && nextPostId == old(nextPostId) && nextLikeId == old(nextLikeId)
    {
      r := PatchPost(caller, id, fields);
    }

    /** The partial-update handler. */
    method PatchPost(caller: UserId, id: PostId, fields: PostFields) returns (r: Reply<Envelope>)
      requires Valid()
      modifies this
      ensures Valid()
      ensures UpdateOutcome(old(posts), users, caller, id, fields, r, posts)
      ensures users == old(users) && likes == old(likes)
      ensures nextUserId == old(nextUserId) && nextPostId == old(nextPostId) && nextLikeId == old(nextLikeId)
    {
      if FindPost(posts, id).None? {
        return Ok(PostNotFound);
      }
      if !OwnedBy(posts, id, caller) {
        return Ok(CannotUpdate);
      }
      if !Admissible(fields, users) {
        return ServerError;
      }
      UpdateKeepsSchema(posts, nextPostId, users, likes, nextLikeId, id, fields);
      posts := UpdatePost(posts, id, fields);
      r := Ok(PostUpdated);
    }

    /** The delete handler: only the stored owner may delete, and the post's likes go with it. */
    method DeletePost(caller: UserId, id: PostId) returns (r: Reply<Envelope>)
      requires Valid()
      modifies this
      ensures Valid()
      ensures users == old(users)
      ensures nextUserId == old(nextUserId) && nextPostId == old(nextPostId) && nextLikeId == old(nextLikeId)
      ensures OneLikePerPair(old(likes)) ==> OneLikePerPair(likes)
      ensures id !in PostIds(old(posts)) ==> r == NotFound && posts == old(posts) && likes == old(likes)
      ensures id in PostIds(old(posts)) && !OwnedBy(old(posts), id, caller) ==>
                r == Ok(CannotDelete) && posts == old(posts) && likes == old(likes)
      ensures OwnedBy(old(posts), id, caller) ==>
                && r == Ok(PostDeleted)
                && posts == ExcludePost(old(posts), id)
                && likes == ExcludeLikes(old(likes), ByPost(id))
    {
      if FindPost(posts, id).None? {
        return NotFound;
      }
      if OwnedBy(posts, id, caller) {
        DeletePostRow(id);
        r := Ok(PostDeleted);
      } else {
        r := Ok(CannotDelete);
      }
    }

    /** Deleting a Post row: every like of that post is deleted with it, and no other row changes. */
    method DeletePostRow(id: PostId)
      requires Valid()
      modifies this
      ensures Valid()
      ensures posts == ExcludePost(old(posts), id)
      ensures likes == ExcludeLikes(old(likes), ByPost(id))
      ensures users == old(users)
      ensures nextUserId == old(nextUserId) && nextPostId == old(nextPostId) && nextLikeId == old(nextLikeId)
      ensures OneLikePerPair(old(likes)) ==> OneLikePerPair(likes)
    {
      PostIdsExclude(posts, id);
      if OneLikePerPair(likes) {
        DeletingLikesKeepsOnePerPair(likes, ByPost(id));
      }
      posts := ExcludePost(posts, id);
      likes := ExcludeLikes(likes, ByPost(id));
    }

    /**
     * Deleting a User row: the user's likes are deleted, the user's posts are
     * kept with a null owner, and no other row changes.
     */
    method DeleteUser(id: UserId)
      requires Valid()
      modifies this
      ensures Valid()
      ensures users == ExcludeUser(old(users), id)
      ensures posts == SetNullOwner(old(posts), id)
      ensures likes == ExcludeLikes(old(likes), ByUser(id))
      ensures nextUserId == old(nextUserId) && nextPostId == old(nextPostId) && nextLikeId == old(nextLikeId)
      ensures OneLikePerPair(old(likes)) ==> OneLikePerPair(likes)
    {
      var users' := ExcludeUser(users, id);
      var posts' := SetNullOwner(posts, id);
      UserIdsExclude(users, id);
      PkOrderPointwise(posts, posts', PostPk);
      PostIdsPointwise(posts, posts');
      forall p | p in posts'
        ensures p.id < nextPostId && |p.title| <= TitleMaxLength
        ensures p.owner.Some? ==> p.owner.value in UserIds(users')
      {
        var i :| 0 <= i < |posts'| && posts'[i] == p;
        assert posts[i] in posts;
      }
      if OneLikePerPair(likes) {
        DeletingLikesKeepsOnePerPair(likes, ByUser(id));
      }
      users := users';
      posts := posts';
      likes := ExcludeLikes(likes, ByUser(id));
    }

    /** The like handler: adds the caller's like of the post unless there is one already. */
    method LikePost(caller: UserId, postId: PostId, now: int) returns (r: Reply<Envelope>)
      requires Valid() && caller in UserIds(users)
      modifies this
      ensures Valid()
      ensures users == old(users) && posts == old(posts)
      ensures nextUserId == old(nextUserId) && nextPostId == old(nextPostId)
      ensures postId !in PostIds(posts) ==>
                r == NotFound && likes == old(likes) && nextLikeId == old(nextLikeId)
      ensures postId in PostIds(posts) && PairLikes(old(likes), caller, postId) == [] ==>
                && r == Ok(Liked)
                && likes == old(likes) + [Like(old(nextLikeId), caller, postId, now)]
                && nextLikeId == old(nextLikeId) + 1
      ensures postId in PostIds(posts) && PairLikes(old(likes), caller, postId) != [] ==>
                r == Ok(AlreadyLiked) && likes == old(likes) && nextLikeId == old(nextLikeId)
      ensures OneLikePerPair(old(likes)) ==> OneLikePerPair(likes)
      ensures OneLikePerPair(old(likes)) && postId in PostIds(posts) ==>
                |PairLikes(likes, caller, postId)| == 1
    {
      if FindPost(posts, postId).None? {
        return NotFound;
      }
      if PairLikes(likes, caller, postId) == [] {
        var l := Like(nextLikeId, caller, postId, now);
        PkOrderAppend(likes, l, LikePk);
        if OneLikePerPair(likes) {
          FirstLikeOfPair(likes, l);
        }
        likes := likes + [l];
        nextLikeId := nextLikeId + 1;
        r := Ok(Liked);
      } else {
        r := Ok(AlreadyLiked);
      }
    }

    /** The unlike handler: deletes the caller's first like of the post, if there is one. */
    method UnlikePost(caller: UserId, postId: PostId) returns (r: Reply<Envelope>)
      requires Valid()
      modifies this
      ensures Valid()
      ensures users == old(users) && posts == old(posts)
      ensures nextUserId == old(nextUserId) && nextPostId == old(nextPostId) && nextLikeId == old(nextLikeId)
      ensures postId !in PostIds(posts) ==> r == NotFound && likes == old(likes)
      ensures postId in PostIds(posts) && PairLikes(old(likes), caller, postId) == [] ==>
                r == Ok(AlreadyUnliked) && likes == old(likes)
      ensures postId in PostIds(posts) && PairLikes(old(likes), caller, postId) != [] ==>
                var gone := PairLikes(old(likes), caller, postId)[0];
                && r == Ok(Unliked)
                && likes == ExcludeLikes(old(likes), ById(gone.id))
                && |likes| == |old(likes)| - 1
      ensures OneLikePerPair(old(likes)) ==> OneLikePerPair(likes)
      ensures OneLikePerPair(old(likes)) && postId in PostIds(posts) ==>
                PairLikes(likes, caller, postId) == []
    {
      if FindPost(posts, postId).None? {
        return NotFound;
      }
      var found := PairLikes(likes, caller, postId);
      if found == [] {
        return Ok(AlreadyUnliked);
      }
      var gone := found[0];
      assert gone in found;
      ByIdFindsOne(likes, gone);
      FilterExcludeSizes(likes, ById(gone.id));
      if OneLikePerPair(likes) {
        DeletingLikesKeepsOnePerPair(likes, ById(gone.id));
        UnlikeClearsPair(likes, caller, postId);
      }
      likes := ExcludeLikes(likes, ById(gone.id));
      r := Ok(Unliked);
    }

    /**
     * The analytics handler: from `dateFrom` at 00:00 while before `dateTo`
     * at 23:59:59, one bucket per day with the caller's likes in that day's
     * closed window.
     */
    method LikeAnalytics(caller: UserId, dateFrom: int, dateTo: int) returns (buckets: seq<Bucket>)
      ensures |buckets| == if dateFrom <= dateTo then dateTo - dateFrom + 1 else 0
      ensures forall i :: 0 <= i < |buckets| ==> buckets[i] == DayBucket(likes, caller, dateFrom + i)
    {
      var start := dateFrom * Day;
      var stop := dateTo * Day + LastSecond;
      buckets := [];
      while start < stop
        invariant start == (dateFrom + |buckets|) * Day
        invariant |buckets| <= if dateFrom <= dateTo then dateTo - dateFrom + 1 else 0
        invariant forall i :: 0 <= i < |buckets| ==> buckets[i] == DayBucket(likes, caller, dateFrom + i)
        decreases stop - start
      {
        var inWindow := FilterLikes(likes, LikeQuery(None, Some(caller), None, Some((start, start + Day))));
        buckets := buckets + [Bucket(start, start + Day, |inWindow|)];
        start := start + Day;
      }
    }
  }
}
