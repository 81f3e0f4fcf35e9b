/**
 * The rule the like and unlike handlers are written to keep, although the
 * Like table itself has no uniqueness constraint on (user, post): at most
 * one like per pair.
 */
module LikeInvariant {
  import opened Models
  import opened Queries

  /** The likes `user` has given `post`, in key order. */
  function PairLikes(likes: seq<Like>, user: UserId, post: PostId): seq<Like>
  {
    FilterLikes(likes, ByPair(user, post))
  }

  ghost predicate OneLikePerPair(likes: seq<Like>)
  {
    forall user, post :: |PairLikes(likes, user, post)| <= 1
  }

  /** Adding the first like of a pair keeps the rule, and that like is then the pair's only one. */
  lemma FirstLikeOfPair(likes: seq<Like>, x: Like)
    requires OneLikePerPair(likes)
    requires PairLikes(likes, x.user, x.post) == []
    ensures OneLikePerPair(likes + [x])
    ensures PairLikes(likes + [x], x.user, x.post) == [x]
  {
    forall user, post
      ensures |PairLikes(likes + [x], user, post)| <= 1
    {
      assert |PairLikes(likes, user, post)| <= 1;
      FilterLikesAppend(likes, x, ByPair(user, post));
    }
    FilterLikesAppend(likes, x, ByPair(x.user, x.post));
  }

  /** Deleting any set of likes keeps the rule. */
  lemma DeletingLikesKeepsOnePerPair(likes: seq<Like>, gone: LikeQuery)
    requires OneLikePerPair(likes)
    ensures OneLikePerPair(ExcludeLikes(likes, gone))
  {
    forall user, post
      ensures |PairLikes(ExcludeLikes(likes, gone), user, post)| <= 1
    {
      assert |PairLikes(likes, user, post)| <= 1;
      FilterAfterExclude(likes, gone, ByPair(user, post));
      ExcludeLikesShrinks(FilterLikes(likes, ByPair(user, post)), gone);
    }
  }

  /** Under the rule, deleting the first like of a pair leaves the pair with no like. */
  lemma UnlikeClearsPair(likes: seq<Like>, user: UserId, post: PostId)
    requires OneLikePerPair(likes)
    requires PairLikes(likes, user, post) != []
    ensures PairLikes(ExcludeLikes(likes, ById(PairLikes(likes, user, post)[0].id)), user, post) == []
  {
    var l := PairLikes(likes, user, post)[0];
    assert PairLikes(likes, user, post) == [l];
    FilterAfterExclude(likes, ById(l.id), ByPair(user, post));
    assert ExcludeLikes([l], ById(l.id)) == [];
  }

  /** A store meeting the whole schema can hold two likes of one post by one user. */
  lemma SchemaAdmitsDuplicateLikes()
    ensures UserTable([User(0, "u", None, 0)], 1)
    ensures PostTable([Post(0, "t", "b", Some(0))], 1, [User(0, "u", None, 0)])
    ensures exists likes :: LikeTable(likes, 2, [User(0, "u", None, 0)], [Post(0, "t", "b", Some(0))])
                            && !OneLikePerPair(likes)
  {
    var users := [User(0, "u", None, 0)];
    var posts := [Post(0, "t", "b", Some(0))];
    var a, b := Like(0, 0, 0, 0), Like(1, 0, 0, 0);
    var likes := [a, b];
    assert users[0] in users && posts[0] in posts;
    assert users[1..] == [] && posts[1..] == [];
    assert likes[1..] == [b] && likes[1..][1..] == [];
    assert InPkOrder(likes, LikePk);
    assert FilterLikes([b], ByPair(0, 0)) == [b] by {
      assert [b][1..] == [];
    }
    assert PairLikes(likes, 0, 0) == [a, b];
    assert LikeTable(likes, 2, users, posts);
  }
}
