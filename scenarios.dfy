/**
 * A client of the store: two users, one post, a repeated like, a listing,
 * and then the post's owner is deleted. Everything asserted here follows
 * from the handlers' contracts alone.
 */
module Scenarios {
  import opened Models
  import opened Queries
  import opened LikeInvariant
  import opened Api

  method LikeTwiceThenOwnerLeaves()
  {
    var store := new Store();
    var al := store.AddUser("al", 0);
    var bob := store.AddUser("bob", 0);
    assert al == Some(0) && bob == Some(1);
    assert store.users[0] in store.users && store.users[1] in store.users;

    var created := store.CreatePost(0, "t", "b");
    var post := Post(0, "t", "b", Some(0));
    assert created == Ok(PostCreated) && store.posts == [post];
    assert post in store.posts;

    var first := store.LikePost(1, 0, 100);
    assert first == Ok(Liked);
    var like := Like(0, 1, 0, 100);
    assert store.likes == [like];
    assert like in PairLikes(store.likes, 1, 0);
    var second := store.LikePost(1, 0, 200);
    assert second == Ok(AlreadyLiked) && store.likes == [like];

    var listed := store.ListPosts(Some("al"));
    assert listed.Ok? && post in listed.value;

    store.DeleteUser(0);
    assert store.posts == [post.(owner := None)];
    assert store.likes == [like];
    var patched := store.PatchPost(0, 0, PostFields(Some("new"), None, None));
    assert patched == Ok(CannotUpdate) && store.posts == [post.(owner := None)];
    var deleted := store.DeletePost(0, 0);
    assert deleted == Ok(CannotDelete) && store.posts == [post.(owner := None)];
  }
}
