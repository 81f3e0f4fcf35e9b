/**
 * The three tables of the social-posting backend (User, Post, Like), their
 * rows as plain records, and the constraints the schema itself places on
 * them: primary keys, the declared title bound, and foreign keys.
 *
 * A table is a sequence of rows in primary-key order. `.first()` orders an
 * unordered query by primary key, so it returns the matching row with the
 * lowest key. Other queries have no defined order; the model keeps rows in
 * key order as one order the database may use. Timestamps are integer seconds.
 */
module Models {

  datatype Option<+T> = None | Some(value: T)

  type UserId = nat
  type PostId = nat
  type LikeId = nat

  /** The declared length bound of a post title. */
  const TitleMaxLength: nat := 255

  /** A row of the User table. */
  datatype User = User(id: UserId, username: string, lastLogin: Option<int>, lastRequestTime: int)

  /** A row of the Post table. `owner` is the nullable foreign key to User. */
  datatype Post = Post(id: PostId, title: string, body: string, owner: Option<UserId>)

  /** A row of the Like table. `date` is the timestamp written when the row is saved. */
  datatype Like = Like(id: LikeId, user: UserId, post: PostId, date: int)

  function UserPk(u: User): nat { u.id }
  function PostPk(p: Post): nat { p.id }
  function LikePk(l: Like): nat { l.id }

  /** Every later row has a larger primary key than every earlier one. */
  ghost predicate InPkOrder<T>(rows: seq<T>, pk: T -> nat)
  {
    rows == [] || ((forall r :: r in rows[1..] ==> pk(rows[0]) < pk(r)) && InPkOrder(rows[1..], pk))
  }

  ghost function UserIds(users: seq<User>): set<UserId>
  {
    set u | u in users :: u.id
  }

  ghost function PostIds(posts: seq<Post>): set<PostId>
  {
    set p | p in posts :: p.id
  }

  /** User rows: unique keys below the next key to hand out, unique usernames. */
  ghost predicate UserTable(users: seq<User>, nextId: nat)
  {
    && InPkOrder(users, UserPk)
    && (forall u :: u in users ==> u.id < nextId)
    && (forall a, b :: a in users && b in users && a.username == b.username ==> a == b)
  }

  /** Post rows: unique keys, bounded titles, and an owner that is null or an existing user. */
  ghost predicate PostTable(posts: seq<Post>, nextId: nat, users: seq<User>)
  {
    && InPkOrder(posts, PostPk)
    && (forall p :: p in posts ==> p.id < nextId && |p.title| <= TitleMaxLength)
    && (forall p :: p in posts && p.owner.Some? ==> p.owner.value in UserIds(users))
  }

  /**
   * Like rows: unique keys, and both foreign keys point at existing rows.
   * Nothing here limits the number of likes per (user, post) pair.
   */
  ghost predicate LikeTable(likes: seq<Like>, nextId: nat, users: seq<User>, posts: seq<Post>)
  {
    && InPkOrder(likes, LikePk)
    && (forall l :: l in likes ==> l.id < nextId && l.user in UserIds(users) && l.post in PostIds(posts))
  }

  /** Appending a row whose key exceeds every present key keeps the table in key order. */
  lemma {:induction false} PkOrderAppend<T>(rows: seq<T>, x: T, pk: T -> nat)
    requires InPkOrder(rows, pk)
    requires forall r :: r in rows ==> pk(r) < pk(x)
    ensures InPkOrder(rows + [x], pk)
  {
    if rows != [] {
      assert (rows + [x])[1..] == rows[1..] + [x];
      PkOrderAppend(rows[1..], x, pk);
    }
  }

  /** A table in key order never holds two different rows with the same key. */
  lemma {:induction false} PkOrderUnique<T>(rows: seq<T>, pk: T -> nat, a: T, b: T)
    requires InPkOrder(rows, pk)
    requires a in rows && b in rows && pk(a) == pk(b)
    ensures a == b
  {
    assert rows == [rows[0]] + rows[1..];
    if a != rows[0] && b != rows[0] {
      PkOrderUnique(rows[1..], pk, a, b);
    }
  }

  /** Rewriting the non-key columns of every row keeps the table in key order. */
  lemma {:induction false} PkOrderPointwise<T>(rows: seq<T>, rows': seq<T>, pk: T -> nat)
    requires InPkOrder(rows, pk)
    requires |rows'| == |rows|
    requires forall i :: 0 <= i < |rows| ==> pk(rows'[i]) == pk(rows[i])
    ensures InPkOrder(rows', pk)
  {
    if rows != [] {
      forall r | r in rows'[1..]
        ensures pk(rows'[0]) < pk(r)
      {
        var k :| 0 <= k < |rows'[1..]| && rows'[1..][k] == r;
        assert rows[1..][k] in rows[1..];
      }
      PkOrderPointwise(rows[1..], rows'[1..], pk);
    }
  }

  lemma UserIdsAppend(users: seq<User>, u: User)
    ensures UserIds(users + [u]) == UserIds(users) + {u.id}
  {
    assert u in users + [u];
    forall x | x in UserIds(users)
      ensures x in UserIds(users + [u])
    {
      var v :| v in users && v.id == x;
      assert v in users + [u];
    }
  }

  lemma PostIdsAppend(posts: seq<Post>, p: Post)
    ensures PostIds(posts + [p]) == PostIds(posts) + {p.id}
  {
    assert p in posts + [p];
    forall x | x in PostIds(posts)
      ensures x in PostIds(posts + [p])
    {
      var q :| q in posts && q.id == x;
      assert q in posts + [p];
    }
  }
}
