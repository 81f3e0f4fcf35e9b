# Social-posting backend: a Dafny model of its store and request handlers

This project models the core of a small social-posting API. Users own posts. Users like posts. An analytics endpoint counts a user's likes per day.

The model has three tables and the handlers that read and write them:

- **Tables.** The User, Post and Like tables are sequences of records in primary-key order. `.first()` orders an unordered query by primary key, so it returns the matching row with the lowest key. Other queries have no defined order; the model keeps rows in key order as one order the database may use. The schema constraints are the predicates `UserTable`, `PostTable` and `LikeTable`:
  - unique keys;
  - a title of at most 255 characters;
  - foreign keys that point at existing rows;
  - unique usernames.
- **Queries** (`queries.dfy`). The ORM calls the handlers make are functions: `filter(...)`, `.first()`, `exclude`/`delete`, and a queryset `update(...)`. Each one states which rows it keeps or rewrites.
- **The like rule** (`like_invariant.dfy`). At most one like per (user, post) pair. The handlers are written to keep this rule, but the schema does not enforce it.
- **Analytics** (`analytics.dfy`). This file holds the day windows and buckets of the analytics endpoint.
- **The store** (`store.dfy`). `Api.Store` is a class that holds the three tables and the next key of each. Its methods are the handlers and the two cascading deletes. `Valid()` is the schema invariant, and every method keeps it. Every method that writes the Like table also keeps the one-like-per-pair rule.
- **A client** (`scenarios.dfy`) replays a short session against the contracts: a like that is repeated, a listing, and then the owner of a post is deleted.

Modelling choices:

- A date is a day number and a timestamp is in integer seconds. A day is 86400 seconds.
- The requester is an input value (`caller`, the key of the authenticated user).
- A handler answers in one of four ways:
  - `Ok(v)`: the handler returns `v`;
  - `NotFound`: the framework's not-found exception;
  - `BadRequest`;
  - `ServerError`: any other exception that escapes the handler.
- Bodies that carry a 403 or 404 `status` inside a 200 response are `Ok(Envelope(200, 403, …))` and `Ok(Envelope(200, 404, …))`. They stay distinct from a real not-found answer, as in the source.

## Model

| member | source | states |
|---|---|---|
| `Models.PkOrderUnique` | api/models.py:13-18 | a table in key order never holds two different rows with the same key |
| `Models.PkOrderAppend` | api/views.py:153-154 | appending a row whose key exceeds all present keys keeps the table in key order |
| `Queries.FindUser` | api/views.py:50 | finds a row exactly when a user with that key exists, and the row found has that key |
| `Queries.FindUserByName` | api/views.py:83 | finds a row exactly when some user has that username, and the row found has it |
| `Queries.FindPost` | api/views.py:104 | finds a row exactly when a post with that key exists, and the row found has that key |
| `Queries.PostsOwnedBy` | api/views.py:88 | a post is listed if and only if it is in the table and its owner is the given user; in a table with unique keys, no post is listed twice |
| `Queries.ExcludePost` | api/views.py:132 | after deleting by key, exactly the posts with other keys remain, still in key order |
| `Queries.ExcludeUser` | api/models.py:5-10 | after deleting by key, exactly the users with other keys remain, still in key order |
| `Queries.SetNullOwner` | api/models.py:33-35 | every post is kept in place; the owner of the deleted user's posts becomes null; no other column changes |
| `Queries.UpdatePost` | api/views.py:122 | the post with the key gets the supplied columns and keeps the others; every other post is unchanged |
| `Queries.FilterLikes` | api/views.py:150-151 | a like is returned if and only if it is in the table and matches every supplied column; the result stays in key order |
| `Queries.ExcludeLikes` | api/models.py:15-18 | after a delete, a like remains if and only if it was present and does not match; key order is kept |
| `Queries.FilterLikesAppend` | api/views.py:153-154 | after one like is inserted, a query returns its old answer plus the new like if the new like matches |
| `Queries.FilterAfterExclude` | api/views.py:170 | querying after a delete gives the old answer less the deleted likes |
| `Queries.FilterExcludeSizes` | api/views.py:167-170 | the likes a query matches plus the likes it leaves add up to the whole table |
| `Queries.ByIdFindsOne` | api/views.py:167-170 | in a key-ordered table, the query on the key of a present like returns exactly that like |
| `Queries.FirstMatchHasLowestKey` | api/views.py:150-151 | `.first()` returns the matching like with the lowest key |
| `Queries.NoMatchNoLikes` | api/views.py:150-152 | a query that matches no like returns nothing |
| `Queries.UserIdsExclude` | api/models.py:17-18 | after a user is deleted, the set of user keys is the old set without that key |
| `Queries.PostIdsExclude` | api/models.py:15-16 | after a post is deleted, the set of post keys is the old set without that key |
| `Queries.PostIdsPointwise` | api/models.py:33-35 | rewriting columns other than the key leaves the set of post keys unchanged |
| `LikeInvariant.FirstLikeOfPair` | api/views.py:150-157 | inserting the first like of a pair keeps at most one like per pair, and that like is then the pair's only one |
| `LikeInvariant.DeletingLikesKeepsOnePerPair` | api/models.py:15-18 | deleting any set of likes keeps at most one like per pair |
| `LikeInvariant.UnlikeClearsPair` | api/views.py:167-173 | under the rule, deleting the first like of a pair leaves that pair with no like |
| `LikeInvariant.SchemaAdmitsDuplicateLikes` | api/models.py:13-18 | a store whose User, Post and Like tables meet every schema constraint can hold two likes of one post by one user |
| `Analytics.WindowLikes` | api/views.py:203-205 | a like is in the window if and only if it is the caller's and its timestamp lies in [start, start + 86400], both ends included |
| `Analytics.MidnightLikeInTwoBuckets` | api/views.py:202-208 | a like stamped exactly at a midnight lies in the windows of the day before it and the day after it, so both counts are at least one |
| `Analytics.InteriorLikeInOneBucket` | api/views.py:202-208 | a like stamped strictly inside a day lies in that day's window and in no other |
| `Analytics.MidnightLikeCountedTwice` | api/views.py:203-204 | one like at 00:00 of day 1 gives counts that add up to two across the buckets of day 0 and day 1 |
| `Analytics.HalfOpenWindowLikes` | api/views.py:203-204 | corrected window: a like is in it if and only if it is the caller's and start <= timestamp < start + 86400 |
| `Analytics.RangeSplit` | api/views.py:203-204 | cutting a range of timestamps in two splits its likes exactly between the two parts |
| `Analytics.HalfOpenBucketsCountEachLikeOnce` | api/views.py:198-208 | with half-open windows, the counts of n consecutive days add up to the number of the caller's likes in those days |
| `Analytics.HalfOpenWindowsAreDisjoint` | api/views.py:198-208 | with half-open windows, each like lies in the window of exactly one day |
| `Api.OnlyOwnerChangesPost` | api/views.py:121-127 | an update that changes the Post table was made by the stored owner and answered 200; posts with other keys are untouched |
| `Api.UpdateKeepsSchema` | api/views.py:122 | an update with a title within 255 characters and an existing or null owner keeps the Post and Like tables well formed |
| `Api.OrphanedPostsAreFrozen` | api/models.py:33-35 | after the owner is deleted, no requester is the owner of any post that user owned, so none can update or delete it |
| `Api.Store.constructor` | api/models.py:5-39 | an empty store that meets the schema |
| `Api.Store.AddUser` | api/models.py:5-6 | inserts a user row with a fresh key unless the username is taken; in that case nothing changes |
| `Api.Store.CreatePost` | api/views.py:62-71 | a post owned by the caller is appended with a fresh key; a title over 255 characters fails and changes nothing |
| `Api.Store.GetPost` | api/views.py:98-101 | returns the post with the key when it exists and not-found otherwise |
| `Api.Store.ListPosts` | api/views.py:78-91 | no username gives bad-request; an unknown username gives not-found; otherwise the result is exactly the posts that user owns, each listed once |
| `Api.Store.UserActivity` | api/views.py:48-53 | returns the username and the two timestamps of the user with the key, or not-found when there is none |
| `Api.Store.PutPost` | api/views.py:103-114 | a missing post gets a 404 body and a non-owner gets a 403 body; the owner's request fails; it never answers "Post successfully updated" |
| `Api.Store.PutPostIntended` | api/views.py:103-114 | the full update as intended: the same outcome as the partial update |
| `Api.Store.PatchPost` | api/views.py:116-127 | a missing post gets a 404 body, a non-owner a 403 body, and both leave the table unchanged; the owner's update is applied and answered 200; an update the database rejects fails and changes nothing |
| `Api.Store.DeletePost` | api/views.py:129-137 | a missing post is not-found; a non-owner gets a 403 body and nothing changes; the owner's delete removes the post and its likes |
| `Api.Store.DeletePostRow` | api/models.py:15-16 | deleting a post removes it and every like of it; no other row changes |
| `Api.Store.DeleteUser` | api/models.py:13-35 | deleting a user removes the user and every like by that user; the user's posts remain with a null owner and their other columns unchanged |
| `Api.Store.LikePost` | api/views.py:146-161 | a missing post is not-found and changes nothing; otherwise, with no like for (caller, post), exactly one like is appended and the answer is 200 "Liked the post"; otherwise the store is unchanged and the answer is 208 "You have already liked the post"; the one-like-per-pair rule is kept |
| `Api.Store.UnlikePost` | api/views.py:163-177 | a missing post is not-found; with no like for the pair, the store is unchanged and the answer is 208 "You have already unliked the post"; otherwise the first like is deleted, the table shrinks by one and the answer is 200; under the rule the pair has no like afterwards |
| `Api.Store.LikeAnalytics` | api/views.py:187-212 | for days d0 to d1 there are exactly max(0, d1 - d0 + 1) buckets; bucket i starts at day d0 + i and counts the caller's likes in that day's closed window |

## Left out

- Sign-up (api/views.py:32-41). Its validation lives in a serializer that is not part of this model. `Api.Store.AddUser` models only the row that a sign-up inserts and the unique-username constraint.
- The middleware that stamps `last_request_time` (api/middleware.py). It is a framework hook driven by the wall clock. A user's `lastRequestTime` is set when the user is added and is never updated. `last_login` is set by the authentication flow, which is not modelled.
- Routing (api/urls.py), authentication and permission classes, serializers, and response rendering. The requester is an input. `LikePost` and `CreatePost` require the caller to be an existing user, as an authenticated request guarantees. Anonymous requests are not modelled.
- Timestamps the database fills in. A like's `date` is the `now` argument of `LikePost`. The creation and update times of a post are not modelled.
- Date parsing and calendar arithmetic in the analytics handler. Dates are day numbers of a clock with no time zones or leap seconds. A malformed date string, which crashes the handler, is not modelled. Bucket labels and the JSON encoding of the result are not modelled either: the result is the sequence of buckets in the order the handler inserts them.
- Concurrency. Two like requests that run at the same time can both find no like and both insert one. The model is sequential, so it does not capture this race.
- Update data. An update may set only the title, body and owner columns. Unknown field names and writes to the key or timestamp columns are not modelled (in the source, the former raise an error).
- Column constraints. The model assumes a database that enforces the declared title length and the foreign keys. On such a database, an over-long title or an unknown owner makes the write fail (`ServerError`) and nothing changes. SQLite does not enforce the length.
- `CreatePost`: a request missing the `title` or `body` key is not modelled. The source sends the `status` of this body as the string '200'; the model uses the number 200.
- Key allocation. New keys come from a per-table counter that is larger than every key present. Databases that reuse freed keys are not modelled.
- `Api.Store.ListPosts`: states which posts are listed and that each is listed once, not their order. The listing query has no `order_by`, so the source promises no order.
- `Queries.PostsOwnedBy`: states membership and that each post is listed once, not order, for the same reason.
- The defensive `user is None` branch of the listing handler (api/views.py:84-86) cannot be reached, because the lookup before it already answers not-found. The model has no such outcome.
- `Api.Store.PutPost`: the request fields are never read, because the handler fails before it uses them.

## Findings

| source | as written | input that shows it | evidently intended | confidence | as-written member | corrected member |
|---|---|---|---|---|---|---|
| api/views.py:108-111 | the owner branch of the full update calls `update` on a model instance, which has no such method | any PUT by the post's stored owner: the handler fails instead of updating | apply the supplied fields and answer "Post successfully updated", as the partial update does | high; not executed | `Api.Store.PutPost` | `Api.Store.PutPostIntended` |
| api/views.py:203-204 | each day's window [start, start + 1 day] is closed at both ends | one like of the caller at 00:00:00 of day 1, for days 0 to 1: both buckets count it | half-open windows [start, start + 1 day), so each like is counted once | medium; not executed | `Analytics.MidnightLikeCountedTwice` | `Analytics.HalfOpenBucketsCountEachLikeOnce` |

`Api.Store.LikeAnalytics` keeps the closed windows of the code as written. The corrected windows are stated and proved beside it, in `analytics.dfy`.
