/**
 * The day buckets of the analytics endpoint. A date is a day number and its
 * midnight is `day * Day` seconds. The handler steps one day at a time and,
 * for each step, counts the caller's likes whose timestamp lies in the
 * window from that midnight to the next one, both ends included.
 */
module Analytics {
  import opened Models
  import opened Queries

  /** Seconds in one day. */
  const Day: int := 86400

  /** 23:59:59, in seconds after midnight. */
  const LastSecond: int := 86399

  /** One entry of the result: the window's two ends and the number of likes in it. */
  datatype Bucket = Bucket(start: int, end: int, count: nat)

  /** The caller's likes with timestamp in [lo, hi], both ends included. */
  function RangeLikes(likes: seq<Like>, user: UserId, lo: int, hi: int): seq<Like>
  {
    FilterLikes(likes, LikeQuery(None, Some(user), None, Some((lo, hi))))
  }

  /** The caller's likes in the closed window [start, start + Day]. */
  function WindowLikes(likes: seq<Like>, user: UserId, start: int): (r: seq<Like>)
    ensures forall l :: l in r <==> l in likes && l.user == user && start <= l.date <= start + Day
  {
    RangeLikes(likes, user, start, start + Day)
  }

  /** The bucket the handler writes for day number `d`. */
  function DayBucket(likes: seq<Like>, user: UserId, d: int): Bucket
  {
    Bucket(d * Day, d * Day + Day, |WindowLikes(likes, user, d * Day)|)
  }

  /** A like stamped exactly at the midnight that ends day `d` lies in the windows of day `d` and day `d + 1`. */
  lemma MidnightLikeInTwoBuckets(likes: seq<Like>, user: UserId, l: Like, d: int)
    requires l in likes && l.user == user && l.date == (d + 1) * Day
    ensures l in WindowLikes(likes, user, d * Day) && l in WindowLikes(likes, user, (d + 1) * Day)
    ensures DayBucket(likes, user, d).count >= 1 && DayBucket(likes, user, d + 1).count >= 1
  {
  }

  /** A like stamped strictly inside day `d` lies in the window of day `d` and of no other day. */
  lemma InteriorLikeInOneBucket(likes: seq<Like>, user: UserId, l: Like, d: int)
    requires l in likes && l.user == user && d * Day < l.date < (d + 1) * Day
    ensures forall e :: l in WindowLikes(likes, user, e * Day) <==> e == d
  {
  }

  /** One like at the midnight between two days: the two buckets together report two likes. */
  lemma MidnightLikeCountedTwice()
    ensures var likes := [Like(0, 0, 0, Day)];
            DayBucket(likes, 0, 0).count + DayBucket(likes, 0, 1).count == 2 * |likes|
  {
    var likes := [Like(0, 0, 0, Day)];
    assert likes[0] in WindowLikes(likes, 0, 0);
    assert likes[0] in WindowLikes(likes, 0, Day);
  }

  // A corrected bucketing: each day's window is half-open, [start, start + Day).

  /** The caller's likes in the half-open window [start, start + Day). */
  function HalfOpenWindowLikes(likes: seq<Like>, user: UserId, start: int): (r: seq<Like>)
    ensures forall l :: l in r <==> l in likes && l.user == user && start <= l.date < start + Day
  {
    RangeLikes(likes, user, start, start + Day - 1)
  }

  /** The sum of the half-open bucket counts of the `n` days from day `d`. */
  function HalfOpenTotal(likes: seq<Like>, user: UserId, d: int, n: nat): nat
  {
    if n == 0 then 0
    else HalfOpenTotal(likes, user, d, n - 1) + |HalfOpenWindowLikes(likes, user, (d + n - 1) * Day)|
  }

  /** Cutting a range of timestamps in two splits its likes between the two parts. */
  lemma {:induction false} RangeSplit(likes: seq<Like>, user: UserId, a: int, b: int, c: int)
    requires a <= b <= c + 1
    ensures |RangeLikes(likes, user, a, b - 1)| + |RangeLikes(likes, user, b, c)| == |RangeLikes(likes, user, a, c)|
  {
    if likes != [] {
      RangeSplit(likes[1..], user, a, b, c);
    }
  }

  /**
   * With half-open windows, the buckets of `n` consecutive days count each of
   * the caller's likes in those days exactly once.
   */
  lemma {:induction false} HalfOpenBucketsCountEachLikeOnce(likes: seq<Like>, user: UserId, d: int, n: nat)
    ensures HalfOpenTotal(likes, user, d, n) == |RangeLikes(likes, user, d * Day, (d + n) * Day - 1)|
  {
    if n == 0 {
      NoMatchNoLikes(likes, LikeQuery(None, Some(user), None, Some((d * Day, d * Day - 1))));
    } else {
      HalfOpenBucketsCountEachLikeOnce(likes, user, d, n - 1);
      RangeSplit(likes, user, d * Day, (d + n - 1) * Day, (d + n) * Day - 1);
    }
  }

  /** With half-open windows, a like lies in the window of exactly one day. */
  lemma HalfOpenWindowsAreDisjoint(likes: seq<Like>, user: UserId, l: Like, d: int)
    requires l in likes && l.user == user && d * Day <= l.date < (d + 1) * Day
    ensures forall e :: l in HalfOpenWindowLikes(likes, user, e * Day) <==> e == d
  {
  }
}
