/**
 * The relational store (the tables declared in the models.py files) as an in-memory session.
 *
 * Each table is a sequence of rows in scan order, so `.first()` is the first matching
 * row. Primary keys are `uid`s; `uuid.uuid4` is modelled by a counter that hands out a
 * key no row has. The unique and check constraints of the tables are the invariant
 * `Consistent`; an insert or update that would break one is refused at commit.
 */
module Store {
  import opened Wrappers
  import opened AuthUtils

  type Uid = nat

  /** A calendar date, the `Date` column `publish_date`. */
  datatype Date = Date(year: int, month: int, day: int)

  /** A row of `users` (src/auth/models.py); the timestamps are not modelled. */
  datatype User = User(
    uid: Uid,
    username: string,
    email: string,
    firstName: string,
    lastName: string,
    hashedPassword: PasswordHash,
    isActive: bool,
    role: string)

  /** A row of `blogs` (src/blog/models.py) with the uids of its tags in attachment order. */
  datatype Blog = Blog(
    uid: Uid,
    title: string,
    description: string,
    slug: string,
    publishDate: Date,
    authorUid: Uid,
    tags: seq<Uid>)

  /** A row of `tags` (src/tags/models.py). */
  datatype Tag = Tag(uid: Uid, title: string)

  /** A row of `reviews` (src/reviews/models.py). */
  datatype Review = Review(uid: Uid, body: string, rating: int, authorUid: Uid, blogUid: Uid)

  /** The position of the first row satisfying `p`: the row a `select ... .first()` returns. */
  function FirstIndex<T>(rows: seq<T>, p: T -> bool): (r: Option<nat>)
    ensures r.Some? ==> r.value < |rows| && p(rows[r.value])
    ensures r.Some? ==> forall j :: 0 <= j < r.value ==> !p(rows[j])
    ensures r.None? ==> forall j :: 0 <= j < |rows| ==> !p(rows[j])
  {
    if rows == [] then None
    else if p(rows[0]) then Some(0)
    else match FirstIndex(rows[1..], p)
      case None => None
      case Some(i) => Some(i + 1)
  }

  /**
   * The table after a loaded row was changed in place and committed: the row whose key
   * (its primary key) is that of `x` now reads `x`, every other row is as it was.
   */
  function Replace<T>(rows: seq<T>, key: T -> Uid, x: T): (r: seq<T>)
    ensures |r| == |rows|
    ensures forall i :: 0 <= i < |rows| ==> r[i] == (if key(rows[i]) == key(x) then x else rows[i])
  {
    seq(|rows|, i requires 0 <= i < |rows| => if key(rows[i]) == key(x) then x else rows[i])
  }

  /** The rows of `xs` occur in `ys` in the same order: `xs` is `ys` with some rows left out. */
  predicate Subsequence<T(==)>(xs: seq<T>, ys: seq<T>)
    decreases |ys|
  {
    if xs == [] then true
    else if ys == [] then false
    else (xs[0] == ys[0] && Subsequence(xs[1..], ys[1..])) || Subsequence(xs, ys[1..])
  }

  /** The table without its row at position `i`: what deleting that row leaves. */
  function RemoveAt<T>(rows: seq<T>, i: nat): (r: seq<T>)
    requires i < |rows|
    ensures |r| == |rows| - 1
    ensures forall k :: 0 <= k < |r| ==> r[k] == rows[if k < i then k else k + 1]
  {
    rows[..i] + rows[i + 1..]
  }

  /** `username` and `email` are unique columns; `uid` is the primary key. */
  ghost predicate UsersUnique(users: seq<User>)
  {
    forall i, j :: 0 <= i < j < |users| ==>
      users[i].uid != users[j].uid && users[i].username != users[j].username && users[i].email != users[j].email
  }

  /** `slug` is a unique column; `uid` is the primary key. */
  ghost predicate BlogsUnique(blogs: seq<Blog>)
  {
    forall i, j :: 0 <= i < j < |blogs| ==> blogs[i].uid != blogs[j].uid && blogs[i].slug != blogs[j].slug
  }

  /** `title` is a unique column; `uid` is the primary key. */
  ghost predicate TagsUnique(tags: seq<Tag>)
  {
    forall i, j :: 0 <= i < j < |tags| ==> tags[i].uid != tags[j].uid && tags[i].title != tags[j].title
  }

  /** `uid` is the primary key and the rating lies in 1..5 (the two check constraints). */
  ghost predicate ReviewsValid(reviews: seq<Review>)
  {
    && (forall i, j :: 0 <= i < j < |reviews| ==> reviews[i].uid != reviews[j].uid)
    && (forall i :: 0 <= i < |reviews| ==> 1 <= reviews[i].rating <= 5)
  }

  /** The uids of the rows of `tags`. */
  function TagUids(tags: seq<Tag>): set<Uid>
  {
    set t | t in tags :: t.uid
  }

  /** Two tag tables whose rows carry the same uids, position by position, have the same uid set. */
  lemma SameTagUids(a: seq<Tag>, b: seq<Tag>)
    requires |a| == |b|
    requires forall i :: 0 <= i < |a| ==> a[i].uid == b[i].uid
    ensures TagUids(a) == TagUids(b)
  {
    forall u | u in TagUids(a) ensures u in TagUids(b) {
      var x :| x in a && x.uid == u;
      var i :| 0 <= i < |a| && a[i] == x;
      assert b[i] in b;
    }
    forall u | u in TagUids(b) ensures u in TagUids(a) {
      var x :| x in b && x.uid == u;
      var i :| 0 <= i < |b| && b[i] == x;
      assert a[i] in a;
    }
  }

  /** Every tag attached to a blog is a row of `tags` (the foreign key of `blog_tags`). */
  ghost predicate TagsAttached(blogs: seq<Blog>, tags: seq<Tag>)
  {
    forall i, k :: 0 <= i < |blogs| && 0 <= k < |blogs[i].tags| ==> blogs[i].tags[k] in TagUids(tags)
  }

  /** The uids of the rows of `blogs`. */
  function BlogUids(blogs: seq<Blog>): set<Uid>
  {
    set b | b in blogs :: b.uid
  }

  /** Two tables whose rows carry the same uids, position by position, have the same uid set. */
  lemma SameBlogUids(a: seq<Blog>, b: seq<Blog>)
    requires |a| == |b|
    requires forall i :: 0 <= i < |a| ==> a[i].uid == b[i].uid
    ensures BlogUids(a) == BlogUids(b)
  {
    forall u | u in BlogUids(a) ensures u in BlogUids(b) {
      var x :| x in a && x.uid == u;
      var i :| 0 <= i < |a| && a[i] == x;
      assert b[i] in b;
    }
    forall u | u in BlogUids(b) ensures u in BlogUids(a) {
      var x :| x in b && x.uid == u;
      var i :| 0 <= i < |b| && b[i] == x;
      assert a[i] in a;
    }
  }

  /** Every review belongs to a row of `blogs` (the non-null foreign key `reviews.blog_uid`). */
  ghost predicate ReviewsAttached(reviews: seq<Review>, blogs: seq<Blog>)
  {
    forall i :: 0 <= i < |reviews| ==> reviews[i].blogUid in BlogUids(blogs)
  }

  /** The uids of the rows of `users`. */
  function UserUids(users: seq<User>): set<Uid>
  {
    set u | u in users :: u.uid
  }

  /** Two user tables whose rows carry the same uids, position by position, have the same uid set. */
  lemma SameUserUids(a: seq<User>, b: seq<User>)
    requires |a| == |b|
    requires forall i :: 0 <= i < |a| ==> a[i].uid == b[i].uid
    ensures UserUids(a) == UserUids(b)
  {
    forall u | u in UserUids(a) ensures u in UserUids(b) {
      var x :| x in a && x.uid == u;
      var i :| 0 <= i < |a| && a[i] == x;
      assert b[i] in b;
    }
    forall u | u in UserUids(b) ensures u in UserUids(a) {
      var x :| x in b && x.uid == u;
      var i :| 0 <= i < |b| && b[i] == x;
      assert a[i] in a;
    }
  }

  /** Every blog has an author among `users` (the non-null foreign key `blogs.author_uid`). */
  ghost predicate BlogsAuthored(blogs: seq<Blog>, users: seq<User>)
  {
    forall i :: 0 <= i < |blogs| ==> blogs[i].authorUid in UserUids(users)
  }

  /** Every review has an author among `users` (the non-null foreign key `reviews.author_uid`). */
  ghost predicate ReviewsAuthored(reviews: seq<Review>, users: seq<User>)
  {
    forall i :: 0 <= i < |reviews| ==> reviews[i].authorUid in UserUids(users)
  }

  /** No tag uid handed out so far reaches `nextUid`. */
  ghost predicate TagUidsBelow(tags: seq<Tag>, nextUid: nat)
  {
    forall i :: 0 <= i < |tags| ==> tags[i].uid < nextUid
  }

  /** No uid handed out so far reaches `nextUid`, so `nextUid` is fresh for every table. */
  ghost predicate UidsBelow(users: seq<User>, blogs: seq<Blog>, tags: seq<Tag>, reviews: seq<Review>, nextUid: nat)
  {
    && (forall i :: 0 <= i < |users| ==> users[i].uid < nextUid)
    && (forall i :: 0 <= i < |blogs| ==> blogs[i].uid < nextUid)
    && TagUidsBelow(tags, nextUid)
    && (forall i :: 0 <= i < |reviews| ==> reviews[i].uid < nextUid)
  }

  ghost predicate Consistent(users: seq<User>, blogs: seq<Blog>, tags: seq<Tag>, reviews: seq<Review>, nextUid: nat)
  {
    && UsersUnique(users)
    && BlogsUnique(blogs)
    && TagsUnique(tags)
    && ReviewsValid(reviews)
    && TagsAttached(blogs, tags)
    && ReviewsAttached(reviews, blogs)
    && BlogsAuthored(blogs, users)
    && ReviewsAuthored(reviews, users)
    && UidsBelow(users, blogs, tags, reviews, nextUid)
  }

  /** The database as one session sees it: four tables and the uid generator. */
  class Db {
    var users: seq<User>
    var blogs: seq<Blog>
    var tags: seq<Tag>
    var reviews: seq<Review>
    var nextUid: nat

    ghost predicate Valid()
      reads this
    {
      Consistent(users, blogs, tags, reviews, nextUid)
    }

    constructor ()
      ensures Valid()
      ensures users == [] && blogs == [] && tags == [] && reviews == []
    {
      users, blogs, tags, reviews := [], [], [], [];
      nextUid := 0;
    }
  }
}
