/** `ReviewService` (src/reviews/service.py): review lookup, posting a review, deleting one. */
module ReviewService {
  import opened Wrappers
  import opened Errors
  import opened Store
  import UserService
  import BlogService

  /** The body of a create request; the schema's `Field(gt=0, le=5)` bounds the rating. */
  datatype ReviewCreateRequest = ReviewCreateRequest(body: string, rating: int)

  /** What request validation lets through to the handler. */
  predicate ValidReviewRequest(request: ReviewCreateRequest)
  {
    0 < request.rating <= 5
  }

  /** The message of the refusal to delete. */
  const CANNOT_DELETE := HttpException(HTTP_403_FORBIDDEN, "Cannot delete this review")

  /** `get_review_by_uid`: the review with that uid, if any. */
  function GetReviewByUid(reviews: seq<Review>, reviewUid: Uid): (review: Option<Review>)
    ensures review.Some? ==> review.value in reviews && review.value.uid == reviewUid
    ensures review.None? <==> forall v :: v in reviews ==> v.uid != reviewUid
  {
    match FirstIndex(reviews, (v: Review) => v.uid == reviewUid)
    case Some(i) => Some(reviews[i])
    case None => None
  }

  /** Appending a valid review by a known user on a known blog, under the fresh uid, keeps the store consistent. */
  lemma AddReviewKeepsConsistent(users: seq<User>, blogs: seq<Blog>, tags: seq<Tag>, reviews: seq<Review>, nextUid: nat, v: Review)
    requires Consistent(users, blogs, tags, reviews, nextUid)
    requires v.uid == nextUid && 1 <= v.rating <= 5
    requires v.authorUid in UserUids(users) && v.blogUid in BlogUids(blogs)
    ensures Consistent(users, blogs, tags, reviews + [v], nextUid + 1)
  {
    var reviews' := reviews + [v];
    assert forall k :: 0 <= k < |reviews| ==> reviews'[k] == reviews[k];
  }

  /** A review appended under a uid no earlier review carries is the one its uid finds. */
  lemma AppendedReviewFound(reviews: seq<Review>, v: Review)
    requires forall k :: 0 <= k < |reviews| ==> reviews[k].uid != v.uid
    ensures GetReviewByUid(reviews + [v], v.uid) == Some(v)
  {
    var reviews' := reviews + [v];
    assert reviews'[|reviews|] == v;
    assert forall w :: w in reviews' && w.uid == v.uid ==> w == v;
  }

  /**
   * `add_review_to_blog`: the current user is looked up again by username (a missing
   * current user has no username), an unknown user raises `UserNotFound` before an
   * unknown slug raises `BlogNotFound`; otherwise one review by that user on that blog
   * is added.
   */
  method AddReviewToBlog(db: Db, reviewRequest: ReviewCreateRequest, blogSlug: string, user: Option<User>)
    returns (r: Result<Review, Error>)
    requires db.Valid() && ValidReviewRequest(reviewRequest)
    modifies db
    ensures db.Valid()
    ensures user.None? ==> r == Failure(AttributeError) && unchanged(db)
    ensures user.Some? && UserService.GetUserByUsername(old(db.users), user.value.username).None? ==>
      r == Failure(UserNotFound) && unchanged(db)
    ensures user.Some? && UserService.GetUserByUsername(old(db.users), user.value.username).Some?
            && BlogService.GetBlogBySlug(old(db.blogs), blogSlug).None? ==>
      r == Failure(BlogNotFound) && unchanged(db)
    ensures r.Success? ==>
      && user.Some?
      && UserService.GetUserByUsername(old(db.users), user.value.username).Some?
      && BlogService.GetBlogBySlug(old(db.blogs), blogSlug).Some?
      && r.value == Review(old(db.nextUid), reviewRequest.body, reviewRequest.rating,
                           UserService.GetUserByUsername(old(db.users), user.value.username).value.uid,
                           BlogService.GetBlogBySlug(old(db.blogs), blogSlug).value.uid)
      && db.reviews == old(db.reviews) + [r.value]
      && db.nextUid == old(db.nextUid) + 1
      && db.users == old(db.users) && db.blogs == old(db.blogs) && db.tags == old(db.tags)
    ensures r.Failure? ==> unchanged(db)
    ensures r.Success? ==> GetReviewByUid(db.reviews, r.value.uid) == Some(r.value)
  {
    if user.None? {
      return Failure(AttributeError);
    }
    var username := user.value.username;
    var blog := BlogService.GetBlogBySlug(db.blogs, blogSlug);
    var author := UserService.GetUserByUsername(db.users, username);
    if author.None? {
      return Failure(UserNotFound);
    }
    if blog.None? {
      return Failure(BlogNotFound);
    }
    var newReview := Review(db.nextUid, reviewRequest.body, reviewRequest.rating, author.value.uid, blog.value.uid);
    assert author.value in db.users && blog.value in db.blogs;
    AddReviewKeepsConsistent(db.users, db.blogs, db.tags, db.reviews, db.nextUid, newReview);
    AppendedReviewFound(db.reviews, newReview);
    db.reviews := db.reviews + [newReview];
    db.nextUid := db.nextUid + 1;
    r := Success(newReview);
  }

  /**
   * Whether `delete_review` lets `user` delete the review: it exists and its author is
   * that user (the ORM compares the loaded author row with the current user's row).
   */
  function MayDelete(reviews: seq<Review>, reviewUid: Uid, user: Option<User>): (allowed: bool)
    ensures allowed ==> user.Some? && exists v :: v in reviews && v.uid == reviewUid && v.authorUid == user.value.uid
    ensures GetReviewByUid(reviews, reviewUid).None? || user.None? ==> !allowed
  {
    match GetReviewByUid(reviews, reviewUid)
    case None => false
    case Some(review) => user.Some? && review.authorUid == user.value.uid
  }

  /** With unique review uids, only the author of the review may delete it. */
  lemma OnlyAuthorMayDelete(reviews: seq<Review>, reviewUid: Uid, user: Option<User>, review: Review)
    requires ReviewsValid(reviews)
    requires review in reviews && review.uid == reviewUid
    ensures MayDelete(reviews, reviewUid, user) <==> user.Some? && user.value.uid == review.authorUid
  {
    var found := GetReviewByUid(reviews, reviewUid).value;
    var i :| 0 <= i < |reviews| && reviews[i] == review;
    var j :| 0 <= j < |reviews| && reviews[j] == found;
    assert i == j;
  }

  /** Removing one review keeps the store consistent: nothing refers to a review. */
  lemma RemoveReviewKeepsConsistent(users: seq<User>, blogs: seq<Blog>, tags: seq<Tag>, reviews: seq<Review>, nextUid: nat, i: nat)
    requires Consistent(users, blogs, tags, reviews, nextUid)
    requires i < |reviews|
    ensures Consistent(users, blogs, tags, RemoveAt(reviews, i), nextUid)
  {
    var reviews' := RemoveAt(reviews, i);
    assert forall k :: 0 <= k < |reviews'| ==> reviews'[k] == reviews[if k < i then k else k + 1];
  }

  /** With unique review uids, removing the row at `i` removes exactly the review with its uid. */
  lemma RemoveReviewByUid(reviews: seq<Review>, i: nat)
    requires ReviewsValid(reviews) && i < |reviews|
    ensures forall v :: v in RemoveAt(reviews, i) <==> v in reviews && v.uid != reviews[i].uid
  {
    var reviews' := RemoveAt(reviews, i);
    forall v
      ensures v in reviews' <==> v in reviews && v.uid != reviews[i].uid
    {
      if v in reviews && v.uid != reviews[i].uid {
        var k :| 0 <= k < |reviews| && reviews[k] == v;
        assert reviews'[if k < i then k else k - 1] == v;
      }
    }
  }

  /**
   * `delete_review`: a missing review and a review by someone else are refused alike
   * with 403; otherwise exactly that review is removed.
   */
  method DeleteReview(db: Db, reviewUid: Uid, user: Option<User>) returns (r: Result<(), Error>)
    requires db.Valid()
    modifies db
    ensures db.Valid()
    ensures !MayDelete(old(db.reviews), reviewUid, user) ==> r == Failure(CANNOT_DELETE) && unchanged(db)
    ensures MayDelete(old(db.reviews), reviewUid, user) ==>
      && r == Success(())
      && |db.reviews| == |old(db.reviews)| - 1
      && (forall v :: v in db.reviews <==> v in old(db.reviews) && v.uid != reviewUid)
      && db.nextUid == old(db.nextUid)
      && db.users == old(db.users) && db.blogs == old(db.blogs) && db.tags == old(db.tags)
    ensures r.Success? ==> GetReviewByUid(db.reviews, reviewUid).None?
  {
    var i := FirstIndex(db.reviews, (v: Review) => v.uid == reviewUid);
    if i.None? || user.None? || db.reviews[i.value].authorUid != user.value.uid {
      return Failure(CANNOT_DELETE);
    }
    RemoveReviewKeepsConsistent(db.users, db.blogs, db.tags, db.reviews, db.nextUid, i.value);
    RemoveReviewByUid(db.reviews, i.value);
    var reviews := RemoveAt(db.reviews, i.value);
    db.reviews := reviews;
    r := Success(());
  }
}
