/** `BlogService` (src/blog/service.py): slug lookup, per-author listing, create, update, delete. */
module BlogService {
  import opened Wrappers
  import opened Errors
  import opened Store

  /** The body of a create request; `publishDate` is still text. */
  datatype BlogCreateRequest = BlogCreateRequest(title: string, description: string, slug: string, publishDate: string)

  /** The body of an update request: only the title and the description. */
  datatype BlogUpdateRequest = BlogUpdateRequest(title: string, description: string)

  // ---------------------------------------------------------------------------------
  // Dates in the `YYYY-MM-DD` form that `datetime.strptime(..., '%Y-%m-%d')` reads.

  predicate IsDigit(c: char)
  {
    '0' <= c <= '9'
  }

  predicate AllDigits(s: string)
  {
    forall i :: 0 <= i < |s| ==> IsDigit(s[i])
  }

  function Pow10(width: nat): nat
  {
    if width == 0 then 1 else 10 * Pow10(width - 1)
  }

  function DigitChar(n: nat): char
    requires n < 10
  {
    ('0' as int + n) as char
  }

  /** The number a string of decimal digits spells. */
  function Number(s: string): nat
    requires AllDigits(s)
  {
    if s == [] then 0 else Number(s[..|s| - 1]) * 10 + (s[|s| - 1] as int - '0' as int)
  }

  /** `n` written with exactly `width` digits, zero-padded on the left. */
  function Digits(n: nat, width: nat): (s: string)
    ensures |s| == width && AllDigits(s)
  {
    if width == 0 then [] else Digits(n / 10, width - 1) + [DigitChar(n % 10)]
  }

  lemma {:induction false} NumberOfDigits(n: nat, width: nat)
    requires n < Pow10(width)
    ensures Number(Digits(n, width)) == n
  {
    if width > 0 {
      var s := Digits(n, width);
      assert s[..|s| - 1] == Digits(n / 10, width - 1);
      NumberOfDigits(n / 10, width - 1);
    }
  }

  lemma {:induction false} DigitsOfNumber(s: string)
    requires AllDigits(s)
    ensures Number(s) < Pow10(|s|)
    ensures Digits(Number(s), |s|) == s
  {
    if s != [] {
      var init := s[..|s| - 1];
      assert AllDigits(init);
      DigitsOfNumber(init);
      assert s == init + [s[|s| - 1]];
    }
  }

  function DaysInMonth(year: int, month: int): int
  {
    if month == 2 then (if year % 4 == 0 && (year % 100 != 0 || year % 400 == 0) then 29 else 28)
    else if month == 4 || month == 6 || month == 9 || month == 11 then 30
    else 31
  }

  /** A date Python's `date` can hold: years 1..9999 and a day that exists in its month. */
  predicate ValidDate(d: Date)
  {
    1 <= d.year <= 9999 && 1 <= d.month <= 12 && 1 <= d.day <= DaysInMonth(d.year, d.month)
  }

  /** The canonical text of a date. */
  function FormatDate(d: Date): (text: string)
    requires ValidDate(d)
    ensures |text| == 10
  {
    Digits(d.year, 4) + "-" + Digits(d.month, 2) + "-" + Digits(d.day, 2)
  }

  /** Text of the `YYYY-MM-DD` shape, before the date is checked to exist. */
  predicate DateShaped(text: string)
  {
    && |text| == 10 && text[4] == '-' && text[7] == '-'
    && AllDigits(text[..4]) && AllDigits(text[5..7]) && AllDigits(text[8..])
  }

  /** The fields a date-shaped text spells, in order. */
  function Fields(text: string): Date
    requires DateShaped(text)
  {
    Date(Number(text[..4]), Number(text[5..7]), Number(text[8..]))
  }

  lemma ShapedTextIsCanonical(text: string)
    requires DateShaped(text) && ValidDate(Fields(text))
    ensures FormatDate(Fields(text)) == text
  {
    DigitsOfNumber(text[..4]);
    DigitsOfNumber(text[5..7]);
    DigitsOfNumber(text[8..]);
    assert text == text[..4] + "-" + text[5..7] + "-" + text[8..];
  }

  /**
   * The `publish_date` parse: four year digits, a dash, two month digits, a dash, two day
   * digits, naming a date that exists. What it accepts is exactly the canonical text of
   * the date it returns.
   */
  function ParseDate(text: string): (date: Option<Date>)
    ensures date.Some? ==> ValidDate(date.value) && FormatDate(date.value) == text
  {
    if DateShaped(text) && ValidDate(Fields(text)) then
      ShapedTextIsCanonical(text);
      Some(Fields(text))
    else None
  }

  /** Every valid date is read back from its canonical text. */
  lemma FormatThenParse(d: Date)
    requires ValidDate(d)
    ensures ParseDate(FormatDate(d)) == Some(d)
  {
    var text := FormatDate(d);
    assert text[4] == '-' && text[7] == '-';
    assert text[..4] == Digits(d.year, 4);
    assert text[5..7] == Digits(d.month, 2);
    assert text[8..] == Digits(d.day, 2);
    NumberOfDigits(d.year, 4);
    NumberOfDigits(d.month, 2);
    NumberOfDigits(d.day, 2);
  }

  // ---------------------------------------------------------------------------------
  // Queries.

  /** `get_blog_by_slug`: the first blog with that slug, if any. */
  function GetBlogBySlug(blogs: seq<Blog>, slug: string): (blog: Option<Blog>)
    ensures blog.Some? ==> blog.value in blogs && blog.value.slug == slug
    ensures blog.None? <==> forall b :: b in blogs ==> b.slug != slug
  {
    match FirstIndex(blogs, (b: Blog) => b.slug == slug)
    case Some(i) => Some(blogs[i])
    case None => None
  }

  /** `get_user_blogs`: the blogs whose author is the user, in table order. */
  function GetUserBlogs(blogs: seq<Blog>, user: User): (r: seq<Blog>)
    ensures forall b :: b in r <==> b in blogs && b.authorUid == user.uid
    ensures |r| <= |blogs|
    ensures Subsequence(r, blogs)
    ensures forall b :: multiset(r)[b] == if b.authorUid == user.uid then multiset(blogs)[b] else 0
  {
    if blogs == [] then []
    else
      var rest := GetUserBlogs(blogs[1..], user);
      assert blogs == [blogs[0]] + blogs[1..];
      if blogs[0].authorUid == user.uid then
        var r := [blogs[0]] + rest;
        assert r[1..] == rest;
        r
      else rest
  }

  // ---------------------------------------------------------------------------------
  // Commands.

  /**
   * Appending a blog without tags, by a known author, under a fresh uid and a slug no
   * blog has, keeps the store consistent, and the blog is then found by its slug.
   */
  lemma AddBlogKeepsConsistent(users: seq<User>, blogs: seq<Blog>, tags: seq<Tag>, reviews: seq<Review>, nextUid: nat, b: Blog)
    requires Consistent(users, blogs, tags, reviews, nextUid)
    requires b.uid == nextUid && b.tags == [] && b.authorUid in UserUids(users)
    requires GetBlogBySlug(blogs, b.slug).None?
    ensures Consistent(users, blogs + [b], tags, reviews, nextUid + 1)
    ensures GetBlogBySlug(blogs + [b], b.slug) == Some(b)
  {
    var blogs' := blogs + [b];
    assert forall k :: 0 <= k < |blogs| ==> blogs'[k] == blogs[k];
    assert blogs'[|blogs|] == b;
    assert BlogUids(blogs) <= BlogUids(blogs') by {
      forall u | u in BlogUids(blogs) ensures u in BlogUids(blogs') {
        var x :| x in blogs && x.uid == u;
        assert x in blogs';
      }
    }
  }

  /**
   * `create_blog`: a taken slug raises `BlogAlreadyExists` before the date is read; a
   * date that does not parse fails next; an author uid that names no user is refused by
   * the foreign key at commit; otherwise one blog by `userUid`, without tags, is added.
   */
  method CreateBlog(db: Db, blogRequest: BlogCreateRequest, userUid: Uid) returns (r: Result<Blog, Error>)
    requires db.Valid()
    modifies db
    ensures db.Valid()
    ensures GetBlogBySlug(old(db.blogs), blogRequest.slug).Some? ==> r == Failure(BlogAlreadyExists) && unchanged(db)
    ensures GetBlogBySlug(old(db.blogs), blogRequest.slug).None? && ParseDate(blogRequest.publishDate).None? ==>
              r == Failure(ValueError) && unchanged(db)
    ensures GetBlogBySlug(old(db.blogs), blogRequest.slug).None? && ParseDate(blogRequest.publishDate).Some? &&
            userUid !in UserUids(old(db.users)) ==>
              r == Failure(IntegrityError) && unchanged(db)
    ensures r.Success? <==>
              && GetBlogBySlug(old(db.blogs), blogRequest.slug).None?
              && ParseDate(blogRequest.publishDate).Some?
              && userUid in UserUids(old(db.users))
    ensures r.Success? ==>
      && r.value == Blog(old(db.nextUid), blogRequest.title, blogRequest.description, blogRequest.slug,
                         ParseDate(blogRequest.publishDate).value, userUid, [])
      && db.blogs == old(db.blogs) + [r.value]
      && db.nextUid == old(db.nextUid) + 1
      && db.users == old(db.users) && db.tags == old(db.tags) && db.reviews == old(db.reviews)
    ensures r.Success? ==> GetBlogBySlug(db.blogs, blogRequest.slug) == Some(r.value)
  {
    var blog := GetBlogBySlug(db.blogs, blogRequest.slug);
    if blog.Some? {
      return Failure(BlogAlreadyExists);
    }
    var publishDate := ParseDate(blogRequest.publishDate);
    if publishDate.None? {
      return Failure(ValueError);
    }
    if userUid !in UserUids(db.users) {
      // the foreign key `blogs.author_uid` refuses the row at commit; the session rolls back
      return Failure(IntegrityError);
    }
    var newBlog := Blog(db.nextUid, blogRequest.title, blogRequest.description, blogRequest.slug,
                        publishDate.value, userUid, []);
    AddBlogKeepsConsistent(db.users, db.blogs, db.tags, db.reviews, db.nextUid, newBlog);
    db.blogs := db.blogs + [newBlog];
    db.nextUid := db.nextUid + 1;
    r := Success(newBlog);
  }

  /** The two columns an update request dumps. */
  datatype BlogField = Title(title: string) | Description(description: string)

  /** `blog_update_request.model_dump().items()`. */
  function ModelDump(request: BlogUpdateRequest): seq<BlogField>
  {
    [Title(request.title), Description(request.description)]
  }

  function SetBlogAttr(b: Blog, f: BlogField): Blog
  {
    match f
    case Title(x) => b.(title := x)
    case Description(x) => b.(description := x)
  }

  /** The items applied in order. */
  function SetBlogAll(b: Blog, items: seq<BlogField>): Blog
  {
    if items == [] then b else SetBlogAttr(SetBlogAll(b, items[..|items| - 1]), items[|items| - 1])
  }

  /** The table with the row of `b.uid` replaced by `b`. */
  function ReplaceBlog(blogs: seq<Blog>, b: Blog): (r: seq<Blog>)
    ensures |r| == |blogs|
    ensures BlogUids(r) == BlogUids(blogs)
  {
    var r := Replace(blogs, (row: Blog) => row.uid, b);
    SameBlogUids(r, blogs);
    r
  }

  /** Overwriting the title and the description of a stored blog keeps the store consistent. */
  lemma UpdateBlogKeepsConsistent(users: seq<User>, blogs: seq<Blog>, tags: seq<Tag>, reviews: seq<Review>, nextUid: nat,
                                  blog: Blog, title: string, description: string)
    requires Consistent(users, blogs, tags, reviews, nextUid)
    requires blog in blogs
    ensures Consistent(users, ReplaceBlog(blogs, blog.(title := title, description := description)), tags, reviews, nextUid)
  {
    var blogs' := ReplaceBlog(blogs, blog.(title := title, description := description));
    assert forall i :: 0 <= i < |blogs'| ==>
      blogs'[i].uid == blogs[i].uid && blogs'[i].slug == blogs[i].slug && blogs'[i].tags == blogs[i].tags
      && blogs'[i].authorUid == blogs[i].authorUid;
  }

  /** With unique uids and slugs, a stored blog rewritten under its uid and slug is found by that slug. */
  lemma ReplacedBlogFound(blogs: seq<Blog>, blog: Blog, updated: Blog)
    requires BlogsUnique(blogs) && blog in blogs
    requires updated.uid == blog.uid && updated.slug == blog.slug
    ensures GetBlogBySlug(ReplaceBlog(blogs, updated), blog.slug) == Some(updated)
  {
    var blogs' := ReplaceBlog(blogs, updated);
    var j :| 0 <= j < |blogs| && blogs[j] == blog;
    assert blogs'[j] == updated;
    forall k | 0 <= k < |blogs'| && blogs'[k].slug == blog.slug
      ensures k == j
    {
      assert blogs'[k].slug == blogs[k].slug;
    }
  }

  /**
   * `update_blog`: an unknown slug raises `BlogNotFound`; otherwise the loop over the
   * dumped request overwrites the title and the description, and only those.
   */
  method UpdateBlog(db: Db, slug: string, blogUpdateRequest: BlogUpdateRequest) returns (r: Result<Blog, Error>)
    requires db.Valid()
    modifies db
    ensures db.Valid()
    ensures GetBlogBySlug(old(db.blogs), slug).None? ==> r == Failure(BlogNotFound) && unchanged(db)
    ensures GetBlogBySlug(old(db.blogs), slug).Some? ==>
      var updated := GetBlogBySlug(old(db.blogs), slug).value.(title := blogUpdateRequest.title,
                                                              description := blogUpdateRequest.description);
      && r == Success(updated)
      && db.blogs == ReplaceBlog(old(db.blogs), updated)
      && db.nextUid == old(db.nextUid)
      && db.users == old(db.users) && db.tags == old(db.tags) && db.reviews == old(db.reviews)
    ensures r.Success? ==> GetBlogBySlug(db.blogs, slug) == Some(r.value)
  {
    var found := GetBlogBySlug(db.blogs, slug);
    if found.None? {
      return Failure(BlogNotFound);
    }
    var blog := found.value;
    var items := ModelDump(blogUpdateRequest);
    for i := 0 to |items|
      invariant blog == SetBlogAll(found.value, items[..i])
    {
      assert items[..i + 1][..i] == items[..i];
      blog := SetBlogAttr(blog, items[i]);
    }
    assert items[..2] == items;
    assert items[..1] == [items[0]] && items[..1][..0] == [];
    UpdateBlogKeepsConsistent(db.users, db.blogs, db.tags, db.reviews, db.nextUid, found.value, blog.title, blog.description);
    ReplacedBlogFound(db.blogs, found.value, blog);
    db.blogs := ReplaceBlog(db.blogs, blog);
    r := Success(blog);
  }

  /** Whether some review belongs to the blog with that uid. */
  function HasReviews(reviews: seq<Review>, blogUid: Uid): (has: bool)
    ensures has <==> exists i :: 0 <= i < |reviews| && reviews[i].blogUid == blogUid
  {
    FirstIndex(reviews, (v: Review) => v.blogUid == blogUid).Some?
  }

  /** Removing a blog that no review belongs to keeps every table invariant. */
  lemma RemoveBlogKeepsConsistent(users: seq<User>, blogs: seq<Blog>, tags: seq<Tag>, reviews: seq<Review>, nextUid: nat, i: nat)
    requires Consistent(users, blogs, tags, reviews, nextUid)
    requires i < |blogs| && !HasReviews(reviews, blogs[i].uid)
    ensures Consistent(users, RemoveAt(blogs, i), tags, reviews, nextUid)
  {
    var blogs' := RemoveAt(blogs, i);
    forall v | 0 <= v < |reviews|
      ensures reviews[v].blogUid in BlogUids(blogs')
    {
      var u := reviews[v].blogUid;
      var x :| x in blogs && x.uid == u;
      var k :| 0 <= k < |blogs| && blogs[k] == x;
      assert k != i;
      assert blogs'[if k < i then k else k - 1] == x;
    }
    assert TagsAttached(blogs', tags) by {
      forall b, k | 0 <= b < |blogs'| && 0 <= k < |blogs'[b].tags|
        ensures blogs'[b].tags[k] in TagUids(tags)
      {
        assert blogs'[b] == blogs[if b < i then b else b + 1];
      }
    }
  }

  /** With unique slugs, removing the row at `i` removes exactly the blog with its slug. */
  lemma RemoveBlogBySlug(blogs: seq<Blog>, i: nat)
    requires BlogsUnique(blogs) && i < |blogs|
    ensures forall b :: b in RemoveAt(blogs, i) <==> b in blogs && b.slug != blogs[i].slug
  {
    var blogs' := RemoveAt(blogs, i);
    forall b
      ensures b in blogs' <==> b in blogs && b.slug != blogs[i].slug
    {
      if b in blogs && b.slug != blogs[i].slug {
        var k :| 0 <= k < |blogs| && blogs[k] == b;
        assert blogs'[if k < i then k else k - 1] == b;
      }
    }
  }

  /**
   * `delete_blog`: an unknown slug raises `BlogNotFound`. A blog that still has reviews
   * cannot go: `Blog.reviews` has no delete cascade, so the flush nulls the reviews'
   * non-null `blog_uid`, the commit raises `IntegrityError` and the session rolls back.
   * Otherwise exactly that blog is removed.
   */
  method DeleteBlog(db: Db, slug: string) returns (r: Result<(), Error>)
    requires db.Valid()
    modifies db
    ensures db.Valid()
    ensures GetBlogBySlug(old(db.blogs), slug).None? ==> r == Failure(BlogNotFound) && unchanged(db)
    ensures GetBlogBySlug(old(db.blogs), slug).Some? && HasReviews(old(db.reviews), GetBlogBySlug(old(db.blogs), slug).value.uid) ==>
      r == Failure(IntegrityError) && unchanged(db)
    ensures GetBlogBySlug(old(db.blogs), slug).Some? && !HasReviews(old(db.reviews), GetBlogBySlug(old(db.blogs), slug).value.uid) ==>
      && r == Success(())
      && |db.blogs| == |old(db.blogs)| - 1
      && (forall b :: b in db.blogs <==> b in old(db.blogs) && b.slug != slug)
      && db.nextUid == old(db.nextUid)
      && db.users == old(db.users) && db.tags == old(db.tags) && db.reviews == old(db.reviews)
    ensures r.Success? ==> GetBlogBySlug(db.blogs, slug).None?
  {
    var i := FirstIndex(db.blogs, (b: Blog) => b.slug == slug);
    if i.None? {
      return Failure(BlogNotFound);
    }
    if HasReviews(db.reviews, db.blogs[i.value].uid) {
      return Failure(IntegrityError);
    }
    RemoveBlogKeepsConsistent(db.users, db.blogs, db.tags, db.reviews, db.nextUid, i.value);
    RemoveBlogBySlug(db.blogs, i.value);
    var blogs := RemoveAt(db.blogs, i.value);
    db.blogs := blogs;
    r := Success(());
  }
}
