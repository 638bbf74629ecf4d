/** `TagService` (src/tags/service.py): tag lookup, create, attach to a blog, update, delete. */
module TagService {
  import opened Wrappers
  import opened Errors
  import opened Store
  import BlogService

  /** The body of a create or update request. */
  datatype TagCreateRequest = TagCreateRequest(title: string)

  /** The body of an attach request: the requested tags in order. */
  datatype TagAddRequest = TagAddRequest(tags: seq<TagCreateRequest>)

  /** `get_tag_by_uid`: the tag with that uid, if any. */
  function GetTagByUid(tags: seq<Tag>, tagUid: Uid): (tag: Option<Tag>)
    ensures tag.Some? ==> tag.value in tags && tag.value.uid == tagUid
    ensures tag.None? <==> forall t :: t in tags ==> t.uid != tagUid
  {
    match FirstIndex(tags, (t: Tag) => t.uid == tagUid)
    case Some(i) => Some(tags[i])
    case None => None
  }

  /** The `select(Tag).where(Tag.title == title)` query: the first tag with that title. */
  function GetTagByTitle(tags: seq<Tag>, title: string): (tag: Option<Tag>)
    ensures tag.Some? ==> tag.value in tags && tag.value.title == title
    ensures tag.None? <==> forall t :: t in tags ==> t.title != title
  {
    match FirstIndex(tags, (t: Tag) => t.title == title)
    case Some(i) => Some(tags[i])
    case None => None
  }

  /** `create_tag`: a taken title raises `TagAlreadyExists`; otherwise one tag is added. */
  method CreateTag(db: Db, tagRequest: TagCreateRequest) returns (r: Result<Tag, Error>)
    requires db.Valid()
    modifies db
    ensures db.Valid()
    ensures GetTagByTitle(old(db.tags), tagRequest.title).Some? ==> r == Failure(TagAlreadyExists) && unchanged(db)
    ensures GetTagByTitle(old(db.tags), tagRequest.title).None? ==>
      && r == Success(Tag(old(db.nextUid), tagRequest.title))
      && db.tags == old(db.tags) + [r.value]
      && db.nextUid == old(db.nextUid) + 1
      && db.users == old(db.users) && db.blogs == old(db.blogs) && db.reviews == old(db.reviews)
    ensures r.Success? ==> GetTagByTitle(db.tags, tagRequest.title) == Some(r.value)
  {
    var tag := GetTagByTitle(db.tags, tagRequest.title);
    if tag.Some? {
      return Failure(TagAlreadyExists);
    }
    var newTag := Tag(db.nextUid, tagRequest.title);
    assert TagUids(db.tags + [newTag]) == TagUids(db.tags) + {newTag.uid};
    db.tags := db.tags + [newTag];
    db.nextUid := db.nextUid + 1;
    r := Success(newTag);
  }

  // ---------------------------------------------------------------------------------
  // Attaching tags to a blog.

  /** The tag table, the uid generator and the uids attached so far. */
  datatype Attachment = Attachment(tags: seq<Tag>, nextUid: nat, attached: seq<Uid>)

  /** One iteration: reuse the tag with that title, or create it; then attach it. */
  function AttachOne(s: Attachment, item: TagCreateRequest): Attachment
  {
    match GetTagByTitle(s.tags, item.title)
    case Some(tag) => s.(attached := s.attached + [tag.uid])
    case None => Attachment(s.tags + [Tag(s.nextUid, item.title)], s.nextUid + 1, s.attached + [s.nextUid])
  }

  /** The loop of `add_tag_to_blog` over the requested tags, in request order. */
  function AttachAll(tags: seq<Tag>, nextUid: nat, items: seq<TagCreateRequest>): Attachment
  {
    if items == [] then Attachment(tags, nextUid, [])
    else AttachOne(AttachAll(tags, nextUid, items[..|items| - 1]), items[|items| - 1])
  }

  /** One iteration only appends: to the tag table, to the attached uids, and to the uid generator. */
  lemma AttachOneGrows(s: Attachment, item: TagCreateRequest)
    ensures var s' := AttachOne(s, item);
      && s.nextUid <= s'.nextUid
      && |s.tags| <= |s'.tags| && s'.tags[..|s.tags|] == s.tags
      && |s'.attached| == |s.attached| + 1 && s'.attached[..|s.attached|] == s.attached
      && Tag(s'.attached[|s.attached|], item.title) in s'.tags
  {
    match GetTagByTitle(s.tags, item.title)
    case Some(tag) =>
    case None =>
      assert AttachOne(s, item).tags[|s.tags|] == Tag(s.nextUid, item.title);
  }

  /** One iteration keeps tag uids and titles unique and below the uid generator. */
  lemma AttachOneUnique(s: Attachment, item: TagCreateRequest)
    requires TagsUnique(s.tags) && TagUidsBelow(s.tags, s.nextUid)
    ensures TagsUnique(AttachOne(s, item).tags) && TagUidsBelow(AttachOne(s, item).tags, AttachOne(s, item).nextUid)
  {
  }

  /** The loop only appends to the tag table and attaches one uid per requested item. */
  lemma {:induction false} AttachAllGrows(tags: seq<Tag>, nextUid: nat, items: seq<TagCreateRequest>)
    ensures var s := AttachAll(tags, nextUid, items);
      && nextUid <= s.nextUid
      && |tags| <= |s.tags| && s.tags[..|tags|] == tags
      && |s.attached| == |items|
  {
    if items != [] {
      var init := items[..|items| - 1];
      AttachAllGrows(tags, nextUid, init);
      var p := AttachAll(tags, nextUid, init);
      AttachOneGrows(p, items[|items| - 1]);
      assert p.tags[..|tags|] == tags;
    }
  }

  /** The loop keeps tag uids and titles unique, so the `title` unique column never clashes. */
  lemma {:induction false} AttachAllUnique(tags: seq<Tag>, nextUid: nat, items: seq<TagCreateRequest>)
    requires TagsUnique(tags) && TagUidsBelow(tags, nextUid)
    ensures var s := AttachAll(tags, nextUid, items);
      TagsUnique(s.tags) && TagUidsBelow(s.tags, s.nextUid)
  {
    if items != [] {
      var init := items[..|items| - 1];
      AttachAllUnique(tags, nextUid, init);
      AttachOneUnique(AttachAll(tags, nextUid, init), items[|items| - 1]);
    }
  }

  /** Each requested item is answered, in order, by a tag that carries the requested title. */
  lemma {:induction false} AttachAllNamesTitles(tags: seq<Tag>, nextUid: nat, items: seq<TagCreateRequest>)
    ensures var s := AttachAll(tags, nextUid, items);
      && |s.attached| == |items|
      && forall k :: 0 <= k < |items| ==> Tag(s.attached[k], items[k].title) in s.tags
  {
    AttachAllGrows(tags, nextUid, items);
    if items != [] {
      var init, last := items[..|items| - 1], items[|items| - 1];
      AttachAllNamesTitles(tags, nextUid, init);
      var p := AttachAll(tags, nextUid, init);
      var s := AttachOne(p, last);
      assert s == AttachAll(tags, nextUid, items);
      AttachOneGrows(p, last);
      forall k | 0 <= k < |items|
        ensures Tag(s.attached[k], items[k].title) in s.tags
      {
        if k < |init| {
          assert items[k] == init[k];
          assert s.attached[k] == s.attached[..|p.attached|][k] == p.attached[k];
          var j :| 0 <= j < |p.tags| && p.tags[j] == Tag(p.attached[k], init[k].title);
          assert s.tags[j] == s.tags[..|p.tags|][j] == p.tags[j];
        }
      }
    }
  }

  /** A title that already named a tag is answered by that same tag, not by a new one. */
  lemma AttachAllReuses(tags: seq<Tag>, nextUid: nat, items: seq<TagCreateRequest>)
    requires TagsUnique(tags) && TagUidsBelow(tags, nextUid)
    ensures var s := AttachAll(tags, nextUid, items);
      && |s.attached| == |items|
      && forall k :: 0 <= k < |items| && GetTagByTitle(tags, items[k].title).Some? ==>
           s.attached[k] == GetTagByTitle(tags, items[k].title).value.uid
  {
    AttachAllGrows(tags, nextUid, items);
    AttachAllUnique(tags, nextUid, items);
    AttachAllNamesTitles(tags, nextUid, items);
    var s := AttachAll(tags, nextUid, items);
    forall k | 0 <= k < |items| && GetTagByTitle(tags, items[k].title).Some?
      ensures s.attached[k] == GetTagByTitle(tags, items[k].title).value.uid
    {
      var oldTag := GetTagByTitle(tags, items[k].title).value;
      var j :| 0 <= j < |tags| && tags[j] == oldTag;
      assert s.tags[j] == s.tags[..|tags|][j] == oldTag;
      var m :| 0 <= m < |s.tags| && s.tags[m] == Tag(s.attached[k], items[k].title);
      assert s.tags[m].title == s.tags[j].title;
      assert m == j;
    }
  }

  /** After the loop every blog, the updated one included, still refers to existing tags only. */
  lemma AttachKeepsTagsAttached(blogs: seq<Blog>, tags: seq<Tag>, nextUid: nat, blog: Blog, items: seq<TagCreateRequest>)
    requires TagsAttached(blogs, tags)
    requires blog in blogs
    ensures var s := AttachAll(tags, nextUid, items);
      TagsAttached(BlogService.ReplaceBlog(blogs, blog.(tags := blog.tags + s.attached)), s.tags)
  {
    var s := AttachAll(tags, nextUid, items);
    AttachAllGrows(tags, nextUid, items);
    AttachAllNamesTitles(tags, nextUid, items);
    assert TagUids(tags) <= TagUids(s.tags) by {
      forall u | u in TagUids(tags) ensures u in TagUids(s.tags) {
        var t :| t in tags && t.uid == u;
        var j :| 0 <= j < |tags| && tags[j] == t;
        assert s.tags[j] == s.tags[..|tags|][j] == t;
      }
    }
    var blogs' := BlogService.ReplaceBlog(blogs, blog.(tags := blog.tags + s.attached));
    var j :| 0 <= j < |blogs| && blogs[j] == blog;
    forall i, k | 0 <= i < |blogs'| && 0 <= k < |blogs'[i].tags|
      ensures blogs'[i].tags[k] in TagUids(s.tags)
    {
      if blogs[i].uid != blog.uid {
        assert blogs'[i].tags[k] == blogs[i].tags[k];
      } else if k < |blog.tags| {
        assert blogs'[i].tags[k] == blogs[j].tags[k];
      } else {
        var u := s.attached[k - |blog.tags|];
        assert blogs'[i].tags[k] == u;
        assert Tag(u, items[k - |blog.tags|].title) in s.tags;
      }
    }
  }

  /** The state `add_tag_to_blog` commits is consistent again. */
  lemma AttachKeepsConsistent(users: seq<User>, blogs: seq<Blog>, tags: seq<Tag>, reviews: seq<Review>,
                              nextUid: nat, blog: Blog, items: seq<TagCreateRequest>)
    requires Consistent(users, blogs, tags, reviews, nextUid)
    requires blog in blogs
    ensures var s := AttachAll(tags, nextUid, items);
      Consistent(users, BlogService.ReplaceBlog(blogs, blog.(tags := blog.tags + s.attached)), s.tags, reviews, s.nextUid)
  {
    var s := AttachAll(tags, nextUid, items);
    AttachAllGrows(tags, nextUid, items);
    AttachAllUnique(tags, nextUid, items);
    AttachKeepsTagsAttached(blogs, tags, nextUid, blog, items);
    var blogs' := BlogService.ReplaceBlog(blogs, blog.(tags := blog.tags + s.attached));
    assert forall i :: 0 <= i < |blogs'| ==> blogs'[i].uid == blogs[i].uid && blogs'[i].slug == blogs[i].slug;
  }

  /**
   * The loop of `add_tag_to_blog`: each requested tag, reused by title or newly created,
   * is appended to `blog`'s tag list in request order; new tags take fresh uids.
   */
  method AttachTags(db: Db, blog: Blog, items: seq<TagCreateRequest>) returns (updated: Blog)
    modifies db
    ensures var result := AttachAll(old(db.tags), old(db.nextUid), items);
      && updated == blog.(tags := blog.tags + result.attached)
      && db.tags == result.tags
      && db.nextUid == result.nextUid
      && db.users == old(db.users) && db.blogs == old(db.blogs) && db.reviews == old(db.reviews)
  {
    updated := blog;
    ghost var attached: seq<Uid> := [];
    for i := 0 to |items|
      invariant AttachAll(old(db.tags), old(db.nextUid), items[..i]) == Attachment(db.tags, db.nextUid, attached)
      invariant updated == blog.(tags := blog.tags + attached)
      invariant db.users == old(db.users) && db.blogs == old(db.blogs) && db.reviews == old(db.reviews)
    {
      assert items[..i + 1][..i] == items[..i];
      var tagItem := items[i];
      var tag := GetTagByTitle(db.tags, tagItem.title);
      var tagUid: Uid;
      if tag.Some? {
        tagUid := tag.value.uid;
      } else {
        // The new tag joins the session through the blog; autoflush makes it visible to the next query.
        tagUid := db.nextUid;
        db.tags := db.tags + [Tag(tagUid, tagItem.title)];
        db.nextUid := db.nextUid + 1;
      }
      updated := updated.(tags := updated.tags + [tagUid]);
      attached := attached + [tagUid];
    }
    assert items[..|items|] == items;
  }

  /**
   * `add_tag_to_blog`: an unknown slug raises `BlogNotFound` before any tag is looked at;
   * otherwise each requested tag, reused by title or newly created, is appended to the
   * blog's tag list in request order.
   */
  method AddTagToBlog(db: Db, blogSlug: string, tagRequest: TagAddRequest) returns (r: Result<Blog, Error>)
    requires db.Valid()
    modifies db
    ensures db.Valid()
    ensures BlogService.GetBlogBySlug(old(db.blogs), blogSlug).None? ==> r == Failure(BlogNotFound) && unchanged(db)
    ensures BlogService.GetBlogBySlug(old(db.blogs), blogSlug).Some? ==>
      var blog := BlogService.GetBlogBySlug(old(db.blogs), blogSlug).value;
      var result := AttachAll(old(db.tags), old(db.nextUid), tagRequest.tags);
      && r == Success(blog.(tags := blog.tags + result.attached))
      && db.blogs == BlogService.ReplaceBlog(old(db.blogs), r.value)
      && db.tags == result.tags
      && db.nextUid == result.nextUid
      && db.users == old(db.users) && db.reviews == old(db.reviews)
  {
    var found := BlogService.GetBlogBySlug(db.blogs, blogSlug);
    if found.None? {
      return Failure(BlogNotFound);
    }
    AttachKeepsConsistent(db.users, db.blogs, db.tags, db.reviews, db.nextUid, found.value, tagRequest.tags);
    var blog := AttachTags(db, found.value, tagRequest.tags);
    db.blogs := BlogService.ReplaceBlog(db.blogs, blog);
    r := Success(blog);
  }

  /**
   * `add_tag_to_blog` with `Blog` lacking `tags` and the other mappers configured as
   * intended: the first `blog.tags.append` raises `AttributeError` and the session rolls
   * back; only an empty request gets through, and then nothing changes.
   */
  function AddTagToBlogAsWritten(blogs: seq<Blog>, blogSlug: string, tagRequest: TagAddRequest): (r: Result<Blog, Error>)
    ensures BlogService.GetBlogBySlug(blogs, blogSlug).None? ==> r == Failure(BlogNotFound)
    ensures r.Success? ==> r.value in blogs && r.value.slug == blogSlug && tagRequest.tags == []
    ensures BlogService.GetBlogBySlug(blogs, blogSlug).Some? && tagRequest.tags != [] ==> r == Failure(AttributeError)
  {
    match BlogService.GetBlogBySlug(blogs, blogSlug)
    case None => Failure(BlogNotFound)
    case Some(blog) => if tagRequest.tags == [] then Success(blog) else Failure(AttributeError)
  }

  /**
   * The discrepancy: for an existing blog and one requested tag, the code as written
   * refuses, while the intended operation attaches a tag with the requested title.
   */
  lemma AsWrittenNeverAttaches(blog: Blog, tags: seq<Tag>, nextUid: nat, title: string)
    ensures AddTagToBlogAsWritten([blog], blog.slug, TagAddRequest([TagCreateRequest(title)])) == Failure(AttributeError)
    ensures var s := AttachAll(tags, nextUid, [TagCreateRequest(title)]);
      |s.attached| == 1 && Tag(s.attached[0], title) in s.tags
  {
    assert blog in [blog];
    AttachAllNamesTitles(tags, nextUid, [TagCreateRequest(title)]);
  }

  // ---------------------------------------------------------------------------------
  // Update and delete.

  /** The one column a `TagCreateRequest` dumps. */
  datatype TagField = Title(title: string)

  /** `tag_update_request.model_dump().items()`. */
  function ModelDump(request: TagCreateRequest): seq<TagField>
  {
    [Title(request.title)]
  }

  function SetTagAll(t: Tag, items: seq<TagField>): Tag
  {
    if items == [] then t else SetTagAll(t, items[..|items| - 1]).(title := items[|items| - 1].title)
  }

  /** Whether another row of `tags` already has the title of `t` (the unique column). */
  function TitleTaken(tags: seq<Tag>, t: Tag): (taken: bool)
    ensures taken <==> exists i :: 0 <= i < |tags| && tags[i].uid != t.uid && tags[i].title == t.title
  {
    FirstIndex(tags, (x: Tag) => x.uid != t.uid && x.title == t.title).Some?
  }

  /** The table with the row of `t.uid` replaced by `t`. */
  function ReplaceTag(tags: seq<Tag>, t: Tag): (r: seq<Tag>)
    ensures |r| == |tags|
    ensures TagUids(r) == TagUids(tags)
  {
    var r := Replace(tags, (row: Tag) => row.uid, t);
    SameTagUids(r, tags);
    r
  }

  /**
   * Renaming a stored tag to a title no other tag carries keeps the store consistent,
   * and the tag is then found both by its uid and by its new title.
   */
  lemma RenameTagKeepsConsistent(users: seq<User>, blogs: seq<Blog>, tags: seq<Tag>, reviews: seq<Review>, nextUid: nat,
                                 tag: Tag, title: string)
    requires Consistent(users, blogs, tags, reviews, nextUid)
    requires tag in tags && !TitleTaken(tags, tag.(title := title))
    ensures Consistent(users, blogs, ReplaceTag(tags, tag.(title := title)), reviews, nextUid)
    ensures GetTagByUid(ReplaceTag(tags, tag.(title := title)), tag.uid) == Some(tag.(title := title))
    ensures GetTagByTitle(ReplaceTag(tags, tag.(title := title)), title) == Some(tag.(title := title))
  {
    var updated := tag.(title := title);
    var tags' := ReplaceTag(tags, updated);
    assert forall i :: 0 <= i < |tags'| ==> tags'[i].uid == tags[i].uid;
    var j :| 0 <= j < |tags| && tags[j] == tag;
    assert tags'[j] == updated;
  }

  /**
   * `update_tag`: an unknown uid raises `TagNotFound`; otherwise the title becomes the
   * requested one, unless another tag already has it and the commit is refused.
   */
  method UpdateTag(db: Db, tagUid: Uid, tagUpdateRequest: TagCreateRequest) returns (r: Result<Tag, Error>)
    requires db.Valid()
    modifies db
    ensures db.Valid()
    ensures GetTagByUid(old(db.tags), tagUid).None? ==> r == Failure(TagNotFound) && unchanged(db)
    ensures GetTagByUid(old(db.tags), tagUid).Some? ==>
      var updated := Tag(tagUid, tagUpdateRequest.title);
      if TitleTaken(old(db.tags), updated) then r == Failure(IntegrityError) && unchanged(db)
      else && r == Success(updated)
           && db.tags == ReplaceTag(old(db.tags), updated)
           && db.nextUid == old(db.nextUid)
           && db.users == old(db.users) && db.blogs == old(db.blogs) && db.reviews == old(db.reviews)
    ensures r.Success? ==> GetTagByUid(db.tags, tagUid) == Some(r.value) && GetTagByTitle(db.tags, r.value.title) == Some(r.value)
  {
    var found := GetTagByUid(db.tags, tagUid);
    if found.None? {
      return Failure(TagNotFound);
    }
    var tag := found.value;
    var items := ModelDump(tagUpdateRequest);
    for i := 0 to |items|
      invariant tag == SetTagAll(found.value, items[..i])
    {
      assert items[..i + 1][..i] == items[..i];
      tag := tag.(title := items[i].title);
    }
    assert items[..1] == items && items[..0] == [];
    if TitleTaken(db.tags, tag) {
      return Failure(IntegrityError);
    }
    RenameTagKeepsConsistent(db.users, db.blogs, db.tags, db.reviews, db.nextUid, found.value, tag.title);
    var tags := ReplaceTag(db.tags, tag);
    db.tags := tags;
    r := Success(tag);
  }

  /** The uid list without any occurrence of `tagUid`. */
  function Detach(uids: seq<Uid>, tagUid: Uid): (r: seq<Uid>)
    ensures forall u :: u in r <==> u in uids && u != tagUid
    ensures |r| <= |uids|
  {
    if uids == [] then []
    else
      var rest := Detach(uids[1..], tagUid);
      assert forall u :: u in uids <==> u == uids[0] || u in uids[1..];
      if uids[0] == tagUid then rest else [uids[0]] + rest
  }

  /** Every blog with the tag's association rows removed; nothing else about a blog changes. */
  function DetachFromBlogs(blogs: seq<Blog>, tagUid: Uid): (r: seq<Blog>)
    ensures |r| == |blogs|
    ensures forall i :: 0 <= i < |r| ==> r[i] == blogs[i].(tags := r[i].tags) && tagUid !in r[i].tags
    ensures forall i, u :: 0 <= i < |r| && u != tagUid ==> (u in r[i].tags <==> u in blogs[i].tags)
    ensures BlogUids(r) == BlogUids(blogs)
  {
    var r := seq(|blogs|, i requires 0 <= i < |blogs| => blogs[i].(tags := Detach(blogs[i].tags, tagUid)));
    SameBlogUids(r, blogs);
    r
  }

  /** With unique uids, removing the row at `i` removes exactly the tag with its uid. */
  lemma RemoveTagByUid(tags: seq<Tag>, i: nat)
    requires TagsUnique(tags) && i < |tags|
    ensures forall t :: t in RemoveAt(tags, i) <==> t in tags && t.uid != tags[i].uid
  {
    var tags' := RemoveAt(tags, i);
    forall t
      ensures t in tags' <==> t in tags && t.uid != tags[i].uid
    {
      if t in tags && t.uid != tags[i].uid {
        var k :| 0 <= k < |tags| && tags[k] == t;
        assert tags'[if k < i then k else k - 1] == t;
      }
    }
  }

  /** Removing a tag together with its association rows keeps the store consistent. */
  lemma RemoveTagKeepsConsistent(users: seq<User>, blogs: seq<Blog>, tags: seq<Tag>, reviews: seq<Review>, nextUid: nat, i: nat)
    requires Consistent(users, blogs, tags, reviews, nextUid)
    requires i < |tags|
    ensures Consistent(users, DetachFromBlogs(blogs, tags[i].uid), RemoveAt(tags, i), reviews, nextUid)
  {
    var tagUid := tags[i].uid;
    var tags' := RemoveAt(tags, i);
    var blogs' := DetachFromBlogs(blogs, tagUid);
    assert forall k :: 0 <= k < |tags'| ==> tags'[k] == tags[if k < i then k else k + 1];
    RemoveTagByUid(tags, i);
    forall b, k | 0 <= b < |blogs'| && 0 <= k < |blogs'[b].tags|
      ensures blogs'[b].tags[k] in TagUids(tags')
    {
      var u := blogs'[b].tags[k];
      assert u in blogs[b].tags && u != tagUid;
      var m :| 0 <= m < |blogs[b].tags| && blogs[b].tags[m] == u;
      assert u in TagUids(tags);
      var t :| t in tags && t.uid == u;
      assert t in tags';
    }
  }

  /**
   * `delete_tag`: an unknown uid raises `TagNotFound`; otherwise exactly that tag is
   * removed, together with its association rows, so no blog refers to it afterwards.
   */
  method DeleteTag(db: Db, tagUid: Uid) returns (r: Result<(), Error>)
    requires db.Valid()
    modifies db
    ensures db.Valid()
    ensures GetTagByUid(old(db.tags), tagUid).None? ==> r == Failure(TagNotFound) && unchanged(db)
    ensures GetTagByUid(old(db.tags), tagUid).Some? ==>
      && r == Success(())
      && |db.tags| == |old(db.tags)| - 1
      && (forall t :: t in db.tags <==> t in old(db.tags) && t.uid != tagUid)
      && db.blogs == DetachFromBlogs(old(db.blogs), tagUid)
      && db.nextUid == old(db.nextUid)
      && db.users == old(db.users) && db.reviews == old(db.reviews)
    ensures r.Success? ==> GetTagByUid(db.tags, tagUid).None? && forall b :: b in db.blogs ==> tagUid !in b.tags
  {
    var i := FirstIndex(db.tags, (t: Tag) => t.uid == tagUid);
    if i.None? {
      return Failure(TagNotFound);
    }
    RemoveTagKeepsConsistent(db.users, db.blogs, db.tags, db.reviews, db.nextUid, i.value);
    RemoveTagByUid(db.tags, i.value);
    var tags := RemoveAt(db.tags, i.value);
    var blogs := DetachFromBlogs(db.blogs, tagUid);
    db.tags := tags;
    db.blogs := blogs;
    r := Success(());
  }
}
