/**
 * The blog routes: list (with filters), get one, create, update and
 * delete.  `user` is the decoded token the authentication middleware puts
 * on the request; `now` is the database clock that fills `created_at`.
 */
module BlogRoutes {
  import opened Wrappers
  import opened Tables
  import opened Store
  import Ordering
  import Jwt
  import BlogQuery

  /** One row of the listing: `b.*`, the author's name, the favourite count and the first image. */
  datatype BlogSummary = BlogSummary(
    blog: Blog, firstName: string, lastName: string, favoriteCount: nat, imageUrl: Option<string>)

  /** `(SELECT image_data FROM blog_images WHERE blog_id = ? ORDER BY image_order LIMIT 1)`. */
  function Thumbnail(images: seq<Image>, blogId: nat): Option<string>
  {
    var rows := ImageRowsOf(images, blogId);
    if rows == [] then None else Some(rows[0].data)
  }

  /** The listing's image is NULL exactly for a blog without images, and otherwise the image at the lowest position. */
  lemma ThumbnailIsLowestPosition(images: seq<Image>, blogId: nat)
    ensures Thumbnail(images, blogId).None? <==> forall i :: 0 <= i < |images| ==> images[i].blogId != blogId
    ensures Thumbnail(images, blogId).Some? ==>
              exists i :: 0 <= i < |images| && images[i].blogId == blogId && images[i].data == Thumbnail(images, blogId).value
                          && forall j :: 0 <= j < |images| && images[j].blogId == blogId ==> images[i].order <= images[j].order
  {
    var matching := Filter(images, ImageBlogOf, blogId, true);
    var rows := ImageRowsOf(images, blogId);
    Ordering.SortByMembers(matching, ImageOrderOf);
    if rows != [] {
      var first := rows[0];
      assert first in matching;
      var i :| 0 <= i < |images| && images[i] == first;
      forall j | 0 <= j < |images| && images[j].blogId == blogId ensures first.order <= images[j].order {
        assert images[j] in rows;
        Ordering.FirstIsLeast(rows, ImageOrderOf, images[j]);
      }
    }
  }

  function Summary(b: Blog, u: User, favorites: seq<Favorite>, images: seq<Image>): BlogSummary
  {
    BlogSummary(b, u.firstName, u.lastName, FavoriteCount(favorites, b.blogId), Thumbnail(images, b.blogId))
  }

  /** `FROM blogs b JOIN users u ON b.author_id = u.user_id WHERE ...`, in table order. */
  function Joined(blogs: seq<Blog>, users: seq<User>, cs: seq<BlogQuery.Clause>, ps: seq<BlogQuery.Param>)
    : seq<(Blog, User)>
  {
    if blogs == [] then []
    else
      var rest := Joined(blogs[1..], users, cs, ps);
      match FindUser(users, blogs[0].authorId)
      case Some(u) =>
        if BlogQuery.Eval(cs, ps, blogs[0], u) == Some(true) then [(blogs[0], u)] + rest else rest
      case None => rest
  }

  /** A joined row is a stored blog paired with its author, and the WHERE condition selects it. */
  lemma {:induction false} JoinedSound(blogs: seq<Blog>, users: seq<User>, cs: seq<BlogQuery.Clause>,
                                       ps: seq<BlogQuery.Param>, p: (Blog, User))
    requires p in Joined(blogs, users, cs, ps)
    ensures p.0 in blogs && FindUser(users, p.0.authorId) == Some(p.1)
    ensures BlogQuery.Eval(cs, ps, p.0, p.1) == Some(true)
  {
    if blogs != [] {
      var rest := Joined(blogs[1..], users, cs, ps);
      if p in rest {
        JoinedSound(blogs[1..], users, cs, ps, p);
      }
    }
  }

  /** Every stored blog whose author exists and which the WHERE condition selects is joined with its author. */
  lemma {:induction false} JoinedComplete(blogs: seq<Blog>, users: seq<User>, cs: seq<BlogQuery.Clause>,
                                          ps: seq<BlogQuery.Param>, b: Blog)
    requires b in blogs && FindUser(users, b.authorId).Some?
    requires BlogQuery.Eval(cs, ps, b, FindUser(users, b.authorId).value) == Some(true)
    ensures (b, FindUser(users, b.authorId).value) in Joined(blogs, users, cs, ps)
  {
    if blogs[0] != b {
      assert b in blogs[1..];
      JoinedComplete(blogs[1..], users, cs, ps, b);
    }
  }

  function Summaries(rows: seq<(Blog, User)>, favorites: seq<Favorite>, images: seq<Image>): (r: seq<BlogSummary>)
    ensures |r| == |rows| && forall i :: 0 <= i < |rows| ==> r[i] == Summary(rows[i].0, rows[i].1, favorites, images)
  {
    seq(|rows|, i requires 0 <= i < |rows| => Summary(rows[i].0, rows[i].1, favorites, images))
  }

  /** `ORDER BY b.created_at DESC`, as an ascending order on the negated time. */
  function NewestFirst(s: BlogSummary): int
  {
    -s.blog.createdAt
  }

  /** The rows the listing query returns, newest first. */
  function Listing(blogs: seq<Blog>, users: seq<User>, favorites: seq<Favorite>, images: seq<Image>,
                   category: Option<string>, search: Option<string>, authorId: Option<nat>): seq<BlogSummary>
  {
    var rows := Joined(blogs, users, BlogQuery.ClausesFor(category, search, authorId), BlogQuery.ParamsFor(category, search, authorId));
    Ordering.SortBy(Summaries(rows, favorites, images), NewestFirst)
  }

  /** Each summary comes from one of the rows. */
  lemma SummaryFrom(rows: seq<(Blog, User)>, favorites: seq<Favorite>, images: seq<Image>, x: BlogSummary)
    requires x in Summaries(rows, favorites, images)
    ensures exists k :: 0 <= k < |rows| && x == Summary(rows[k].0, rows[k].1, favorites, images)
  {
    var summaries := Summaries(rows, favorites, images);
    var k :| 0 <= k < |summaries| && summaries[k] == x;
    assert x == Summary(rows[k].0, rows[k].1, favorites, images);
  }

  /** A listed row is a blog whose author exists and which meets every filter supplied, summarized. */
  lemma ListedRowSound(blogs: seq<Blog>, users: seq<User>, favorites: seq<Favorite>, images: seq<Image>,
                       category: Option<string>, search: Option<string>, authorId: Option<nat>, x: BlogSummary)
    requires x in Listing(blogs, users, favorites, images, category, search, authorId)
    ensures && x.blog in blogs
            && FindUser(users, x.blog.authorId).Some?
            && var u := FindUser(users, x.blog.authorId).value;
            && BlogQuery.Selected(x.blog, u, category, search, authorId)
            && x == Summary(x.blog, u, favorites, images)
  {
    var rows := Joined(blogs, users, BlogQuery.ClausesFor(category, search, authorId), BlogQuery.ParamsFor(category, search, authorId));
    Ordering.SortByMembers(Summaries(rows, favorites, images), NewestFirst);
    SummaryFrom(rows, favorites, images, x);
    var k :| 0 <= k < |rows| && x == Summary(rows[k].0, rows[k].1, favorites, images);
    JoinedSound(blogs, users, BlogQuery.ClausesFor(category, search, authorId), BlogQuery.ParamsFor(category, search, authorId), rows[k]);
    BlogQuery.WhereMeaning(category, search, authorId, rows[k].0, rows[k].1);
  }

  /** Every listed row is a blog whose author exists and which meets every filter supplied, summarized. */
  lemma ListingSound(blogs: seq<Blog>, users: seq<User>, favorites: seq<Favorite>, images: seq<Image>,
                     category: Option<string>, search: Option<string>, authorId: Option<nat>)
    ensures var r := Listing(blogs, users, favorites, images, category, search, authorId);
            forall i :: 0 <= i < |r| ==>
              && r[i].blog in blogs
              && FindUser(users, r[i].blog.authorId).Some?
              && var u := FindUser(users, r[i].blog.authorId).value;
              && BlogQuery.Selected(r[i].blog, u, category, search, authorId)
              && r[i] == Summary(r[i].blog, u, favorites, images)
  {
    var r := Listing(blogs, users, favorites, images, category, search, authorId);
    forall i | 0 <= i < |r|
      ensures && r[i].blog in blogs
              && FindUser(users, r[i].blog.authorId).Some?
              && var u := FindUser(users, r[i].blog.authorId).value;
              && BlogQuery.Selected(r[i].blog, u, category, search, authorId)
              && r[i] == Summary(r[i].blog, u, favorites, images)
    {
      ListedRowSound(blogs, users, favorites, images, category, search, authorId, r[i]);
    }
  }

  /** A summarized row is among the summaries of the rows. */
  lemma SummaryAmong(rows: seq<(Blog, User)>, favorites: seq<Favorite>, images: seq<Image>, p: (Blog, User))
    requires p in rows
    ensures Summary(p.0, p.1, favorites, images) in Summaries(rows, favorites, images)
  {
    var k :| 0 <= k < |rows| && rows[k] == p;
    assert Summaries(rows, favorites, images)[k] == Summary(p.0, p.1, favorites, images);
  }

  /** Every joined row appears in the listing, summarized. */
  lemma ListingHasJoined(blogs: seq<Blog>, users: seq<User>, favorites: seq<Favorite>, images: seq<Image>,
                         category: Option<string>, search: Option<string>, authorId: Option<nat>, p: (Blog, User))
    requires p in Joined(blogs, users, BlogQuery.ClausesFor(category, search, authorId), BlogQuery.ParamsFor(category, search, authorId))
    ensures Summary(p.0, p.1, favorites, images) in Listing(blogs, users, favorites, images, category, search, authorId)
  {
    var rows := Joined(blogs, users, BlogQuery.ClausesFor(category, search, authorId), BlogQuery.ParamsFor(category, search, authorId));
    SummaryAmong(rows, favorites, images, p);
    Ordering.SortByMembers(Summaries(rows, favorites, images), NewestFirst);
  }

  /** Every blog whose author exists and which meets every filter supplied is listed. */
  lemma ListingComplete(blogs: seq<Blog>, users: seq<User>, favorites: seq<Favorite>, images: seq<Image>,
                        category: Option<string>, search: Option<string>, authorId: Option<nat>, b: Blog)
    requires b in blogs && FindUser(users, b.authorId).Some?
    requires BlogQuery.Selected(b, FindUser(users, b.authorId).value, category, search, authorId)
    ensures var r := Listing(blogs, users, favorites, images, category, search, authorId);
            exists i :: 0 <= i < |r| && r[i].blog == b
  {
    var u := FindUser(users, b.authorId).value;
    BlogQuery.WhereMeaning(category, search, authorId, b, u);
    JoinedComplete(blogs, users, BlogQuery.ClausesFor(category, search, authorId), BlogQuery.ParamsFor(category, search, authorId), b);
    ListingHasJoined(blogs, users, favorites, images, category, search, authorId, (b, u));
    var r := Listing(blogs, users, favorites, images, category, search, authorId);
    var i :| 0 <= i < |r| && r[i] == Summary(b, u, favorites, images);
    assert r[i].blog == b;
  }

  /** The listing is ordered by creation time, newest first. */
  lemma ListingNewestFirst(blogs: seq<Blog>, users: seq<User>, favorites: seq<Favorite>, images: seq<Image>,
                           category: Option<string>, search: Option<string>, authorId: Option<nat>)
    ensures var r := Listing(blogs, users, favorites, images, category, search, authorId);
            forall i, j :: 0 <= i < j < |r| ==> r[i].blog.createdAt >= r[j].blog.createdAt
  {
    var r := Listing(blogs, users, favorites, images, category, search, authorId);
    forall i, j | 0 <= i < j < |r| ensures r[i].blog.createdAt >= r[j].blog.createdAt {
      assert NewestFirst(r[i]) <= NewestFirst(r[j]);
    }
  }

  function JoinedBlogId(p: (Blog, User)): nat { p.0.blogId }
  function SummaryBlogId(x: BlogSummary): nat { x.blog.blogId }

  /** With unique blog ids, the join pairs each blog with one author row at most once. */
  lemma {:induction false} JoinedDistinct(blogs: seq<Blog>, users: seq<User>, cs: seq<BlogQuery.Clause>,
                                          ps: seq<BlogQuery.Param>)
    requires Pairwise(blogs, DistinctBlogs)
    ensures Ordering.DistinctBy(Joined(blogs, users, cs, ps), JoinedBlogId)
  {
    if blogs != [] {
      assert Pairwise(blogs[1..], DistinctBlogs);
      JoinedDistinct(blogs[1..], users, cs, ps);
      var rest := Joined(blogs[1..], users, cs, ps);
      forall k | 0 <= k < |rest| ensures rest[k].0.blogId != blogs[0].blogId {
        JoinedSound(blogs[1..], users, cs, ps, rest[k]);
        var j :| 0 <= j < |blogs[1..]| && blogs[1..][j] == rest[k].0;
        assert blogs[j + 1] == rest[k].0;
      }
    }
  }

  /** Summarizing keeps a row's blog at its place. */
  lemma SummariesDistinct(rows: seq<(Blog, User)>, favorites: seq<Favorite>, images: seq<Image>)
    requires Ordering.DistinctBy(rows, JoinedBlogId)
    ensures Ordering.DistinctBy(Summaries(rows, favorites, images), SummaryBlogId)
  {
    var r := Summaries(rows, favorites, images);
    forall i, j | 0 <= i < j < |r| ensures SummaryBlogId(r[i]) != SummaryBlogId(r[j]) {
      assert r[i].blog == rows[i].0 && r[j].blog == rows[j].0;
    }
  }

  /**
   * With unique blog ids the listing names each blog at most once; together
   * with ListingSound and ListingComplete, it lists every matching blog
   * exactly once.
   */
  lemma ListingDistinct(blogs: seq<Blog>, users: seq<User>, favorites: seq<Favorite>, images: seq<Image>,
                        category: Option<string>, search: Option<string>, authorId: Option<nat>)
    requires Pairwise(blogs, DistinctBlogs)
    ensures var r := Listing(blogs, users, favorites, images, category, search, authorId);
            forall i, j :: 0 <= i < j < |r| ==> r[i].blog.blogId != r[j].blog.blogId
  {
    var cs, ps := BlogQuery.ClausesFor(category, search, authorId), BlogQuery.ParamsFor(category, search, authorId);
    var rows := Joined(blogs, users, cs, ps);
    JoinedDistinct(blogs, users, cs, ps);
    SummariesDistinct(rows, favorites, images);
    Ordering.SortByDistinct(Summaries(rows, favorites, images), NewestFirst, SummaryBlogId);
    var r := Listing(blogs, users, favorites, images, category, search, authorId);
    forall i, j | 0 <= i < j < |r| ensures r[i].blog.blogId != r[j].blog.blogId {
      assert SummaryBlogId(r[i]) != SummaryBlogId(r[j]);
    }
  }

  /**
   * GET /api/blogs.  The query is built from the filters supplied and run
   * against the tables; the result is the listing those filters describe.
   */
  method ListBlogs(db: Database, category: Option<string>, search: Option<string>, authorId: Option<nat>)
    returns (r: seq<BlogSummary>)
    requires db.Valid()
    ensures r == Listing(db.blogs, db.users, db.favorites, db.images, category, search, authorId)
    ensures forall i, j :: 0 <= i < j < |r| ==> r[i].blog.blogId != r[j].blog.blogId
  {
    var clauses, params := BlogQuery.BuildWhere(category, search, authorId);
    var rows := Joined(db.blogs, db.users, clauses, params);
    r := Ordering.SortBy(Summaries(rows, db.favorites, db.images), NewestFirst);
    ListingDistinct(db.blogs, db.users, db.favorites, db.images, category, search, authorId);
  }

  /** The single-blog response: the listing columns without the thumbnail, and every image. */
  datatype BlogDetail = BlogDetail(
    blog: Blog, firstName: string, lastName: string, favoriteCount: nat, images: seq<string>)

  datatype GetResult = Missing | Found(detail: BlogDetail)
  {
    function Status(): nat
    {
      if Found? then 200 else 404
    }

    /** The 404 message; a found blog answers with its detail instead. */
    function Message(): string
    {
      if Found? then "" else "Blog not found"
    }
  }

  /**
   * GET /api/blogs/:id.  404 unless the blog and its author exist; otherwise
   * the blog with its images by position, which under the table invariant
   * is the order they were inserted in.
   */
  method GetBlog(db: Database, blogId: nat) returns (r: GetResult)
    ensures r.Missing? <==> FindBlog(db.blogs, blogId).None? || FindUser(db.users, FindBlog(db.blogs, blogId).value.authorId).None?
    ensures r.Found? ==>
              && var b := FindBlog(db.blogs, blogId).value;
              && var u := FindUser(db.users, b.authorId).value;
              && b in db.blogs && b.blogId == blogId
              && r.detail == BlogDetail(b, u.firstName, u.lastName, FavoriteCount(db.favorites, blogId), BlogImages(db.images, blogId))
    ensures r.Found? && db.Valid() ==> r.detail.images == DataOf(Filter(db.images, ImageBlogOf, blogId, true))
  {
    var found := FindBlog(db.blogs, blogId);
    if found.None? {
      return Missing;
    }
    var b := found.value;
    var author := FindUser(db.users, b.authorId);
    if author.None? {
      return Missing;
    }
    var u := author.value;
    r := Found(BlogDetail(b, u.firstName, u.lastName, FavoriteCount(db.favorites, blogId), BlogImages(db.images, blogId)));
    if db.Valid() {
      ImageRowsInTableOrder(db.images, db.nextBlogId, blogId);
    }
  }

  /**
   * The insert loop of create and update: `images[i]` is stored at position
   * i.  The blog must have no image rows yet, which keeps every blog's rows
   * in increasing position.
   */
  method InsertImages(db: Database, blogId: nat, images: seq<string>)
    requires db.Valid()
    requires blogId < db.nextBlogId && FindBlog(db.blogs, blogId).Some?
    requires forall k :: 0 <= k < |db.images| ==> db.images[k].blogId != blogId
    modifies db
    ensures db.Valid()
    ensures db.images == old(db.images) + NewImageRows(blogId, images)
    ensures db.users == old(db.users) && db.blogs == old(db.blogs) && db.favorites == old(db.favorites)
    ensures db.nextUserId == old(db.nextUserId) && db.nextBlogId == old(db.nextBlogId)
  {
    var i := 0;
    while i < |images|
      invariant 0 <= i <= |images|
      invariant db.Valid()
      invariant db.images == old(db.images) + NewImageRows(blogId, images[..i])
      invariant forall k :: 0 <= k < |db.images| && db.images[k].blogId == blogId ==> db.images[k].order < i
      invariant db.users == old(db.users) && db.blogs == old(db.blogs) && db.favorites == old(db.favorites)
      invariant db.nextUserId == old(db.nextUserId) && db.nextBlogId == old(db.nextBlogId)
    {
      var row := Image(blogId, images[i], i);
      PairwiseAppend(db.images, row, ImagesInOrder);
      assert ReferencesValid(db.blogs, db.images + [row], db.favorites) by {
        assert forall k :: 0 <= k < |db.images| ==> (db.images + [row])[k] == db.images[k];
      }
      assert NewImageRows(blogId, images[..i + 1]) == NewImageRows(blogId, images[..i]) + [row];
      db.images := db.images + [row];
      i := i + 1;
    }
    assert images[..i] == images;
  }

  datatype CreateResult = NotCreator | Created(blogId: nat)
  {
    function Status(): nat
    {
      if Created? then 201 else 403
    }

    function Message(): string
    {
      if Created? then "Blog created successfully" else "Only creators can post blogs"
    }
  }

  /** `images && images.length > 0`: the images to insert, none when the field is missing. */
  function Submitted(images: Option<seq<string>>): seq<string>
  {
    if images.Some? then images.value else []
  }

  /**
   * POST /api/blogs.  Only a creator may post; the blog gets the next id,
   * the token's user as author and the current time, and its images are the
   * submitted ones by position.  Other blogs' images are untouched.
   */
  method CreateBlog(db: Database, user: Jwt.Claims, title: string, content: string, category: string,
                    images: Option<seq<string>>, now: int)
    returns (r: CreateResult)
    requires db.Valid()
    modifies db
    ensures db.Valid()
    ensures r.NotCreator? <==> user.userType != "creator"
    ensures r.NotCreator? ==> db.blogs == old(db.blogs) && db.images == old(db.images) && db.nextBlogId == old(db.nextBlogId)
    ensures r.Created? ==>
              && r.blogId == old(db.nextBlogId)
              && db.blogs == old(db.blogs) + [Blog(r.blogId, title, content, category, user.userId, now)]
              && db.nextBlogId == old(db.nextBlogId) + 1
              && db.images == old(db.images) + NewImageRows(r.blogId, Submitted(images))
              && BlogImages(db.images, r.blogId) == Submitted(images)
              && forall b :: b != r.blogId ==> BlogImages(db.images, b) == BlogImages(old(db.images), b)
    ensures db.users == old(db.users) && db.favorites == old(db.favorites) && db.nextUserId == old(db.nextUserId)
  {
    if user.userType != "creator" {
      return NotCreator;
    }
    var id := db.nextBlogId;
    var row := Blog(id, title, content, category, user.userId, now);
    PairwiseAppend(db.blogs, row, DistinctBlogs);
    ReferencesAfterBlogAppend(db.blogs, db.images, db.favorites, row);
    db.blogs := db.blogs + [row];
    db.nextBlogId := id + 1;
    InsertImages(db, id, Submitted(images));
    InsertedImagesReadBack(old(db.images), id, Submitted(images));
    forall b | b != id ensures BlogImages(db.images, b) == BlogImages(old(db.images), b) {
      AddedRowsOtherBlog(old(db.images), id, Submitted(images), b);
    }
    r := Created(id);
  }

  /** Rows added for one blog do not change another blog's images. */
  lemma AddedRowsOtherBlog(images: seq<Image>, blogId: nat, submitted: seq<string>, other: nat)
    requires other != blogId
    ensures BlogImages(images + NewImageRows(blogId, submitted), other) == BlogImages(images, other)
  {
    var added := NewImageRows(blogId, submitted);
    FilterAppend(images, added, ImageBlogOf, other, true);
    FilterNoMatch(added, ImageBlogOf, other);
    assert Filter(images, ImageBlogOf, other, true) + [] == Filter(images, ImageBlogOf, other, true);
  }

  datatype ChangeResult = NotFound | NotAuthor | Changed
  {
    function Status(): nat
    {
      match this
      case NotFound => 404
      case NotAuthor => 403
      case Changed => 200
    }

    /** The message of a refusal, or `done` ("Blog updated successfully", "Blog deleted successfully"). */
    function Message(done: string): string
    {
      match this
      case NotFound => "Blog not found"
      case NotAuthor => "Unauthorized"
      case Changed => done
    }
  }

  /** The check update and delete share: the blog must exist and belong to the requesting user. */
  function Authorize(blogs: seq<Blog>, blogId: nat, userId: nat): ChangeResult
  {
    match FindBlog(blogs, blogId)
    case None => NotFound
    case Some(b) => if b.authorId != userId then NotAuthor else Changed
  }

  /** With distinct blog ids, the requester passes exactly when the blog with that id is theirs. */
  lemma AuthorizeMeaning(blogs: seq<Blog>, blogId: nat, userId: nat)
    requires Pairwise(blogs, DistinctBlogs)
    ensures Authorize(blogs, blogId, userId) == NotFound <==> forall i :: 0 <= i < |blogs| ==> blogs[i].blogId != blogId
    ensures Authorize(blogs, blogId, userId) == Changed <==>
              exists i :: 0 <= i < |blogs| && blogs[i].blogId == blogId && blogs[i].authorId == userId
    ensures Authorize(blogs, blogId, userId) == NotAuthor <==>
              exists i :: 0 <= i < |blogs| && blogs[i].blogId == blogId && blogs[i].authorId != userId
  {
    forall i | 0 <= i < |blogs| && blogs[i].blogId == blogId ensures FindBlog(blogs, blogId) == Some(blogs[i]) {
      LookupDistinct(blogs, BlogIdOf, blogs[i]);
    }
  }

  /** `UPDATE blogs SET title = ?, content = ?, category = ? WHERE blog_id = ?`. */
  function Retitle(blogs: seq<Blog>, blogId: nat, title: string, content: string, category: string): (r: seq<Blog>)
    ensures |r| == |blogs|
    ensures forall i :: 0 <= i < |blogs| ==>
              && r[i].blogId == blogs[i].blogId && r[i].authorId == blogs[i].authorId
              && r[i].createdAt == blogs[i].createdAt
              && (blogs[i].blogId == blogId ==> r[i].title == title && r[i].content == content && r[i].category == category)
              && (blogs[i].blogId != blogId ==> r[i] == blogs[i])
  {
    seq(|blogs|, i requires 0 <= i < |blogs| =>
      if blogs[i].blogId == blogId then blogs[i].(title := title, content := content, category := category) else blogs[i])
  }

  /** After the update the blog is found with the new text, its id, author and time unchanged. */
  lemma {:induction false} RetitleEffect(blogs: seq<Blog>, blogId: nat, title: string, content: string, category: string)
    requires FindBlog(blogs, blogId).Some?
    ensures FindBlog(Retitle(blogs, blogId, title, content, category), blogId)
            == Some(FindBlog(blogs, blogId).value.(title := title, content := content, category := category))
  {
    var r := Retitle(blogs, blogId, title, content, category);
    if blogs[0].blogId != blogId {
      assert Retitle(blogs[1..], blogId, title, content, category) == r[1..];
      RetitleEffect(blogs[1..], blogId, title, content, category);
    }
  }

  /** The update changes no blog id, so every reference to a blog still finds one. */
  lemma RetitleKeepsReferences(blogs: seq<Blog>, images: seq<Image>, favorites: seq<Favorite>,
                               blogId: nat, title: string, content: string, category: string)
    requires ReferencesValid(blogs, images, favorites)
    ensures ReferencesValid(Retitle(blogs, blogId, title, content, category), images, favorites)
  {
    var r := Retitle(blogs, blogId, title, content, category);
    forall id | FindBlog(blogs, id).Some? ensures FindBlog(r, id).Some? {
      var k :| 0 <= k < |blogs| && blogs[k] == FindBlog(blogs, id).value;
      LookupIn(r, BlogIdOf, r[k]);
    }
  }

  /**
   * PUT /api/blogs/:id.  Only the author may update; the blog's text is
   * replaced and its images become exactly the submitted ones (an update
   * without images removes them all).  Other blogs are untouched.
   */
  method UpdateBlog(db: Database, user: Jwt.Claims, blogId: nat, title: string, content: string, category: string,
                    images: Option<seq<string>>)
    returns (r: ChangeResult)
    requires db.Valid()
    modifies db
    ensures db.Valid()
    ensures r == Authorize(old(db.blogs), blogId, user.userId)
    ensures !r.Changed? ==> db.blogs == old(db.blogs) && db.images == old(db.images)
    ensures r.Changed? ==>
              && db.blogs == Retitle(old(db.blogs), blogId, title, content, category)
              && db.images == Filter(old(db.images), ImageBlogOf, blogId, false) + NewImageRows(blogId, Submitted(images))
              && BlogImages(db.images, blogId) == Submitted(images)
              && forall b :: b != blogId ==> BlogImages(db.images, b) == BlogImages(old(db.images), b)
    ensures db.users == old(db.users) && db.favorites == old(db.favorites)
    ensures db.nextUserId == old(db.nextUserId) && db.nextBlogId == old(db.nextBlogId)
  {
    r := Authorize(db.blogs, blogId, user.userId);
    if !r.Changed? {
      return;
    }
    RetitleKeepsReferences(db.blogs, db.images, db.favorites, blogId, title, content, category);
    db.blogs := Retitle(db.blogs, blogId, title, content, category);
    assert blogId < db.nextBlogId by {
      assert FindBlog(old(db.blogs), blogId).value in old(db.blogs);
    }
    var kept := Filter(db.images, ImageBlogOf, blogId, false);
    FilterPairwise(old(db.images), ImageBlogOf, blogId, false, ImagesInOrder);
    ReferencesOfSubsets(db.blogs, db.images, db.favorites, kept, db.favorites);
    db.images := kept;
    InsertImages(db, blogId, Submitted(images));
    InsertedImagesReadBack(kept, blogId, Submitted(images));
    forall b | b != blogId ensures BlogImages(db.images, b) == BlogImages(old(db.images), b) {
      AddedRowsOtherBlog(kept, blogId, Submitted(images), b);
      FilterOtherKey(old(db.images), ImageBlogOf, blogId, b);
    }
  }

  /**
   * Deleting a blog row with its images and favourites keeps every table
   * invariant; afterwards the blog, its images and its favourites are gone,
   * and every other blog is kept.
   */
  lemma CascadeDelete(blogs: seq<Blog>, images: seq<Image>, favorites: seq<Favorite>, nextBlogId: nat, blogId: nat)
    requires BlogsValid(blogs, nextBlogId) && ImagesValid(images, nextBlogId) && FavoritesValid(favorites, nextBlogId)
    requires ReferencesValid(blogs, images, favorites)
    ensures var blogs', images', favorites' :=
              Filter(blogs, BlogIdOf, blogId, false), Filter(images, ImageBlogOf, blogId, false),
              Filter(favorites, FavoriteBlogOf, blogId, false);
            && BlogsValid(blogs', nextBlogId) && ImagesValid(images', nextBlogId) && FavoritesValid(favorites', nextBlogId)
            && ReferencesValid(blogs', images', favorites')
            && FindBlog(blogs', blogId).None?
            && BlogImages(images', blogId) == [] && FavoriteCount(favorites', blogId) == 0
            && forall b :: b in blogs && b.blogId != blogId ==> b in blogs'
  {
    var blogs', images', favorites' :=
      Filter(blogs, BlogIdOf, blogId, false), Filter(images, ImageBlogOf, blogId, false),
      Filter(favorites, FavoriteBlogOf, blogId, false);
    FilterPairwise(blogs, BlogIdOf, blogId, false, DistinctBlogs);
    FilterPairwise(images, ImageBlogOf, blogId, false, ImagesInOrder);
    FilterPairwise(favorites, FavoriteBlogOf, blogId, false, DistinctFavorites);
    FilterNoMatch(images', ImageBlogOf, blogId);
    FilterNoMatch(favorites', FavoriteBlogOf, blogId);
    assert ImageRowsOf(images', blogId) == [];
    ReferencesAfterDelete(blogs, images, favorites, blogId);
  }

  /**
   * DELETE /api/blogs/:id.  Only the author may delete; the blog row goes
   * and, through the foreign keys' ON DELETE CASCADE, its images and the
   * favourites that point at it.
   */
  method DeleteBlog(db: Database, user: Jwt.Claims, blogId: nat) returns (r: ChangeResult)
    requires db.Valid()
    modifies db
    ensures db.Valid()
    ensures r == Authorize(old(db.blogs), blogId, user.userId)
    ensures !r.Changed? ==> db.blogs == old(db.blogs) && db.images == old(db.images) && db.favorites == old(db.favorites)
    ensures r.Changed? ==>
              && db.blogs == Filter(old(db.blogs), BlogIdOf, blogId, false)
              && db.images == Filter(old(db.images), ImageBlogOf, blogId, false)
              && db.favorites == Filter(old(db.favorites), FavoriteBlogOf, blogId, false)
              && FindBlog(db.blogs, blogId).None?
              && BlogImages(db.images, blogId) == [] && FavoriteCount(db.favorites, blogId) == 0
              && forall b :: b in old(db.blogs) && b.blogId != blogId ==> b in db.blogs
    ensures db.users == old(db.users) && db.nextUserId == old(db.nextUserId) && db.nextBlogId == old(db.nextBlogId)
  {
    r := Authorize(db.blogs, blogId, user.userId);
    if !r.Changed? {
      return;
    }
    var blogs, images, favorites :=
      Filter(db.blogs, BlogIdOf, blogId, false), Filter(db.images, ImageBlogOf, blogId, false),
      Filter(db.favorites, FavoriteBlogOf, blogId, false);
    CascadeDelete(db.blogs, db.images, db.favorites, db.nextBlogId, blogId);
    assert TablesValid(db.users, blogs, images, favorites, db.nextUserId, db.nextBlogId);
    db.blogs, db.images, db.favorites := blogs, images, favorites;
  }
}
