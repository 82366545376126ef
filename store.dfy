/**
 * The relational store behind the three route modules: the users, blogs,
 * blog_images and favorites tables, each a sequence of rows in insertion
 * order, with auto-increment counters for the user and blog ids.
 *
 * Model assumptions about the schema (it is not part of this model):
 * blog_images.blog_id and favorites.blog_id are foreign keys to blogs with
 * ON DELETE CASCADE, and favorites has a unique key on (user_id, blog_id).
 */
module Store {
  import opened Wrappers
  import opened Tables
  import Bcrypt
  import Ordering

  datatype User = User(
    userId: nat, firstName: string, lastName: string, email: string,
    passwordHash: Bcrypt.PasswordHash, userType: string, category: Option<string>)

  datatype Blog = Blog(
    blogId: nat, title: string, content: string, category: string,
    authorId: nat, createdAt: int)

  datatype Image = Image(blogId: nat, data: string, order: nat)

  datatype Favorite = Favorite(userId: nat, blogId: nat, createdAt: int)

  // Column accessors, used as the keys of Filter, Lookup and SortBy.
  function UserIdOf(u: User): nat { u.userId }
  function EmailOf(u: User): string { u.email }
  function BlogIdOf(b: Blog): nat { b.blogId }
  function ImageBlogOf(r: Image): nat { r.blogId }
  function ImageOrderOf(r: Image): int { r.order }
  function FavoriteBlogOf(f: Favorite): nat { f.blogId }
  function FavoriteUserOf(f: Favorite): nat { f.userId }
  function FavoritePairOf(f: Favorite): (nat, nat) { (f.userId, f.blogId) }

  // Relations every pair of rows (earlier, later) of a table satisfies.
  function DistinctUsers(a: User, b: User): bool { a.userId != b.userId && a.email != b.email }
  function DistinctBlogs(a: Blog, b: Blog): bool { a.blogId != b.blogId }
  /** A blog's images appear in the table in increasing position. */
  function ImagesInOrder(a: Image, b: Image): bool { a.blogId == b.blogId ==> a.order < b.order }
  function DistinctFavorites(a: Favorite, b: Favorite): bool { FavoritePairOf(a) != FavoritePairOf(b) }

  ghost predicate UsersValid(users: seq<User>, nextUserId: nat)
  {
    (forall i :: 0 <= i < |users| ==> users[i].userId < nextUserId)
    && Pairwise(users, DistinctUsers)
  }

  ghost predicate BlogsValid(blogs: seq<Blog>, nextBlogId: nat)
  {
    (forall i :: 0 <= i < |blogs| ==> blogs[i].blogId < nextBlogId)
    && Pairwise(blogs, DistinctBlogs)
  }

  ghost predicate ImagesValid(images: seq<Image>, nextBlogId: nat)
  {
    (forall i :: 0 <= i < |images| ==> images[i].blogId < nextBlogId)
    && Pairwise(images, ImagesInOrder)
  }

  ghost predicate FavoritesValid(favorites: seq<Favorite>, nextBlogId: nat)
  {
    (forall i :: 0 <= i < |favorites| ==> favorites[i].blogId < nextBlogId)
    && Pairwise(favorites, DistinctFavorites)
  }

  /** The foreign keys: every image row and every favourite row names a stored blog. */
  ghost predicate ReferencesValid(blogs: seq<Blog>, images: seq<Image>, favorites: seq<Favorite>)
  {
    (forall i :: 0 <= i < |images| ==> FindBlog(blogs, images[i].blogId).Some?)
    && (forall i :: 0 <= i < |favorites| ==> FindBlog(blogs, favorites[i].blogId).Some?)
  }

  /** Appending a blog row keeps every reference to an earlier blog, and the new blog is found. */
  lemma ReferencesAfterBlogAppend(blogs: seq<Blog>, images: seq<Image>, favorites: seq<Favorite>, x: Blog)
    requires ReferencesValid(blogs, images, favorites)
    requires forall i :: 0 <= i < |blogs| ==> blogs[i].blogId != x.blogId
    ensures ReferencesValid(blogs + [x], images, favorites)
    ensures FindBlog(blogs + [x], x.blogId) == Some(x)
  {
    forall i | 0 <= i < |images| ensures FindBlog(blogs + [x], images[i].blogId).Some? {
      LookupAppend(blogs, x, BlogIdOf, images[i].blogId);
    }
    forall i | 0 <= i < |favorites| ensures FindBlog(blogs + [x], favorites[i].blogId).Some? {
      LookupAppend(blogs, x, BlogIdOf, favorites[i].blogId);
    }
    LookupAppendAbsent(blogs, BlogIdOf, x);
  }

  /** Rows drawn from tables whose references hold keep them. */
  lemma ReferencesOfSubsets(blogs: seq<Blog>, images: seq<Image>, favorites: seq<Favorite>,
                            images': seq<Image>, favorites': seq<Favorite>)
    requires ReferencesValid(blogs, images, favorites)
    requires forall x :: x in images' ==> x in images
    requires forall f :: f in favorites' ==> f in favorites
    ensures ReferencesValid(blogs, images', favorites')
  {
    forall i | 0 <= i < |images'| ensures FindBlog(blogs, images'[i].blogId).Some? {
      assert images'[i] in images;
      var k :| 0 <= k < |images| && images[k] == images'[i];
    }
    forall i | 0 <= i < |favorites'| ensures FindBlog(blogs, favorites'[i].blogId).Some? {
      assert favorites'[i] in favorites;
      var k :| 0 <= k < |favorites| && favorites[k] == favorites'[i];
    }
  }

  /** Deleting one blog's row leaves every other stored blog findable. */
  lemma FindAfterDelete(blogs: seq<Blog>, blogId: nat, id: nat)
    requires id != blogId && FindBlog(blogs, id).Some?
    ensures FindBlog(Filter(blogs, BlogIdOf, blogId, false), id).Some?
  {
    var b := FindBlog(blogs, id).value;
    var k :| 0 <= k < |blogs| && blogs[k] == b;
    LookupIn(Filter(blogs, BlogIdOf, blogId, false), BlogIdOf, b);
  }

  /** Deleting a blog together with its images and favourites keeps the other rows' references. */
  lemma ReferencesAfterDelete(blogs: seq<Blog>, images: seq<Image>, favorites: seq<Favorite>, blogId: nat)
    requires ReferencesValid(blogs, images, favorites)
    ensures ReferencesValid(Filter(blogs, BlogIdOf, blogId, false), Filter(images, ImageBlogOf, blogId, false),
                            Filter(favorites, FavoriteBlogOf, blogId, false))
  {
    var blogs', images', favorites' :=
      Filter(blogs, BlogIdOf, blogId, false), Filter(images, ImageBlogOf, blogId, false),
      Filter(favorites, FavoriteBlogOf, blogId, false);
    forall i | 0 <= i < |images'| ensures FindBlog(blogs', images'[i].blogId).Some? {
      var k :| 0 <= k < |images| && images[k] == images'[i];
      FindAfterDelete(blogs, blogId, images'[i].blogId);
    }
    forall i | 0 <= i < |favorites'| ensures FindBlog(blogs', favorites'[i].blogId).Some? {
      var k :| 0 <= k < |favorites| && favorites[k] == favorites'[i];
      FindAfterDelete(blogs, blogId, favorites'[i].blogId);
    }
  }

  /** The rows of user `userId`, if any. */
  function FindUser(users: seq<User>, userId: nat): Option<User>
  {
    Lookup(users, UserIdOf, userId)
  }

  function FindBlog(blogs: seq<Blog>, blogId: nat): Option<Blog>
  {
    Lookup(blogs, BlogIdOf, blogId)
  }

  /** `(SELECT COUNT(*) FROM favorites WHERE blog_id = ?)`. */
  function FavoriteCount(favorites: seq<Favorite>, blogId: nat): nat
  {
    |Filter(favorites, FavoriteBlogOf, blogId, true)|
  }

  /** `SELECT ... FROM blog_images WHERE blog_id = ? ORDER BY image_order`. */
  function ImageRowsOf(images: seq<Image>, blogId: nat): seq<Image>
  {
    Ordering.SortBy(Filter(images, ImageBlogOf, blogId, true), ImageOrderOf)
  }

  function DataOf(rows: seq<Image>): (r: seq<string>)
    ensures |r| == |rows| && forall i :: 0 <= i < |rows| ==> r[i] == rows[i].data
  {
    seq(|rows|, i requires 0 <= i < |rows| => rows[i].data)
  }

  /** The image payloads of a blog, by position. */
  function BlogImages(images: seq<Image>, blogId: nat): seq<string>
  {
    DataOf(ImageRowsOf(images, blogId))
  }

  /** The rows insert for a submitted image list: `images[i]` at position i. */
  function NewImageRows(blogId: nat, images: seq<string>): (r: seq<Image>)
    ensures |r| == |images|
    ensures forall i :: 0 <= i < |images| ==> r[i] == Image(blogId, images[i], i)
  {
    seq(|images|, i requires 0 <= i < |images| => Image(blogId, images[i], i))
  }

  /** By the table invariant a blog's image rows are already in position order, so ORDER BY image_order returns them in table order. */
  lemma ImageRowsInTableOrder(images: seq<Image>, nextBlogId: nat, blogId: nat)
    requires ImagesValid(images, nextBlogId)
    ensures ImageRowsOf(images, blogId) == Filter(images, ImageBlogOf, blogId, true)
  {
    var rows := Filter(images, ImageBlogOf, blogId, true);
    FilterPairwise(images, ImageBlogOf, blogId, true, ImagesInOrder);
    forall i, j | 0 <= i < j < |rows| ensures ImageOrderOf(rows[i]) <= ImageOrderOf(rows[j]) {
      assert ImagesInOrder(rows[i], rows[j]);
    }
    Ordering.SortBySortedIsIdentity(rows, ImageOrderOf);
  }

  /** Inserting `NewImageRows` for a blog that had no images makes its image list exactly the submitted one. */
  lemma {:induction false} InsertedImagesReadBack(images: seq<Image>, blogId: nat, submitted: seq<string>)
    requires forall i :: 0 <= i < |images| ==> images[i].blogId != blogId
    ensures BlogImages(images + NewImageRows(blogId, submitted), blogId) == submitted
  {
    var added := NewImageRows(blogId, submitted);
    FilterAppend(images, added, ImageBlogOf, blogId, true);
    FilterNoMatch(images, ImageBlogOf, blogId);
    FilterAllMatch(added, ImageBlogOf, blogId);
    assert Filter(images + added, ImageBlogOf, blogId, true) == added;
    assert Ordering.SortedBy(added, ImageOrderOf);
    Ordering.SortBySortedIsIdentity(added, ImageOrderOf);
  }

  /** The schema and its keys, over the tables and the auto-increment counters. */
  ghost predicate TablesValid(users: seq<User>, blogs: seq<Blog>, images: seq<Image>, favorites: seq<Favorite>,
                              nextUserId: nat, nextBlogId: nat)
  {
    UsersValid(users, nextUserId) && BlogsValid(blogs, nextBlogId)
    && ImagesValid(images, nextBlogId) && FavoritesValid(favorites, nextBlogId)
    && ReferencesValid(blogs, images, favorites)
  }

  class Database {
    var users: seq<User>
    var blogs: seq<Blog>
    var images: seq<Image>
    var favorites: seq<Favorite>
    var nextUserId: nat
    var nextBlogId: nat

    ghost predicate Valid()
      reads this
    {
      TablesValid(users, blogs, images, favorites, nextUserId, nextBlogId)
    }

    /** An empty database; auto-increment ids start at 1. */
    constructor ()
      ensures Valid()
      ensures users == [] && blogs == [] && images == [] && favorites == []
      ensures nextUserId == 1 && nextBlogId == 1
    {
      users, blogs, images, favorites := [], [], [], [];
      nextUserId, nextBlogId := 1, 1;
    }
  }
}
