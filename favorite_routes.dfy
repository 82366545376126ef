/**
 * The favourites routes: add, remove, list and check, for the user of the
 * decoded token.  The table's UNIQUE(user_id, blog_id) key makes a
 * duplicate insert fail; its foreign key to blogs makes an insert for a
 * missing blog fail.
 */
module FavoriteRoutes {
  import opened Wrappers
  import opened Tables
  import opened Store
  import Ordering
  import Jwt

  /**
   * GET /api/favorites/check/:blogId: `isFavorited` is whether
   * `SELECT * FROM favorites WHERE user_id = ? AND blog_id = ?` returns a row.
   */
  function IsFavorited(favorites: seq<Favorite>, userId: nat, blogId: nat): (isFavorited: bool)
    ensures isFavorited <==> exists i :: 0 <= i < |favorites| && favorites[i].userId == userId && favorites[i].blogId == blogId
  {
    var rows := Filter(favorites, FavoritePairOf, (userId, blogId), true);
    assert |rows| > 0 ==> FavoritePairOf(rows[0]) == (userId, blogId);
    |rows| > 0
  }

  datatype AddResult = AlreadyFavorited | ServerError | Added
  {
    function Status(): nat
    {
      match this
      case AlreadyFavorited => 400
      case ServerError => 500
      case Added => 201
    }

    function Message(): string
    {
      match this
      case AlreadyFavorited => "Already in favorites"
      case ServerError => "Server error"
      case Added => "Added to favorites"
    }
  }

  /** The insert a new favourite makes: the pair with the database clock. */
  function WithFavorite(favorites: seq<Favorite>, userId: nat, blogId: nat, now: int): seq<Favorite>
  {
    favorites + [Favorite(userId, blogId, now)]
  }

  /** `DELETE FROM favorites WHERE user_id = ? AND blog_id = ?`. */
  function WithoutFavorite(favorites: seq<Favorite>, userId: nat, blogId: nat): seq<Favorite>
  {
    Filter(favorites, FavoritePairOf, (userId, blogId), false)
  }

  /** Add then check gives true. */
  lemma AddedIsFavorited(favorites: seq<Favorite>, userId: nat, blogId: nat, now: int)
    ensures IsFavorited(WithFavorite(favorites, userId, blogId, now), userId, blogId)
  {
    var r := WithFavorite(favorites, userId, blogId, now);
    assert r[|favorites|] == Favorite(userId, blogId, now);
  }

  /** Remove then check gives false; every other pair stays, and nothing is added. */
  lemma RemovedIsNotFavorited(favorites: seq<Favorite>, userId: nat, blogId: nat)
    ensures !IsFavorited(WithoutFavorite(favorites, userId, blogId), userId, blogId)
    ensures forall f :: f in favorites && (f.userId, f.blogId) != (userId, blogId) ==> f in WithoutFavorite(favorites, userId, blogId)
    ensures forall f :: f in WithoutFavorite(favorites, userId, blogId) ==> f in favorites
  {
    var r := WithoutFavorite(favorites, userId, blogId);
    forall i | 0 <= i < |r| ensures (r[i].userId, r[i].blogId) != (userId, blogId) {
      assert FavoritePairOf(r[i]) != (userId, blogId);
    }
    forall f | f in favorites && (f.userId, f.blogId) != (userId, blogId) ensures f in r {
      var i :| 0 <= i < |favorites| && favorites[i] == f;
      assert FavoritePairOf(favorites[i]) != (userId, blogId);
    }
  }

  /** Removing a pair that is not there changes nothing. */
  lemma RemoveAbsentIsNoOp(favorites: seq<Favorite>, userId: nat, blogId: nat)
    requires !IsFavorited(favorites, userId, blogId)
    ensures WithoutFavorite(favorites, userId, blogId) == favorites
  {
    forall i | 0 <= i < |favorites| ensures FavoritePairOf(favorites[i]) != (userId, blogId) {
      assert !(favorites[i].userId == userId && favorites[i].blogId == blogId);
    }
    FilterNoMatch(favorites, FavoritePairOf, (userId, blogId));
  }

  /**
   * POST /api/favorites.  An existing pair is refused with 400 and the
   * table unchanged, so no pair is ever stored twice; a pair for a missing
   * blog fails the foreign key (500); otherwise the pair is added.
   */
  method AddFavorite(db: Database, user: Jwt.Claims, blogId: nat, now: int) returns (r: AddResult)
    requires db.Valid()
    modifies db
    ensures db.Valid()
    ensures r.AlreadyFavorited? <==> IsFavorited(old(db.favorites), user.userId, blogId)
    ensures r.ServerError? <==> !IsFavorited(old(db.favorites), user.userId, blogId) && FindBlog(db.blogs, blogId).None?
    ensures r.Added? ==> db.favorites == WithFavorite(old(db.favorites), user.userId, blogId, now)
    ensures !r.Added? ==> db.favorites == old(db.favorites)
    ensures !r.ServerError? ==> IsFavorited(db.favorites, user.userId, blogId)
    ensures db.users == old(db.users) && db.blogs == old(db.blogs) && db.images == old(db.images)
    ensures db.nextUserId == old(db.nextUserId) && db.nextBlogId == old(db.nextBlogId)
  {
    if IsFavorited(db.favorites, user.userId, blogId) {
      return AlreadyFavorited;
    }
    var blog := FindBlog(db.blogs, blogId);
    if blog.None? {
      return ServerError;
    }
    var row := Favorite(user.userId, blogId, now);
    forall i | 0 <= i < |db.favorites| ensures DistinctFavorites(db.favorites[i], row) {
      assert !(db.favorites[i].userId == user.userId && db.favorites[i].blogId == blogId);
    }
    PairwiseAppend(db.favorites, row, DistinctFavorites);
    AddedIsFavorited(db.favorites, user.userId, blogId, now);
    db.favorites := db.favorites + [row];
    r := Added;
  }

  /**
   * DELETE /api/favorites/:blogId.  Always succeeds: afterwards the pair is
   * absent and every other pair is as it was.
   */
  method RemoveFavorite(db: Database, user: Jwt.Claims, blogId: nat) returns (status: nat, message: string)
    requires db.Valid()
    modifies db
    ensures status == 200 && message == "Removed from favorites"
    ensures db.Valid()
    ensures db.favorites == WithoutFavorite(old(db.favorites), user.userId, blogId)
    ensures !IsFavorited(db.favorites, user.userId, blogId)
    ensures !IsFavorited(old(db.favorites), user.userId, blogId) ==> db.favorites == old(db.favorites)
    ensures db.users == old(db.users) && db.blogs == old(db.blogs) && db.images == old(db.images)
    ensures db.nextUserId == old(db.nextUserId) && db.nextBlogId == old(db.nextBlogId)
  {
    FilterPairwise(db.favorites, FavoritePairOf, (user.userId, blogId), false, DistinctFavorites);
    RemovedIsNotFavorited(db.favorites, user.userId, blogId);
    if !IsFavorited(db.favorites, user.userId, blogId) {
      RemoveAbsentIsNoOp(db.favorites, user.userId, blogId);
    }
    db.favorites := WithoutFavorite(db.favorites, user.userId, blogId);
    status, message := 200, "Removed from favorites";
  }

  /** One row of the favourites list: `b.*`, the author's name and when it was favourited. */
  datatype FavoriteEntry = FavoriteEntry(blog: Blog, firstName: string, lastName: string, favoritedAt: int)

  /** The joined row for one favourite: its blog and that blog's author, when both exist. */
  function EntryFor(f: Favorite, blogs: seq<Blog>, users: seq<User>): Option<FavoriteEntry>
  {
    match FindBlog(blogs, f.blogId)
    case None => None
    case Some(b) =>
      match FindUser(users, b.authorId)
      case None => None
      case Some(u) => Some(FavoriteEntry(b, u.firstName, u.lastName, f.createdAt))
  }

  /** `JOIN blogs b ON f.blog_id = b.blog_id JOIN users u ON b.author_id = u.user_id`, in table order. */
  function Entries(rows: seq<Favorite>, blogs: seq<Blog>, users: seq<User>): (r: seq<FavoriteEntry>)
    ensures |r| <= |rows|
    ensures forall i :: 0 <= i < |r| ==> exists k :: 0 <= k < |rows| && EntryFor(rows[k], blogs, users) == Some(r[i])
    ensures forall k :: 0 <= k < |rows| && EntryFor(rows[k], blogs, users).Some? ==> EntryFor(rows[k], blogs, users).value in r
  {
    if rows == [] then []
    else
      var rest := Entries(rows[1..], blogs, users);
      assert forall k :: 1 <= k < |rows| ==> rows[k] == rows[1..][k - 1];
      match EntryFor(rows[0], blogs, users)
      case None => rest
      case Some(e) => [e] + rest
  }

  /**
   * One more favourite row adds its entry, when it has one, after the
   * entries of the earlier rows: with `Entries([]) == []` this fixes the
   * joined list as one entry per producing row, in row order.
   */
  lemma {:induction false} EntriesAppend(rows: seq<Favorite>, f: Favorite, blogs: seq<Blog>, users: seq<User>)
    ensures Entries(rows + [f], blogs, users)
            == Entries(rows, blogs, users) + (if EntryFor(f, blogs, users).Some? then [EntryFor(f, blogs, users).value] else [])
  {
    if rows != [] {
      assert (rows + [f])[0] == rows[0] && (rows + [f])[1..] == rows[1..] + [f];
      EntriesAppend(rows[1..], f, blogs, users);
    } else {
      assert [f][1..] == [];
    }
  }

  /** `... WHERE f.user_id = ?`. */
  function FavoriteRows(favorites: seq<Favorite>, blogs: seq<Blog>, users: seq<User>, userId: nat): seq<FavoriteEntry>
  {
    Entries(Filter(favorites, FavoriteUserOf, userId, true), blogs, users)
  }

  /** `ORDER BY f.created_at DESC`. */
  function LatestFirst(e: FavoriteEntry): int
  {
    -e.favoritedAt
  }

  /** GET /api/favorites: the caller's favourited blogs, most recently favourited first. */
  function ListFavorites(favorites: seq<Favorite>, blogs: seq<Blog>, users: seq<User>, userId: nat): (r: seq<FavoriteEntry>)
    ensures multiset(r) == multiset(FavoriteRows(favorites, blogs, users, userId))
    ensures forall i, j :: 0 <= i < j < |r| ==> r[i].favoritedAt >= r[j].favoritedAt
  {
    var sorted := Ordering.SortBy(FavoriteRows(favorites, blogs, users, userId), LatestFirst);
    assert forall i, j :: 0 <= i < j < |sorted| ==> LatestFirst(sorted[i]) <= LatestFirst(sorted[j]);
    sorted
  }

  /**
   * Only the caller's own favourites are listed, each with its blog, the
   * blog's author and the time it was favourited; and each of theirs whose
   * blog and author exist is listed.
   */
  lemma ListedFavoritesAreTheCallers(favorites: seq<Favorite>, blogs: seq<Blog>, users: seq<User>, userId: nat,
                                      r: seq<FavoriteEntry>)
    requires multiset(r) == multiset(FavoriteRows(favorites, blogs, users, userId))
    ensures forall i :: 0 <= i < |r| ==>
              exists k :: 0 <= k < |favorites| && favorites[k].userId == userId
                          && EntryFor(favorites[k], blogs, users) == Some(r[i])
    ensures forall k :: 0 <= k < |favorites| && favorites[k].userId == userId && EntryFor(favorites[k], blogs, users).Some?
                        ==> EntryFor(favorites[k], blogs, users).value in r
  {
    var mine := Filter(favorites, FavoriteUserOf, userId, true);
    var rows := Entries(mine, blogs, users);
    forall i | 0 <= i < |r|
      ensures exists k :: 0 <= k < |favorites| && favorites[k].userId == userId
                          && EntryFor(favorites[k], blogs, users) == Some(r[i])
    {
      Ordering.InMultiset(r, rows, r[i]);
      var j :| 0 <= j < |rows| && rows[j] == r[i];
      var m :| 0 <= m < |mine| && EntryFor(mine[m], blogs, users) == Some(r[i]);
      var k :| 0 <= k < |favorites| && favorites[k] == mine[m];
    }
    forall k | 0 <= k < |favorites| && favorites[k].userId == userId && EntryFor(favorites[k], blogs, users).Some?
      ensures EntryFor(favorites[k], blogs, users).value in r
    {
      assert favorites[k] in mine;
      var m :| 0 <= m < |mine| && mine[m] == favorites[k];
      Ordering.InMultiset(r, rows, EntryFor(favorites[k], blogs, users).value);
    }
  }

  /** What an entry holds: the favourited blog, its author's name, and the favourite's time. */
  lemma EntryForMeaning(f: Favorite, blogs: seq<Blog>, users: seq<User>)
    ensures EntryFor(f, blogs, users).Some? <==>
              FindBlog(blogs, f.blogId).Some? && FindUser(users, FindBlog(blogs, f.blogId).value.authorId).Some?
    ensures EntryFor(f, blogs, users).Some? ==>
              && var e := EntryFor(f, blogs, users).value;
              && e.blog in blogs && e.blog.blogId == f.blogId && e.favoritedAt == f.createdAt
              && var u := FindUser(users, e.blog.authorId).value;
              && e.firstName == u.firstName && e.lastName == u.lastName
  {
  }
}
