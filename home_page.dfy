/**
 * The home page script: the query string the blog list is fetched with,
 * the hero text chosen for the active filter, and the pieces of each blog
 * card that are computed rather than copied.  `encode` stands for
 * `encodeURIComponent`.
 */
module HomePage {
  import opened Wrappers
  import opened JsStrings
  import opened Store
  import BlogRoutes
  import BlogQuery

  /** A JavaScript number that is truthy: present and not 0. */
  predicate NumberTruthy(v: Option<nat>)
  {
    v.Some? && v.value != 0
  }

  /** One `name=value` pair of the query string. */
  datatype QueryParam = QueryParam(name: string, value: string)

  function Render(p: QueryParam): string
  {
    p.name + "=" + p.value
  }

  function RenderAll(ps: seq<QueryParam>): (r: seq<string>)
    ensures |r| == |ps| && forall i :: 0 <= i < |ps| ==> r[i] == Render(ps[i])
  {
    seq(|ps|, i requires 0 <= i < |ps| => Render(ps[i]))
  }

  /** The pairs pushed for the filters present, in the order category, search, author. */
  function QueryParams(encode: string -> string, category: Option<string>, search: Option<string>, authorId: Option<nat>)
    : seq<QueryParam>
  {
    (if Truthy(category) then [QueryParam("category", category.value)] else [])
    + (if Truthy(search) then [QueryParam("search", encode(search.value))] else [])
    + (if NumberTruthy(authorId) then [QueryParam("authorId", DecimalString(authorId.value))] else [])
  }

  /** `queryParams.length > 0 ? '?' + queryParams.join('&') : ''`. */
  function QueryString(encode: string -> string, category: Option<string>, search: Option<string>, authorId: Option<nat>)
    : string
  {
    var ps := QueryParams(encode, category, search, authorId);
    if |ps| > 0 then "?" + Join(RenderAll(ps), "&") else ""
  }

  /** The query string built by `loadBlogs`, one push per filter present. */
  method BuildQueryString(encode: string -> string, category: Option<string>, search: Option<string>, authorId: Option<nat>)
    returns (queryString: string)
    ensures queryString == QueryString(encode, category, search, authorId)
  {
    var queryParams: seq<QueryParam> := [];
    if Truthy(category) {
      queryParams := queryParams + [QueryParam("category", category.value)];
    }
    if Truthy(search) {
      queryParams := queryParams + [QueryParam("search", encode(search.value))];
    }
    if NumberTruthy(authorId) {
      queryParams := queryParams + [QueryParam("authorId", DecimalString(authorId.value))];
    }
    assert queryParams == QueryParams(encode, category, search, authorId);
    queryString := if |queryParams| > 0 then "?" + Join(RenderAll(queryParams), "&") else "";
  }

  /** The query string is empty exactly when no filter is present, and otherwise starts with '?'. */
  lemma QueryStringEmptyIffNoFilter(encode: string -> string, category: Option<string>, search: Option<string>, authorId: Option<nat>)
    ensures QueryString(encode, category, search, authorId) == "" <==>
              !Truthy(category) && !Truthy(search) && !NumberTruthy(authorId)
    ensures QueryString(encode, category, search, authorId) != "" ==>
              QueryString(encode, category, search, authorId)[0] == '?'
  {
  }

  /** The position of each parameter name in the route's order. */
  function Rank(name: string): nat
  {
    if name == "category" then 0 else if name == "search" then 1 else 2
  }

  /** Every pushed pair is one of the three, pushed only for a truthy filter, with its value. */
  lemma QueryParamsFrom(encode: string -> string, category: Option<string>, search: Option<string>, authorId: Option<nat>)
    ensures var ps := QueryParams(encode, category, search, authorId);
      forall i :: 0 <= i < |ps| ==>
        || (ps[i].name == "category" && Truthy(category) && ps[i].value == category.value)
        || (ps[i].name == "search" && Truthy(search) && ps[i].value == encode(search.value))
        || (ps[i].name == "authorId" && NumberTruthy(authorId) && ps[i].value == DecimalString(authorId.value))
  {
  }

  /** Each filter contributes one pair exactly when its value is truthy, with its value: search encoded, the others as they are. */
  lemma QueryParamsPresence(encode: string -> string, category: Option<string>, search: Option<string>, authorId: Option<nat>)
    ensures var ps := QueryParams(encode, category, search, authorId);
      && ((exists i :: 0 <= i < |ps| && ps[i].name == "category") <==> Truthy(category))
      && ((exists i :: 0 <= i < |ps| && ps[i].name == "search") <==> Truthy(search))
      && ((exists i :: 0 <= i < |ps| && ps[i].name == "authorId") <==> NumberTruthy(authorId))
      && (forall i :: 0 <= i < |ps| && ps[i].name == "category" ==> ps[i].value == category.value)
      && (forall i :: 0 <= i < |ps| && ps[i].name == "search" ==> ps[i].value == encode(search.value))
      && (forall i :: 0 <= i < |ps| && ps[i].name == "authorId" ==> ps[i].value == DecimalString(authorId.value))
  {
    var ps := QueryParams(encode, category, search, authorId);
    QueryParamsFrom(encode, category, search, authorId);
    var nc := if Truthy(category) then 1 else 0;
    var ns := if Truthy(search) then 1 else 0;
    if Truthy(category) { assert ps[0].name == "category"; }
    if Truthy(search) { assert ps[nc].name == "search"; }
    if NumberTruthy(authorId) { assert ps[nc + ns].name == "authorId"; }
  }

  /** The pairs come in the order category, search, author. */
  lemma QueryParamsOrder(encode: string -> string, category: Option<string>, search: Option<string>, authorId: Option<nat>)
    ensures var ps := QueryParams(encode, category, search, authorId);
      forall i, j :: 0 <= i < j < |ps| ==> Rank(ps[i].name) < Rank(ps[j].name)
  {
    var ps := QueryParams(encode, category, search, authorId);
    var nc := if Truthy(category) then 1 else 0;
    var ns := if Truthy(search) then 1 else 0;
    assert forall i :: 0 <= i < |ps| ==> Rank(ps[i].name) == (if i < nc then 0 else if i < nc + ns then 1 else 2);
  }

  /** `content.substring(0, 150)`, then "..." when the content is longer. */
  function Excerpt(content: string): (r: string)
    ensures |r| <= 153
    ensures |content| <= 150 ==> r == content
    ensures |content| > 150 ==> |r| == 153 && StartsWith(content, r[..150]) && r[150..] == "..."
  {
    Prefix(content, 150) + (if |content| > 150 then "..." else "")
  }

  datatype Hero = Hero(title: string, subtitle: string)

  /** The hero text for the active filter: category, then search, then author, then the default. */
  function HeroFor(category: Option<string>, search: Option<string>, authorId: Option<nat>): Hero
  {
    if Truthy(category) then Hero(category.value + " Blogs", "Explore the latest blogs about " + category.value)
    else if Truthy(search) then Hero("Search Results", "Results for \"" + search.value + "\"")
    else if NumberTruthy(authorId) then Hero("My Blogs", "Manage your blog posts")
    else Hero("Welcome to Blog Space", "Explore blogs about Technology, Travel, and Environment")
  }

  /** A category hides any search or author filter; a search hides an author filter; with none, the default text. */
  lemma HeroPrecedence(category: Option<string>, search: Option<string>, authorId: Option<nat>)
    ensures Truthy(category) ==> HeroFor(category, search, authorId) == HeroFor(category, None, None)
    ensures !Truthy(category) && Truthy(search) ==> HeroFor(category, search, authorId) == HeroFor(None, search, None)
    ensures !Truthy(category) && !Truthy(search) ==> HeroFor(category, search, authorId) == HeroFor(None, None, authorId)
    ensures HeroFor(None, None, None).title == "Welcome to Blog Space"
  {
  }

  /** With a category filter the title starts with the category's name. */
  lemma HeroNamesCategory(category: Option<string>, search: Option<string>, authorId: Option<nat>)
    requires Truthy(category)
    ensures StartsWith(HeroFor(category, search, authorId).title, category.value)
  {
    var t := HeroFor(category, search, authorId).title;
    assert t[..|category.value|] == category.value;
  }

  /** After a load the hero changes only when some blog came back; otherwise the empty-list message shows. */
  function HeroAfterLoad(blogCount: nat, category: Option<string>, search: Option<string>, authorId: Option<nat>)
    : (r: Option<Hero>)
    ensures r.None? <==> blogCount == 0
    ensures r.Some? ==> r.value == HeroFor(category, search, authorId)
  {
    if blogCount == 0 then None else Some(HeroFor(category, search, authorId))
  }

  /** The author filter the server receives: the page sends `authorId` only when it is truthy. */
  function SentAuthorId(authorId: Option<nat>): (r: Option<nat>)
    ensures r.Some? <==> NumberTruthy(authorId)
    ensures r.Some? ==> r == authorId
  {
    if NumberTruthy(authorId) then authorId else None
  }

  /**
   * After `loadBlogs` fetches the listing for its filters, the hero keeps
   * its text exactly when no stored blog with an existing author meets those
   * filters; otherwise it shows the text for the filters.
   */
  lemma HeroKeptExactlyWhenNothingMatches(blogs: seq<Blog>, users: seq<User>, favorites: seq<Favorite>, images: seq<Image>,
                                          category: Option<string>, search: Option<string>, authorId: Option<nat>)
    ensures var listing := BlogRoutes.Listing(blogs, users, favorites, images, category, search, SentAuthorId(authorId));
            var hero := HeroAfterLoad(|listing|, category, search, authorId);
            && (hero.None? <==>
                  forall b :: b in blogs && FindUser(users, b.authorId).Some? ==>
                    !BlogQuery.Selected(b, FindUser(users, b.authorId).value, category, search, SentAuthorId(authorId)))
            && (hero.Some? ==> hero.value == HeroFor(category, search, authorId))
  {
    var sent := SentAuthorId(authorId);
    var listing := BlogRoutes.Listing(blogs, users, favorites, images, category, search, sent);
    if |listing| == 0 {
      forall b | b in blogs && FindUser(users, b.authorId).Some?
        ensures !BlogQuery.Selected(b, FindUser(users, b.authorId).value, category, search, sent)
      {
        if BlogQuery.Selected(b, FindUser(users, b.authorId).value, category, search, sent) {
          BlogRoutes.ListingComplete(blogs, users, favorites, images, category, search, sent, b);
        }
      }
    } else {
      BlogRoutes.ListingSound(blogs, users, favorites, images, category, search, sent);
      var b := listing[0].blog;
      assert b in blogs && FindUser(users, b.authorId).Some?;
      assert BlogQuery.Selected(b, FindUser(users, b.authorId).value, category, search, sent);
    }
  }

  /** `blog.favorite_count || 0`. */
  function DisplayedCount(favoriteCount: Option<nat>): (r: nat)
    ensures favoriteCount.Some? ==> r == favoriteCount.value
    ensures favoriteCount.None? ==> r == 0
  {
    if favoriteCount.Some? && favoriteCount.value != 0 then favoriteCount.value else 0
  }

  /** Every card of the listing shows the number of favourite rows of its blog. */
  lemma CardCountIsFavoriteRows(blogs: seq<Blog>, users: seq<User>, favorites: seq<Favorite>, images: seq<Image>,
                                category: Option<string>, search: Option<string>, authorId: Option<nat>)
    ensures var listing := BlogRoutes.Listing(blogs, users, favorites, images, category, search, authorId);
            forall i :: 0 <= i < |listing| ==>
              DisplayedCount(Some(listing[i].favoriteCount)) == FavoriteCount(favorites, listing[i].blog.blogId)
  {
    BlogRoutes.ListingSound(blogs, users, favorites, images, category, search, authorId);
  }
}
