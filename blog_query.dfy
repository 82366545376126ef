/**
 * The WHERE clause of the blog listing, built the way the route builds it:
 * starting from `WHERE 1=1`, each supplied filter appends one condition to
 * the query text and its values to the parameter list.  `Eval` binds the
 * parameters to the placeholders in order and evaluates the conditions
 * against one row of `blogs b JOIN users u`.
 */
module BlogQuery {
  import opened Wrappers
  import opened JsStrings
  import opened Store

  /**
   * The appended conditions: ` AND b.category = ?`,
   * ` AND (b.title LIKE ? OR u.first_name LIKE ? OR u.last_name LIKE ?)`
   * and ` AND b.author_id = ?`.
   */
  datatype Clause = CategoryIs | TitleOrAuthorNameLike | AuthorIs

  /** A bound parameter.  Pattern(t) is the LIKE string `%t%`. */
  datatype Param = Text(text: string) | Pattern(infix: string) | Id(id: nat)

  function Placeholders(c: Clause): nat
  {
    match c
    case CategoryIs => 1
    case TitleOrAuthorNameLike => 3
    case AuthorIs => 1
  }

  function PlaceholderCount(cs: seq<Clause>): nat
  {
    if cs == [] then 0 else PlaceholderCount(cs[..|cs| - 1]) + Placeholders(cs[|cs| - 1])
  }

  /** `value LIKE '%t%'`, read as plain substring containment. */
  predicate Like(value: string, p: Param)
  {
    p.Pattern? && Contains(value, p.infix)
  }

  /** One condition with its own parameters; None when a parameter is of the wrong kind. */
  function EvalClause(c: Clause, ps: seq<Param>, b: Blog, u: User): Option<bool>
    requires |ps| == Placeholders(c)
  {
    match c
    case CategoryIs =>
      if ps[0].Text? then Some(b.category == ps[0].text) else None
    case TitleOrAuthorNameLike =>
      if ps[0].Pattern? && ps[1].Pattern? && ps[2].Pattern?
      then Some(Like(b.title, ps[0]) || Like(u.firstName, ps[1]) || Like(u.lastName, ps[2]))
      else None
    case AuthorIs =>
      if ps[0].Id? then Some(b.authorId == ps[0].id) else None
  }

  function And(x: Option<bool>, y: Option<bool>): Option<bool>
  {
    if x.Some? && y.Some? then Some(x.value && y.value) else None
  }

  /** `1=1 AND c1 AND ... AND cn`, parameters bound left to right; None when they do not line up with the placeholders. */
  function Eval(cs: seq<Clause>, ps: seq<Param>, b: Blog, u: User): Option<bool>
  {
    if cs == [] then (if ps == [] then Some(true) else None)
    else
      var c := cs[|cs| - 1];
      var n := Placeholders(c);
      if |ps| < n then None
      else And(Eval(cs[..|cs| - 1], ps[..|ps| - n], b, u), EvalClause(c, ps[|ps| - n..], b, u))
  }

  /** What the filters mean: exact category, search text inside the title or either author name, exact author. */
  predicate Selected(b: Blog, u: User, category: Option<string>, search: Option<string>, authorId: Option<nat>)
  {
    CategoryHolds(b, category) && SearchHolds(b, u, search) && AuthorHolds(b, authorId)
  }

  /** Appending one condition with its parameters conjoins it with what was there. */
  lemma EvalAppend(cs: seq<Clause>, ps: seq<Param>, c: Clause, qs: seq<Param>, b: Blog, u: User)
    requires |qs| == Placeholders(c)
    ensures Eval(cs + [c], ps + qs, b, u) == And(Eval(cs, ps, b, u), EvalClause(c, qs, b, u))
  {
    assert (cs + [c])[..|cs|] == cs;
    assert (ps + qs)[..|ps|] == ps && (ps + qs)[|ps|..] == qs;
  }

  /** The conditions appended for the filters present, in the route's order. */
  function When(present: bool, c: Clause): seq<Clause>
  {
    if present then [c] else []
  }

  /** Each filter contributes its condition exactly when present, and none twice. */
  lemma ClauseListShape(x: bool, y: bool, z: bool)
    ensures var cs := When(x, CategoryIs) + When(y, TitleOrAuthorNameLike) + When(z, AuthorIs);
      && (CategoryIs in cs <==> x)
      && (TitleOrAuthorNameLike in cs <==> y)
      && (AuthorIs in cs <==> z)
      && |cs| <= 3
      && forall i, j :: 0 <= i < j < |cs| ==> cs[i] != cs[j]
  {
    var cs := When(x, CategoryIs) + When(y, TitleOrAuthorNameLike) + When(z, AuthorIs);
    assert forall k :: 0 <= k < |cs| && cs[k] == CategoryIs ==> k == 0;
    assert forall k :: 0 <= k < |cs| && cs[k] == AuthorIs ==> k == |cs| - 1;
  }

  predicate CategoryHolds(b: Blog, category: Option<string>)
  {
    Truthy(category) ==> b.category == category.value
  }

  predicate SearchHolds(b: Blog, u: User, search: Option<string>)
  {
    Truthy(search) ==> Contains(b.title, search.value) || Contains(u.firstName, search.value) || Contains(u.lastName, search.value)
  }

  predicate AuthorHolds(b: Blog, authorId: Option<nat>)
  {
    authorId.Some? ==> b.authorId == authorId.value
  }

  /** The parameters each filter pushes when present. */
  function CategoryParams(category: Option<string>): seq<Param>
  {
    if Truthy(category) then [Text(category.value)] else []
  }

  function SearchParams(search: Option<string>): seq<Param>
  {
    if Truthy(search) then [Pattern(search.value), Pattern(search.value), Pattern(search.value)] else []
  }

  function AuthorParams(authorId: Option<nat>): seq<Param>
  {
    if authorId.Some? then [Id(authorId.value)] else []
  }

  /** The parameters pushed for the filters present, in the route's order. */
  function ParamsFor(category: Option<string>, search: Option<string>, authorId: Option<nat>): seq<Param>
  {
    CategoryParams(category) + SearchParams(search) + AuthorParams(authorId)
  }

  function ClausesFor(category: Option<string>, search: Option<string>, authorId: Option<nat>): seq<Clause>
  {
    When(Truthy(category), CategoryIs) + When(Truthy(search), TitleOrAuthorNameLike) + When(authorId.Some?, AuthorIs)
  }

  /** The category filter conjoins its condition with the query built so far. */
  lemma CategoryStep(cs: seq<Clause>, ps: seq<Param>, category: Option<string>, b: Blog, u: User)
    requires Eval(cs, ps, b, u).Some?
    ensures Eval(cs + When(Truthy(category), CategoryIs), ps + CategoryParams(category), b, u)
            == Some(Eval(cs, ps, b, u).value && CategoryHolds(b, category))
  {
    if Truthy(category) {
      EvalAppend(cs, ps, CategoryIs, CategoryParams(category), b, u);
    } else {
      assert cs + [] == cs && ps + [] == ps;
    }
  }

  /** The search filter conjoins its condition with the query built so far. */
  lemma SearchStep(cs: seq<Clause>, ps: seq<Param>, search: Option<string>, b: Blog, u: User)
    requires Eval(cs, ps, b, u).Some?
    ensures Eval(cs + When(Truthy(search), TitleOrAuthorNameLike), ps + SearchParams(search), b, u)
            == Some(Eval(cs, ps, b, u).value && SearchHolds(b, u, search))
  {
    if Truthy(search) {
      EvalAppend(cs, ps, TitleOrAuthorNameLike, SearchParams(search), b, u);
    } else {
      assert cs + [] == cs && ps + [] == ps;
    }
  }

  /** The author filter conjoins its condition with the query built so far. */
  lemma AuthorStep(cs: seq<Clause>, ps: seq<Param>, authorId: Option<nat>, b: Blog, u: User)
    requires Eval(cs, ps, b, u).Some?
    ensures Eval(cs + When(authorId.Some?, AuthorIs), ps + AuthorParams(authorId), b, u)
            == Some(Eval(cs, ps, b, u).value && AuthorHolds(b, authorId))
  {
    if authorId.Some? {
      EvalAppend(cs, ps, AuthorIs, AuthorParams(authorId), b, u);
    } else {
      assert cs + [] == cs && ps + [] == ps;
    }
  }

  /**
   * The query built for the filters selects a joined row exactly when the
   * row meets every filter present.
   */
  lemma WhereMeaning(category: Option<string>, search: Option<string>, authorId: Option<nat>, b: Blog, u: User)
    ensures Eval(ClausesFor(category, search, authorId), ParamsFor(category, search, authorId), b, u)
            == Some(Selected(b, u, category, search, authorId))
  {
    var empty: seq<Clause> := [];
    var none: seq<Param> := [];
    CategoryStep(empty, none, category, b, u);
    assert empty + When(Truthy(category), CategoryIs) == When(Truthy(category), CategoryIs);
    assert none + CategoryParams(category) == CategoryParams(category);
    var c1, p1 := When(Truthy(category), CategoryIs), CategoryParams(category);
    SearchStep(c1, p1, search, b, u);
    var c2, p2 := c1 + When(Truthy(search), TitleOrAuthorNameLike), p1 + SearchParams(search);
    AuthorStep(c2, p2, authorId, b, u);
  }

  /** Appending a condition adds its placeholders to the count. */
  lemma CountWhen(cs: seq<Clause>, present: bool, c: Clause)
    ensures PlaceholderCount(cs + When(present, c)) == PlaceholderCount(cs) + (if present then Placeholders(c) else 0)
  {
    if present {
      assert (cs + [c])[..|cs|] == cs;
    } else {
      assert cs + [] == cs;
    }
  }

  /** The parameters pushed fill exactly the placeholders of the conditions appended. */
  lemma WhereArity(category: Option<string>, search: Option<string>, authorId: Option<nat>)
    ensures |ParamsFor(category, search, authorId)| == PlaceholderCount(ClausesFor(category, search, authorId))
  {
    var empty: seq<Clause> := [];
    CountWhen(empty, Truthy(category), CategoryIs);
    assert empty + When(Truthy(category), CategoryIs) == When(Truthy(category), CategoryIs);
    var c1 := When(Truthy(category), CategoryIs);
    CountWhen(c1, Truthy(search), TitleOrAuthorNameLike);
    var c2 := c1 + When(Truthy(search), TitleOrAuthorNameLike);
    CountWhen(c2, authorId.Some?, AuthorIs);
  }

  /**
   * Builds the conditions and parameters for the supplied filters, in the
   * order category, search, author.  The parameters line up with the
   * placeholders and the query selects exactly the rows the filters
   * describe.
   */
  method BuildWhere(category: Option<string>, search: Option<string>, authorId: Option<nat>)
    returns (clauses: seq<Clause>, params: seq<Param>)
    ensures clauses == ClausesFor(category, search, authorId) && params == ParamsFor(category, search, authorId)
    ensures |params| == PlaceholderCount(clauses)
    ensures forall b, u :: Eval(clauses, params, b, u) == Some(Selected(b, u, category, search, authorId))
    ensures (CategoryIs in clauses <==> Truthy(category))
    ensures (TitleOrAuthorNameLike in clauses <==> Truthy(search))
    ensures (AuthorIs in clauses <==> authorId.Some?)
    ensures |clauses| <= 3 && forall i, j :: 0 <= i < j < |clauses| ==> clauses[i] != clauses[j]
  {
    clauses, params := [], [];
    if Truthy(category) {
      clauses, params := clauses + [CategoryIs], params + [Text(category.value)];
    }
    assert clauses == When(Truthy(category), CategoryIs) && params == CategoryParams(category);
    if Truthy(search) {
      var term := Pattern(search.value);
      clauses, params := clauses + [TitleOrAuthorNameLike], params + [term, term, term];
    }
    assert clauses == When(Truthy(category), CategoryIs) + When(Truthy(search), TitleOrAuthorNameLike);
    assert params == CategoryParams(category) + SearchParams(search);
    if authorId.Some? {
      clauses, params := clauses + [AuthorIs], params + [Id(authorId.value)];
    }
    assert clauses == ClausesFor(category, search, authorId) && params == ParamsFor(category, search, authorId);
    forall b, u ensures Eval(clauses, params, b, u) == Some(Selected(b, u, category, search, authorId)) {
      WhereMeaning(category, search, authorId, b, u);
    }
    WhereArity(category, search, authorId);
    ClauseListShape(Truthy(category), Truthy(search), authorId.Some?);
  }
}
