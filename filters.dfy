/**
 * `RecipeFilter`: the query-string filters of the recipe list. Each filter
 * keeps the recipes of its input that pass, in their order; all of them
 * apply one after the other, after the parameters have been checked.
 */
module RecipeFilters {
  import opened Types
  import opened Models
  import opened Sequences

  /** `filter_is_favorited` and `filter_is_in_shopping_cart`, one over the
      favourites and one over the cart: with a true value and a signed-in
      user, the recipes that user has an entry for; otherwise the queryset
      itself. */
  function FilterByEntries(qs: seq<RecipeId>, value: bool, user: Requester, entries: set<Entry>): (r: seq<RecipeId>)
    ensures value && user.Member? ==> forall x :: x in r <==> x in qs && Entry(user.id, x) in entries
    ensures !(value && user.Member?) ==> r == qs
    ensures SubsequenceOf(r, qs)
    ensures user.Member? && (forall x :: x in qs ==> Entry(user.id, x) in entries) ==> r == qs
  {
    if value && user.Member? then Where(qs, (x: RecipeId) => Entry(user.id, x) in entries)
    else SubsequenceReflexive(qs); qs
  }

  /** The `author` number filter: the recipes whose author has that id. */
  function FilterAuthor(qs: seq<RecipeId>, author: int, recipes: map<RecipeId, Recipe>): (r: seq<RecipeId>)
    ensures forall x :: x in r <==> x in qs && x in recipes && recipes[x].author == author
    ensures SubsequenceOf(r, qs)
    ensures (forall x :: x in qs ==> x in recipes && recipes[x].author == author) ==> r == qs
  {
    Where(qs, (x: RecipeId) => x in recipes && recipes[x].author == author)
  }

  /** The tags whose slug was asked for. */
  function SelectedTags(slugs: seq<string>, tags: map<TagId, Tag>): set<TagId> {
    set t | t in tags && tags[t].slug in slugs
  }

  predicate KnownSlug(slug: string, tags: map<TagId, Tag>) {
    exists t :: t in tags && tags[t].slug == slug
  }

  /** The `tags` multiple-choice filter, not conjoined: the recipes carrying
      at least one of the given slugs, each once. An empty choice keeps
      everything. */
  function FilterTags(qs: seq<RecipeId>, slugs: seq<string>, tags: map<TagId, Tag>, recipes: map<RecipeId, Recipe>): (r: seq<RecipeId>)
    ensures |slugs| == 0 ==> r == qs
    ensures |slugs| > 0 ==> forall x :: x in r <==>
      x in qs && x in recipes && exists t :: t in recipes[x].tags && t in tags && tags[t].slug in slugs
    ensures SubsequenceOf(r, qs)
    ensures (forall x :: x in qs ==> x in recipes && exists t :: t in recipes[x].tags && t in tags && tags[t].slug in slugs) ==> r == qs
  {
    if |slugs| == 0 then SubsequenceReflexive(qs); qs
    else
      var selected := SelectedTags(slugs, tags);
      var r := Where(qs, (x: RecipeId) => x in recipes && recipes[x].tags * selected != {});
      assert forall x :: x in recipes ==>
        (recipes[x].tags * selected != {} <==> exists t :: t in recipes[x].tags && t in tags && tags[t].slug in slugs) by {
        forall x | x in recipes
          ensures recipes[x].tags * selected != {} <==> exists t :: t in recipes[x].tags && t in tags && tags[t].slug in slugs
        {
          if exists t :: t in recipes[x].tags && t in tags && tags[t].slug in slugs {
            var t :| t in recipes[x].tags && t in tags && tags[t].slug in slugs;
            assert t in recipes[x].tags * selected;
          }
        }
      }
      r
  }

  /** The author parameter as the number field reads it. */
  datatype AuthorParam = NoAuthor | AuthorNumber(n: int) | AuthorMalformed

  /** The filter parameters of one list request. A boolean flag that is
      absent reads as false. */
  datatype Query = Query(isFavorited: bool, isInShoppingCart: bool, author: AuthorParam, tags: seq<string>)

  /** The parameters are valid when the author is a number (or absent) and
      every slug names a tag. */
  predicate QueryValid(q: Query, tags: map<TagId, Tag>) {
    && !q.author.AuthorMalformed?
    && forall i :: 0 <= i < |q.tags| ==> KnownSlug(q.tags[i], tags)
  }

  /** The whole filter set: 400 for invalid parameters, otherwise each filter
      in declaration order. */
  function FilterRecipes(qs: seq<RecipeId>, q: Query, user: Requester, favorites: set<Entry>, cart: set<Entry>,
                         tags: map<TagId, Tag>, recipes: map<RecipeId, Recipe>): (r: Result<seq<RecipeId>, Status>)
    ensures r.Err? <==> !QueryValid(q, tags)
    ensures r.Err? ==> r.error == BadRequest
  {
    if !QueryValid(q, tags) then Err(BadRequest)
    else
      var a := FilterByEntries(qs, q.isFavorited, user, favorites);
      var b := FilterByEntries(a, q.isInShoppingCart, user, cart);
      var c := if q.author.AuthorNumber? then FilterAuthor(b, q.author.n, recipes) else b;
      Ok(FilterTags(c, q.tags, tags, recipes))
  }

  /** What one recipe must satisfy to stay in the list. */
  predicate Passes(x: RecipeId, q: Query, user: Requester, favorites: set<Entry>, cart: set<Entry>,
                   tags: map<TagId, Tag>, recipes: map<RecipeId, Recipe>) {
    && (q.isFavorited && user.Member? ==> Entry(user.id, x) in favorites)
    && (q.isInShoppingCart && user.Member? ==> Entry(user.id, x) in cart)
    && (q.author.AuthorNumber? ==> x in recipes && recipes[x].author == q.author.n)
    && (|q.tags| > 0 ==> x in recipes && exists t :: t in recipes[x].tags && t in tags && tags[t].slug in q.tags)
  }

  /** With valid parameters the list keeps, in order, exactly the recipes
      that pass every filter. */
  lemma FilterRecipesKeeps(qs: seq<RecipeId>, q: Query, user: Requester, favorites: set<Entry>, cart: set<Entry>,
                           tags: map<TagId, Tag>, recipes: map<RecipeId, Recipe>)
    requires QueryValid(q, tags)
    ensures var r := FilterRecipes(qs, q, user, favorites, cart, tags, recipes);
      && r.Ok?
      && SubsequenceOf(r.value, qs)
      && forall x :: x in r.value <==> x in qs && Passes(x, q, user, favorites, cart, tags, recipes)
  {
    var a := FilterByEntries(qs, q.isFavorited, user, favorites);
    var b := FilterByEntries(a, q.isInShoppingCart, user, cart);
    var c := if q.author.AuthorNumber? then FilterAuthor(b, q.author.n, recipes) else b;
    var d := FilterTags(c, q.tags, tags, recipes);
    SubsequenceTransitive(b, a, qs);
    SubsequenceReflexive(b);
    SubsequenceTransitive(c, b, qs);
    SubsequenceTransitive(d, c, qs);
  }

  /** A list whose every recipe passes the filters comes back unchanged. */
  lemma PassingKept(r: seq<RecipeId>, q: Query, user: Requester, favorites: set<Entry>, cart: set<Entry>,
                    tags: map<TagId, Tag>, recipes: map<RecipeId, Recipe>)
    requires QueryValid(q, tags)
    requires forall x :: x in r ==> Passes(x, q, user, favorites, cart, tags, recipes)
    ensures FilterRecipes(r, q, user, favorites, cart, tags, recipes) == Ok(r)
  {
    var a := FilterByEntries(r, q.isFavorited, user, favorites);
    assert a == r;
    var b := FilterByEntries(a, q.isInShoppingCart, user, cart);
    assert b == r;
    var c := if q.author.AuthorNumber? then FilterAuthor(b, q.author.n, recipes) else b;
    assert c == r;
    assert FilterTags(c, q.tags, tags, recipes) == r;
  }

  /** Filtering a filtered list again with the same parameters changes
      nothing. */
  lemma FilterRecipesIdempotent(qs: seq<RecipeId>, q: Query, user: Requester, favorites: set<Entry>, cart: set<Entry>,
                                tags: map<TagId, Tag>, recipes: map<RecipeId, Recipe>)
    requires QueryValid(q, tags)
    ensures var r := FilterRecipes(qs, q, user, favorites, cart, tags, recipes).value;
      FilterRecipes(r, q, user, favorites, cart, tags, recipes) == Ok(r)
  {
    var r := FilterRecipes(qs, q, user, favorites, cart, tags, recipes).value;
    FilterRecipesKeeps(qs, q, user, favorites, cart, tags, recipes);
    PassingKept(r, q, user, favorites, cart, tags, recipes);
  }
}
