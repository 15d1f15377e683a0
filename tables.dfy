/**
 * The database as values: every table of the recipe and user apps, the
 * invariants the model declarations impose on them, and each view's effect
 * on the tables as a function of the tables before it (the new tables and
 * the response status). There is no transaction around a recipe write, so
 * a failure half-way leaves the writes made before it.
 */
module StoreSpec {
  import opened Types
  import opened Strings
  import opened Models
  import opened Sequences
  import opened RecipeValidation
  import opened RecipeFields
  import opened ShoppingList
  import opened RecipeFilters
  import opened Permissions
  import opened UserSerializers

  datatype Tables = Tables(
    users: map<UserId, User>,
    nextUserId: nat,
    tags: map<TagId, Tag>,
    ingredients: map<IngredientId, Ingredient>,
    recipes: map<RecipeId, Recipe>,
    nextRecipeId: nat,
    rows: seq<RecipeIngredient>,
    favorites: set<Entry>,
    cart: set<Entry>,
    follows: set<Follow>)

  /** The declared constraints of all tables, and fresh ids above every key. */
  predicate TablesValid(t: Tables)
    ensures TablesValid(t) ==> t.nextUserId !in t.users && t.nextRecipeId !in t.recipes
  {
    && UsersValid(t.users)
    && TagsValid(t.tags)
    && RecipesValid(t.recipes, t.users, t.tags)
    && RowsValid(t.rows, t.recipes, t.ingredients)
    && EntriesValid(t.favorites, t.users, t.recipes)
    && EntriesValid(t.cart, t.users, t.recipes)
    && FollowsValid(t.follows, t.users)
    && (forall u :: u in t.users ==> u < t.nextUserId)
    && (forall r :: r in t.recipes ==> r < t.nextRecipeId)
  }

  /** An authenticated requester is a row of the user table. */
  predicate KnownRequester(t: Tables, requester: Requester) {
    requester.Member? ==> requester.id in t.users
  }

  // ---------------------------------------------------------------------------
  // Favourites and the shopping cart
  // ---------------------------------------------------------------------------

  datatype Relation = Favorites | Cart

  function Entries(t: Tables, rel: Relation): set<Entry> {
    if rel == Favorites then t.favorites else t.cart
  }

  function WithEntries(t: Tables, rel: Relation, es: set<Entry>): (u: Tables)
    ensures Entries(u, rel) == es
    ensures u == t.(favorites := u.favorites, cart := u.cart)
    ensures forall other :: other != rel ==> Entries(u, other) == Entries(t, other)
  {
    if rel == Favorites then t.(favorites := es) else t.(cart := es)
  }

  /** `favorite` and `shopping_cart` (POST): authentication, then the recipe
      lookup, then the duplicate check; only success writes, and it writes
      exactly the requester's pair. */
  function AddEntry(t: Tables, rel: Relation, requester: Requester, recipe: RecipeId): (r: (Tables, Status))
    ensures requester.Anonymous? ==> r == (t, Unauthorized)
    ensures requester.Member? && recipe !in t.recipes ==> r == (t, NotFound)
    ensures requester.Member? && recipe in t.recipes && Entry(requester.id, recipe) in Entries(t, rel) ==> r == (t, BadRequest)
    ensures requester.Member? && recipe in t.recipes && Entry(requester.id, recipe) !in Entries(t, rel) ==>
      r == (WithEntries(t, rel, Entries(t, rel) + {Entry(requester.id, recipe)}), Created)
  {
    if requester.Anonymous? then (t, Unauthorized)
    else if recipe !in t.recipes then (t, NotFound)
    else if Entry(requester.id, recipe) in Entries(t, rel) then (t, BadRequest)
    else (WithEntries(t, rel, Entries(t, rel) + {Entry(requester.id, recipe)}), Created)
  }

  /** `remove_favorite` and `remove_from_shopping_cart` (DELETE). */
  function RemoveEntry(t: Tables, rel: Relation, requester: Requester, recipe: RecipeId): (r: (Tables, Status))
    ensures requester.Anonymous? ==> r == (t, Unauthorized)
    ensures requester.Member? && recipe !in t.recipes ==> r == (t, NotFound)
    ensures requester.Member? && recipe in t.recipes && Entry(requester.id, recipe) !in Entries(t, rel) ==> r == (t, BadRequest)
    ensures requester.Member? && recipe in t.recipes && Entry(requester.id, recipe) in Entries(t, rel) ==>
      r == (WithEntries(t, rel, Entries(t, rel) - {Entry(requester.id, recipe)}), NoContent)
  {
    if requester.Anonymous? then (t, Unauthorized)
    else if recipe !in t.recipes then (t, NotFound)
    else if Entry(requester.id, recipe) !in Entries(t, rel) then (t, BadRequest)
    else (WithEntries(t, rel, Entries(t, rel) - {Entry(requester.id, recipe)}), NoContent)
  }

  /** `get_is_favorited` and `get_is_in_shopping_cart`. */
  function IsMarked(t: Tables, rel: Relation, ctx: Context, recipe: RecipeId): (b: bool)
    ensures ctx.NoRequest? || ctx.user.Anonymous? ==> !b
    ensures ctx.Request? && ctx.user.Member? ==> (b <==> Entry(ctx.user.id, recipe) in Entries(t, rel))
  {
    ctx.Request? && ctx.user.Member? && Entry(ctx.user.id, recipe) in Entries(t, rel)
  }

  // ---------------------------------------------------------------------------
  // Follow edges
  // ---------------------------------------------------------------------------

  /** `SubscribeViewSet.post`: authentication, the target lookup, the
      self-follow check, then the duplicate check; the new edge is written
      before the response is serialized, so a `recipes_limit` the strict
      copy raises on gives 500 with the edge kept. */
  function Subscribe(t: Tables, requester: Requester, target: UserId, limit: Option<string>): (r: (Tables, Status))
    ensures requester.Anonymous? ==> r == (t, Unauthorized)
    ensures requester.Member? && target !in t.users ==> r == (t, NotFound)
    ensures requester.Member? && target in t.users && target == requester.id ==> r == (t, BadRequest)
    ensures requester.Member? && target in t.users && target != requester.id && Follow(requester.id, target) in t.follows ==>
      r == (t, BadRequest)
    ensures requester.Member? && target in t.users && target != requester.id && Follow(requester.id, target) !in t.follows ==>
      r == (t.(follows := t.follows + {Follow(requester.id, target)}), if LimitRaises(limit) then ServerError else OK)
  {
    if requester.Anonymous? then (t, Unauthorized)
    else if target !in t.users then (t, NotFound)
    else if requester.id == target then (t, BadRequest)
    else if Follow(requester.id, target) in t.follows then (t, BadRequest)
    else (t.(follows := t.follows + {Follow(requester.id, target)}), if LimitRaises(limit) then ServerError else OK)
  }

  /** `SubscribeViewSet.delete`. */
  function Unsubscribe(t: Tables, requester: Requester, target: UserId): (r: (Tables, Status))
    ensures requester.Anonymous? ==> r == (t, Unauthorized)
    ensures requester.Member? && target !in t.users ==> r == (t, NotFound)
    ensures requester.Member? && target in t.users && Follow(requester.id, target) !in t.follows ==> r == (t, BadRequest)
    ensures requester.Member? && target in t.users && Follow(requester.id, target) in t.follows ==>
      r == (t.(follows := t.follows - {Follow(requester.id, target)}), NoContent)
  {
    if requester.Anonymous? then (t, Unauthorized)
    else if target !in t.users then (t, NotFound)
    else if Follow(requester.id, target) !in t.follows then (t, BadRequest)
    else (t.(follows := t.follows - {Follow(requester.id, target)}), NoContent)
  }

  /** The keys of `m` below `n`, in increasing order. */
  function KeysBelow<V>(n: nat, m: map<nat, V>): (r: seq<nat>)
    ensures forall x :: x in r <==> x < n && x in m
    ensures forall i, j :: 0 <= i < j < |r| ==> r[i] < r[j]
  {
    if n == 0 then []
    else
      var p := KeysBelow(n - 1, m);
      assert forall x :: x in p ==> x < n - 1;
      assert forall i :: 0 <= i < |p| ==> p[i] in p;
      p + (if n - 1 in m then [n - 1] else [])
  }

  function NameOf(users: map<UserId, User>, u: UserId): string {
    if u in users then users[u].username else ""
  }

  /** The users' default ordering: by username. */
  function ByUsername(users: map<UserId, User>): (UserId, UserId) -> bool {
    (a: UserId, b: UserId) => !Less(NameOf(users, b), NameOf(users, a))
  }

  lemma ByUsernameTotalPreorder(users: map<UserId, User>)
    ensures TotalPreorder(ByUsername(users))
  {
    var le := ByUsername(users);
    forall a: UserId, b: UserId ensures le(a, b) || le(b, a) {
      LessTotal(NameOf(users, a), NameOf(users, b));
      if Less(NameOf(users, a), NameOf(users, b)) {
        LessAsymmetric(NameOf(users, a), NameOf(users, b));
      }
    }
    forall a: UserId, b: UserId, c: UserId | le(a, b) && le(b, c) ensures le(a, c) {
      var x, y, z := NameOf(users, a), NameOf(users, b), NameOf(users, c);
      LessTotal(x, y);
      LessTotal(y, z);
      if x != y && y != z {
        LessTransitive(x, y, z);
        LessAsymmetric(x, z);
      } else if x == y && y != z {
        LessAsymmetric(y, z);
      } else if x != y {
        LessAsymmetric(x, y);
      }
    }
  }

  /** `SubscribeListView.get_queryset`: the users the requester follows, by
      username. */
  function Subscriptions(t: Tables, user: UserId): (r: seq<UserId>)
    requires forall u :: u in t.users ==> u < t.nextUserId
    ensures forall u :: u in r <==> u in t.users && Follow(user, u) in t.follows
    ensures SortedBy(r, ByUsername(t.users))
    ensures forall i, j :: 0 <= i < j < |r| ==> r[i] != r[j]
  {
    ByUsernameTotalPreorder(t.users);
    var ids := Where(KeysBelow(t.nextUserId, t.users), (u: UserId) => Follow(user, u) in t.follows);
    var r := SortBy(ids, ByUsername(t.users));
    DistinctWhere(KeysBelow(t.nextUserId, t.users), (u: UserId) => Follow(user, u) in t.follows);
    assert forall u :: u in r <==> u in ids by {
      forall u ensures u in r <==> u in ids {
        assert u in r <==> u in multiset(r);
        assert u in ids <==> u in multiset(ids);
      }
    }
    DistinctPermutation(ids, r);
    r
  }

  /** `SubscribeListView.get`: 401 for an anonymous requester; otherwise
      the followed users, each given to the strict subscription serializer,
      which raises (500) on a bad `recipes_limit` as soon as there is one
      user to serialize. */
  function SubscriptionList(t: Tables, requester: Requester, limit: Option<string>): (r: Result<seq<UserId>, Status>)
    requires forall u :: u in t.users ==> u < t.nextUserId
    ensures requester.Anonymous? ==> r == Err(Unauthorized)
    ensures requester.Member? ==> (r == Err(ServerError) <==> |Subscriptions(t, requester.id)| > 0 && LimitRaises(limit))
    ensures requester.Member? ==> r.Ok? || r == Err(ServerError)
    ensures r.Ok? ==> r.value == Subscriptions(t, requester.id)
  {
    if requester.Anonymous? then Err(Unauthorized)
    else
      var s := Subscriptions(t, requester.id);
      if |s| > 0 && LimitRaises(limit) then Err(ServerError) else Ok(s)
  }

  predicate Distinct(s: seq<nat>) {
    forall i, j :: 0 <= i < j < |s| ==> s[i] != s[j]
  }

  lemma {:induction false} DistinctWhere(s: seq<nat>, keep: nat -> bool)
    requires Distinct(s)
    ensures Distinct(Where(s, keep))
    decreases |s|
  {
    if |s| > 0 {
      DistinctWhere(s[1..], keep);
      if keep(s[0]) {
        assert s[0] !in s[1..];
        assert s[0] !in Where(s[1..], keep);
      }
    }
  }

  lemma {:induction false} DistinctPermutation(a: seq<nat>, b: seq<nat>)
    requires Distinct(a) && multiset(a) == multiset(b)
    ensures Distinct(b)
  {
    forall i, j | 0 <= i < j < |b| ensures b[i] != b[j] {
      if b[i] == b[j] {
        assert b == b[..i] + [b[i]] + b[i + 1..j] + [b[j]] + b[j + 1..];
        assert multiset(b)[b[i]] >= 2;
        MultiplicityInDistinct(a, b[i]);
      }
    }
  }

  lemma {:induction false} MultiplicityInDistinct(a: seq<nat>, x: nat)
    requires Distinct(a)
    ensures multiset(a)[x] <= 1
    decreases |a|
  {
    if |a| > 0 {
      assert a == [a[0]] + a[1..];
      MultiplicityInDistinct(a[1..], x);
      if a[0] == x {
        assert x !in a[1..];
      }
    }
  }

  // ---------------------------------------------------------------------------
  // Recipe-ingredient rows
  // ---------------------------------------------------------------------------

  /** The rows `create_ingredients` inserts for `items`, in order. */
  function RowsFor(recipe: RecipeId, items: seq<Item>): (rs: seq<RecipeIngredient>)
    ensures |rs| == |items|
    ensures forall k :: 0 <= k < |items| ==> rs[k] == RecipeIngredient(recipe, items[k].id, items[k].amount)
    ensures forall x :: x in rs ==> x.recipe == recipe
  {
    if |items| == 0 then [] else [RecipeIngredient(recipe, items[0].id, items[0].amount)] + RowsFor(recipe, items[1..])
  }

  /** How many leading items fit the amount column: the loop inserts these
      and fails on the next one. */
  function FitCount(items: seq<Item>): (n: nat)
    ensures n <= |items|
    ensures forall k :: 0 <= k < n ==> items[k].amount <= MaxPositiveInt
    ensures n < |items| ==> items[n].amount > MaxPositiveInt
  {
    if |items| == 0 || items[0].amount > MaxPositiveInt then 0 else 1 + FitCount(items[1..])
  }

  function IsRowOf(recipe: RecipeId): RecipeIngredient -> bool {
    (x: RecipeIngredient) => x.recipe == recipe
  }

  function IsRowNotOf(recipe: RecipeId): RecipeIngredient -> bool {
    (x: RecipeIngredient) => x.recipe != recipe
  }

  function IsRowIn(kept: map<RecipeId, Recipe>): RecipeIngredient -> bool {
    (x: RecipeIngredient) => x.recipe in kept
  }

  /** Appending the row of item `i` to the rows of the items before it. */
  lemma RowsForSnoc(recipe: RecipeId, items: seq<Item>, i: nat)
    requires i < |items|
    ensures RowsFor(recipe, items[..i + 1]) == RowsFor(recipe, items[..i]) + [RecipeIngredient(recipe, items[i].id, items[i].amount)]
  {
    assert forall k :: 0 <= k <= i ==> items[..i + 1][k] == items[k];
  }

  /** The rows of one recipe, in table order. */
  function RowsOf(recipe: RecipeId, rows: seq<RecipeIngredient>): seq<RecipeIngredient> {
    Where(rows, IsRowOf(recipe))
  }

  /** `RecipeIngredient.objects.filter(recipe=...).delete()`: the rows left. */
  function OtherRows(recipe: RecipeId, rows: seq<RecipeIngredient>): (rs: seq<RecipeIngredient>)
    ensures forall x :: x in rs <==> x in rows && x.recipe != recipe
  {
    Where(rows, IsRowNotOf(recipe))
  }

  /** The `create_ingredients` loop on the tables: the rows of the items up
      to the first amount the column cannot hold, and whether all went in. */
  function InsertRows(t: Tables, recipe: RecipeId, items: seq<Item>): (r: (Tables, bool))
    ensures r.1 <==> forall k :: 0 <= k < |items| ==> items[k].amount <= MaxPositiveInt
    ensures r.0 == t.(rows := t.rows + RowsFor(recipe, items[..FitCount(items)]))
  {
    var n := FitCount(items);
    (t.(rows := t.rows + RowsFor(recipe, items[..n])), n == |items|)
  }

  /** Replacing one recipe's rows by the rows of `items` makes them exactly
      its rows. */
  lemma RowsOfReplaced(recipe: RecipeId, rows: seq<RecipeIngredient>, items: seq<Item>)
    ensures RowsOf(recipe, OtherRows(recipe, rows) + RowsFor(recipe, items)) == RowsFor(recipe, items)
  {
    WhereConcat(OtherRows(recipe, rows), RowsFor(recipe, items), IsRowOf(recipe));
    WhereNone(OtherRows(recipe, rows), IsRowOf(recipe));
  }

  /** ... and leaves every other recipe's rows as they were. */
  lemma OtherRowsKept(recipe: RecipeId, other: RecipeId, rows: seq<RecipeIngredient>, items: seq<Item>)
    requires other != recipe
    ensures RowsOf(other, OtherRows(recipe, rows) + RowsFor(recipe, items)) == RowsOf(other, rows)
  {
    WhereConcat(OtherRows(recipe, rows), RowsFor(recipe, items), IsRowOf(other));
    WhereNone(RowsFor(recipe, items), IsRowOf(other));
    WhereWhere(rows, IsRowNotOf(recipe), IsRowOf(other));
  }

  /** Appending rows of a fresh recipe leaves each existing recipe's rows. */
  lemma RowsOfAppended(recipe: RecipeId, other: RecipeId, rows: seq<RecipeIngredient>, items: seq<Item>)
    requires other != recipe
    ensures RowsOf(other, rows + RowsFor(recipe, items)) == RowsOf(other, rows)
    ensures RowsOf(recipe, rows + RowsFor(recipe, items)) == RowsOf(recipe, rows) + RowsFor(recipe, items)
  {
    WhereConcat(rows, RowsFor(recipe, items), IsRowOf(other));
    WhereNone(RowsFor(recipe, items), IsRowOf(other));
    WhereConcat(rows, RowsFor(recipe, items), IsRowOf(recipe));
  }

  // ---------------------------------------------------------------------------
  // Recipe writes
  // ---------------------------------------------------------------------------

  function TagSet(ids: seq<TagId>): set<TagId> {
    set k | k in ids
  }

  predicate TagsKnown(t: Tables, ids: seq<TagId>) {
    forall k :: k in ids ==> k in t.tags
  }

  /** `RecipeSerializer.create` after `perform_create`: the checks, then the
      recipe row by the requester (an anonymous author cannot be assigned:
      500 before any write), then `tags.set` (an unknown tag id fails with
      the recipe row already written), then the rows one by one. */
  function CreateRecipe(t: Tables, requester: Requester, p: RecipePayload, now: int): (r: (Tables, Status))
    ensures r.0.users == t.users && r.0.follows == t.follows && r.0.favorites == t.favorites && r.0.cart == t.cart
    ensures r.1 == Created ==>
      && requester.Member?
      && r.0.recipes.Keys == t.recipes.Keys + {t.nextRecipeId}
      && r.0.recipes[t.nextRecipeId].author == requester.id
      && r.0.recipes[t.nextRecipeId].tags == TagSet(p.tags)
  {
    match CheckPayload(p, false, t.ingredients.Keys)
    case Err(s) => (t, s)
    case Ok(sc) =>
      if requester.Anonymous? then (t, ServerError)
      else
        var id := t.nextRecipeId;
        var rec := Recipe(requester.id, sc.name.value, sc.image.value, sc.text.value, sc.cookingTime.value, now, {});
        var t1 := t.(recipes := t.recipes[id := rec], nextRecipeId := id + 1);
        if !TagsKnown(t, p.tags) then (t1, ServerError)
        else
          var t2 := t1.(recipes := t1.recipes[id := rec.(tags := TagSet(p.tags))]);
          var (t3, complete) := InsertRows(t2, id, p.ingredients);
          (t3, if complete then Created else ServerError)
  }

  /** The scalar assignments of `update`: a field present in the request
      replaces the old value, an omitted one keeps it. */
  function Assign(before: Recipe, sc: Scalars): (after: Recipe)
    ensures after.author == before.author && after.pubDate == before.pubDate && after.tags == before.tags
    ensures after.name == (if sc.name.Some? then sc.name.value else before.name)
    ensures after.image == (if sc.image.Some? then sc.image.value else before.image)
    ensures after.text == (if sc.text.Some? then sc.text.value else before.text)
    ensures after.cookingTime == (if sc.cookingTime.Some? then sc.cookingTime.value else before.cookingTime)
  {
    before.(
      name := if sc.name.Some? then sc.name.value else before.name,
      image := if sc.image.Some? then sc.image.value else before.image,
      text := if sc.text.Some? then sc.text.value else before.text,
      cookingTime := if sc.cookingTime.Some? then sc.cookingTime.value else before.cookingTime)
  }

  function UpdateVerb(partial: bool): Method {
    if partial then PATCH else PUT
  }

  /** `update` (PUT, or PATCH when `partial`): the lookup, the object
      permission, the checks, then `tags.clear()` (written at once), then
      `tags.set`, the deletion of the recipe's rows, the new rows one by one,
      and last the save of the scalar fields. The author passed by
      `perform_update` is not used. */
  function UpdateRecipe(t: Tables, requester: Requester, id: RecipeId, p: RecipePayload, partial: bool): (r: (Tables, Status))
    ensures r.0.users == t.users && r.0.follows == t.follows && r.0.favorites == t.favorites && r.0.cart == t.cart
    ensures id !in t.recipes ==> r == (t, NotFound)
    ensures r.1 == OK ==>
      && id in t.recipes && requester == Member(t.recipes[id].author)
      && r.0.recipes.Keys == t.recipes.Keys
      && r.0.recipes[id].author == t.recipes[id].author
      && r.0.recipes[id].tags == TagSet(p.tags)
  {
    if id !in t.recipes then (t, NotFound)
    else
      match ObjectAccess(UpdateVerb(partial), t.recipes[id].author, requester)
      case Some(s) => (t, s)
      case None =>
        match CheckPayload(p, partial, t.ingredients.Keys)
        case Err(s) => (t, s)
        case Ok(sc) => ApplyUpdate(t, id, p.tags, p.ingredients, sc)
  }

  /** The writes of `update` once the checks pass, in their order; each
      failure keeps the writes before it. */
  function ApplyUpdate(t: Tables, id: RecipeId, tagIds: seq<TagId>, items: seq<Item>, sc: Scalars): (r: (Tables, Status))
    requires id in t.recipes
    ensures r.0.users == t.users && r.0.follows == t.follows && r.0.favorites == t.favorites && r.0.cart == t.cart
    ensures r.0.recipes.Keys == t.recipes.Keys && r.0.recipes[id].author == t.recipes[id].author
    ensures !TagsKnown(t, tagIds) ==> r == (t.(recipes := t.recipes[id := t.recipes[id].(tags := {})]), ServerError)
    ensures TagsKnown(t, tagIds) ==>
      && r.0 == t.(recipes := r.0.recipes, rows := OtherRows(id, t.rows) + RowsFor(id, items[..FitCount(items)]))
      && (r.1 == OK <==> FitCount(items) == |items|)
      && (r.1 != OK ==> r.1 == ServerError && r.0.recipes == t.recipes[id := t.recipes[id].(tags := TagSet(tagIds))])
      && (r.1 == OK ==> r.0.recipes == t.recipes[id := Assign(t.recipes[id], sc).(tags := TagSet(tagIds))])
  {
    var before := t.recipes[id];
    var t1 := t.(recipes := t.recipes[id := before.(tags := {})]);
    if !TagsKnown(t, tagIds) then (t1, ServerError)
    else
      var t2 := t1.(recipes := t1.recipes[id := before.(tags := TagSet(tagIds))]);
      var t3 := t2.(rows := OtherRows(id, t2.rows));
      var (t4, complete) := InsertRows(t3, id, items);
      if !complete then (t4, ServerError)
      else (t4.(recipes := t4.recipes[id := Assign(before, sc).(tags := TagSet(tagIds))]), OK)
  }

  /** Deleting a recipe and, by cascade, its rows, favourites and cart entries. */
  function RemoveRecipe(t: Tables, id: RecipeId): (u: Tables)
    ensures id !in u.recipes && u.recipes.Keys == t.recipes.Keys - {id}
    ensures forall x :: x in u.rows ==> x.recipe != id
    ensures forall e :: e in u.favorites ==> e.recipe != id
    ensures forall e :: e in u.cart ==> e.recipe != id
  {
    t.(recipes := RecipesWithout(t.recipes, id),
       rows := OtherRows(id, t.rows),
       favorites := EntriesWithout(t.favorites, id),
       cart := EntriesWithout(t.cart, id))
  }

  function RecipesWithout(recipes: map<RecipeId, Recipe>, id: RecipeId): map<RecipeId, Recipe> {
    map k | k in recipes && k != id :: recipes[k]
  }

  function EntriesWithout(entries: set<Entry>, id: RecipeId): set<Entry> {
    set e | e in entries && e.recipe != id
  }

  /** `destroy`: the lookup, the object permission, then the cascade. */
  function DestroyRecipe(t: Tables, requester: Requester, id: RecipeId): (r: (Tables, Status))
    ensures id !in t.recipes ==> r == (t, NotFound)
    ensures id in t.recipes && !HasObjectPermission(DELETE, t.recipes[id].author, requester) ==>
      r == (t, DeniedStatus(requester))
    ensures id in t.recipes && HasObjectPermission(DELETE, t.recipes[id].author, requester) ==>
      r == (RemoveRecipe(t, id), NoContent)
  {
    if id !in t.recipes then (t, NotFound)
    else
      match ObjectAccess(DELETE, t.recipes[id].author, requester)
      case Some(s) => (t, s)
      case None => (RemoveRecipe(t, id), NoContent)
  }

  /** Deleting a user and, by cascade, their recipes (with those recipes'
      rows and entries), their favourites and cart entries, and every follow
      edge at either end. */
  function DeleteUser(t: Tables, u: UserId): (r: Tables)
    ensures r.users.Keys == t.users.Keys - {u}
    ensures forall k :: k in r.recipes ==> r.recipes[k].author != u
    ensures forall e :: e in r.favorites ==> e.user != u
    ensures forall e :: e in r.cart ==> e.user != u
    ensures forall f :: f in r.follows ==> f.user != u && f.follower != u
  {
    var keep := RecipesNotBy(t.recipes, u);
    t.(users := UsersWithout(t.users, u),
       recipes := keep,
       rows := Where(t.rows, IsRowIn(keep)),
       favorites := EntriesKept(t.favorites, u, keep),
       cart := EntriesKept(t.cart, u, keep),
       follows := FollowsWithout(t.follows, u))
  }

  function UsersWithout(users: map<UserId, User>, u: UserId): map<UserId, User> {
    map v | v in users && v != u :: users[v]
  }

  function RecipesNotBy(recipes: map<RecipeId, Recipe>, u: UserId): map<RecipeId, Recipe> {
    map k | k in recipes && recipes[k].author != u :: recipes[k]
  }

  function EntriesKept(entries: set<Entry>, u: UserId, kept: map<RecipeId, Recipe>): set<Entry> {
    set e | e in entries && e.user != u && e.recipe in kept
  }

  function FollowsWithout(follows: set<Follow>, u: UserId): set<Follow> {
    set f | f in follows && f.user != u && f.follower != u
  }

  /** Whether a registered user already has the username or the email. */
  predicate Taken(users: map<UserId, User>, username: string, email: string) {
    exists v :: v in users && (users[v].username == username || users[v].email == email)
  }

  /** User creation through the user serializer: every character field trims
      its value first and refuses a blank one (all five are required), then
      the username and the email must be unique, then the row is written
      with the hash of the trimmed password. */
  function RegisterUser(t: Tables, username: string, email: string, firstName: string, lastName: string,
                        password: string, hash: string -> string): (r: (Tables, Status))
    ensures r.1 == BadRequest || r.1 == Created
    ensures r.1 == BadRequest ==> r.0 == t
    ensures r.1 == Created ==>
      && r.0.users.Keys == t.users.Keys + {t.nextUserId}
      && r.0.users[t.nextUserId].username == Strip(username) != ""
      && r.0.users[t.nextUserId].email == Strip(email) != ""
  {
    var u, e, f, l, p := Strip(username), Strip(email), Strip(firstName), Strip(lastName), Strip(password);
    if u == "" || e == "" || f == "" || l == "" || p == "" then (t, BadRequest)
    else if Taken(t.users, u, e) then (t, BadRequest)
    else
      (t.(users := t.users[t.nextUserId := User(u, e, f, l, hash(p))],
          nextUserId := t.nextUserId + 1), Created)
  }

  // ---------------------------------------------------------------------------
  // Reads
  // ---------------------------------------------------------------------------

  function PubOf(recipes: map<RecipeId, Recipe>, r: RecipeId): int {
    if r in recipes then recipes[r].pubDate else 0
  }

  /** The recipes' default ordering: newest `pub_date` first. */
  function NewestFirst(recipes: map<RecipeId, Recipe>): (RecipeId, RecipeId) -> bool {
    (a: RecipeId, b: RecipeId) => PubOf(recipes, a) >= PubOf(recipes, b)
  }

  /** `Recipe.objects.all()`: every recipe, newest first. */
  function Listing(t: Tables): (r: seq<RecipeId>)
    requires forall k :: k in t.recipes ==> k < t.nextRecipeId
    ensures forall x :: x in r <==> x in t.recipes
    ensures SortedBy(r, NewestFirst(t.recipes))
  {
    var ids := KeysBelow(t.nextRecipeId, t.recipes);
    var r := SortBy(ids, NewestFirst(t.recipes));
    assert forall x :: x in r <==> x in ids by {
      forall x ensures x in r <==> x in ids {
        assert x in r <==> x in multiset(r);
        assert x in ids <==> x in multiset(ids);
      }
    }
    r
  }

  /** The recipe list: the listing through the filter set. */
  function RecipeList(t: Tables, requester: Requester, q: Query): (r: Result<seq<RecipeId>, Status>)
    requires forall k :: k in t.recipes ==> k < t.nextRecipeId
    ensures r.Err? <==> !QueryValid(q, t.tags)
    ensures r.Err? ==> r.error == BadRequest
  {
    FilterRecipes(Listing(t), q, requester, t.favorites, t.cart, t.tags, t.recipes)
  }

  /** `obj.recipes.all()`: one author's recipes, newest first. */
  function AuthorRecipes(t: Tables, author: UserId): (r: seq<RecipeId>)
    requires forall k :: k in t.recipes ==> k < t.nextRecipeId
    ensures forall x :: x in r <==> x in t.recipes && t.recipes[x].author == author
  {
    FilterAuthor(Listing(t), author, t.recipes)
  }

  /** `download_shopping_cart`: 401 for an anonymous requester, otherwise
      the report of the cart's aggregated ingredients. */
  function DownloadCart(t: Tables, requester: Requester, d: Date): (r: Result<Download, Status>)
    ensures r.Err? <==> requester.Anonymous?
    ensures r.Err? ==> r.error == Unauthorized
    ensures r.Ok? ==> r.value.filename == NameOf(t.users, requester.id) + "_shopping_list.txt"
  {
    if requester.Anonymous? then Err(Unauthorized)
    else
      var username := NameOf(t.users, requester.id);
      var filename := username + "_shopping_list.txt";
      Ok(Download(filename, "attachment; filename=" + filename,
                  Report(username, d, Aggregate(CartLines(requester.id, t.rows, t.cart, t.ingredients)))))
  }

  // ---------------------------------------------------------------------------
  // Properties: favourites, cart and follows
  // ---------------------------------------------------------------------------

  lemma AddEntryPreservesValid(t: Tables, rel: Relation, requester: Requester, recipe: RecipeId)
    requires TablesValid(t) && KnownRequester(t, requester)
    ensures TablesValid(AddEntry(t, rel, requester, recipe).0)
  {
  }

  lemma RemoveEntryPreservesValid(t: Tables, rel: Relation, requester: Requester, recipe: RecipeId)
    requires TablesValid(t)
    ensures TablesValid(RemoveEntry(t, rel, requester, recipe).0)
  {
  }

  /** Adding and then removing the same pair restores the tables. */
  lemma AddThenRemove(t: Tables, rel: Relation, user: UserId, recipe: RecipeId)
    requires recipe in t.recipes && Entry(user, recipe) !in Entries(t, rel)
    ensures AddEntry(t, rel, Member(user), recipe).1 == Created
    ensures RemoveEntry(AddEntry(t, rel, Member(user), recipe).0, rel, Member(user), recipe) == (t, NoContent)
  {
    var u := AddEntry(t, rel, Member(user), recipe).0;
    assert Entries(u, rel) - {Entry(user, recipe)} == Entries(t, rel);
  }

  /** Removing and then adding the same pair restores the tables. */
  lemma RemoveThenAdd(t: Tables, rel: Relation, user: UserId, recipe: RecipeId)
    requires recipe in t.recipes && Entry(user, recipe) in Entries(t, rel)
    ensures RemoveEntry(t, rel, Member(user), recipe).1 == NoContent
    ensures AddEntry(RemoveEntry(t, rel, Member(user), recipe).0, rel, Member(user), recipe) == (t, Created)
  {
    var u := RemoveEntry(t, rel, Member(user), recipe).0;
    assert Entries(u, rel) + {Entry(user, recipe)} == Entries(t, rel);
  }

  /** A second add of the same pair is refused and writes nothing; the
      recipe then shows as marked for the requester. */
  lemma AddTwice(t: Tables, rel: Relation, user: UserId, recipe: RecipeId, verb: Method)
    requires AddEntry(t, rel, Member(user), recipe).1 == Created
    ensures var u := AddEntry(t, rel, Member(user), recipe).0;
      && AddEntry(u, rel, Member(user), recipe) == (u, BadRequest)
      && IsMarked(u, rel, Request(verb, Member(user)), recipe)
  {
  }

  /** Adding to one relation leaves the other one, and every other table. */
  lemma AddEntryFrame(t: Tables, rel: Relation, requester: Requester, recipe: RecipeId)
    ensures var u := AddEntry(t, rel, requester, recipe).0;
      && u == t.(favorites := u.favorites, cart := u.cart)
      && forall other :: other != rel ==> Entries(u, other) == Entries(t, other)
  {
  }

  lemma SubscribePreservesValid(t: Tables, requester: Requester, target: UserId, limit: Option<string>)
    requires TablesValid(t) && KnownRequester(t, requester)
    ensures TablesValid(Subscribe(t, requester, target, limit).0)
  {
  }

  lemma UnsubscribePreservesValid(t: Tables, requester: Requester, target: UserId)
    requires TablesValid(t)
    ensures TablesValid(Unsubscribe(t, requester, target).0)
  {
  }

  /** Following oneself is refused whatever edges exist. */
  lemma SelfFollowRejected(t: Tables, user: UserId)
    requires user in t.users
    ensures forall limit :: Subscribe(t, Member(user), user, limit) == (t, BadRequest)
  {
  }

  /** Subscribing and then unsubscribing restores the tables; between the
      two the target is among the requester's subscriptions. */
  lemma SubscribeThenUnsubscribe(t: Tables, user: UserId, target: UserId, limit: Option<string>)
    requires TablesValid(t) && user in t.users
    requires Subscribe(t, Member(user), target, limit).1 in {OK, ServerError}
    ensures var u := Subscribe(t, Member(user), target, limit).0;
      && target in Subscriptions(u, user)
      && target !in Subscriptions(t, user)
      && Unsubscribe(u, Member(user), target) == (t, NoContent)
  {
    var u := Subscribe(t, Member(user), target, limit).0;
    assert u.follows - {Follow(user, target)} == t.follows;
  }

  /** A new follow's status is the subscription serializer's verdict on
      the target, whose recipes are read after the edge is written: 200 when
      it serializes, 500 when the limit makes it raise; the edge is written
      either way. */
  lemma SubscribeResponse(t: Tables, user: UserId, target: UserId, limit: Option<string>)
    requires TablesValid(t) && user in t.users && target in t.users && user != target
    requires Follow(user, target) !in t.follows
    ensures var (u, status) := Subscribe(t, Member(user), target, limit);
      && u.follows == t.follows + {Follow(user, target)}
      && (status == OK || status == ServerError)
      && (status == ServerError <==>
          SubscriptionRepresentation(target, u.users[target], Request(POST, Member(user)), u.follows,
                                     AuthorRecipes(u, target), limit).Err?)
  {
  }

  /** A bad limit on the follow of `abc` answers 500 and still keeps the
      edge; unfollowing afterwards answers 204. */
  lemma SubscribeBadLimitKeepsEdge(t: Tables, user: UserId, target: UserId)
    requires TablesValid(t) && user in t.users && target in t.users && user != target
    requires Follow(user, target) !in t.follows
    ensures var (u, status) := Subscribe(t, Member(user), target, Some("abc"));
      && status == ServerError
      && Follow(user, target) in u.follows
      && Unsubscribe(u, Member(user), target).1 == NoContent
  {
    assert ParseInt("abc").None? by {
      assert Strip("abc") == "abc";
      assert !AllDigits("abc") by {
        assert !IsDigit("abc"[0]);
      }
    }
  }

  /** A limit beyond the `bigint` range answers 500 on a new follow, with
      the edge kept, however few recipes the target has. */
  lemma SubscribeHugeLimit(t: Tables, user: UserId, target: UserId, n: nat)
    requires user in t.users && target in t.users && user != target
    requires Follow(user, target) !in t.follows
    requires n > MaxBigInt
    ensures var (u, status) := Subscribe(t, Member(user), target, Some(NatToString(n)));
      status == ServerError && u.follows == t.follows + {Follow(user, target)}
  {
    ParseIntRoundTrip(n);
  }

  /** The list answers 500 exactly when some followed user's
      representation raises, and otherwise every listed user serializes. */
  lemma SubscriptionListServes(t: Tables, user: UserId, limit: Option<string>)
    requires TablesValid(t) && user in t.users
    ensures var r := SubscriptionList(t, Member(user), limit);
      var ctx := Request(GET, Member(user));
      && (r.Err? <==> (exists v :: v in Subscriptions(t, user) &&
                         SubscriptionRepresentation(v, t.users[v], ctx, t.follows, AuthorRecipes(t, v), limit).Err?))
      && (r.Ok? ==> (forall v :: v in r.value ==>
                      v in t.users && SubscriptionRepresentation(v, t.users[v], ctx, t.follows, AuthorRecipes(t, v), limit).Ok?))
  {
    var s := Subscriptions(t, user);
    var ctx := Request(GET, Member(user));
    var r := SubscriptionList(t, Member(user), limit);
    if LimitRaises(limit) && |s| > 0 {
      assert r.Err?;
      var v := s[0];
      assert v in s && v in t.users;
      assert SubscriptionRepresentation(v, t.users[v], ctx, t.follows, AuthorRecipes(t, v), limit).Err?;
    } else {
      assert r == Ok(s);
      forall v | v in s
        ensures v in t.users && SubscriptionRepresentation(v, t.users[v], ctx, t.follows, AuthorRecipes(t, v), limit).Ok?
      {
      }
    }
  }

  // ---------------------------------------------------------------------------
  // Properties: recipe rows
  // ---------------------------------------------------------------------------

  lemma {:induction false} RowsForValid(recipe: RecipeId, items: seq<Item>, recipes: map<RecipeId, Recipe>,
                                        ingredients: map<IngredientId, Ingredient>)
    requires recipe in recipes
    requires forall k :: 0 <= k < |items| ==> items[k].id in ingredients && 0 <= items[k].amount <= MaxPositiveInt
    ensures RowsValid(RowsFor(recipe, items), recipes, ingredients)
    decreases |items|
  {
    if |items| > 0 {
      RowsForValid(recipe, items[1..], recipes, ingredients);
    }
  }

  lemma RowsValidConcat(a: seq<RecipeIngredient>, b: seq<RecipeIngredient>, recipes: map<RecipeId, Recipe>,
                        ingredients: map<IngredientId, Ingredient>)
    requires RowsValid(a, recipes, ingredients) && RowsValid(b, recipes, ingredients)
    ensures RowsValid(a + b, recipes, ingredients)
  {
  }

  /** The rows the loop writes for an accepted payload are valid rows of
      `recipe`. */
  lemma InsertedRowsValid(t: Tables, recipe: RecipeId, p: RecipePayload, partial: bool, recipes: map<RecipeId, Recipe>)
    requires CheckPayload(p, partial, t.ingredients.Keys).Ok? && recipe in recipes
    ensures RowsValid(RowsFor(recipe, p.ingredients[..FitCount(p.ingredients)]), recipes, t.ingredients)
  {
    AcceptedPayload(p, partial, t.ingredients.Keys);
    var n := FitCount(p.ingredients);
    RowsForValid(recipe, p.ingredients[..n], recipes, t.ingredients);
  }

  /** A fresh id has no rows yet. */
  lemma FreshRecipeNoRows(t: Tables)
    requires TablesValid(t)
    ensures RowsOf(t.nextRecipeId, t.rows) == []
  {
    WhereNone(t.rows, IsRowOf(t.nextRecipeId));
  }

  // ---------------------------------------------------------------------------
  // Properties: create
  // ---------------------------------------------------------------------------

  /** A refused payload, or an anonymous author, writes nothing. */
  lemma CreateRejectsBeforeWriting(t: Tables, requester: Requester, p: RecipePayload, now: int)
    ensures CheckPayload(p, false, t.ingredients.Keys).Err? ==>
      CreateRecipe(t, requester, p, now) == (t, CheckPayload(p, false, t.ingredients.Keys).error)
    ensures CheckPayload(p, false, t.ingredients.Keys).Ok? && requester.Anonymous? ==>
      CreateRecipe(t, requester, p, now) == (t, ServerError)
  {
  }

  /** The tables after a successful create: the new recipe row with its
      tags, and the rows of every item appended. */
  lemma CreatedTables(t: Tables, requester: Requester, p: RecipePayload, now: int)
    requires CreateRecipe(t, requester, p, now).1 == Created
    ensures var sc := CheckPayload(p, false, t.ingredients.Keys).value; var id := t.nextRecipeId;
      && CheckPayload(p, false, t.ingredients.Keys).Ok? && requester.Member?
      && CreateRecipe(t, requester, p, now).0 == t.(
           recipes := t.recipes[id := Recipe(requester.id, sc.name.value, sc.image.value, sc.text.value,
                                             sc.cookingTime.value, now, TagSet(p.tags))],
           nextRecipeId := id + 1,
           rows := t.rows + RowsFor(id, p.ingredients))
  {
    assert p.ingredients[..FitCount(p.ingredients)] == p.ingredients;
  }

  /** After a successful create the new recipe's rows are one per item, in
      order, and every existing recipe keeps its rows. */
  lemma CreatedRows(t: Tables, id: RecipeId, items: seq<Item>)
    requires TablesValid(t) && id == t.nextRecipeId
    ensures RowsOf(id, t.rows + RowsFor(id, items)) == RowsFor(id, items)
    ensures forall k :: k in t.recipes ==> RowsOf(k, t.rows + RowsFor(id, items)) == RowsOf(k, t.rows)
  {
    FreshRecipeNoRows(t);
    forall k | k in t.recipes ensures RowsOf(k, t.rows + RowsFor(id, items)) == RowsOf(k, t.rows) {
      RowsOfAppended(id, k, t.rows, items);
    }
    WhereConcat(t.rows, RowsFor(id, items), IsRowOf(id));
  }

  /** The fields of a created recipe. */
  lemma CreatedRecipeFields(t: Tables, requester: Requester, p: RecipePayload, now: int)
    requires forall k :: k in t.recipes ==> k < t.nextRecipeId
    requires CreateRecipe(t, requester, p, now).1 == Created
    ensures var u := CreateRecipe(t, requester, p, now).0; var id := t.nextRecipeId;
      && requester.Member? && p.name.Some? && p.text.Some? && p.image.Some? && p.cookingTime.Some?
      && u.recipes.Keys == t.recipes.Keys + {id} && id !in t.recipes
      && u.nextRecipeId == id + 1
      && u.recipes[id].author == requester.id
      && u.recipes[id].name == Strip(p.name.value)
      && u.recipes[id].text == Strip(p.text.value)
      && Some(u.recipes[id].image) == ImageName(p.image)
      && u.recipes[id].cookingTime == p.cookingTime.value
      && u.recipes[id].pubDate == now
      && u.recipes[id].tags == TagSet(p.tags)
  {
    var id := t.nextRecipeId;
    var u := CreateRecipe(t, requester, p, now).0;
    var sc := CheckPayload(p, false, t.ingredients.Keys).value;
    assert requester.Member? && CheckFields(p, false).Ok? && sc == CheckFields(p, false).value by {
      CreatedTables(t, requester, p, now);
    }
    var rec := Recipe(requester.id, sc.name.value, sc.image.value, sc.text.value, sc.cookingTime.value, now, TagSet(p.tags));
    assert u.recipes == t.recipes[id := rec] && u.nextRecipeId == id + 1 by {
      CreatedTables(t, requester, p, now);
    }
    assert id !in t.recipes;
  }

  /** The rows of a created recipe, and what stays. */
  lemma CreatedRecipeFrame(t: Tables, requester: Requester, p: RecipePayload, now: int)
    requires TablesValid(t)
    requires CreateRecipe(t, requester, p, now).1 == Created
    ensures var u := CreateRecipe(t, requester, p, now).0; var id := t.nextRecipeId;
      && RowsOf(id, u.rows) == RowsFor(id, p.ingredients)
      && (forall k :: k in t.recipes ==> u.recipes[k] == t.recipes[k] && RowsOf(k, u.rows) == RowsOf(k, t.rows))
      && u == t.(recipes := u.recipes, nextRecipeId := u.nextRecipeId, rows := u.rows)
  {
    var id := t.nextRecipeId;
    var u := CreateRecipe(t, requester, p, now).0;
    var sc := CheckPayload(p, false, t.ingredients.Keys).value;
    var rec := Recipe(requester.id, sc.name.value, sc.image.value, sc.text.value, sc.cookingTime.value, now, TagSet(p.tags));
    assert u == t.(recipes := t.recipes[id := rec], nextRecipeId := id + 1, rows := t.rows + RowsFor(id, p.ingredients)) by {
      CreatedTables(t, requester, p, now);
    }
    assert id !in t.recipes;
    CreatedRows(t, id, p.ingredients);
  }

  /** A created recipe has the requester as author, the trimmed fields, the
      requested tags and exactly one row per item, in order; nothing else
      changes. */
  lemma CreateSucceeds(t: Tables, requester: Requester, p: RecipePayload, now: int)
    requires TablesValid(t)
    requires CreateRecipe(t, requester, p, now).1 == Created
    ensures var u := CreateRecipe(t, requester, p, now).0; var id := t.nextRecipeId;
      && requester.Member? && p.name.Some? && p.text.Some? && p.image.Some? && p.cookingTime.Some?
      && u.recipes.Keys == t.recipes.Keys + {id} && id !in t.recipes
      && u.nextRecipeId == id + 1
      && u.recipes[id].author == requester.id
      && u.recipes[id].name == Strip(p.name.value)
      && u.recipes[id].text == Strip(p.text.value)
      && Some(u.recipes[id].image) == ImageName(p.image)
      && u.recipes[id].cookingTime == p.cookingTime.value
      && u.recipes[id].pubDate == now
      && u.recipes[id].tags == TagSet(p.tags)
      && RowsOf(id, u.rows) == RowsFor(id, p.ingredients)
      && (forall k :: k in t.recipes ==> u.recipes[k] == t.recipes[k] && RowsOf(k, u.rows) == RowsOf(k, t.rows))
      && u == t.(recipes := u.recipes, nextRecipeId := u.nextRecipeId, rows := u.rows)
  {
    CreatedRecipeFields(t, requester, p, now);
    CreatedRecipeFrame(t, requester, p, now);
  }

  /** An unknown tag id fails after the recipe row is written: the recipe
      stays, with no tags and no rows. */
  lemma CreateUnknownTagKeepsRecipe(t: Tables, user: UserId, p: RecipePayload, now: int)
    requires TablesValid(t)
    requires CheckPayload(p, false, t.ingredients.Keys).Ok? && !TagsKnown(t, p.tags)
    ensures var r := CreateRecipe(t, Member(user), p, now); var id := t.nextRecipeId;
      && r.1 == ServerError
      && id in r.0.recipes && r.0.recipes[id].author == user && r.0.recipes[id].tags == {}
      && RowsOf(id, r.0.rows) == []
      && r.0.rows == t.rows
  {
    FreshRecipeNoRows(t);
  }

  /** An amount the column cannot hold fails in the middle of the loop: the
      rows before it stay. */
  lemma CreateOverflowKeepsPrefix(t: Tables, user: UserId, p: RecipePayload, now: int, k: nat)
    requires TablesValid(t)
    requires CheckPayload(p, false, t.ingredients.Keys).Ok? && TagsKnown(t, p.tags)
    requires k < |p.ingredients| && p.ingredients[k].amount > MaxPositiveInt
    ensures var r := CreateRecipe(t, Member(user), p, now); var id := t.nextRecipeId;
      && r.1 == ServerError
      && id in r.0.recipes && r.0.recipes[id].tags == TagSet(p.tags)
      && FitCount(p.ingredients) <= k
      && RowsOf(id, r.0.rows) == RowsFor(id, p.ingredients[..FitCount(p.ingredients)])
  {
    var id := t.nextRecipeId;
    FreshRecipeNoRows(t);
    WhereConcat(t.rows, RowsFor(id, p.ingredients[..FitCount(p.ingredients)]), IsRowOf(id));
  }

  /** Inserting a recipe row under the fresh id, by a known author, with a
      cooking time in range and known tags, keeps the tables valid. */
  lemma AddRecipeValid(t: Tables, rec: Recipe)
    requires TablesValid(t) && rec.author in t.users
    requires 0 <= rec.cookingTime <= MaxPositiveSmallInt && rec.tags <= t.tags.Keys
    ensures TablesValid(t.(recipes := t.recipes[t.nextRecipeId := rec], nextRecipeId := t.nextRecipeId + 1))
  {
    var m := t.recipes[t.nextRecipeId := rec];
    assert t.recipes.Keys <= m.Keys;
    assert RecipesValid(m, t.users, t.tags) by {
      forall r | r in m
        ensures m[r].author in t.users && 0 <= m[r].cookingTime <= MaxPositiveSmallInt && m[r].tags <= t.tags.Keys
      {
        if r != t.nextRecipeId {
          assert m[r] == t.recipes[r];
        }
      }
    }
    assert RowsValid(t.rows, m, t.ingredients) by {
      forall row | row in t.rows ensures RowValid(row, m, t.ingredients) {
        assert RowValid(row, t.recipes, t.ingredients);
      }
    }
    assert EntriesValid(t.favorites, t.users, m) by {
      forall e | e in t.favorites ensures e.recipe in m {
        assert e.recipe in t.recipes;
      }
    }
    assert EntriesValid(t.cart, t.users, m) by {
      forall e | e in t.cart ensures e.recipe in m {
        assert e.recipe in t.recipes;
      }
    }
    assert forall r :: r in m ==> r < t.nextRecipeId + 1;
  }

  lemma CreatePreservesValid(t: Tables, requester: Requester, p: RecipePayload, now: int)
    requires TablesValid(t) && KnownRequester(t, requester)
    ensures TablesValid(CreateRecipe(t, requester, p, now).0)
  {
    if CheckPayload(p, false, t.ingredients.Keys).Ok? && requester.Member? {
      var sc := CheckPayload(p, false, t.ingredients.Keys).value;
      var id := t.nextRecipeId;
      assert sc.cookingTime.Some? && 0 <= sc.cookingTime.value <= MaxPositiveSmallInt by {
        assert CheckFields(p, false).Ok?;
        assert CookingTimeOk(p.cookingTime, false);
      }
      var rec := Recipe(requester.id, sc.name.value, sc.image.value, sc.text.value, sc.cookingTime.value, now, {});
      var t1 := t.(recipes := t.recipes[id := rec], nextRecipeId := id + 1);
      AddRecipeValid(t, rec);
      if TagsKnown(t, p.tags) {
        var tagged := rec.(tags := TagSet(p.tags));
        var t2 := t1.(recipes := t1.recipes[id := tagged]);
        ReplaceRecipeValid(t1, id, tagged);
        var added := RowsFor(id, p.ingredients[..FitCount(p.ingredients)]);
        InsertedRowsValid(t, id, p, false, t2.recipes);
        RowsValidConcat(t2.rows, added, t2.recipes, t2.ingredients);
        ReplaceRowsValid(t2, t2.rows + added);
        assert CreateRecipe(t, requester, p, now).0 == t2.(rows := t2.rows + added);
      } else {
        assert CreateRecipe(t, requester, p, now).0 == t1;
      }
    }
  }

  // ---------------------------------------------------------------------------
  // Properties: update
  // ---------------------------------------------------------------------------

  /** A missing recipe, a requester other than the author, or a refused
      payload writes nothing. */
  lemma UpdateRejectsBeforeWriting(t: Tables, requester: Requester, id: RecipeId, p: RecipePayload, partial: bool)
    ensures id !in t.recipes ==> UpdateRecipe(t, requester, id, p, partial) == (t, NotFound)
    ensures id in t.recipes && requester != Member(t.recipes[id].author) ==>
      UpdateRecipe(t, requester, id, p, partial) == (t, DeniedStatus(requester))
    ensures id in t.recipes && requester == Member(t.recipes[id].author) && CheckPayload(p, partial, t.ingredients.Keys).Err? ==>
      UpdateRecipe(t, requester, id, p, partial) == (t, CheckPayload(p, partial, t.ingredients.Keys).error)
  {
  }

  /** What a successful update went through: the recipe exists, the
      requester is its author, the payload passed, every tag is known and
      every amount fits. */
  lemma UpdateOkShape(t: Tables, requester: Requester, id: RecipeId, p: RecipePayload, partial: bool)
    requires UpdateRecipe(t, requester, id, p, partial).1 == OK
    ensures id in t.recipes && requester == Member(t.recipes[id].author)
    ensures CheckPayload(p, partial, t.ingredients.Keys).Ok? && TagsKnown(t, p.tags)
    ensures FitCount(p.ingredients) == |p.ingredients|
    ensures UpdateRecipe(t, requester, id, p, partial) ==
      ApplyUpdate(t, id, p.tags, p.ingredients, CheckPayload(p, partial, t.ingredients.Keys).value)
  {
  }

  /** A successful update replaces each scalar field the request carries
      and keeps each one it omits, replaces the tags, never changes the
      author or the publication date, and leaves every other recipe and
      every other table as they were. */
  lemma UpdateSucceeds(t: Tables, requester: Requester, id: RecipeId, p: RecipePayload, partial: bool)
    requires UpdateRecipe(t, requester, id, p, partial).1 == OK
    ensures var u := UpdateRecipe(t, requester, id, p, partial).0;
      && id in t.recipes && requester == Member(t.recipes[id].author)
      && u.recipes.Keys == t.recipes.Keys
      && u.recipes[id].author == t.recipes[id].author
      && u.recipes[id].pubDate == t.recipes[id].pubDate
      && u.recipes[id].name == (if p.name.Some? then Strip(p.name.value) else t.recipes[id].name)
      && u.recipes[id].text == (if p.text.Some? then Strip(p.text.value) else t.recipes[id].text)
      && (if p.image.Some? then ImageName(p.image) == Some(u.recipes[id].image) else u.recipes[id].image == t.recipes[id].image)
      && u.recipes[id].cookingTime == (if p.cookingTime.Some? then p.cookingTime.value else t.recipes[id].cookingTime)
      && u.recipes[id].tags == TagSet(p.tags)
      && (forall k :: k in t.recipes && k != id ==> u.recipes[k] == t.recipes[k])
      && u == t.(recipes := u.recipes, rows := u.rows)
  {
    UpdateOkShape(t, requester, id, p, partial);
  }

  /** ... and makes the recipe's rows exactly one per item, in order, while
      every other recipe keeps its rows. */
  lemma UpdateReplacesRows(t: Tables, requester: Requester, id: RecipeId, p: RecipePayload, partial: bool)
    requires UpdateRecipe(t, requester, id, p, partial).1 == OK
    ensures var u := UpdateRecipe(t, requester, id, p, partial).0;
      && RowsOf(id, u.rows) == RowsFor(id, p.ingredients)
      && forall k :: k != id ==> RowsOf(k, u.rows) == RowsOf(k, t.rows)
  {
    UpdateOkShape(t, requester, id, p, partial);
    var u := UpdateRecipe(t, requester, id, p, partial).0;
    assert p.ingredients[..FitCount(p.ingredients)] == p.ingredients;
    assert u.rows == OtherRows(id, t.rows) + RowsFor(id, p.ingredients);
    RowsOfReplaced(id, t.rows, p.ingredients);
    forall k | k != id ensures RowsOf(k, u.rows) == RowsOf(k, t.rows) {
      OtherRowsKept(id, k, t.rows, p.ingredients);
    }
  }

  /** An unknown tag id fails after `tags.clear()`: the recipe is left with
      no tags, its old scalar fields and its old rows. */
  lemma UpdateUnknownTagClearsTags(t: Tables, id: RecipeId, p: RecipePayload, partial: bool)
    requires id in t.recipes
    requires CheckPayload(p, partial, t.ingredients.Keys).Ok? && !TagsKnown(t, p.tags)
    ensures var r := UpdateRecipe(t, Member(t.recipes[id].author), id, p, partial);
      && r.1 == ServerError
      && r.0.recipes == t.recipes[id := t.recipes[id].(tags := {})]
      && r.0.rows == t.rows
  {
  }

  /** An amount the column cannot hold fails after the old rows are gone and
      part of the new ones are written; the scalar fields are not saved. */
  lemma UpdateOverflowLosesRows(t: Tables, id: RecipeId, p: RecipePayload, partial: bool, k: nat)
    requires id in t.recipes
    requires CheckPayload(p, partial, t.ingredients.Keys).Ok? && TagsKnown(t, p.tags)
    requires k < |p.ingredients| && p.ingredients[k].amount > MaxPositiveInt
    ensures var r := UpdateRecipe(t, Member(t.recipes[id].author), id, p, partial);
      && r.1 == ServerError
      && r.0.recipes == t.recipes[id := t.recipes[id].(tags := TagSet(p.tags))]
      && FitCount(p.ingredients) <= k
      && RowsOf(id, r.0.rows) == RowsFor(id, p.ingredients[..FitCount(p.ingredients)])
  {
    RowsOfReplaced(id, t.rows, p.ingredients[..FitCount(p.ingredients)]);
  }

  /** The saved cooking time of an update is in the column's range. */
  lemma AssignedTimeInRange(before: Recipe, p: RecipePayload, partial: bool, known: set<IngredientId>)
    requires CheckPayload(p, partial, known).Ok? && 0 <= before.cookingTime <= MaxPositiveSmallInt
    ensures 0 <= Assign(before, CheckPayload(p, partial, known).value).cookingTime <= MaxPositiveSmallInt
  {
    assert CheckFields(p, partial).Ok?;
  }

  /** Replacing a recipe by one with the same author, a cooking time in
      range and known tags keeps the tables valid. */
  lemma ReplaceRecipeValid(t: Tables, id: RecipeId, after: Recipe)
    requires TablesValid(t) && id in t.recipes
    requires after.author == t.recipes[id].author
    requires 0 <= after.cookingTime <= MaxPositiveSmallInt && after.tags <= t.tags.Keys
    ensures TablesValid(t.(recipes := t.recipes[id := after]))
  {
    var m := t.recipes[id := after];
    assert m.Keys == t.recipes.Keys;
    assert RecipesValid(m, t.users, t.tags) by {
      forall r | r in m
        ensures m[r].author in t.users && 0 <= m[r].cookingTime <= MaxPositiveSmallInt && m[r].tags <= t.tags.Keys
      {
        if r != id {
          assert m[r] == t.recipes[r];
        }
      }
    }
    assert RowsValid(t.rows, m, t.ingredients) by {
      forall row | row in t.rows ensures RowValid(row, m, t.ingredients) {
        assert RowValid(row, t.recipes, t.ingredients);
      }
    }
    assert EntriesValid(t.favorites, t.users, m) by {
      forall e | e in t.favorites ensures e.recipe in m {
        assert e.recipe in t.recipes;
      }
    }
    assert EntriesValid(t.cart, t.users, m) by {
      forall e | e in t.cart ensures e.recipe in m {
        assert e.recipe in t.recipes;
      }
    }
    assert forall r :: r in m ==> r < t.nextRecipeId;
  }

  /** Valid rows put in place of the row table keep the tables valid. */
  lemma ReplaceRowsValid(t: Tables, rows: seq<RecipeIngredient>)
    requires TablesValid(t) && RowsValid(rows, t.recipes, t.ingredients)
    ensures TablesValid(t.(rows := rows))
  {
  }

  lemma ApplyUpdatePreservesValid(t: Tables, id: RecipeId, p: RecipePayload, partial: bool)
    requires TablesValid(t) && id in t.recipes && CheckPayload(p, partial, t.ingredients.Keys).Ok?
    ensures TablesValid(ApplyUpdate(t, id, p.tags, p.ingredients, CheckPayload(p, partial, t.ingredients.Keys).value).0)
  {
    var sc := CheckPayload(p, partial, t.ingredients.Keys).value;
    var r := ApplyUpdate(t, id, p.tags, p.ingredients, sc);
    var before := t.recipes[id];
    if TagsKnown(t, p.tags) {
      var after := if r.1 == OK then Assign(before, sc).(tags := TagSet(p.tags)) else before.(tags := TagSet(p.tags));
      AssignedTimeInRange(before, p, partial, t.ingredients.Keys);
      ReplaceRecipeValid(t, id, after);
      var t1 := t.(recipes := t.recipes[id := after]);
      var rows := OtherRows(id, t.rows) + RowsFor(id, p.ingredients[..FitCount(p.ingredients)]);
      assert RowsValid(OtherRows(id, t.rows), t1.recipes, t1.ingredients);
      InsertedRowsValid(t, id, p, partial, t1.recipes);
      RowsValidConcat(OtherRows(id, t.rows), RowsFor(id, p.ingredients[..FitCount(p.ingredients)]), t1.recipes, t1.ingredients);
      ReplaceRowsValid(t1, rows);
      assert r.0 == t1.(rows := rows);
    } else {
      ReplaceRecipeValid(t, id, before.(tags := {}));
    }
  }

  lemma UpdatePreservesValid(t: Tables, requester: Requester, id: RecipeId, p: RecipePayload, partial: bool)
    requires TablesValid(t)
    ensures TablesValid(UpdateRecipe(t, requester, id, p, partial).0)
  {
    if id in t.recipes && requester == Member(t.recipes[id].author) && CheckPayload(p, partial, t.ingredients.Keys).Ok? {
      ApplyUpdatePreservesValid(t, id, p, partial);
    }
  }

  // ---------------------------------------------------------------------------
  // Properties: deletion
  // ---------------------------------------------------------------------------

  lemma RemoveRecipeValid(t: Tables, id: RecipeId)
    requires TablesValid(t)
    ensures TablesValid(RemoveRecipe(t, id))
  {
    var m := RecipesWithout(t.recipes, id);
    assert RecipesValid(m, t.users, t.tags) by {
      forall r | r in m
        ensures m[r].author in t.users && 0 <= m[r].cookingTime <= MaxPositiveSmallInt && m[r].tags <= t.tags.Keys
      {
        assert m[r] == t.recipes[r];
      }
    }
    var rows := OtherRows(id, t.rows);
    assert RowsValid(rows, m, t.ingredients) by {
      forall row | row in rows ensures RowValid(row, m, t.ingredients) {
        assert RowValid(row, t.recipes, t.ingredients);
      }
    }
    assert EntriesValid(EntriesWithout(t.favorites, id), t.users, m);
    assert EntriesValid(EntriesWithout(t.cart, id), t.users, m);
  }

  lemma DestroyPreservesValid(t: Tables, requester: Requester, id: RecipeId)
    requires TablesValid(t)
    ensures TablesValid(DestroyRecipe(t, requester, id).0)
  {
    if id in t.recipes {
      RemoveRecipeValid(t, id);
    }
  }

  /** The cascade of a recipe deletion removes exactly that recipe's rows
      and entries. */
  lemma DestroyCascade(t: Tables, id: RecipeId)
    requires id in t.recipes
    ensures var r := DestroyRecipe(t, Member(t.recipes[id].author), id);
      && r.1 == NoContent
      && r.0.recipes.Keys == t.recipes.Keys - {id}
      && RowsOf(id, r.0.rows) == []
      && (forall k :: k in r.0.recipes ==> r.0.recipes[k] == t.recipes[k] && RowsOf(k, r.0.rows) == RowsOf(k, t.rows))
      && r.0.favorites == (set e | e in t.favorites && e.recipe != id)
      && r.0.cart == (set e | e in t.cart && e.recipe != id)
      && r.0.users == t.users && r.0.follows == t.follows
  {
    var u := RemoveRecipe(t, id);
    WhereNone(u.rows, IsRowOf(id));
    forall k | k in u.recipes ensures RowsOf(k, u.rows) == RowsOf(k, t.rows) {
      WhereWhere(t.rows, IsRowNotOf(id), IsRowOf(k));
    }
  }

  lemma DeleteUserPreservesValid(t: Tables, u: UserId)
    requires TablesValid(t)
    ensures TablesValid(DeleteUser(t, u))
  {
    var keep := RecipesNotBy(t.recipes, u);
    var users := UsersWithout(t.users, u);
    assert UsersValid(users) by {
      forall a, b | a in users && b in users && a != b
        ensures users[a].email != users[b].email && users[a].username != users[b].username
      {
        assert users[a] == t.users[a] && users[b] == t.users[b];
      }
    }
    assert RecipesValid(keep, users, t.tags) by {
      forall r | r in keep
        ensures keep[r].author in users && 0 <= keep[r].cookingTime <= MaxPositiveSmallInt && keep[r].tags <= t.tags.Keys
      {
        assert keep[r] == t.recipes[r];
      }
    }
    var rows := Where(t.rows, IsRowIn(keep));
    assert RowsValid(rows, keep, t.ingredients) by {
      forall row | row in rows ensures RowValid(row, keep, t.ingredients) {
        assert RowValid(row, t.recipes, t.ingredients);
      }
    }
    assert EntriesValid(EntriesKept(t.favorites, u, keep), users, keep) by {
      forall e | e in EntriesKept(t.favorites, u, keep) ensures e.user in users && e.recipe in keep {
        assert e.user in t.users;
      }
    }
    assert EntriesValid(EntriesKept(t.cart, u, keep), users, keep) by {
      forall e | e in EntriesKept(t.cart, u, keep) ensures e.user in users && e.recipe in keep {
        assert e.user in t.users;
      }
    }
    assert FollowsValid(FollowsWithout(t.follows, u), users) by {
      forall f | f in FollowsWithout(t.follows, u) ensures f.user in users && f.follower in users && f.user != f.follower {
        assert f in t.follows;
      }
    }
  }

  /** Deleting a user leaves nothing that refers to them, directly or
      through one of their recipes. */
  lemma DeleteUserLeavesNoTrace(t: Tables, u: UserId)
    requires TablesValid(t)
    ensures var r := DeleteUser(t, u);
      && u !in r.users
      && (forall e :: e in r.favorites + r.cart ==> e.user != u && r.recipes[e.recipe].author != u)
      && (forall x :: x in r.rows ==> x.recipe in r.recipes && r.recipes[x.recipe].author != u)
      && (forall k :: k in t.recipes && t.recipes[k].author != u ==> k in r.recipes)
  {
    DeleteUserPreservesValid(t, u);
  }

  // ---------------------------------------------------------------------------
  // Properties: registration
  // ---------------------------------------------------------------------------

  lemma RegisterPreservesValid(t: Tables, username: string, email: string, firstName: string, lastName: string,
                               password: string, hash: string -> string)
    requires TablesValid(t)
    ensures TablesValid(RegisterUser(t, username, email, firstName, lastName, password, hash).0)
  {
  }

  /** A blank value, or a taken username or email (compared after
      trimming), is refused; otherwise the new user gets the next id, the
      trimmed values and the hash of the trimmed password, never the
      password itself. */
  lemma RegisterOutcome(t: Tables, username: string, email: string, firstName: string, lastName: string,
                        password: string, hash: string -> string)
    ensures var r := RegisterUser(t, username, email, firstName, lastName, password, hash);
      && (r.1 == BadRequest <==>
            || Strip(username) == "" || Strip(email) == "" || Strip(firstName) == "" || Strip(lastName) == ""
            || Strip(password) == ""
            || exists v :: v in t.users && (t.users[v].username == Strip(username) || t.users[v].email == Strip(email)))
      && (r.1 == BadRequest ==> r.0 == t)
      && (r.1 != BadRequest ==>
            && r.1 == Created
            && r.0.users == t.users[t.nextUserId := User(Strip(username), Strip(email), Strip(firstName), Strip(lastName),
                                                         hash(Strip(password)))])
  {
  }

  /** A username that differs from a registered one only by surrounding
      spaces is taken. */
  lemma PaddedUsernameTaken(t: Tables, v: UserId, email: string, firstName: string, lastName: string,
                            password: string, hash: string -> string)
    requires v in t.users && t.users[v].username == "alice"
    ensures RegisterUser(t, " alice ", email, firstName, lastName, password, hash) == (t, BadRequest)
  {
    assert Strip(" alice ") == "alice" by {
      assert " alice "[1..] == "alice ";
      assert "alice "[..5] == "alice";
    }
  }

  // ---------------------------------------------------------------------------
  // Properties: reads
  // ---------------------------------------------------------------------------

  /** The recipe list with valid parameters holds exactly the recipes that
      pass every filter, newest first. */
  lemma RecipeListOrdered(t: Tables, requester: Requester, q: Query)
    requires TablesValid(t) && QueryValid(q, t.tags)
    ensures var r := RecipeList(t, requester, q);
      && r.Ok?
      && SortedBy(r.value, NewestFirst(t.recipes))
      && forall x :: x in r.value <==> x in t.recipes && Passes(x, q, requester, t.favorites, t.cart, t.tags, t.recipes)
  {
    var l := Listing(t);
    FilterRecipesKeeps(l, q, requester, t.favorites, t.cart, t.tags, t.recipes);
    SortedSubsequence(RecipeList(t, requester, q).value, l, NewestFirst(t.recipes));
  }

  /** Invalid list parameters answer 400. */
  lemma RecipeListRejects(t: Tables, requester: Requester, q: Query)
    requires TablesValid(t) && !QueryValid(q, t.tags)
    ensures RecipeList(t, requester, q) == Err(BadRequest)
  {
  }

  lemma {:induction false} DistinctSubsequence(a: seq<nat>, b: seq<nat>)
    requires SubsequenceOf(a, b) && Distinct(b)
    ensures Distinct(a)
    decreases |b|
  {
    if |a| > 0 {
      assert Distinct(b[1..]) by {
        forall i, j | 0 <= i < j < |b[1..]| ensures b[1..][i] != b[1..][j] {
          assert b[1..][i] == b[i + 1] && b[1..][j] == b[j + 1];
        }
      }
      if a[0] == b[0] && SubsequenceOf(a[1..], b[1..]) {
        DistinctSubsequence(a[1..], b[1..]);
        SubsequenceMembers(a[1..], b[1..]);
        forall i, j | 0 <= i < j < |a| ensures a[i] != a[j] {
          if i == 0 {
            assert a[j] == a[1..][j - 1] && a[1..][j - 1] in a[1..];
            var k :| 0 <= k < |b[1..]| && b[1..][k] == a[j];
            assert b[k + 1] == a[j];
          } else {
            assert a[i] == a[1..][i - 1] && a[j] == a[1..][j - 1];
          }
        }
      } else {
        DistinctSubsequence(a, b[1..]);
      }
    }
  }

  function Elements(s: seq<nat>): set<nat> {
    set x | x in s
  }

  lemma {:induction false} DistinctCardinality(s: seq<nat>)
    requires Distinct(s)
    ensures |Elements(s)| == |s|
    decreases |s|
  {
    if |s| > 0 {
      assert Distinct(s[1..]) by {
        forall i, j | 0 <= i < j < |s[1..]| ensures s[1..][i] != s[1..][j] {
          assert s[1..][i] == s[i + 1] && s[1..][j] == s[j + 1];
        }
      }
      DistinctCardinality(s[1..]);
      assert s[0] !in Elements(s[1..]);
      assert Elements(s) == Elements(s[1..]) + {s[0]};
    }
  }

  /** The listing holds each recipe once. */
  lemma ListingDistinct(t: Tables)
    requires forall k :: k in t.recipes ==> k < t.nextRecipeId
    ensures Distinct(Listing(t))
  {
    var ids := KeysBelow(t.nextRecipeId, t.recipes);
    DistinctPermutation(ids, SortBy(ids, NewestFirst(t.recipes)));
  }

  /** `recipes_count` of the subscription serializer is the number of the
      user's recipes in the table, whatever the limit. */
  lemma SubscriptionCountIsTotal(t: Tables, id: UserId, ctx: Context, limit: Option<string>)
    requires TablesValid(t) && id in t.users
    ensures var r := SubscriptionRepresentation(id, t.users[id], ctx, t.follows, AuthorRecipes(t, id), limit);
      r.Ok? ==> r.value["recipes_count"] == Num(|set k | k in t.recipes && t.recipes[k].author == id|)
    ensures var r := SubscriptionRepresentationTolerant(id, t.users[id], ctx, t.follows, AuthorRecipes(t, id), limit);
      r.Ok? ==> r.value["recipes_count"] == Num(|set k | k in t.recipes && t.recipes[k].author == id|)
  {
    AuthorRecipeCount(t, id);
  }

  /** The author's recipes in the listing are as many as the author's rows
      in the recipe table. */
  lemma AuthorRecipeCount(t: Tables, id: UserId)
    requires forall k :: k in t.recipes ==> k < t.nextRecipeId
    ensures |AuthorRecipes(t, id)| == |set k | k in t.recipes && t.recipes[k].author == id|
  {
    var rs := AuthorRecipes(t, id);
    assert Distinct(rs) by {
      ListingDistinct(t);
      DistinctSubsequence(rs, Listing(t));
    }
    DistinctCardinality(rs);
    assert Elements(rs) == (set k | k in t.recipes && t.recipes[k].author == id) by {
      forall k ensures k in Elements(rs) <==> k in t.recipes && t.recipes[k].author == id {
      }
    }
  }

  /** The downloaded list: one group per (name, unit), carrying the sum of
      the amounts of that ingredient over the rows of the recipes in the
      requester's cart, named after the requester. */
  lemma DownloadedGroups(t: Tables, user: UserId, d: Date)
    ensures var r := DownloadCart(t, Member(user), d);
      var gs := Aggregate(CartLines(user, t.rows, t.cart, t.ingredients));
      && r.Ok?
      && r.value.filename == NameOf(t.users, user) + "_shopping_list.txt"
      && r.value.body == Report(NameOf(t.users, user), d, gs)
      && (forall i :: 0 <= i < |gs| ==> gs[i].amount == CartRowsAmount(user, t.rows, t.cart, t.ingredients, gs[i].name, gs[i].unit))
      && (forall i, j :: 0 <= i < j < |gs| ==> !SameKey(gs[i], gs[j].name, gs[j].unit))
  {
    var ls := CartLines(user, t.rows, t.cart, t.ingredients);
    GroupsAreSums(ls);
    forall i | 0 <= i < |Aggregate(ls)|
      ensures Aggregate(ls)[i].amount == CartRowsAmount(user, t.rows, t.cart, t.ingredients, Aggregate(ls)[i].name, Aggregate(ls)[i].unit)
    {
      CartLinesAmount(user, t.rows, t.cart, t.ingredients, Aggregate(ls)[i].name, Aggregate(ls)[i].unit);
    }
  }
}
