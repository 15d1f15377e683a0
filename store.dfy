/**
 * The database as one mutable object: the tables of the recipe and user
 * apps as fields, and the views' writes as methods that change them in
 * the order the source does. Each method is proved to end in the state and
 * the status that the matching function of `StoreSpec` gives for the state
 * before it, and to keep the table invariants.
 */
module Database {
  import opened Types
  import opened Models
  import opened RecipeValidation
  import opened RecipeFields
  import opened ShoppingList
  import opened Permissions
  import Sequences
  import UserSerializers
  import Strings
  import opened StoreSpec

  class Store {
    var users: map<UserId, User>
    var nextUserId: nat
    var tags: map<TagId, Tag>
    var ingredients: map<IngredientId, Ingredient>
    var recipes: map<RecipeId, Recipe>
    var nextRecipeId: nat
    var rows: seq<RecipeIngredient>
    var favorites: set<Entry>
    var cart: set<Entry>
    var follows: set<Follow>

    /** The tables as a value. */
    function Snapshot(): Tables
      reads this
    {
      Tables(users, nextUserId, tags, ingredients, recipes, nextRecipeId, rows, favorites, cart, follows)
    }

    ghost predicate Valid()
      reads this
    {
      TablesValid(Snapshot())
    }

    /** An empty database over the tag and ingredient tables the admin and
        the fixtures fill in. */
    constructor (tagTable: map<TagId, Tag>, ingredientTable: map<IngredientId, Ingredient>)
      requires TagsValid(tagTable)
      ensures Snapshot() == Tables(map[], 0, tagTable, ingredientTable, map[], 0, [], {}, {}, {})
      ensures Valid()
    {
      users := map[];
      nextUserId := 0;
      tags := tagTable;
      ingredients := ingredientTable;
      recipes := map[];
      nextRecipeId := 0;
      rows := [];
      favorites := {};
      cart := {};
      follows := {};
    }

    // -------------------------------------------------------------------------
    // Favourites and the shopping cart
    // -------------------------------------------------------------------------

    /** `favorite` (relation `Favorites`) and `shopping_cart` (`Cart`), POST. */
    method AddEntry(rel: Relation, requester: Requester, recipe: RecipeId) returns (status: Status)
      requires Valid() && KnownRequester(Snapshot(), requester)
      modifies this
      ensures (Snapshot(), status) == StoreSpec.AddEntry(old(Snapshot()), rel, requester, recipe)
      ensures Valid()
    {
      AddEntryPreservesValid(Snapshot(), rel, requester, recipe);
      if requester.Anonymous? {
        return Unauthorized;
      }
      if recipe !in recipes {
        return NotFound;
      }
      var e := Entry(requester.id, recipe);
      if rel == Favorites {
        if e in favorites {
          return BadRequest;
        }
        favorites := favorites + {e};
      } else {
        if e in cart {
          return BadRequest;
        }
        cart := cart + {e};
      }
      status := Created;
    }

    /** `remove_favorite` and `remove_from_shopping_cart`, DELETE. */
    method RemoveEntry(rel: Relation, requester: Requester, recipe: RecipeId) returns (status: Status)
      requires Valid()
      modifies this
      ensures (Snapshot(), status) == StoreSpec.RemoveEntry(old(Snapshot()), rel, requester, recipe)
      ensures Valid()
    {
      RemoveEntryPreservesValid(Snapshot(), rel, requester, recipe);
      if requester.Anonymous? {
        return Unauthorized;
      }
      if recipe !in recipes {
        return NotFound;
      }
      var e := Entry(requester.id, recipe);
      if rel == Favorites {
        if e !in favorites {
          return BadRequest;
        }
        favorites := favorites - {e};
      } else {
        if e !in cart {
          return BadRequest;
        }
        cart := cart - {e};
      }
      status := NoContent;
    }

    // -------------------------------------------------------------------------
    // Follow edges
    // -------------------------------------------------------------------------

    /** The follow, then the serialization of the target with `limit`. */
    method Subscribe(requester: Requester, target: UserId, limit: Option<string>) returns (status: Status)
      requires Valid() && KnownRequester(Snapshot(), requester)
      modifies this
      ensures (Snapshot(), status) == StoreSpec.Subscribe(old(Snapshot()), requester, target, limit)
      ensures Valid()
    {
      SubscribePreservesValid(Snapshot(), requester, target, limit);
      if requester.Anonymous? {
        return Unauthorized;
      }
      if target !in users {
        return NotFound;
      }
      if requester.id == target {
        return BadRequest;
      }
      var f := Follow(requester.id, target);
      if f in follows {
        return BadRequest;
      }
      follows := follows + {f};
      if UserSerializers.LimitRaises(limit) {
        return ServerError;
      }
      status := OK;
    }

    method Unsubscribe(requester: Requester, target: UserId) returns (status: Status)
      requires Valid()
      modifies this
      ensures (Snapshot(), status) == StoreSpec.Unsubscribe(old(Snapshot()), requester, target)
      ensures Valid()
    {
      UnsubscribePreservesValid(Snapshot(), requester, target);
      if requester.Anonymous? {
        return Unauthorized;
      }
      if target !in users {
        return NotFound;
      }
      var f := Follow(requester.id, target);
      if f !in follows {
        return BadRequest;
      }
      follows := follows - {f};
      status := NoContent;
    }

    // -------------------------------------------------------------------------
    // Recipes
    // -------------------------------------------------------------------------

    /** The serializer's `is_valid`: the field checks, then the `validate`
        loop against the ingredient table. */
    method IsValid(p: RecipePayload, partial: bool) returns (r: Result<Scalars, Status>)
      ensures r == CheckPayload(p, partial, ingredients.Keys)
    {
      var fields := CheckFields(p, partial);
      if fields.Err? {
        return if fields.error.ImageCrash? then Err(ServerError) else Err(BadRequest);
      }
      var v := Validate(ingredients.Keys, p.tags, p.ingredients);
      if v.Err? {
        return Err(v.error.ResponseStatus());
      }
      r := Ok(fields.value);
    }

    /** `create_ingredients`: one row per item, in order; the first amount
        the column cannot hold ends the loop with the rows before it
        written. */
    method CreateIngredients(recipe: RecipeId, items: seq<Item>) returns (complete: bool)
      modifies this
      ensures rows == old(rows) + RowsFor(recipe, items[..FitCount(items)])
      ensures complete <==> FitCount(items) == |items|
      ensures Snapshot() == old(Snapshot()).(rows := rows)
    {
      var i := 0;
      while i < |items|
        invariant 0 <= i <= FitCount(items)
        invariant rows == old(rows) + RowsFor(recipe, items[..i])
        invariant Snapshot() == old(Snapshot()).(rows := rows)
      {
        if items[i].amount > MaxPositiveInt {
          return false;
        }
        RowsForSnoc(recipe, items, i);
        rows := rows + [RecipeIngredient(recipe, items[i].id, items[i].amount)];
        i := i + 1;
      }
      complete := true;
    }

    /** `perform_create` and `RecipeSerializer.create`. */
    method CreateRecipe(requester: Requester, p: RecipePayload, now: int) returns (status: Status)
      requires Valid() && KnownRequester(Snapshot(), requester)
      modifies this
      ensures (Snapshot(), status) == StoreSpec.CreateRecipe(old(Snapshot()), requester, p, now)
      ensures Valid()
    {
      CreatePreservesValid(Snapshot(), requester, p, now);
      var checked := IsValid(p, false);
      if checked.Err? {
        return checked.error;
      }
      if requester.Anonymous? {
        return ServerError;
      }
      var sc := checked.value;
      var id := nextRecipeId;
      var rec := Recipe(requester.id, sc.name.value, sc.image.value, sc.text.value, sc.cookingTime.value, now, {});
      recipes := recipes[id := rec];
      nextRecipeId := id + 1;
      if !(forall k :: k in p.tags ==> k in tags) {
        return ServerError;
      }
      recipes := recipes[id := rec.(tags := TagSet(p.tags))];
      var complete := CreateIngredients(id, p.ingredients);
      status := if complete then Created else ServerError;
    }

    /** `update` (PUT, or PATCH when `partial`) after the lookup and the
        object permission. */
    method UpdateRecipe(requester: Requester, id: RecipeId, p: RecipePayload, partial: bool) returns (status: Status)
      requires Valid()
      modifies this
      ensures (Snapshot(), status) == StoreSpec.UpdateRecipe(old(Snapshot()), requester, id, p, partial)
      ensures Valid()
    {
      UpdatePreservesValid(Snapshot(), requester, id, p, partial);
      if id !in recipes {
        return NotFound;
      }
      var denied := ObjectAccess(UpdateVerb(partial), recipes[id].author, requester);
      if denied.Some? {
        return denied.value;
      }
      var checked := IsValid(p, partial);
      if checked.Err? {
        return checked.error;
      }
      status := ApplyUpdate(id, p.tags, p.ingredients, checked.value);
    }

    /** The writes of `update`: `tags.clear`, `tags.set`, the deletion of the
        recipe's rows, `create_ingredients`, then the scalar fields saved. */
    method ApplyUpdate(id: RecipeId, tagIds: seq<TagId>, items: seq<Item>, sc: Scalars) returns (status: Status)
      requires id in recipes
      modifies this
      ensures (Snapshot(), status) == StoreSpec.ApplyUpdate(old(Snapshot()), id, tagIds, items, sc)
    {
      var before := recipes[id];
      recipes := recipes[id := before.(tags := {})];
      if !(forall k :: k in tagIds ==> k in tags) {
        return ServerError;
      }
      recipes := recipes[id := before.(tags := TagSet(tagIds))];
      rows := OtherRows(id, rows);
      var complete := CreateIngredients(id, items);
      if !complete {
        return ServerError;
      }
      recipes := recipes[id := Assign(before, sc).(tags := TagSet(tagIds))];
      status := OK;
    }

    /** `destroy`: the lookup, the object permission, then the cascade. */
    method DestroyRecipe(requester: Requester, id: RecipeId) returns (status: Status)
      requires Valid()
      modifies this
      ensures (Snapshot(), status) == StoreSpec.DestroyRecipe(old(Snapshot()), requester, id)
      ensures Valid()
    {
      DestroyPreservesValid(Snapshot(), requester, id);
      if id !in recipes {
        return NotFound;
      }
      if !HasObjectPermission(DELETE, recipes[id].author, requester) {
        return DeniedStatus(requester);
      }
      recipes := RecipesWithout(recipes, id);
      rows := OtherRows(id, rows);
      favorites := EntriesWithout(favorites, id);
      cart := EntriesWithout(cart, id);
      status := NoContent;
    }

    // -------------------------------------------------------------------------
    // Users
    // -------------------------------------------------------------------------

    /** User creation: trimmed values, then the uniqueness checks, then the row with the hashed password. */
    method RegisterUser(username: string, email: string, firstName: string, lastName: string,
                        password: string, hash: string -> string) returns (status: Status)
      requires Valid()
      modifies this
      ensures (Snapshot(), status) == StoreSpec.RegisterUser(old(Snapshot()), username, email, firstName, lastName, password, hash)
      ensures Valid()
    {
      RegisterPreservesValid(Snapshot(), username, email, firstName, lastName, password, hash);
      var u, e, f, l, p := Strings.Strip(username), Strings.Strip(email), Strings.Strip(firstName),
                           Strings.Strip(lastName), Strings.Strip(password);
      if u == "" || e == "" || f == "" || l == "" || p == "" {
        return BadRequest;
      }
      if Taken(users, u, e) {
        return BadRequest;
      }
      users := users[nextUserId := User(u, e, f, l, hash(p))];
      nextUserId := nextUserId + 1;
      status := Created;
    }

    /** Deleting a user row, with the cascades the foreign keys declare. */
    method DeleteUser(u: UserId)
      requires Valid()
      modifies this
      ensures Snapshot() == StoreSpec.DeleteUser(old(Snapshot()), u)
      ensures Valid()
    {
      DeleteUserPreservesValid(Snapshot(), u);
      var keep := RecipesNotBy(recipes, u);
      follows := FollowsWithout(follows, u);
      favorites := EntriesKept(favorites, u, keep);
      cart := EntriesKept(cart, u, keep);
      rows := Sequences.Where(rows, IsRowIn(keep));
      recipes := keep;
      users := UsersWithout(users, u);
    }

    // -------------------------------------------------------------------------
    // The shopping list
    // -------------------------------------------------------------------------

    /** `download_shopping_cart`: 401 for an anonymous requester; otherwise
        the cart's rows aggregated and written out as the report. */
    method DownloadShoppingCart(requester: Requester, d: Date) returns (r: Result<Download, Status>)
      ensures r == DownloadCart(Snapshot(), requester, d)
    {
      if requester.Anonymous? {
        return Err(Unauthorized);
      }
      var groups := Aggregate(CartLines(requester.id, rows, cart, ingredients));
      var download := OutListIngredients(NameOf(users, requester.id), d, groups);
      r := Ok(download);
    }
  }
}
