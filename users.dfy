/**
 * The user serializers: `is_subscribed`, the representation of a user (with
 * `is_subscribed` dropped on POST), the author and subscription variants
 * that keep it, the `recipes_limit` slice in its two copies, and the
 * password hashing on create. The strict copy (`api/users/serializers.py`)
 * is the one the routed subscription views use. The tolerant copy
 * (`api/serializers.py`) is only used by the viewsets of `api/views.py`,
 * which no URL routes to; it is dead code, modelled because it is part of
 * the serializers. The user serializer of `api/serializers.py` is the one
 * the user endpoints are configured with.
 */
module UserSerializers {
  import opened Types
  import opened Strings
  import opened Models

  /** A value in a serialized representation. `RecipeRefs` stands for the
      list of short recipe objects (id, name, image, cooking time). */
  datatype Value = Str(s: string) | Num(n: int) | Flag(b: bool) | RecipeRefs(ids: seq<RecipeId>)

  /** The readable fields of the user serializers; `password` is write-only. */
  const UserKeys: set<string> := {"email", "id", "username", "first_name", "last_name", "is_subscribed"}

  /** `get_is_subscribed`: false without a request or for an anonymous
      requester, otherwise whether the requester follows `obj`. */
  function IsSubscribed(ctx: Context, obj: UserId, follows: set<Follow>): (b: bool)
    ensures ctx.NoRequest? ==> !b
    ensures ctx.Request? && ctx.user.Anonymous? ==> !b
    ensures ctx.Request? && ctx.user.Member? ==> (b <==> Follow(ctx.user.id, obj) in follows)
  {
    ctx.Request? && ctx.user.Member? && Follow(ctx.user.id, obj) in follows
  }

  /** The model serializer's own representation of a user. */
  function UserRepresentation(id: UserId, u: User, ctx: Context, follows: set<Follow>): (data: map<string, Value>)
    ensures data.Keys == UserKeys
    ensures "password" !in data
    ensures data["id"] == Num(id) && data["username"] == Str(u.username) && data["email"] == Str(u.email)
    ensures data["first_name"] == Str(u.firstName) && data["last_name"] == Str(u.lastName)
    ensures data["is_subscribed"] == Flag(IsSubscribed(ctx, id, follows))
  {
    map["email" := Str(u.email), "id" := Num(id), "username" := Str(u.username),
        "first_name" := Str(u.firstName), "last_name" := Str(u.lastName),
        "is_subscribed" := Flag(IsSubscribed(ctx, id, follows))]
  }

  predicate IsPost(ctx: Context) {
    ctx.Request? && ctx.verb == POST
  }

  /** `UserSerializer.to_representation`: on a POST request the
      `is_subscribed` key is popped from the data; every other key keeps its
      value. */
  method ToRepresentation(id: UserId, u: User, ctx: Context, follows: set<Follow>) returns (data: map<string, Value>)
    ensures IsPost(ctx) ==> data.Keys == UserKeys - {"is_subscribed"}
    ensures !IsPost(ctx) ==> data.Keys == UserKeys
    ensures forall k :: k in data ==> data[k] == UserRepresentation(id, u, ctx, follows)[k]
  {
    data := UserRepresentation(id, u, ctx, follows);
    if ctx.Request? && ctx.verb == POST {
      data := data - {"is_subscribed"};
    }
  }

  /** The author serializer skips the pop: `is_subscribed` is always there. */
  function AuthorRepresentation(id: UserId, u: User, ctx: Context, follows: set<Follow>): (data: map<string, Value>)
    ensures "is_subscribed" in data && data["is_subscribed"] == Flag(IsSubscribed(ctx, id, follows))
    ensures data.Keys == UserKeys
  {
    UserRepresentation(id, u, ctx, follows)
  }

  // ---------------------------------------------------------------------------
  // recipes_limit
  // ---------------------------------------------------------------------------

  function Min(a: int, b: int): int {
    if a <= b then a else b
  }

  /** Python's `recipes[:n]` for `n >= 0`. */
  function Take(recipes: seq<RecipeId>, n: nat): (r: seq<RecipeId>)
    ensures |r| == Min(n, |recipes|)
    ensures r <= recipes
  {
    if n <= |recipes| then recipes[..n] else recipes
  }

  /** Largest value of a PostgreSQL `bigint`: the type the database casts
      a query's `LIMIT` to. A larger slice bound makes the query fail with a
      `DataError` when the serializer iterates it. */
  const MaxBigInt: int := 9223372036854775807

  /** The parameter is a decimal integer beyond the `bigint` range: the
      slice is accepted by Python but the query fails (500), in both copies,
      since the query runs outside the tolerant copy's `try`. */
  predicate LimitOverflows(param: Option<string>) {
    param.Some? && param.value != "" && ParseInt(param.value).Some? && ParseInt(param.value).value > MaxBigInt
  }

  /** Whether the strict copy raises on `param`: a non-empty parameter that
      is not an integer, a negative one, or one beyond the `bigint` range.
      It depends on the parameter alone, not on the recipes. */
  predicate LimitRaises(param: Option<string>) {
    && param.Some? && param.value != ""
    && (ParseInt(param.value).None? || ParseInt(param.value).value < 0 || ParseInt(param.value).value > MaxBigInt)
  }

  /** The copy used by the subscription views: a non-empty parameter must be
      an integer, slicing with a negative one raises, and a bound beyond
      `bigint` fails in the database; every failure escapes the serializer
      (500). */
  function RecipesLimitStrict(param: Option<string>, recipes: seq<RecipeId>): (r: Result<seq<RecipeId>, Status>)
    ensures r.Err? <==> LimitRaises(param)
    ensures r.Err? ==> r.error == ServerError
    ensures r.Ok? ==> r.value <= recipes
  {
    if param.None? || param.value == "" then Ok(recipes)
    else
      match ParseInt(param.value)
      case None => Err(ServerError)
      case Some(n) => if n < 0 || n > MaxBigInt then Err(ServerError) else Ok(Take(recipes, n))
  }

  /** The copy in `api/serializers.py` (unrouted): the `ValueError` of a
      non-integer or negative limit is caught and the full list is kept;
      a bound beyond `bigint` still fails when the query runs (500). */
  function RecipesLimitTolerant(param: Option<string>, recipes: seq<RecipeId>): (r: Result<seq<RecipeId>, Status>)
    ensures r.Err? <==> LimitOverflows(param)
    ensures r.Err? ==> r.error == ServerError
    ensures r.Ok? ==> r.value <= recipes
  {
    if param.None? || param.value == "" then Ok(recipes)
    else
      match ParseInt(param.value)
      case None => Ok(recipes)
      case Some(n) => if n < 0 then Ok(recipes) else if n > MaxBigInt then Err(ServerError) else Ok(Take(recipes, n))
  }

  /** An absent or empty parameter keeps every recipe, in both copies. */
  lemma NoLimitKeepsAll(param: Option<string>, recipes: seq<RecipeId>)
    requires param.None? || param == Some("")
    ensures RecipesLimitStrict(param, recipes) == Ok(recipes)
    ensures RecipesLimitTolerant(param, recipes) == Ok(recipes)
  {
  }

  /** The decimal text of `n` within the `bigint` range gives the first `n`
      recipes (all of them when there are fewer), so "0" gives none, in both
      copies. */
  lemma DecimalLimitTakesPrefix(n: nat, recipes: seq<RecipeId>)
    requires n <= MaxBigInt
    ensures RecipesLimitStrict(Some(NatToString(n)), recipes) == Ok(Take(recipes, n))
    ensures RecipesLimitTolerant(Some(NatToString(n)), recipes) == Ok(Take(recipes, n))
    ensures |Take(recipes, n)| == Min(n, |recipes|)
  {
    ParseIntRoundTrip(n);
  }

  /** The decimal text of `n` beyond the `bigint` range fails in both
      copies, whatever the recipes. */
  lemma HugeLimitFails(n: nat, recipes: seq<RecipeId>)
    requires n > MaxBigInt
    ensures RecipesLimitStrict(Some(NatToString(n)), recipes) == Err(ServerError)
    ensures RecipesLimitTolerant(Some(NatToString(n)), recipes) == Err(ServerError)
  {
    ParseIntRoundTrip(n);
  }

  /** A negative limit fails in the strict copy and is ignored by the
      tolerant one. */
  lemma NegativeLimit(n: nat, recipes: seq<RecipeId>)
    requires n > 0
    ensures RecipesLimitStrict(Some("-" + NatToString(n)), recipes) == Err(ServerError)
    ensures RecipesLimitTolerant(Some("-" + NatToString(n)), recipes) == Ok(recipes)
  {
    ParseIntRoundTrip(n);
  }

  /** A non-integer limit fails in the strict copy and is ignored by the
      tolerant one. */
  lemma NonIntegerLimit(s: string, recipes: seq<RecipeId>)
    requires s != "" && ParseInt(s).None?
    ensures RecipesLimitStrict(Some(s), recipes) == Err(ServerError)
    ensures RecipesLimitTolerant(Some(s), recipes) == Ok(recipes)
  {
  }

  /** The two copies agree wherever the strict one succeeds; where it fails,
      both fail on a bound beyond `bigint`, and otherwise the tolerant one
      falls back to the full list. */
  lemma LimitCopiesAgree(param: Option<string>, recipes: seq<RecipeId>)
    ensures RecipesLimitStrict(param, recipes).Ok? ==>
      RecipesLimitTolerant(param, recipes) == RecipesLimitStrict(param, recipes)
    ensures LimitOverflows(param) ==>
      RecipesLimitStrict(param, recipes) == Err(ServerError) && RecipesLimitTolerant(param, recipes) == Err(ServerError)
    ensures RecipesLimitStrict(param, recipes).Err? && !LimitOverflows(param) ==>
      RecipesLimitTolerant(param, recipes) == Ok(recipes)
  {
  }

  /** The subscription serializer: the user's fields with `is_subscribed`
      always kept, the (limited) recipes of the user and the count of all of
      them, which the limit does not affect. `authorRecipes` is the user's
      recipes in their listing order. */
  function SubscriptionRepresentation(id: UserId, u: User, ctx: Context, follows: set<Follow>,
                                      authorRecipes: seq<RecipeId>, limit: Option<string>): (r: Result<map<string, Value>, Status>)
    ensures r.Err? <==> RecipesLimitStrict(limit, authorRecipes).Err?
    ensures r.Err? ==> r.error == ServerError
    ensures r.Ok? ==>
      && r.value.Keys == UserKeys + {"recipes", "recipes_count"}
      && r.value["is_subscribed"] == Flag(IsSubscribed(ctx, id, follows))
      && r.value["recipes_count"] == Num(|authorRecipes|)
      && r.value["recipes"] == RecipeRefs(RecipesLimitStrict(limit, authorRecipes).value)
      && r.value["recipes"].ids <= authorRecipes
  {
    match RecipesLimitStrict(limit, authorRecipes)
    case Err(e) => Err(e)
    case Ok(shown) =>
      Ok(UserRepresentation(id, u, ctx, follows)["recipes" := RecipeRefs(shown)]["recipes_count" := Num(|authorRecipes|)])
  }

  /** The same with the tolerant limit of the unrouted copy: it fails only
      on a bound beyond `bigint`. */
  function SubscriptionRepresentationTolerant(id: UserId, u: User, ctx: Context, follows: set<Follow>,
                                              authorRecipes: seq<RecipeId>, limit: Option<string>): (r: Result<map<string, Value>, Status>)
    ensures r.Err? <==> LimitOverflows(limit)
    ensures r.Err? ==> r.error == ServerError
    ensures r.Ok? ==>
      && r.value.Keys == UserKeys + {"recipes", "recipes_count"}
      && r.value["is_subscribed"] == Flag(IsSubscribed(ctx, id, follows))
      && r.value["recipes_count"] == Num(|authorRecipes|)
      && r.value["recipes"] == RecipeRefs(RecipesLimitTolerant(limit, authorRecipes).value)
  {
    match RecipesLimitTolerant(limit, authorRecipes)
    case Err(e) => Err(e)
    case Ok(shown) =>
      Ok(UserRepresentation(id, u, ctx, follows)["recipes" := RecipeRefs(shown)]["recipes_count" := Num(|authorRecipes|)])
  }

  // ---------------------------------------------------------------------------
  // create
  // ---------------------------------------------------------------------------

  /** `create` in the user serializer of `api/users/serializers.py`: the
      password is replaced by its hash, and the other validated values are
      kept. No routed endpoint creates a user through this copy. */
  method HashPassword(validated: map<string, Value>, hash: string -> string) returns (data: map<string, Value>)
    requires "password" in validated && validated["password"].Str?
    ensures data.Keys == validated.Keys
    ensures data["password"] == Str(hash(validated["password"].s))
    ensures forall k :: k in data && k != "password" ==> data[k] == validated[k]
  {
    data := validated;
    data := data["password" := Str(hash(validated["password"].s))];
  }

  /** `create` in the copy the user endpoints are configured with
      (`api/serializers.py`): `is_subscribed` is dropped first, then the
      password is hashed. */
  method PrepareCreate(validated: map<string, Value>, hash: string -> string) returns (data: map<string, Value>)
    requires "password" in validated && validated["password"].Str?
    ensures data.Keys == validated.Keys - {"is_subscribed"}
    ensures data["password"] == Str(hash(validated["password"].s))
    ensures forall k :: k in data && k != "password" ==> data[k] == validated[k]
  {
    data := validated;
    data := data - {"is_subscribed"};
    data := data["password" := Str(hash(validated["password"].s))];
  }
}
