/**
 * The tables of the recipe and user apps and the invariants their model
 * declarations impose: unique fields, unique pairs, foreign keys, integer
 * ranges of the positive integer fields and the tag colour format.
 */
module Models {
  import opened Types

  /** A row of the user table. `password` holds the stored hash. */
  datatype User = User(username: string, email: string, firstName: string, lastName: string, password: string)

  datatype Tag = Tag(name: string, colour: string, slug: string)

  datatype Ingredient = Ingredient(name: string, unit: string)

  /** A recipe row together with its many-to-many tag set. */
  datatype Recipe = Recipe(
    author: UserId,
    name: string,
    image: string,
    text: string,
    cookingTime: int,
    pubDate: int,
    tags: set<TagId>)

  /** A recipe-ingredient row: the amount of one ingredient in one recipe. */
  datatype RecipeIngredient = RecipeIngredient(recipe: RecipeId, ingredient: IngredientId, amount: int)

  /** A favourite or shopping-list row: `user` keeps `recipe`. */
  datatype Entry = Entry(user: UserId, recipe: RecipeId)

  /** A follow row: `user` subscribes to the author `follower`. */
  datatype Follow = Follow(user: UserId, follower: UserId)

  /** Largest value of a PostgreSQL `integer` column (PositiveIntegerField). */
  const MaxPositiveInt: int := 2147483647
  /** Largest value of a PostgreSQL `smallint` column (PositiveSmallIntegerField). */
  const MaxPositiveSmallInt: int := 32767
  /** `max_length` of the tag colour column. */
  const ColourMaxLength: int := 7

  // ---------------------------------------------------------------------------
  // Tag colour
  // ---------------------------------------------------------------------------

  predicate IsHexDigit(c: char) {
    ('0' <= c <= '9') || ('a' <= c <= 'f') || ('A' <= c <= 'F')
  }

  predicate HexDigits(s: string) {
    forall i :: 0 <= i < |s| ==> IsHexDigit(s[i])
  }

  /** `^#([A-Fa-f0-9]{6}|[A-Fa-f0-9]{3})` followed by the end of the string:
      a '#' and then exactly three or exactly six hex digits. */
  predicate IsHexColour(s: string) {
    (|s| == 4 || |s| == 7) && s[0] == '#' && HexDigits(s[1..])
  }

  /** What Python's `re.search` with the pattern ending in `$` accepts: `$`
      also matches just before one final newline. */
  predicate ColourRegexAsWritten(s: string) {
    IsHexColour(s) || (|s| > 0 && s[|s| - 1] == '\n' && IsHexColour(s[..|s| - 1]))
  }

  /** The colour field's validators together: the regex and `max_length`. */
  predicate ColourFieldAsWritten(s: string)
    ensures ColourFieldAsWritten(s) ==> 4 <= |s| <= ColourMaxLength && s[0] == '#'
  {
    ColourRegexAsWritten(s) && |s| <= ColourMaxLength
  }

  /** What the colour field as written lets through: the hex colours, and a
      three-digit colour followed by one newline. A six-digit colour with a
      newline matches the regex but is one character over `max_length`. */
  lemma ColourFieldAccepts(s: string)
    ensures ColourFieldAsWritten(s) <==> IsHexColour(s) || (|s| == 5 && s[4] == '\n' && IsHexColour(s[..4]))
  {
    if |s| > 0 && s[|s| - 1] == '\n' && IsHexColour(s[..|s| - 1]) && |s| <= ColourMaxLength {
      assert |s| == 5;
    }
  }

  /** The field as written accepts a three-digit colour with a trailing
      newline, which is not a hex colour. */
  lemma TrailingNewlineAccepted()
    ensures ColourFieldAsWritten("#fff\n") && !IsHexColour("#fff\n")
  {
    var s := "#fff\n";
    assert s[..|s| - 1] == "#fff";
    assert HexDigits("#fff"[1..]) by {
      assert "#fff"[1..] == "fff";
    }
  }

  /** The corrected validator is exactly the written one minus the strings
      that end in a newline. */
  lemma CorrectedColour(s: string)
    ensures IsHexColour(s) <==> ColourRegexAsWritten(s) && (|s| == 0 || s[|s| - 1] != '\n')
  {
    if IsHexColour(s) {
      assert IsHexDigit(s[1..][|s| - 2]);
    }
  }

  // ---------------------------------------------------------------------------
  // Table invariants
  // ---------------------------------------------------------------------------

  /** Tag name, colour and slug are each unique; colours are well formed.
      Well-formed here is the intended rule (`IsHexColour`), not the field as
      written, which also admits a trailing newline, and fixture loads skip
      validators altogether: the tag table is assumed to satisfy it through
      the `requires` of the store's constructor. */
  predicate TagsValid(tags: map<TagId, Tag>) {
    && (forall t :: t in tags ==> IsHexColour(tags[t].colour))
    && (forall t, u :: t in tags && u in tags && t != u ==>
          && tags[t].name != tags[u].name
          && tags[t].colour != tags[u].colour
          && tags[t].slug != tags[u].slug)
  }

  /** Email is unique, and so is username (declared by the base user model);
      hence the (username, email) pair is unique too. */
  predicate UsersValid(users: map<UserId, User>) {
    forall u, v :: u in users && v in users && u != v ==>
      users[u].email != users[v].email && users[u].username != users[v].username
  }

  lemma UsernameEmailPairUnique(users: map<UserId, User>, u: UserId, v: UserId)
    requires UsersValid(users) && u in users && v in users && u != v
    ensures (users[u].username, users[u].email) != (users[v].username, users[v].email)
  {
  }

  predicate RecipesValid(recipes: map<RecipeId, Recipe>, users: map<UserId, User>, tags: map<TagId, Tag>) {
    forall r :: r in recipes ==>
      && recipes[r].author in users
      && 0 <= recipes[r].cookingTime <= MaxPositiveSmallInt
      && recipes[r].tags <= tags.Keys
  }

  predicate RowValid(row: RecipeIngredient, recipes: map<RecipeId, Recipe>, ingredients: map<IngredientId, Ingredient>) {
    && row.recipe in recipes
    && row.ingredient in ingredients
    && 0 <= row.amount <= MaxPositiveInt
  }

  predicate RowsValid(rows: seq<RecipeIngredient>, recipes: map<RecipeId, Recipe>, ingredients: map<IngredientId, Ingredient>) {
    forall row :: row in rows ==> RowValid(row, recipes, ingredients)
  }

  predicate EntriesValid(entries: set<Entry>, users: map<UserId, User>, recipes: map<RecipeId, Recipe>) {
    forall e :: e in entries ==> e.user in users && e.recipe in recipes
  }

  /** Both ends of every edge exist, and no user follows themself. The
      database does not check the latter, and the admin saves follow rows
      through its default form, so it holds only over the modelled
      endpoints, where the subscribe view refuses a self-follow. */
  predicate FollowsValid(follows: set<Follow>, users: map<UserId, User>) {
    forall f :: f in follows ==> f.user in users && f.follower in users && f.user != f.follower
  }
}
