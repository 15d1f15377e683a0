/**
 * The field-level checks of the recipe serializer, run before `validate`:
 * `name` and `text` are trimmed and may not be blank or hold a null
 * character (`name` at most 255 characters), `image` goes through the base64 image field, `cooking_time`
 * must fit a positive small integer. A full write (POST, PUT) needs all
 * four; a partial one (PATCH) accepts any of them missing. Then the whole
 * payload check: field errors, then `validate`.
 */
module RecipeFields {
  import opened Types
  import opened Strings
  import opened Models
  import opened ImageField
  import opened RecipeValidation

  /** `max_length` of the recipe name column. */
  const NameMaxLength: int := 255

  /** The validated scalar fields; `None` for a field the payload left out. */
  datatype Scalars = Scalars(name: Option<string>, image: Option<string>, text: Option<string>, cookingTime: Option<int>)

  datatype FieldFailure =
    | ImageCrash                        // the unpacking error of the image field escapes (500)
    | FieldErrors(fields: set<string>)  // the fields that failed (400)

  /** The character field's null-character validator, run on the trimmed
      value; trimming never removes a null character. */
  predicate NoNullChar(s: string) {
    forall i :: 0 <= i < |s| ==> s[i] != '\0'
  }

  predicate NameOk(v: Option<string>, partial: bool) {
    if v.None? then partial
    else Strip(v.value) != "" && |Strip(v.value)| <= NameMaxLength && NoNullChar(Strip(v.value))
  }

  predicate TextOk(v: Option<string>, partial: bool) {
    if v.None? then partial else Strip(v.value) != "" && NoNullChar(Strip(v.value))
  }

  predicate ImageOk(v: Option<string>, partial: bool) {
    if v.None? then partial else ToInternalValue(Text(v.value)).FileValue?
  }

  predicate ImageCrashes(v: Option<string>) {
    v.Some? && ToInternalValue(Text(v.value)) == Crash
  }

  predicate CookingTimeOk(v: Option<int>, partial: bool) {
    if v.None? then partial else 0 <= v.value <= MaxPositiveSmallInt
  }

  function FailedFields(p: RecipePayload, partial: bool): (fs: set<string>)
    ensures "name" in fs <==> !NameOk(p.name, partial)
    ensures "image" in fs <==> !ImageOk(p.image, partial)
    ensures "text" in fs <==> !TextOk(p.text, partial)
    ensures "cooking_time" in fs <==> !CookingTimeOk(p.cookingTime, partial)
    ensures fs <= {"name", "image", "text", "cooking_time"}
  {
    (if NameOk(p.name, partial) then {} else {"name"})
    + (if ImageOk(p.image, partial) then {} else {"image"})
    + (if TextOk(p.text, partial) then {} else {"text"})
    + (if CookingTimeOk(p.cookingTime, partial) then {} else {"cooking_time"})
  }

  function StripOption(v: Option<string>): Option<string> {
    if v.None? then None else Some(Strip(v.value))
  }

  /** The stored name of the decoded image. */
  function ImageName(v: Option<string>): Option<string>
  {
    if v.Some? && ToInternalValue(Text(v.value)).FileValue? then Some(ToInternalValue(Text(v.value)).name) else None
  }

  /** The field checks: the image crash wins over every field error; with no
      error the values are the trimmed texts, the image file name and the
      cooking time, and a full write has all four. */
  function CheckFields(p: RecipePayload, partial: bool): (r: Result<Scalars, FieldFailure>)
    ensures r == Err(ImageCrash) <==> ImageCrashes(p.image)
    ensures r.Err? && r.error.FieldErrors? ==> r.error.fields == FailedFields(p, partial) && r.error.fields != {}
    ensures r.Ok? <==> !ImageCrashes(p.image) && FailedFields(p, partial) == {}
    ensures r.Ok? ==> r.value.name == StripOption(p.name) && r.value.text == StripOption(p.text)
    ensures r.Ok? ==> r.value.cookingTime == p.cookingTime && r.value.image == ImageName(p.image)
    ensures r.Ok? ==> (r.value.name.Some? <==> p.name.Some?) && (r.value.image.Some? <==> p.image.Some?)
    ensures r.Ok? && !partial ==>
      r.value.name.Some? && r.value.image.Some? && r.value.text.Some? && r.value.cookingTime.Some?
  {
    if ImageCrashes(p.image) then Err(ImageCrash)
    else
      var failed := FailedFields(p, partial);
      if failed != {} then Err(FieldErrors(failed))
      else Ok(Scalars(StripOption(p.name), ImageName(p.image), StripOption(p.text), p.cookingTime))
  }

  /** The serializer's `is_valid`: field errors (or the image crash), then
      `validate` against the ingredient ids in the table. */
  function CheckPayload(p: RecipePayload, partial: bool, known: set<IngredientId>): (r: Result<Scalars, Status>)
    ensures r.Ok? <==> CheckFields(p, partial).Ok? && Validation(known, p.tags, p.ingredients).Ok?
    ensures r.Ok? ==> r.value == CheckFields(p, partial).value
    ensures CheckFields(p, partial) == Err(ImageCrash) ==> r == Err(ServerError)
    ensures CheckFields(p, partial).Err? && CheckFields(p, partial).error.FieldErrors? ==> r == Err(BadRequest)
    ensures CheckFields(p, partial).Ok? && Validation(known, p.tags, p.ingredients).Err? ==>
      r == Err(Validation(known, p.tags, p.ingredients).error.ResponseStatus())
  {
    match CheckFields(p, partial)
    case Err(ImageCrash) => Err(ServerError)
    case Err(FieldErrors(_)) => Err(BadRequest)
    case Ok(s) =>
      match Validation(known, p.tags, p.ingredients)
      case Err(e) => Err(e.ResponseStatus())
      case Ok(_) => Ok(s)
  }

  /** An accepted payload has tags and ingredients, every ingredient known,
      none repeated and none negative. */
  lemma AcceptedPayload(p: RecipePayload, partial: bool, known: set<IngredientId>)
    requires CheckPayload(p, partial, known).Ok?
    ensures |p.tags| > 0 && |p.ingredients| > 0
    ensures forall k :: 0 <= k < |p.ingredients| ==> p.ingredients[k].id in known && p.ingredients[k].amount >= 0
    ensures DistinctIds(p.ingredients)
  {
    ValidationAccepts(known, p.tags, p.ingredients);
  }

  /** A name or text holding a null character anywhere is a field error,
      in a full or a partial write. */
  lemma NullCharRejected(p: RecipePayload, partial: bool)
    requires (p.name.Some? && '\0' in p.name.value) || (p.text.Some? && '\0' in p.text.value)
    ensures p.name.Some? && '\0' in p.name.value ==> "name" in FailedFields(p, partial)
    ensures p.text.Some? && '\0' in p.text.value ==> "text" in FailedFields(p, partial)
    ensures CheckFields(p, partial).Err?
  {
    if p.name.Some? && '\0' in p.name.value {
      StripKeepsNonSpace(p.name.value, '\0');
    }
    if p.text.Some? && '\0' in p.text.value {
      StripKeepsNonSpace(p.text.value, '\0');
    }
  }

  /** A partial write with no scalar field passes the field checks, and its
      scalars are all missing. */
  lemma EmptyPatchFields(p: RecipePayload)
    requires p.name.None? && p.image.None? && p.text.None? && p.cookingTime.None?
    ensures CheckFields(p, true) == Ok(Scalars(None, None, None, None))
  {
  }
}
