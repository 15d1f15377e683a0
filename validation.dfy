/**
 * `RecipeSerializer.validate`: the checks on the tags and ingredients of a
 * recipe request, in the order the serializer applies them.
 */
module RecipeValidation {
  import opened Types

  /** One submitted ingredient item, `{"id": ..., "amount": ...}`. */
  datatype Item = Item(id: IngredientId, amount: int)

  /** The writable part of a recipe request body. An omitted scalar field is
      `None`; a missing tags or ingredients list is the empty list, which
      the serializer treats alike (both are falsy). */
  datatype RecipePayload = RecipePayload(
    tags: seq<TagId>,
    ingredients: seq<Item>,
    name: Option<string>,
    image: Option<string>,
    text: Option<string>,
    cookingTime: Option<int>)

  datatype ValidationError =
    | MissingTagsAndIngredients
    | MissingTags
    | MissingIngredients
    | IngredientNotFound(id: IngredientId)
    | DuplicateIngredient(id: IngredientId)
    | NegativeAmount(id: IngredientId)
  {
    /** The keys of the error body: a dict raised by `validate` keeps its
        keys, a bare message lands under "non_field_errors", and a failed
        `get_object_or_404` answers with "detail". */
    function Fields(): set<string> {
      match this
      case MissingTagsAndIngredients => {"tags", "ingredients"}
      case MissingTags => {"tags"}
      case MissingIngredients => {"ingredients"}
      case IngredientNotFound(_) => {"detail"}
      case DuplicateIngredient(_) => {"non_field_errors"}
      case NegativeAmount(_) => {"ingredients"}
    }

    function ResponseStatus(): Status {
      if IngredientNotFound? then NotFound else BadRequest
    }
  }

  function Ids(items: seq<Item>): (ids: seq<IngredientId>)
    ensures |ids| == |items|
    ensures forall k :: 0 <= k < |items| ==> ids[k] == items[k].id
  {
    if |items| == 0 then [] else [items[0].id] + Ids(items[1..])
  }

  /** The checks on item `i` in the order they run: lookup, then repetition
      of an earlier item's ingredient, then the sign of the amount. */
  function ItemCheck(known: set<IngredientId>, items: seq<Item>, i: nat): Option<ValidationError>
    requires i < |items|
  {
    if items[i].id !in known then Some(IngredientNotFound(items[i].id))
    else if items[i].id in Ids(items[..i]) then Some(DuplicateIngredient(items[i].id))
    else if items[i].amount < 0 then Some(NegativeAmount(items[i].id))
    else None
  }

  /** The outcome of the first failing item check from index `i` on. */
  function FirstItemError(known: set<IngredientId>, items: seq<Item>, i: nat): Option<ValidationError>
    requires i <= |items|
    decreases |items| - i
  {
    if i == |items| then None
    else if ItemCheck(known, items, i).Some? then ItemCheck(known, items, i)
    else FirstItemError(known, items, i + 1)
  }

  /** What `validate` decides for the submitted tags and items, given the
      ids present in the ingredient table. On success the validated
      ingredients are the submitted list itself. */
  function Validation(known: set<IngredientId>, tags: seq<TagId>, items: seq<Item>): (r: Result<seq<Item>, ValidationError>)
    ensures (r == Err(MissingTagsAndIngredients)) <==> (|tags| == 0 && |items| == 0)
    ensures (r == Err(MissingTags)) <==> (|tags| == 0 && |items| > 0)
    ensures (r == Err(MissingIngredients)) <==> (|tags| > 0 && |items| == 0)
    ensures r.Ok? ==> r.value == items
  {
    if |tags| == 0 && |items| == 0 then Err(MissingTagsAndIngredients)
    else if |tags| == 0 then Err(MissingTags)
    else if |items| == 0 then Err(MissingIngredients)
    else
      match FirstItemError(known, items, 0)
      case Some(e) => FirstItemErrorIsItemError(known, items, 0); Err(e)
      case None => Ok(items)
  }

  /** The serializer's loop, which keeps the list of ingredients seen so far. */
  method Validate(known: set<IngredientId>, tags: seq<TagId>, items: seq<Item>) returns (r: Result<seq<Item>, ValidationError>)
    ensures r == Validation(known, tags, items)
  {
    if |tags| == 0 && |items| == 0 {
      return Err(MissingTagsAndIngredients);
    } else if |tags| == 0 {
      return Err(MissingTags);
    } else if |items| == 0 {
      return Err(MissingIngredients);
    }
    var ingredientList: seq<IngredientId> := [];
    var i := 0;
    while i < |items|
      invariant 0 <= i <= |items|
      invariant ingredientList == Ids(items[..i])
      invariant FirstItemError(known, items, 0) == FirstItemError(known, items, i)
    {
      var item := items[i];
      if item.id !in known {
        return Err(IngredientNotFound(item.id));
      }
      if item.id in ingredientList {
        return Err(DuplicateIngredient(item.id));
      }
      ingredientList := ingredientList + [item.id];
      assert items[..i + 1] == items[..i] + [item];
      assert Ids(items[..i + 1]) == Ids(items[..i]) + [item.id];
      if item.amount < 0 {
        return Err(NegativeAmount(item.id));
      }
      i := i + 1;
    }
    return Ok(items);
  }

  // ---------------------------------------------------------------------------
  // Properties
  // ---------------------------------------------------------------------------

  lemma {:induction false} FirstItemErrorIsItemError(known: set<IngredientId>, items: seq<Item>, i: nat)
    requires i <= |items|
    ensures FirstItemError(known, items, i).Some? ==>
      FirstItemError(known, items, i).value.IngredientNotFound? ||
      FirstItemError(known, items, i).value.DuplicateIngredient? ||
      FirstItemError(known, items, i).value.NegativeAmount?
    decreases |items| - i
  {
    if i < |items| && ItemCheck(known, items, i).None? {
      FirstItemErrorIsItemError(known, items, i + 1);
    }
  }

  /** No item check fails from `i` on exactly when the scan finds nothing. */
  lemma {:induction false} NoItemError(known: set<IngredientId>, items: seq<Item>, i: nat)
    requires i <= |items|
    ensures FirstItemError(known, items, i).None? <==>
      forall k :: i <= k < |items| ==> ItemCheck(known, items, k).None?
    decreases |items| - i
  {
    if i < |items| {
      NoItemError(known, items, i + 1);
    }
  }

  /** The scan reports the check of the first failing item. */
  lemma {:induction false} FirstFailingItemDecides(known: set<IngredientId>, items: seq<Item>, i: nat, j: nat)
    requires i <= j < |items|
    requires forall k :: i <= k < j ==> ItemCheck(known, items, k).None?
    requires ItemCheck(known, items, j).Some?
    ensures FirstItemError(known, items, i) == ItemCheck(known, items, j)
    decreases j - i
  {
    if i < j {
      FirstFailingItemDecides(known, items, i + 1, j);
    }
  }

  lemma NotInEarlierIds(items: seq<Item>, k: nat)
    requires k < |items|
    requires forall l :: 0 <= l < k ==> items[l].id != items[k].id
    ensures items[k].id !in Ids(items[..k])
  {
    forall l | 0 <= l < k ensures Ids(items[..k])[l] != items[k].id {
      assert items[..k][l] == items[l];
    }
  }

  predicate DistinctIds(items: seq<Item>) {
    forall k, l :: 0 <= k < l < |items| ==> items[k].id != items[l].id
  }

  /** Validation succeeds exactly when there are tags and items, every item
      names an existing ingredient, no ingredient repeats and no amount is
      negative (so an amount of 0 passes). */
  lemma ValidationAccepts(known: set<IngredientId>, tags: seq<TagId>, items: seq<Item>)
    ensures Validation(known, tags, items).Ok? <==>
      && |tags| > 0 && |items| > 0
      && (forall k :: 0 <= k < |items| ==> items[k].id in known && items[k].amount >= 0)
      && DistinctIds(items)
  {
    NoItemError(known, items, 0);
    if |tags| > 0 && |items| > 0 {
      if FirstItemError(known, items, 0).None? {
        forall k, l | 0 <= k < l < |items| ensures items[k].id != items[l].id {
          assert ItemCheck(known, items, l).None?;
          assert items[..l][k] == items[k];
          assert Ids(items[..l])[k] == items[k].id;
        }
        forall k | 0 <= k < |items| ensures items[k].id in known && items[k].amount >= 0 {
          assert ItemCheck(known, items, k).None?;
        }
      }
      if
        && (forall k :: 0 <= k < |items| ==> items[k].id in known && items[k].amount >= 0)
        && DistinctIds(items)
      {
        forall k | 0 <= k < |items| ensures ItemCheck(known, items, k).None? {
          NotInEarlierIds(items, k);
        }
      }
    }
  }

  /** An item failing a check at index `j`, after items that all pass,
      decides the error: tags and items present, the result is `j`'s
      check outcome, whatever follows `j`. */
  lemma FirstFailureWins(known: set<IngredientId>, tags: seq<TagId>, items: seq<Item>, j: nat)
    requires |tags| > 0 && j < |items|
    requires forall k :: 0 <= k < j ==> ItemCheck(known, items, k).None?
    requires ItemCheck(known, items, j).Some?
    ensures Validation(known, tags, items) == Err(ItemCheck(known, items, j).value)
  {
    FirstFailingItemDecides(known, items, 0, j);
  }

  /** A repeated ingredient always makes validation fail. */
  lemma DuplicateRejected(known: set<IngredientId>, tags: seq<TagId>, items: seq<Item>, k: nat, l: nat)
    requires k < l < |items| && items[k].id == items[l].id
    ensures Validation(known, tags, items).Err?
  {
    ValidationAccepts(known, tags, items);
  }

  /** The first repeat of an ingredient, after items that are all known and
      non-negative, fails with the uniqueness error whatever its own amount
      and whatever follows it. */
  lemma DuplicateWins(known: set<IngredientId>, tags: seq<TagId>, items: seq<Item>, k: nat, l: nat)
    requires |tags| > 0 && k < l < |items| && items[k].id == items[l].id
    requires forall m :: 0 <= m < l ==> items[m].id in known && items[m].amount >= 0
    requires forall m, n :: 0 <= m < n < l ==> items[m].id != items[n].id
    ensures Validation(known, tags, items) == Err(DuplicateIngredient(items[l].id))
  {
    forall m | 0 <= m < l ensures ItemCheck(known, items, m).None? {
      NotInEarlierIds(items, m);
    }
    assert items[..l][k] == items[k];
    assert Ids(items[..l])[k] == items[l].id;
    FirstFailureWins(known, tags, items, l);
  }
}
