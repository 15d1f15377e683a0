# Foodgram backend: a verified model of its business logic

Foodgram is a recipe-sharing backend. Users publish recipes that carry tags and ingredient amounts. They mark recipes as favourites, put them in a shopping cart, download the cart as an aggregated shopping list, and follow other authors. This project models the logic that sits on top of the database. Each piece lives in its own module:

- **Tables.** The tables and the invariants their model declarations impose (`Models`).
- **Recipe writes.** The recipe payload checks (`RecipeFields`, `RecipeValidation`) and the base64 image field (`ImageField`).
- **Favourites, cart and follows.** The toggles of both relations and the follow edges.
- **Reads.** The shopping-list aggregation and its text report (`ShoppingList`), and the recipe list filters (`RecipeFilters`).
- **Access and users.** The owner-or-read-only permission (`Permissions`), the user serializers with their two `recipes_limit` copies (`UserSerializers`), and the follow form of the users app (`FollowForms`), which no admin class or view uses.

The database has two forms:

- **As a value (`StoreSpec`).** Every endpoint's effect is a function that maps the old tables to new tables and a response status.
- **As an object (`Database.Store`).** This class holds the tables as fields. Each of its methods performs the source's writes step by step, and is proved to end exactly where the `StoreSpec` function says, keeping the invariants.

There is no transaction around the recipe writes, so the model keeps every write made before a failure. For example, an unknown tag id fails after the recipe row exists, and an amount too large for its column fails in the middle of the row loop.

`backend/api/serializers.py` holds a second copy of `RecipeSerializer` (lines 182-297), the same code as `backend/api/recipe/serializers.py`. The same members model both copies. The user serializers differ between the two copies, so both copies are modelled. The user endpoints are configured with the user serializer of `backend/api/serializers.py`, while the routed subscription views use `backend/api/users/serializers.py`. The subscription serializer of `backend/api/serializers.py`, with its tolerant `recipes_limit`, is used only by the viewsets of `backend/api/views.py`, and no URL routes to them. It is modelled because it is part of the serializers, but no endpoint reaches it.

Where the repository's description and the code disagree, the model follows the code:

- A colour must have exactly 3 or exactly 6 hex digits, not anything from 3 to 6.
- `cooking_time` may be 0, because the column is a positive small integer with no further validator.
- Recipe creation is not atomic.

## Model

| member | source | states |
|---|---|---|
| Models.ColourFieldAsWritten | backend/recipes/models.py:19-28 | the regex and `max_length` 7 together: an accepted value starts with '#' and has four to seven characters |
| Models.ColourFieldAccepts | backend/recipes/models.py:19-28 | the colour field as written (regex and `max_length` 7) accepts exactly the hex colours and a three-digit colour followed by one newline; a six-digit colour with a newline is over the length limit |
| Models.TrailingNewlineAccepted | backend/recipes/models.py:24-27 | the validator as written accepts `"#fff\n"`, which is not a hex colour |
| Models.CorrectedColour | backend/recipes/models.py:24-27 | the intended check is exactly the written one minus the values ending in a newline |
| Models.UsernameEmailPairUnique | backend/users/models.py:21-25 | with unique usernames and emails, no two users share the (username, email) pair |
| RecipeValidation.Validation | backend/api/recipe/serializers.py:109-126 | both lists empty gives the combined error, only tags empty the tags error, only ingredients empty the ingredients error; success returns the submitted list unchanged |
| RecipeValidation.Validate | backend/api/recipe/serializers.py:109-147 | the loop over the items, with its running list of seen ingredients, returns what `Validation` specifies |
| RecipeValidation.ValidationAccepts | backend/api/recipe/serializers.py:128-146 | a payload is accepted exactly when both lists are non-empty, every item names a known ingredient with amount at least 0 (so 0 passes), and no id repeats |
| RecipeValidation.FirstFailureWins | backend/api/recipe/serializers.py:128-145 | the first failing item decides the error, and for that item the lookup comes before the duplicate check, which comes before the negative-amount check |
| RecipeValidation.FirstFailingItemDecides | backend/api/recipe/serializers.py:128-145 | the scan from any position reports the check of the first item that fails |
| RecipeValidation.NoItemError | backend/api/recipe/serializers.py:128-145 | the scan finds nothing exactly when every item passes its checks |
| RecipeValidation.FirstItemErrorIsItemError | backend/api/recipe/serializers.py:128-145 | an item error is a not-found, a duplicate or a negative amount |
| RecipeValidation.DuplicateRejected | backend/api/recipe/serializers.py:132-135 | a repeated ingredient id always fails validation |
| RecipeValidation.DuplicateWins | backend/api/recipe/serializers.py:132-135 | when the items before it are fine, the second occurrence of an id fails with the uniqueness error, whatever the amounts |
| RecipeFields.FailedFields | backend/recipes/models.py:81-101 | a field is reported exactly when its check fails: name and text trimmed non-blank and free of null characters (name at most 255), image a decodable file, cooking time from 0 to 32767, missing only when partial |
| RecipeFields.NullCharRejected | backend/recipes/models.py:81-101 | a name or text holding a null character anywhere is a field error, so the payload is refused |
| RecipeFields.CheckFields | backend/recipes/models.py:81-101 | the image unpacking crash wins over field errors; otherwise the failing fields are reported; success gives the trimmed values, and on a full write all four are present |
| RecipeFields.CheckPayload | backend/api/recipe/serializers.py:109-147 | field errors (400) or the image crash (500) come before `validate`, whose error status follows; success needs both |
| RecipeFields.AcceptedPayload | backend/api/recipe/serializers.py:128-146 | an accepted payload has tags and items, every item known and not negative, no id repeated |
| RecipeFields.EmptyPatchFields | backend/api/recipe/serializers.py:165-171 | a PATCH without scalar fields passes the field checks with every scalar missing |
| ImageField.ToInternalValue | backend/api/recipe/utils.py:13-20 | an upload passes through; only a `data:image` text can fail; a decoded text is named `temp.` plus its extension |
| ImageField.PassedThrough | backend/api/recipe/utils.py:14-20 | an upload, or text not starting with `data:image`, goes on unchanged to the image field |
| ImageField.DecodeRoundTrip | backend/api/recipe/utils.py:15-18 | `FORMAT;base64,PAYLOAD` decodes to the payload, named `temp.` plus the text after the last `/` of FORMAT |
| ImageField.DecodedShape | backend/api/recipe/utils.py:15-18 | every decoded data URI had exactly one marker, and its name is `temp.` plus an extension without `/` that ends the format |
| ImageField.MissingMarkerCrashes | backend/api/recipe/utils.py:15 | a data URI without `;base64,` fails the two-way unpacking |
| ImageField.RepeatedMarkerCrashes | backend/api/recipe/utils.py:15 | a data URI with two markers fails the two-way unpacking |
| ShoppingList.Aggregate | backend/api/recipe/views.py:113-120 | the groups are strictly ordered by (name, unit), so each key occurs once |
| ShoppingList.AggregateAmounts | backend/api/recipe/views.py:117-119 | for every (name, unit), the grouped amount equals the sum over the lines with that key |
| ShoppingList.AggregateKeys | backend/api/recipe/views.py:117 | a key has a group exactly when some line has it |
| ShoppingList.AggregateTotal | backend/api/recipe/views.py:115-119 | the grand total of the groups equals the total over all contributing lines |
| ShoppingList.GroupsAreSums | backend/api/recipe/views.py:117-119 | each group carries the sum for its own key, and no two groups share a key |
| ShoppingList.GroupsOrderedByName | backend/api/recipe/views.py:118 | the groups come in ascending ingredient-name order |
| ShoppingList.CartLinesAmount | backend/api/recipe/views.py:113-117 | the lines' amount for a key is the sum over exactly the rows of recipes in the user's cart whose ingredient has that name and unit |
| ShoppingList.ItemLines | backend/api/recipe/utils.py:33-42 | one `- name (unit) - amount` line per group, in group order |
| ShoppingList.OutListIngredients | backend/api/recipe/utils.py:23-50 | the filename is the username plus `_shopping_list.txt`, sent as an attachment, and the buffer after the four writes is the report |
| ShoppingList.ItemLinesSplit | backend/api/recipe/utils.py:33-42 | the joined item block splits back into the item lines, or one empty line when there are none |
| ShoppingList.ReportLines | backend/api/recipe/utils.py:29-43 | the report's lines are the header, a blank line, the date, a blank line, the items (one empty line if none), a blank line and the footer |
| RecipeFilters.FilterByEntries | backend/api/recipe/filters.py:35-43 | applied to the favourites (`is_favorited`) and to the cart (`is_in_shopping_cart`): a true value for a signed-in user keeps exactly the recipes that user has an entry for, otherwise the list is unchanged; always a subsequence |
| RecipeFilters.FilterAuthor | backend/api/recipe/filters.py:15-17 | keeps exactly the recipes whose author has the given id |
| RecipeFilters.FilterTags | backend/api/recipe/filters.py:19-24 | keeps the recipes with at least one of the slugs (OR), each once; an empty choice keeps all |
| RecipeFilters.FilterRecipes | backend/api/recipe/filters.py:6-33 | invalid parameters (a malformed author, an unknown slug) answer 400, and only those |
| RecipeFilters.FilterRecipesKeeps | backend/api/recipe/filters.py:6-43 | with valid parameters the result is a subsequence holding exactly the recipes that pass every filter |
| RecipeFilters.FilterRecipesIdempotent | backend/api/recipe/filters.py:35-43 | filtering a filtered list again changes nothing |
| RecipeFilters.PassingKept | backend/api/recipe/filters.py:35-43 | a list whose every recipe passes all the filters comes back unchanged |
| Permissions.HasObjectPermission | backend/api/permissions.py:7-8 | safe methods are always allowed, the author is always allowed, and anyone else is refused an unsafe method |
| Permissions.ObjectAccess | backend/api/permissions.py:7-8 | the request goes on exactly when permitted; a refusal is 401 for an anonymous requester and 403 for a signed-in one |
| Permissions.SafeAlwaysPermitted | backend/api/permissions.py:8 | reads are permitted whoever asks |
| Permissions.UnsafeOnlyForAuthor | backend/api/permissions.py:8 | an unsafe method is permitted exactly to the object's author |
| Permissions.DeniedChange | backend/api/permissions.py:8 | a change by anyone else ends in 401 or 403 by authentication |
| UserSerializers.IsSubscribed | backend/api/users/serializers.py:43-49 | false without a request or for an anonymous user, otherwise true exactly when the follow edge exists |
| UserSerializers.UserRepresentation | backend/api/users/serializers.py:25-41 | the readable keys, each with the user's own value (id, username, email, first and last name, `is_subscribed`); the password is write-only |
| UserSerializers.ToRepresentation | backend/api/users/serializers.py:59-64 | on POST `is_subscribed` is removed; every other key keeps its value |
| UserSerializers.AuthorRepresentation | backend/api/users/serializers.py:73-75 | the author serializer always keeps `is_subscribed` |
| UserSerializers.Take | backend/api/users/serializers.py:97 | a slice `[:n]` is the prefix of length min(n, count) |
| UserSerializers.RecipesLimitStrict | backend/api/users/serializers.py:90-98 | fails exactly when the parameter is non-empty and not an integer, negative, or above PostgreSQL's `bigint` range (the `LIMIT` cast), whatever the recipes; every failure is a 500; a result is a prefix of the author's recipes |
| UserSerializers.RecipesLimitTolerant | backend/api/serializers.py:124-135 | fails, with a 500, exactly when the parameter is an integer above the `bigint` range, since the `try` catches only `ValueError` and the query runs after it; otherwise the result is a prefix of the author's recipes |
| UserSerializers.HugeLimitFails | backend/api/users/serializers.py:95-98 | the decimal text of any n above the `bigint` range answers 500 in both copies |
| UserSerializers.NoLimitKeepsAll | backend/api/users/serializers.py:94-95 | no parameter, or an empty one, keeps all recipes in both copies |
| UserSerializers.DecimalLimitTakesPrefix | backend/api/users/serializers.py:95-97 | the decimal text of n within the `bigint` range gives the first n recipes, so "0" gives none, in both copies |
| UserSerializers.NegativeLimit | backend/api/users/serializers.py:96-97 | a negative limit fails (a negative slice raises) in the strict copy and is ignored by the tolerant one |
| UserSerializers.NonIntegerLimit | backend/api/users/serializers.py:96 | a non-integer limit fails in the strict copy and is ignored by the tolerant one |
| UserSerializers.LimitCopiesAgree | backend/api/serializers.py:129-134 | the two copies agree wherever the strict one succeeds; both answer 500 above the `bigint` range; wherever else the strict one fails, the tolerant one keeps everything |
| UserSerializers.SubscriptionRepresentation | backend/api/users/serializers.py:90-105 | fails, with a 500, exactly when the strict limit does (the `bigint` overflow included); otherwise keeps `is_subscribed`, shows exactly the recipes the strict limit selects (a prefix), and counts all of them whatever the limit |
| UserSerializers.SubscriptionRepresentationTolerant | backend/api/serializers.py:124-142 | fails, with a 500, exactly when the limit is above the `bigint` range; otherwise keeps `is_subscribed`, shows exactly the recipes the tolerant limit selects and counts all of them |
| UserSerializers.HashPassword | backend/api/users/serializers.py:55-57 | the password becomes its hash and every other value is kept (no routed endpoint creates users through this copy) |
| UserSerializers.PrepareCreate | backend/api/serializers.py:92-95 | `is_subscribed` is dropped, the password becomes its hash, and every other value is kept |
| FollowForms.Clean | backend/users/forms.py:12-17 | accepted data is unchanged and has two different ends |
| FollowForms.SelfPairRejected | backend/users/forms.py:16-17 | a user paired with themself is refused |
| FollowForms.DistinctPairAccepted | backend/users/forms.py:13-17 | two distinct users pass with the data unchanged |
| FollowForms.BothMissingRejected | backend/users/forms.py:14-17 | two missing fields compare equal and are refused |
| FollowForms.OneMissingAccepted | backend/users/forms.py:14-16 | exactly one missing field passes this check |
| StoreSpec.AddEntry | backend/api/recipe/views.py:46-58 | favourite or cart add: 401 when anonymous, 404 for an unknown recipe, 400 for an existing pair, each with no change; otherwise exactly the pair is added, 201 |
| StoreSpec.RemoveEntry | backend/api/recipe/views.py:60-72 | remove: 401, 404, and 400 for an absent pair, each with no change; otherwise exactly the pair is removed, 204 |
| StoreSpec.IsMarked | backend/api/recipe/serializers.py:93-107 | `is_favorited` and `is_in_shopping_cart`: false for anonymous users, otherwise membership of the pair |
| StoreSpec.Subscribe | backend/api/users/views.py:20-47 | 404 for an unknown target, then 400 for oneself, then 400 for an existing edge, each with no change; otherwise exactly the edge (requester, target) is written, and the answer is 200, or 500 when the strict `recipes_limit` raises (not an integer, negative, or above the `bigint` range) |
| StoreSpec.Unsubscribe | backend/api/users/views.py:49-68 | 404 for an unknown target, 400 for a missing edge with no change; otherwise exactly that edge is removed, 204 |
| StoreSpec.Subscriptions | backend/api/users/views.py:77-79 | exactly the users the requester follows, ordered by username, each once |
| StoreSpec.SubscriptionList | backend/api/users/views.py:71-79 | 401 when anonymous; otherwise 500 exactly when some user is followed and the strict `recipes_limit` raises, else the subscriptions |
| StoreSpec.SubscriptionListServes | backend/api/users/views.py:71-79 | the list fails exactly when some followed user's subscription representation fails, and on success every listed user serializes |
| StoreSpec.SubscribeResponse | backend/api/users/views.py:37-47 | a new follow always writes the edge, and answers 500 exactly when the target's subscription representation fails, 200 otherwise |
| StoreSpec.SubscribeHugeLimit | backend/api/users/views.py:37-47 | following with a limit above the `bigint` range answers 500, with exactly the new edge written |
| StoreSpec.SubscribeBadLimitKeepsEdge | backend/api/users/serializers.py:96-97 | following with `recipes_limit=abc` answers 500 yet keeps the edge, which a later unfollow removes with 204 |
| StoreSpec.ByUsernameTotalPreorder | backend/users/models.py:26 | the username ordering is total and transitive |
| StoreSpec.AddEntryPreservesValid | backend/recipes/models.py:166-193 | an add keeps every table invariant, unique pairs included |
| StoreSpec.RemoveEntryPreservesValid | backend/recipes/models.py:166-193 | a remove keeps every table invariant |
| StoreSpec.AddThenRemove | backend/api/recipe/views.py:46-72 | adding then removing the same pair restores the tables |
| StoreSpec.RemoveThenAdd | backend/api/recipe/views.py:46-72 | removing then adding the same pair restores the tables |
| StoreSpec.AddTwice | backend/api/recipe/views.py:49-56 | a second add of the pair answers 400 without a change, and the recipe shows as marked |
| StoreSpec.AddEntryFrame | backend/api/recipe/views.py:79-91 | an add touches only its own relation |
| StoreSpec.SubscribePreservesValid | backend/users/models.py:32-56 | a follow keeps the invariants: both ends exist, no self-edge |
| StoreSpec.UnsubscribePreservesValid | backend/users/models.py:32-56 | an unfollow keeps the invariants |
| StoreSpec.SelfFollowRejected | backend/api/users/views.py:31-35 | following oneself answers 400 and changes nothing, whatever edges exist and whatever the limit |
| StoreSpec.SubscribeThenUnsubscribe | backend/api/users/views.py:20-79 | after a follow (200, or 500 from the limit) the target is among the subscriptions (it was not before), and unfollowing restores the tables |
| StoreSpec.RowsFor | backend/api/recipe/serializers.py:149-155 | one row per item, in order, with the item's id and amount |
| StoreSpec.FitCount | backend/recipes/models.py:135-137 | the number of leading items whose amount fits the integer column, at most the number of items; the next one does not fit |
| StoreSpec.InsertRows | backend/api/recipe/serializers.py:149-155 | the rows of the items before the first overflowing amount are appended; the loop completes exactly when every amount fits |
| StoreSpec.OtherRows | backend/api/recipe/serializers.py:175 | the deletion leaves exactly the rows of other recipes |
| StoreSpec.RowsOfReplaced | backend/api/recipe/serializers.py:175-176 | after the deletion and re-insertion, the recipe's rows are exactly the rows of the new items |
| StoreSpec.OtherRowsKept | backend/api/recipe/serializers.py:175-176 | every other recipe keeps its rows through the replacement |
| StoreSpec.RowsOfAppended | backend/api/recipe/serializers.py:162 | rows appended for one recipe leave the others' rows unchanged |
| StoreSpec.RowsForSnoc | backend/api/recipe/serializers.py:150-155 | one more iteration appends the row of the next item |
| StoreSpec.Assign | backend/api/recipe/serializers.py:166-171 | a field present in the request replaces the old one and an omitted one keeps it; author, date and tags untouched |
| StoreSpec.ApplyUpdate | backend/api/recipe/serializers.py:172-177 | the order of the update's writes, and what each failure leaves behind |
| StoreSpec.RemoveRecipe | backend/recipes/models.py:125-157 | the recipe is gone, and no row, favourite or cart entry refers to it |
| StoreSpec.DestroyRecipe | backend/api/recipe/views.py:28-30 | 404 for a missing recipe, 401 or 403 for a non-author with no change; otherwise the cascade, 204 |
| StoreSpec.DeleteUser | backend/users/models.py:32-46 | the user is gone, and no recipe, entry or follow edge at either end refers to them |
| StoreSpec.Listing | backend/recipes/models.py:116 | every recipe once, newest `pub_date` first |
| StoreSpec.AuthorRecipes | backend/api/users/serializers.py:94 | exactly the author's recipes |
| StoreSpec.RowsValidConcat | backend/recipes/models.py:122-137 | valid row lists stay valid when joined |
| StoreSpec.RowsForValid | backend/recipes/models.py:122-137 | rows of known ingredients with amounts that fit are valid |
| StoreSpec.InsertedRowsValid | backend/recipes/models.py:135-137 | the rows the loop writes for an accepted payload are valid |
| StoreSpec.FreshRecipeNoRows | backend/recipes/models.py:122-129 | a new recipe id has no rows yet |
| StoreSpec.CreateRejectsBeforeWriting | backend/api/recipe/views.py:34-35 | a refused payload answers its status, and an anonymous author 500, with no change |
| StoreSpec.CreateSucceeds | backend/api/recipe/serializers.py:157-163 | a 201 means the requester's recipe with the trimmed fields, the date, the requested tags and exactly one row per item in order; other recipes and tables unchanged |
| StoreSpec.CreateUnknownTagKeepsRecipe | backend/api/recipe/serializers.py:160-161 | an unknown tag id answers 500 after the recipe row exists, left without tags or rows |
| StoreSpec.CreateOverflowKeepsPrefix | backend/api/recipe/serializers.py:149-162 | an amount too large answers 500 with the rows before it written |
| StoreSpec.CreatePreservesValid | backend/recipes/models.py:72-137 | creation keeps every table invariant, failing or not |
| StoreSpec.UpdateRejectsBeforeWriting | backend/api/recipe/views.py:28-38 | a missing recipe (404), a non-author (401 or 403) or a refused payload change nothing |
| StoreSpec.UpdateOkShape | backend/api/recipe/serializers.py:165-178 | a 200 needs an existing recipe, its author, an accepted payload, known tags and amounts that fit |
| StoreSpec.UpdateSucceeds | backend/api/recipe/serializers.py:165-178 | each carried field is replaced and each omitted one kept; tags are exactly the requested ones; author and date never change, although the view passes an author; nothing else changes |
| StoreSpec.UpdateReplacesRows | backend/api/recipe/serializers.py:172-176 | after a 200 the recipe's rows are exactly one per item, in order, and every other recipe keeps its rows |
| StoreSpec.UpdateUnknownTagClearsTags | backend/api/recipe/serializers.py:172-174 | an unknown tag id answers 500 with the tags already cleared and the rows and fields unchanged |
| StoreSpec.UpdateOverflowLosesRows | backend/api/recipe/serializers.py:175-177 | an amount too large answers 500 with the old rows gone, a prefix of the new ones written and the fields not saved |
| StoreSpec.AssignedTimeInRange | backend/recipes/models.py:99-101 | the saved cooking time fits the small-integer column |
| StoreSpec.ApplyUpdatePreservesValid | backend/recipes/models.py:72-137 | the update's writes keep every table invariant |
| StoreSpec.UpdatePreservesValid | backend/recipes/models.py:72-137 | an update keeps every table invariant, failing or not |
| StoreSpec.DestroyPreservesValid | backend/recipes/models.py:122-157 | deleting a recipe keeps every table invariant |
| StoreSpec.DestroyCascade | backend/recipes/models.py:125-157 | deleting removes exactly the recipe's rows, favourites and cart entries; other recipes keep theirs |
| StoreSpec.DeleteUserPreservesValid | backend/users/models.py:32-46 | deleting a user keeps every table invariant |
| StoreSpec.DeleteUserLeavesNoTrace | backend/recipes/models.py:75-80 | nothing refers to a deleted user, directly or through their recipes; everyone else's recipes stay |
| StoreSpec.RegisterPreservesValid | backend/users/models.py:10-25 | registration keeps emails and usernames unique |
| StoreSpec.RegisterOutcome | backend/api/serializers.py:92-95 | the values are trimmed first; a blank one, or a username or email taken after trimming, answers 400 with no change; otherwise the new user stores the trimmed values and the hash of the trimmed password |
| StoreSpec.PaddedUsernameTaken | backend/api/serializers.py:68-95 | " alice " is refused with no change while "alice" is registered |
| StoreSpec.TablesValid | backend/recipes/models.py:72-193 | the declared constraints of every table; under them the next user id and recipe id are free |
| StoreSpec.CreateRecipe | backend/api/recipe/serializers.py:157-163 | users, follows, favourites and cart untouched; a 201 means exactly one new recipe, by the requester, with the requested tags |
| StoreSpec.UpdateRecipe | backend/api/recipe/serializers.py:165-178 | users, follows, favourites and cart untouched; 404 for a missing recipe; a 200 means the author asked, no recipe was added or removed, and the tags are the requested ones |
| StoreSpec.RegisterUser | backend/api/serializers.py:92-95 | only 400 or 201; a 400 changes nothing; a 201 adds exactly the next id, with the trimmed, non-blank username and email |
| StoreSpec.RecipeList | backend/api/recipe/views.py:25-32 | 400 exactly when the filter parameters are invalid |
| StoreSpec.DownloadCart | backend/api/recipe/views.py:107-121 | 401 exactly when anonymous; otherwise a file named after the requester's username |
| StoreSpec.RecipeListOrdered | backend/api/recipe/filters.py:6-43 | with valid parameters the list holds exactly the recipes passing every filter, newest first |
| StoreSpec.RecipeListRejects | backend/api/recipe/filters.py:15-24 | invalid parameters answer 400 |
| StoreSpec.ListingDistinct | backend/recipes/models.py:116 | the listing holds each recipe once |
| StoreSpec.SubscriptionCountIsTotal | backend/api/users/serializers.py:100-101 | `recipes_count` is the number of the user's recipes in the table, whatever the limit, in both copies |
| StoreSpec.DownloadedGroups | backend/api/recipe/views.py:112-121 | the download is named after the requester, and each group sums that (name, unit) over the rows of the recipes in the requester's cart, once per key |
| Database.Store.AddEntry | backend/api/recipe/views.py:46-58 | `favorite` and `shopping_cart` end in the state and status of `StoreSpec.AddEntry` and keep the invariants |
| Database.Store.RemoveEntry | backend/api/recipe/views.py:93-105 | `remove_favorite` and `remove_from_shopping_cart` end as `StoreSpec.RemoveEntry` says |
| Database.Store.Subscribe | backend/api/users/views.py:20-47 | writes the edge, then answers by the limit, ending as `StoreSpec.Subscribe` says (500 with the edge kept included) and keeping the invariants |
| Database.Store.Unsubscribe | backend/api/users/views.py:49-68 | ends as `StoreSpec.Unsubscribe` says |
| Database.Store.IsValid | backend/api/recipe/serializers.py:109-147 | the field checks and the validation loop give what `CheckPayload` specifies |
| Database.Store.CreateIngredients | backend/api/recipe/serializers.py:149-155 | the loop appends one row per item until the first amount that does not fit, and changes nothing else |
| Database.Store.CreateRecipe | backend/api/recipe/serializers.py:157-163 | ends as `StoreSpec.CreateRecipe` says, partial writes included, and keeps the invariants |
| Database.Store.UpdateRecipe | backend/api/recipe/serializers.py:165-178 | ends as `StoreSpec.UpdateRecipe` says, partial writes included, and keeps the invariants |
| Database.Store.DestroyRecipe | backend/recipes/models.py:125-157 | ends as `StoreSpec.DestroyRecipe` says |
| Database.Store.RegisterUser | backend/api/serializers.py:92-95 | ends as `StoreSpec.RegisterUser` says: trimmed values, 400 for a blank or taken one |
| Database.Store.DeleteUser | backend/users/models.py:32-46 | ends as `StoreSpec.DeleteUser` says |
| Database.Store.DownloadShoppingCart | backend/api/recipe/views.py:107-121 | gives `StoreSpec.DownloadCart`: 401 when anonymous, otherwise the report of the aggregated cart |
| Strings.StripKeepsNonSpace | backend/recipes/models.py:81-101 | trimming removes only whitespace, so any other character of a value stays in its trimmed form |
| Strings.ParseIntRoundTrip | backend/api/users/serializers.py:96 | `int` of the decimal text of n is n, and of `-` followed by it is -n |

## Left out

- HTTP response bodies beyond the statuses and the keys named above are not modelled. The `SubscriptionSerializer` body of a successful follow is one example.
- Pagination of the list endpoints (six per page) is not modelled: `StoreSpec.SubscriptionList` is the whole list. A page out of range is a 404 in the source, and any other page holds at least one user when the list is non-empty, so the 500 condition is the same for every page that exists.
- The clock is a parameter. The publication date is a number passed to `CreateRecipe`, and the report's date is a `Date` passed to the download.
- `make_password` is modelled as an uninterpreted `hash` parameter; this user serializer runs no password validators. User fields such as the email format, the username characters and the length limits are not checked.
- `base64.b64decode`, `ContentFile` and the image field's own file validation are foreign code. The decoded payload stays text, and any decoded value counts as an image. A payload that is not valid base64 (wrong padding) makes `b64decode` raise a `binascii.Error`, a `ValueError` the field does not catch, so the source answers 500 where the model accepts the payload.
- The stored image path under `recipe/images/` is not modelled. The model keeps the decoded file's name.
- Concurrency is not modelled. The `get_or_create` races under parallel requests, and the database errors they raise, are out of scope.
- Deleting ingredients or tags is not modelled, because no endpoint of the core deletes them. Admin actions are not modelled either. The follow admin saves rows through its default form, without `FollowForm`, and the database has no check against a self-follow. So `FollowsValid`'s "no self-edge" holds only over the modelled endpoints.
- The detail views' `get_object` also runs the list filters on the queryset. Its effect on detail requests that carry filter parameters is not modelled.
- `is_favorited` and `is_in_shopping_cart` are modelled as booleans, with an absent parameter acting as false. The query-string parsing of the boolean filter is not modelled.
- The `author` filter is modelled as absent, an integer or malformed. A non-integer number such as `1.5` is not modelled.
- Strings.ParseInt: accepts optional surrounding whitespace, a sign and ASCII digits. Python's `int` also accepts underscores between digits and non-ASCII digits, which the model refuses.
- UserSerializers.RecipesLimitTolerant: on Python 3.11 and later, `int()` refuses a text of more than 4300 digits with a `ValueError`, which the tolerant copy catches and so keeps every recipe; the model answers 500 for such a text, as the strict copy does on every Python version.
- ShoppingList.GroupsOrderedByName: groups with equal names are ordered by unit here. The database leaves their relative order unspecified.
- Strings.Less: orders strings by code point. The database collation may order names differently.
- Ties in `pub_date` are broken by the stable sort's input order. The database leaves that order unspecified.
- ShoppingList.DateLine: the year is zero-padded to four digits. That matches `%Y` only for years from 1000 on.
- A request with JSON `null` for a field is treated like an absent field.
- RecipeValidation.Validation: ingredient items are typed as an integer id and an integer amount. The source indexes `id` and `amount` directly and calls `int()` on the amount (backend/api/recipe/serializers.py:128-137). A missing key, a non-numeric amount or a non-integer id is a 500 there, and the model cannot express any of them. `int()` also truncates a fractional amount, so `-0.5` passes the negative check and is stored as 0; the model has no fractional amounts.

## Findings

| source | as written | input that shows it | evidently intended | confidence | as-written member | corrected member |
|---|---|---|---|---|---|---|
| backend/recipes/models.py:25 | the colour pattern ends in `$`, which under `re.search` also matches just before one final newline | `"#fff\n"` passes the validator and fits `max_length` 7 | `#` followed by exactly 3 or 6 hex digits and nothing else | not executed; the admin form strips whitespace first, so only values validated without that form can reach it | Models.TrailingNewlineAccepted | Models.CorrectedColour |
