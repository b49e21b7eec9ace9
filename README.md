# Recipe sharing application: a Dafny model of its business rules

The application is a Flask site where users register and post recipes. New recipes
wait for an administrator's approval. Visitors rate a recipe (1 to 5, one rating per
user and recipe) and comment on it. Administrators approve or reject recipes and hide or
restore comments.

This project models the rules that sit inside the request handlers. It replaces the
database by an in-memory store and the logged-in user by a parameter.

- `Models.Database` is a class with one map per table (users, recipes, ratings, comments)
  and one next-id counter per table.
  - `Valid()` is its invariant: every row sits under its own id below the counter,
    usernames and emails are unique, there is at most one rating per (user, recipe), and
    every stored score is in 1..5.
- Every handler that changes the store is a method with `modifies db`.
  - It keeps `Valid()`.
  - It leaves every other table unchanged (the `Only…Changed` predicates).
  - It states its new table through a pure transformer (`App.Upsert`, `App.Approved`,
    `App.WithRemoved`, `Posts.Edited`, …). The lemmas about those transformers carry
    the relational properties: idempotence, last-score-wins, restore-after-remove,
    uniqueness kept.
- Read-only pages are functions over the store: home page, search, recipe page,
  admin dashboard, edit page, view page, login lookup.
- Every outcome is a `Common.Status`: `Ok`, `LoginRequired`, `Forbidden`, `NotFound`,
  `BadRequest(message)`, `ServerError` (an uncaught exception, nothing committed) or
  `Invalid` (the form is shown again).
- Things outside the code are parameters:
  - The clock is `now`.
  - The CSRF comparison result is `csrfOk`.
  - Password hashing and checking are functions passed in.
  - `secure_filename`'s result travels inside `Forms.Upload`.
  - `json.loads`/`json.dumps` are `Ingredients.JsonCodec`.

Modules follow the source files:

| module | source file |
|---|---|
| `Common` | shared values |
| `Text` | Python's `strip`, ASCII `lower`, substring test, `splitlines`, `'\n'.join` |
| `Listing` | rows of a table, filter, order-by, `.first()` as lowest id |
| `Models` | models.py |
| `Forms` | posts/forms.py |
| `Access` | the visibility and owner-or-admin rules |
| `Ingredients` | ingredient parsing and the edit prefill |
| `App` | app.py |
| `Posts` | posts/routes.py |
| `Auth` | auth/routes.py |

## Model

| member | source | states |
|---|---|---|
| Models.NewRecipe | models.py:35-42 | a recipe built with the declared defaults is pending, has no owner, ingredients `[]`, no image, no category, no cooking time and no servings |
| Models.NewComment | models.py:66 | a new comment is not removed |
| Models.NewUser | models.py:15-16 | a new user is not an admin and has an empty bio |
| Models.AverageRating | models.py:47-51 | no average exactly when there are no ratings or every score is null; otherwise the average is the mean of the non-null scores (`IsMeanOf`: times their number it gives their sum) |
| Models.Mean | models.py:51 | the quotient of sum by count is the mean: times the count it gives the sum |
| Models.AverageWithinScoreRange | models.py:50-51 | when every score lies in lo..hi, so does the average |
| Models.AverageExample | models.py:50-51 | scores 3 and 5 average to 4 |
| Models.RatingsOf | models.py:44 | a recipe's ratings are exactly the stored ratings that point at it |
| Models.RatingsOfOnce | models.py:44 | a recipe's ratings have one entry per rating row that points at it, and no rating twice in a valid store, so the average weighs each stored score once |
| Models.NoAverageIffNoRatings | models.py:47-49 | since a rating always has a score, a recipe has no average exactly when it has no ratings |
| Models.RecipeAverageInRange | models.py:47-51 | with all stored scores in 1..5, a recipe's average lies in [1, 5] |
| Access.CanView | app.py:206 | an anonymous visitor sees a recipe exactly when it is approved; an admin or the owner always sees it; only approval or a login makes it visible (the view page, posts/routes.py:119, applies the same rule) |
| Access.CanModify | posts/routes.py:66 | an admin may always edit; anybody else exactly when they own the recipe; a recipe without an owner only by admins (delete, posts/routes.py:107, uses the same rule) |
| Access.ApprovedVisibleToAll | app.py:206 | an approved recipe is visible to every actor, anonymous ones included |
| Access.PendingHidden | app.py:206-207 | a pending recipe is hidden exactly from anonymous visitors and from users who are neither admin nor owner |
| Access.ModifierCanView | posts/routes.py:66-67 | whoever may edit or delete a recipe may also see it |
| Access.NewRecipeVisibleToOwnerAndAdmins | app.py:192-193 | a freshly created (pending, owned) recipe is visible exactly to its owner and to admins |
| Access.DefaultRecipeAdminOnly | models.py:41-42 | a recipe with the default approval and owner is visible only to admins |
| Forms.Validates | posts/forms.py:7-15 | a valid form has a non-blank title of at most 200 characters, a description that is blank or at most 2000 characters, a category that is blank or at most 80, numbers that are empty, blank or integers with cooking time at least 0 and servings at least 1, and an image extension on a named file; a blank title or a number that is neither blank nor an integer always fails |
| Forms.BlankNumberIsEmpty | posts/forms.py:13-14 | a cooking time or servings field holding only whitespace validates exactly as an empty one |
| Ingredients.ParseIngredients | posts/routes.py:29-32 | JSON is used only when the stripped text starts with `[` and decodes; otherwise, including when decoding fails, the result is exactly the line split (lines stripped, blank ones dropped, order kept), whose every element is well formed; parsing never fails |
| Ingredients.LineSplitElements | posts/routes.py:30 | every ingredient of the line split is non-empty, equal to its own strip, and on one line |
| Ingredients.WellFormedIsStripped | posts/routes.py:30 | a well-formed ingredient is its own strip |
| Ingredients.CleanAppend | posts/routes.py:30 | the strip-and-drop-blank step works line by line, so the order of the lines is kept |
| Ingredients.CleanFixed | posts/routes.py:30 | a list of well-formed ingredients passes the strip-and-drop-blank step unchanged |
| Ingredients.JoinedLineSplit | posts/routes.py:97 | splitting the newline join of well-formed ingredients gives the list back |
| Ingredients.JoinThenParse | posts/routes.py:95-97 | joining well-formed ingredients by newlines and parsing again gives the same list, unless the first starts with `[` and the text decodes as JSON |
| Ingredients.EditUnchangedStoresSame | posts/routes.py:73-77 | opening the edit form and saving it unchanged stores the same ingredients text again |
| Ingredients.ParseFallbackSingle | posts/routes.py:74-77 | one well-formed line that does not decode, `[invalid` say, is stored as a single ingredient |
| Ingredients.Display | app.py:209-213 | the recipe page shows no ingredients when the stored text does not decode |
| Text.SplitLinesCons | posts/routes.py:30 | at any line-break character, the text before the first break is the first line and the rest is split again, so the pieces are the input's lines in order |
| Text.SplitLinesOne | posts/routes.py:30 | a text without a line break is one line |
| Text.SplitJoin | posts/routes.py:97 | splitting the newline join of one-line pieces gives the pieces back |
| Text.TrimSpec | app.py:101 | `strip()` returns a slice of its input with no whitespace at either end, and everything it drops before and after that slice is whitespace |
| Text.BlankIffAllSpace | app.py:102 | a text strips to empty exactly when it is all whitespace |
| Listing.Query | app.py:91 | a filtered, ordered query returns exactly the rows that pass the filter, keys in order, and no row twice when different ids hold different rows |
| Listing.QueryCount | app.py:91 | a query has exactly one entry per matching id |
| Listing.RowsDistinct | app.py:91 | reading a table lists no row twice when different ids hold different rows |
| App.IndexListing | app.py:91 | the home page lists exactly the approved recipes, newest first |
| App.IndexListingOnce | app.py:91 | the home page has one entry per approved recipe, and no recipe twice in a valid store |
| App.ILikeIgnoresQueryCase | app.py:104-111 | the search ignores the case of the query |
| App.Search | app.py:101-113 | a blank query redirects; otherwise the result is exactly the approved recipes whose title, description, ingredients or category contain the stripped query ignoring case, newest first |
| App.SearchOnce | app.py:101-113 | a search result has one entry per matching approved recipe, and no recipe twice in a valid store |
| App.VisibleComments | app.py:222 | a recipe shows exactly its comments that are not removed, oldest first |
| App.VisibleCommentsOnce | app.py:222 | a recipe shows one entry per live comment of it, and no comment twice in a valid store |
| App.PendingListing | app.py:279 | the dashboard lists exactly the pending recipes, newest first |
| App.PendingListingOnce | app.py:279 | the dashboard has one entry per pending recipe, and no recipe twice in a valid store |
| App.LiveNewestFirst | app.py:286 | exactly the stored comments that are not removed, newest first |
| App.LatestComments | app.py:286 | at most 50 stored live comments, newest first; all of them when fewer than 50 are shown |
| App.LatestCommentsNewest | app.py:286 | no live comment left out is newer than one shown |
| App.LatestCommentsOnce | app.py:286 | the dashboard shows the smaller of 50 and the number of live comments, and no comment twice in a valid store |
| App.LatestPrefix | app.py:286 | cutting a newest-first list of live comments keeps live comments in order, and nothing cut off is newer than what is kept |
| App.AdminPage | app.py:276-287 | only admins see the dashboard; it holds the pending listing, for each pending recipe its ingredients decoded as the recipe page does, and the latest-comments listing |
| App.FindRating | app.py:219 | the user's rating of a recipe is found when one exists, and is a rating of that user for that recipe |
| App.RecipeView | app.py:204-223 | the page exists exactly when the recipe exists and the actor may see it; it shows the recipe's decoded ingredients, its average, its live comments oldest first, the user's own score when they rated it and no rating otherwise or for anonymous visitors |
| App.ApiRecipe | app.py:168-194 | a recipe created through the API is pending, owned by the caller, created now; title, description, instructions and category are the stripped inputs; the ingredients are the text sent, or `[]` when none was sent; cooking time and servings are the numbers sent; the image is the saved name of a named file, and none otherwise |
| App.CreateRecipe | app.py:166-198 | anonymous requests need a login; a numeric field that is non-empty and not an integer, whitespace only included, fails with nothing stored; otherwise exactly that row is added under the next id |
| App.Upsert | app.py:238-243 | the rating of the pair takes the new score in place when it exists, else one row is added under the next id; all other ratings stay |
| App.UpsertKeepsOneRatingPerPair | app.py:238-244 | after the upsert there is at most one rating per pair, and the pair's rating holds the new score |
| App.UpsertLastScoreWins | app.py:238-243 | rating twice is rating once with the second score |
| App.Rate | app.py:227-245 | checks in order: login, CSRF ("Invalid CSRF token"), integer score (empty or whitespace-only text raises), score in 1..5 ("Invalid score", a missing score counts as 0), recipe exists; each failure changes nothing; success upserts and returns the recipe's average, which lies in [1, 5] |
| App.ApplyRating | app.py:238-245 | the upsert keeps the store valid, and the rated recipe then has an average in [1, 5] |
| App.RatingKeepsStoreValid | app.py:232-245 | a score in 1..5 keeps ratings keyed, one per pair and in range |
| App.RatedRecipeHasAverage | app.py:245 | a recipe with a rating has an average |
| App.CommentOn | app.py:249-260 | checks in order: login, CSRF, non-blank body ("Empty comment"), recipe exists; success stores the stripped body as a new visible comment |
| App.NewCommentShown | app.py:222 | a comment just posted shows under its recipe |
| App.Approved | app.py:313 | approving sets the flag of that recipe and changes nothing else |
| App.ApproveIdempotent | app.py:313 | approving twice is approving once |
| App.ApprovedIsListed | app.py:313 | once approved, a recipe is visible to everybody and is on the home page |
| App.Approve | app.py:309-315 | only admins approve; an unknown id is not found; failures change nothing |
| App.Reject | app.py:320-326 | only admins reject; afterwards no recipe with that id exists |
| App.DeletedRecipeHidden | app.py:324 | the page of a deleted recipe answers not-found for everybody |
| App.WithRemoved | app.py:345 | removing or restoring changes only the flag of that comment |
| App.RestoreUndoesRemove | app.py:339-357 | restoring after removing gives the original comments back |
| App.RemovedCommentHidden | app.py:345 | a removed comment is not shown under its recipe and a restored one is; with rows keyed by id, nothing carrying the removed comment's id is shown, while every other live comment of the recipe still is |
| App.SetRemoved | app.py:339-357 | only admins remove or restore; failures change nothing |
| App.RemoveComment | app.py:341-347 | admin-only, whoever wrote the comment; only its removal flag changes |
| App.RestoreComment | app.py:351-357 | admin-only; only the removal flag changes |
| Posts.LastDot | posts/routes.py:15 | finds the last `.` of a name, if any |
| Posts.AllowedFile | posts/routes.py:11-15 | a name is allowed exactly when it has a `.` and the lower-cased text after the last one is png, jpg, jpeg or gif |
| Posts.ExtensionListsAgree | posts/routes.py:11 | the handler's extension set and the form's extension list are the same |
| Posts.FormImpliesHandler | posts/forms.py:15 | every name the form's image check accepts passes `allowed_file` |
| Posts.HandlerImpliesForm | posts/routes.py:37 | every name `allowed_file` accepts passes the form's image check |
| Posts.FormAndHandlerAgree | posts/routes.py:37 | the form's check and `allowed_file` accept the same names |
| Posts.StoredImage | posts/routes.py:79-86 | the image changes only to the saved name of a new file that passes `allowed_file` |
| Posts.FormRecipe | posts/routes.py:24-54 | a recipe created through the form is pending, owned by the caller and created now; title and description are the stripped inputs, instructions and category as typed; the ingredients text is the encoding of the parsed ingredient list; each number is the integer typed, or none when the field is empty or blank; a named file gives the saved name as image; it carries the form bounds: title non-empty and at most 200, description at most 2000, category at most 80, cooking time at least 0, servings at least 1 |
| Posts.CreatePost | posts/routes.py:21-58 | a valid form adds exactly that recipe under the next id; an invalid one stores nothing |
| Posts.Edited | posts/routes.py:70-90 | editing keeps id, owner, approval and creation time; the title becomes the stripped input, description, instructions and category the text as typed; the ingredients text is the encoding of the parsed ingredient list; each number is the integer typed, or none when empty or blank; a named new file replaces the image, which otherwise stays; the title stays within the form bounds |
| Posts.EditPost | posts/routes.py:64-93 | checks in order: login, recipe exists, owner or admin, form valid; a refusal changes nothing; the image step follows the corrected rule of the Findings row (`Posts.StoredImage`), not the crash as written |
| Posts.EditPage | posts/routes.py:94-99 | the edit form is prefilled with the stored list joined by newlines, or with the stored text when it does not decode |
| Posts.DeletePost | posts/routes.py:105-112 | only the owner or an admin deletes; afterwards the recipe is gone |
| Posts.ViewPost | posts/routes.py:116-121 | the view page uses the same visibility rule as the recipe page |
| Posts.EditImageAsWritten | posts/routes.py:79-81 | the edit handler as written: when it does not fail, it agrees with the corrected rule |
| Posts.EditKeepingImageFails | posts/routes.py:79-81 | saving the edit form of a recipe that has an image, without a new file, fails |
| Auth.FormatErrors | auth/routes.py:66-82 | at most one message per field; username error exactly when its length is outside 3..80; email error exactly when it is empty, lacks `@` or exceeds 200; password error exactly when shorter than 6; with the messages of each case |
| Auth.Taken | auth/routes.py:86 | a clashing account is found exactly when one exists |
| Auth.Conflicts | auth/routes.py:87-91 | the username error is reported exactly when the first clashing account's username equals the new one, the email error exactly when its email equals the new one; some error is reported exactly when some account clashes |
| Auth.RegisterErrors | auth/routes.py:66-93 | registration reports nothing exactly when the format is right and no account has that username or that email; with the format right, the errors are exactly the uniqueness conflicts |
| Auth.RegisterKeepsAccountsUnique | auth/routes.py:101-104 | adding an account that clashes with nobody keeps usernames and emails unique |
| Auth.CheckFormat | auth/routes.py:66-82 | the if/elif chains build exactly the format errors |
| Auth.CheckUnique | auth/routes.py:85-91 | the uniqueness check runs only without format errors |
| Auth.Register | auth/routes.py:61-104 | input is stripped and the email lower-cased; errors give "Validation failed" and change nothing; otherwise exactly one user is added with the normalised username and email |
| Auth.Login | auth/routes.py:17-46 | an empty identifier and then an empty password are refused first; otherwise login reaches the first account whose username or email equals the identifier exactly, and succeeds exactly when the password checks against that account; with no such account it fails |
| Auth.LoginByUsername | auth/routes.py:36-43 | when the identifier is one account's username and nobody's email, login reaches that account exactly when its password checks |
| Auth.LoginByEmail | auth/routes.py:36-43 | when the identifier is one account's email and nobody's username, login reaches that account exactly when its password checks |

## Left out

- Web plumbing is not modelled: routing, templates, flash messages, redirects, JSON
  replies, HTTP codes and the `X-Requested-With` branch. Each outcome is a `Status`.
- Sessions are not modelled (`login_user`, `logout`, `load_user`). A successful login is
  `Auth.LoggedIn(id)`.
- Pagination of the home page is not modelled; `App.IndexListing` is the ordered list
  before pagination.
- The rate limits (`limiter.limit`) are not modelled.
- CSRF token generation and comparison are reduced to the `csrfOk` parameter. Flask-WTF's
  token check inside `validate_on_submit` is not modelled.
- `set_password` and `check_password` (werkzeug hashing) are function parameters.
- File saving, `os.makedirs` and `secure_filename` are left out: an upload carries the name
  it is saved as.
- The profile, my-recipes, profile-edit and add-recipe pages are not part of this model.
  Neither are scripts/create_admin.py, manage.py, config.py and the browser scripts.
- App.Reject: succeeds for every existing recipe and removes only the recipe row. In the
  source the recipe's ratings and comments declare no delete cascade (models.py:44-45)
  and their `recipe_id` is NOT NULL (models.py:58, 66). Deleting a recipe that has a
  rating or a comment would therefore make the database refuse the commit (app.py:325),
  and nothing would be deleted. The model's successful reject differs from the source
  for such recipes. This was not executed.
- Posts.DeletePost: the same difference as App.Reject, at the commit of posts/routes.py:110.
- The find-then-insert race of the rating upsert is not modelled; the model is sequential.
- `.first()` without an order is modelled as the row with the lowest id.
- Timestamps come from the `now` parameter. Rows with equal timestamps may come in any order.
- `description` and `instructions` are nullable columns, but the handlers always store text.
  The model holds them as strings.
- Models.AverageRating: the mean is exact, not rounded to two decimals.
- App.Rate: the average it returns is the exact mean, not rounded.
- Ingredients.ParseIngredients: JSON grammar is abstract. Text that decodes to something
  other than a list of strings is treated like text that does not decode, whereas the code
  would store its re-encoding.
- Ingredients.Display: the recipe page's decoded list is only stated for the failure case.
  The success case is the codec's own result.
- App.ILike: `%` and `_` inside the query are taken literally. Case is folded on ASCII
  letters only.
- Text.Lower: case is folded on ASCII letters only. Python's `str.lower` folds all of Unicode.
- App.Rate: the score field's shapes are missing (0), an integer, whitespace only, or other
  text `int()` rejects, which includes the empty text. The text of an integer itself is not
  modelled, only its value.
- Comment removal and restoration are admin-only, as the code has it (app.py:342, 352).
  Owners cannot remove their own comments.
- Rating and commenting only require the recipe to exist. It need not be approved.

## Findings

| source | as written | input that shows it | evidently intended | confidence | as-written member | corrected member |
|---|---|---|---|---|---|---|
| posts/routes.py:68-86 | the edit form is built over the recipe, so with no new file its image field still holds the stored file name (a string), and the handler reads `.filename` of it | saving the edit form of a recipe whose image is `cake.png` without choosing a file | the stored image is kept | medium, not executed | Posts.EditImageAsWritten | Posts.StoredImage |
