/** The posts blueprint: the upload-extension check, and the create, edit, delete and view
    pages for recipes, which go through the recipe form. */
module Posts {
  import opened Common
  import opened Text
  import opened Models
  import opened Access
  import opened Ingredients
  import opened Forms

  /** The extensions an uploaded image may have. */
  const AllowedExtensions: set<string> := {"png", "jpg", "jpeg", "gif"}

  predicate NoDot(s: string)
  {
    forall i :: 0 <= i < |s| ==> s[i] != '.'
  }

  /** No `.` in `s` after position `i`. */
  predicate NoDotAfter(s: string, i: nat)
  {
    forall j :: i < j < |s| ==> s[j] != '.'
  }

  /** The index of the last `.` in `s`, if any. */
  function LastDot(s: string): (r: Option<nat>)
    ensures r.None? <==> NoDot(s)
    ensures r.Some? ==> r.value < |s| && s[r.value] == '.' && NoDotAfter(s, r.value)
  {
    if |s| == 0 then None
    else if s[|s| - 1] == '.' then Some(|s| - 1)
    else LastDot(s[..|s| - 1])
  }

  /** `allowed_file`: the name has a `.` and the text after the last one, lower-cased, is an
      allowed extension. */
  function AllowedFile(filename: string): (r: bool)
    ensures r <==> exists i :: 0 <= i < |filename| && filename[i] == '.' && NoDotAfter(filename, i) &&
                     Lower(filename[i + 1..]) in AllowedExtensions
  {
    match LastDot(filename)
    case None => false
    case Some(d) => Lower(filename[d + 1..]) in AllowedExtensions
  }

  lemma LowerSuffix(s: string, i: nat)
    requires i <= |s|
    ensures Lower(s[i..]) == Lower(s)[i..]
  {
  }

  lemma LowerKeepsDots(c: char)
    ensures LowerChar(c) == '.' <==> c == '.'
  {
  }

  /** The handler's extension set and the form's extension list name the same extensions,
      none of which contains a `.`. */
  lemma ExtensionListsAgree()
    ensures forall e :: e in AllowedExtensions <==> e in ImageExtensions
    ensures forall e :: e in ImageExtensions ==> NoDot(e)
  {
    assert ImageExtensions == ["jpg", "jpeg", "png", "gif"];
  }

  /** A name the form accepts passes `allowed_file`. */
  lemma FormImpliesHandler(filename: string)
    requires FileAllowedByForm(filename)
    ensures AllowedFile(filename)
  {
    var low := Lower(filename);
    var k :| 0 <= k < |ImageExtensions| && EndsWith(low, "." + ImageExtensions[k]);
    var ext := ImageExtensions[k];
    ExtensionListsAgree();
    assert NoDot(ext);
    var d := |filename| - |ext| - 1;
    assert low[d..] == "." + ext;
    LowerKeepsDots(filename[d]);
    LowerSuffix(filename, d + 1);
    assert Lower(filename[d + 1..]) == ext;
    forall j | d < j < |filename| ensures filename[j] != '.' {
      assert low[j] == ext[j - d - 1];
      LowerKeepsDots(filename[j]);
    }
    assert filename[d] == '.' && NoDotAfter(filename, d);
  }

  /** A name that passes `allowed_file` is accepted by the form. */
  lemma HandlerImpliesForm(filename: string)
    requires AllowedFile(filename)
    ensures FileAllowedByForm(filename)
  {
    var low := Lower(filename);
    var d := LastDot(filename).value;
    var ext := Lower(filename[d + 1..]);
    LowerSuffix(filename, d + 1);
    assert low[d..] == "." + ext;
    ExtensionListsAgree();
    assert ext in ImageExtensions;
    var k :| 0 <= k < |ImageExtensions| && ImageExtensions[k] == ext;
    assert EndsWith(low, "." + ImageExtensions[k]);
  }

  /** The form's own image check and the handler's `allowed_file` accept the same names, so the
      handler's second check never turns away a file the form let through. */
  lemma FormAndHandlerAgree(filename: string)
    ensures FileAllowedByForm(filename) <==> AllowedFile(filename)
  {
    if FileAllowedByForm(filename) {
      FormImpliesHandler(filename);
    }
    if AllowedFile(filename) {
      HandlerImpliesForm(filename);
    }
  }

  /** The image column after a form submission: the saved name of a new file that passes
      `allowed_file`, otherwise the current value. */
  function StoredImage(current: string, image: Option<Upload>): (r: string)
    ensures r != current ==> image.Some? && AllowedFile(image.value.filename) && r == image.value.savedAs
    ensures image.None? || image.value.filename == [] ==> r == current
  {
    if image.Some? && image.value.filename != [] && AllowedFile(image.value.filename) then image.value.savedAs
    else current
  }

  /** The row `create` stores from a valid form: title and description stripped, the other
      text fields as typed, ingredients normalised, pending, owned by the caller. */
  function FormRecipe(id: nat, ownerId: nat, form: RecipeForm, codec: JsonCodec, now: int): (r: Recipe)
    requires Validates(form)
    ensures r.id == id && !r.approved && r.userId == Some(ownerId)
    ensures r.title != [] && |r.title| <= 200
    ensures |r.description| <= 2000
    ensures Trim(form.category) != [] ==> |r.category| <= 80
    ensures r.cookingTime.Some? ==> r.cookingTime.value >= 0
    ensures r.servings.Some? ==> r.servings.value >= 1
    ensures r.image != [] ==> form.image.Some? && AllowedFile(form.image.value.filename)
    ensures form.image.Some? && form.image.value.filename != [] ==> r.image == form.image.value.savedAs
    ensures r.title == Trim(form.title) && r.description == Trim(form.description)
    ensures r.instructions == form.instructions && r.category == form.category
    ensures r.ingredientsJson == codec.dumps(ParseIngredients(form.ingredients, codec.loads))
    ensures form.cookingTime.Value? ==> r.cookingTime == Some(form.cookingTime.n)
    ensures !form.cookingTime.Value? ==> r.cookingTime.None?
    ensures form.servings.Value? ==> r.servings == Some(form.servings.n)
    ensures !form.servings.Value? ==> r.servings.None?
    ensures r.createdAt == now
  {
    TrimSpec(form.title);
    TrimSpec(form.description);
    assert form.image.Some? && form.image.value.filename != [] ==> AllowedFile(form.image.value.filename) by {
      if form.image.Some? && form.image.value.filename != [] {
        FormImpliesHandler(form.image.value.filename);
      }
    }
    Recipe(
      id, Trim(form.title), Trim(form.description), form.instructions,
      Normalise(form.ingredients, codec), StoredImage("", form.image), form.category,
      IntOrNone(form.cookingTime), IntOrNone(form.servings), now, false, Some(ownerId))
  }

  /** `create`: a valid form adds a pending recipe owned by the caller; an invalid one is shown
      again and nothing is stored. */
  method CreatePost(db: Database, actor: Actor, form: RecipeForm, codec: JsonCodec, now: int)
    returns (status: Status, id: Option<nat>)
    requires db.Valid()
    modifies db
    ensures db.Valid() && db.OnlyRecipesChanged()
    ensures actor.Anonymous? ==> status == LoginRequired
    ensures actor.Authenticated? && !Validates(form) ==> status == Invalid
    ensures status != Ok ==> unchanged(db) && id.None?
    ensures status == Ok <==> actor.Authenticated? && Validates(form)
    ensures status == Ok ==>
              && id == Some(old(db.nextRecipeId))
              && db.nextRecipeId == old(db.nextRecipeId) + 1
              && db.recipes == old(db.recipes)[id.value := FormRecipe(id.value, actor.id, form, codec, now)]
  {
    if actor.Anonymous? {
      return LoginRequired, None;
    }
    if !Validates(form) {
      return Invalid, None;
    }
    var newId := db.nextRecipeId;
    db.recipes := db.recipes[newId := FormRecipe(newId, actor.id, form, codec, now)];
    db.nextRecipeId := newId + 1;
    return Ok, Some(newId);
  }

  /** The recipe after a valid edit: the form's fields replace the recipe's (the title
      stripped, the description as typed), the image only changes for an allowed new file, and
      id, owner, approval and creation time stay. */
  function Edited(r: Recipe, form: RecipeForm, codec: JsonCodec): (e: Recipe)
    requires Validates(form)
    ensures e.id == r.id && e.userId == r.userId && e.approved == r.approved && e.createdAt == r.createdAt
    ensures e.image != r.image ==> form.image.Some? && AllowedFile(form.image.value.filename) && e.image == form.image.value.savedAs
    ensures form.image.None? || form.image.value.filename == [] ==> e.image == r.image
    ensures e.title != [] && |e.title| <= 200
    ensures e.title == Trim(form.title) && e.description == form.description
    ensures e.instructions == form.instructions && e.category == form.category
    ensures e.ingredientsJson == codec.dumps(ParseIngredients(form.ingredients, codec.loads))
    ensures form.cookingTime.Value? ==> e.cookingTime == Some(form.cookingTime.n)
    ensures !form.cookingTime.Value? ==> e.cookingTime.None?
    ensures form.servings.Value? ==> e.servings == Some(form.servings.n)
    ensures !form.servings.Value? ==> e.servings.None?
    ensures form.image.Some? && form.image.value.filename != [] ==> e.image == form.image.value.savedAs
  {
    TrimSpec(form.title);
    assert form.image.Some? && form.image.value.filename != [] ==> AllowedFile(form.image.value.filename) by {
      if form.image.Some? && form.image.value.filename != [] {
        FormImpliesHandler(form.image.value.filename);
      }
    }
    r.(title := Trim(form.title), description := form.description, instructions := form.instructions,
       ingredientsJson := Normalise(form.ingredients, codec), image := StoredImage(r.image, form.image),
       category := form.category, cookingTime := IntOrNone(form.cookingTime), servings := IntOrNone(form.servings))
  }

  /** `edit`, as it would behave if keeping the current image worked (see `EditImageAsWritten`). */
  method EditPost(db: Database, actor: Actor, id: nat, form: RecipeForm, codec: JsonCodec) returns (status: Status)
    requires db.Valid()
    modifies db
    ensures db.Valid() && db.OnlyRecipesChanged() && db.nextRecipeId == old(db.nextRecipeId)
    ensures actor.Anonymous? ==> status == LoginRequired
    ensures actor.Authenticated? && id !in old(db.recipes) ==> status == NotFound
    ensures actor.Authenticated? && id in old(db.recipes) && !CanModify(actor.id, actor.isAdmin, old(db.recipes)[id]) ==>
              status == Forbidden
    ensures (actor.Authenticated? && id in old(db.recipes) && CanModify(actor.id, actor.isAdmin, old(db.recipes)[id]) &&
             !Validates(form)) ==> status == Invalid
    ensures status != Ok ==> unchanged(db)
    ensures status == Ok <==> (actor.Authenticated? && id in old(db.recipes) &&
                               CanModify(actor.id, actor.isAdmin, old(db.recipes)[id]) && Validates(form))
    ensures status == Ok ==> db.recipes == old(db.recipes)[id := Edited(old(db.recipes)[id], form, codec)]
  {
    if actor.Anonymous? {
      return LoginRequired;
    }
    if id !in db.recipes {
      return NotFound;
    }
    if !CanModify(actor.id, actor.isAdmin, db.recipes[id]) {
      return Forbidden;
    }
    if !Validates(form) {
      return Invalid;
    }
    db.recipes := db.recipes[id := Edited(db.recipes[id], form, codec)];
    return Ok;
  }

  /** The edit page as first shown: the ingredients box holds the stored list joined by
      newlines (or the stored text when it does not decode to a list of strings). */
  function EditPage(db: Database, actor: Actor, id: nat, loads: string -> Option<seq<string>>): (r: (Status, Option<string>))
    reads db
    ensures r.1.Some? <==> r.0 == Ok
    ensures r.0 == Ok <==> actor.Authenticated? && id in db.recipes && CanModify(actor.id, actor.isAdmin, db.recipes[id])
    ensures r.0 == Ok && Decoded(db.recipes[id].ingredientsJson, loads).None? ==> r.1 == Some(db.recipes[id].ingredientsJson)
    ensures r.0 == Ok && Decoded(db.recipes[id].ingredientsJson, loads).Some? ==>
              r.1 == Some(JoinLines(Decoded(db.recipes[id].ingredientsJson, loads).value))
  {
    if actor.Anonymous? then (LoginRequired, None)
    else if id !in db.recipes then (NotFound, None)
    else if !CanModify(actor.id, actor.isAdmin, db.recipes[id]) then (Forbidden, None)
    else (Ok, Some(Prefill(db.recipes[id].ingredientsJson, loads)))
  }

  /** `delete`: the owner or an admin removes the recipe. */
  method DeletePost(db: Database, actor: Actor, id: nat) returns (status: Status)
    requires db.Valid()
    modifies db
    ensures db.Valid() && db.OnlyRecipesChanged() && db.nextRecipeId == old(db.nextRecipeId)
    ensures actor.Anonymous? ==> status == LoginRequired
    ensures actor.Authenticated? && id !in old(db.recipes) ==> status == NotFound
    ensures actor.Authenticated? && id in old(db.recipes) && !CanModify(actor.id, actor.isAdmin, old(db.recipes)[id]) ==>
              status == Forbidden
    ensures status != Ok ==> unchanged(db)
    ensures status == Ok <==> (actor.Authenticated? && id in old(db.recipes) &&
                               CanModify(actor.id, actor.isAdmin, old(db.recipes)[id]))
    ensures status == Ok ==> db.recipes == old(db.recipes) - {id}
  {
    if actor.Anonymous? {
      return LoginRequired;
    }
    if id !in db.recipes {
      return NotFound;
    }
    if !CanModify(actor.id, actor.isAdmin, db.recipes[id]) {
      return Forbidden;
    }
    db.recipes := db.recipes - {id};
    return Ok;
  }

  /** `view`: the recipe, or None for the 404 answer. */
  function ViewPost(db: Database, actor: Actor, id: nat): (r: Option<Recipe>)
    reads db
    ensures r.Some? <==> id in db.recipes && CanView(actor, db.recipes[id])
    ensures r.Some? ==> r.value == db.recipes[id]
  {
    if id in db.recipes && CanView(actor, db.recipes[id]) then Some(db.recipes[id]) else None
  }

  // ---------------------------------------------------------------------------
  // Keeping the current image when editing

  /** The image column after `edit` as written. The form is built over the recipe, so when no
      new file is sent the image field keeps the stored file name, a string; the handler then
      asks that string for `.filename`, which raises. None stands for that failure. */
  function EditImageAsWritten(current: string, image: Option<Upload>): (r: Option<string>)
    ensures r.Some? ==> r.value == StoredImage(current, image)
  {
    if image.Some? && image.value.filename != [] then Some(StoredImage(current, image))
    else if current != [] then None
    else Some(current)
  }

  /** Saving the edit form of a recipe that has an image, without choosing a new file,
      fails instead of keeping the image. */
  lemma EditKeepingImageFails(current: string, image: Option<Upload>)
    requires current != [] && (image.None? || image.value.filename == [])
    ensures EditImageAsWritten(current, image).None?
    ensures StoredImage(current, image) == current
  {
  }
}
