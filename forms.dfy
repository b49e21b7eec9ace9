/** The recipe form: the fields the create and edit pages submit and the constraints
    the form library checks before either handler stores anything. */
module Forms {
  import opened Common
  import opened Text

  /** An uploaded file: the name the browser sent and the name `secure_filename` turns it into. */
  datatype Upload = Upload(filename: string, savedAs: string)

  /** A submitted recipe form. Text fields hold what was typed ("" when left empty); the
      image is None when no file part was sent. */
  datatype RecipeForm = RecipeForm(
    title: string, description: string, instructions: string, ingredients: string,
    category: string, cookingTime: IntField, servings: IntField, image: Option<Upload>)

  const ImageExtensions: seq<string> := ["jpg", "jpeg", "png", "gif"]

  /** Title: required (not blank) and at most 200 characters. */
  predicate TitleValid(t: string)
  {
    Trim(t) != [] && |t| <= 200
  }

  /** Description: optional (blank skips the length check), else at most 2000 characters. */
  predicate DescriptionValid(d: string)
  {
    Trim(d) == [] || |d| <= 2000
  }

  /** Category: optional, else at most 80 characters. */
  predicate CategoryValid(c: string)
  {
    Trim(c) == [] || |c| <= 80
  }

  /** An optional integer field with a lower bound: empty or blank is fine (`Optional`
      strips the raw text and, finding nothing, drops the conversion error), other text
      that is not an integer is an error, an integer must reach the bound. */
  predicate IntAtLeast(f: IntField, min: int)
  {
    f.Absent? || f.Blank? || (f.Value? && f.n >= min)
  }

  /** The image check of the form: a file without a name passes, otherwise the lower-cased
      name must end in `.` followed by one of the image extensions. */
  predicate FileAllowedByForm(filename: string)
  {
    exists k :: 0 <= k < |ImageExtensions| && EndsWith(Lower(filename), "." + ImageExtensions[k])
  }

  predicate ImageValid(image: Option<Upload>)
  {
    image.None? || image.value.filename == [] || FileAllowedByForm(image.value.filename)
  }

  /** `form.validate()`: every field constraint holds. A form that validates has a non-blank
      title of at most 200 characters, readable numbers with at least 0 minutes and at least
      one serving, and a named image only with an image extension; a blank title or a number
      that cannot be read always fails, while a blank number counts as an empty one. */
  predicate Validates(form: RecipeForm): (ok: bool)
    ensures ok ==> Trim(form.title) != [] && |form.title| <= 200
    ensures ok && Trim(form.description) != [] ==> |form.description| <= 2000
    ensures ok && Trim(form.category) != [] ==> |form.category| <= 80
    ensures ok ==> !form.cookingTime.Malformed? && !form.servings.Malformed?
    ensures ok && form.cookingTime.Value? ==> form.cookingTime.n >= 0
    ensures ok && form.servings.Value? ==> form.servings.n >= 1
    ensures ok && form.image.Some? && form.image.value.filename != [] ==> FileAllowedByForm(form.image.value.filename)
    ensures Trim(form.title) == [] || form.cookingTime.Malformed? || form.servings.Malformed? ==> !ok
  {
    && TitleValid(form.title)
    && DescriptionValid(form.description)
    && CategoryValid(form.category)
    && IntAtLeast(form.cookingTime, 0)
    && IntAtLeast(form.servings, 1)
    && ImageValid(form.image)
  }

  /** A cooking time or servings field holding only whitespace validates exactly as an
      empty one: `Optional` stops the chain before the conversion error is reported. */
  lemma BlankNumberIsEmpty(form: RecipeForm)
    ensures form.cookingTime.Blank? ==> (Validates(form) <==> Validates(form.(cookingTime := Absent)))
    ensures form.servings.Blank? ==> (Validates(form) <==> Validates(form.(servings := Absent)))
  {
  }
}
