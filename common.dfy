/** Values shared by every route handler of the recipe application: optional values,
    the acting user, the outcome of a request and the shape of a numeric form field. */
module Common {

  datatype Option<+T> = None | Some(value: T)

  /** Who issues a request: nobody logged in, or a logged-in user with its id and admin flag. */
  datatype Actor = Anonymous | Authenticated(id: nat, isAdmin: bool)

  /** The outcome of a request, with the web plumbing (status codes, redirects, templates)
      abstracted away. `BadRequest` carries the message the handler reports. */
  datatype Status =
    | Ok
    | LoginRequired        // the login_required decorator turned the request away
    | Forbidden            // 403
    | NotFound             // 404, also used to hide unapproved recipes
    | BadRequest(message: string)
    | ServerError          // an uncaught exception: nothing is committed
    | Invalid              // the submitted form failed validation and is shown again

  /** A numeric form field as sent by the browser: missing or empty, non-empty text made
      only of whitespace, an integer (surrounding whitespace allowed, as `int` allows it),
      or other text that cannot be read as an integer. `int` raises on `Blank` as on
      `Malformed`; the form library treats `Blank` as an empty field. */
  datatype IntField = Absent | Blank | Value(n: int) | Malformed

  /** Whether `int(x) if x else None` raises: the text is non-empty and not an integer. */
  predicate IntRaises(f: IntField)
  {
    f.Blank? || f.Malformed?
  }

  /** The number a field carries, None when it is missing, empty or blank. */
  function IntOrNone(f: IntField): Option<int>
    requires !f.Malformed?
  {
    if f.Value? then Some(f.n) else None
  }
}
