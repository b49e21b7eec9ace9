/** The auth blueprint: registration, with its per-field error map and uniqueness check, and
    login by username or email. Passwords are hashed and checked by functions passed in. */
module Auth {
  import opened Common
  import opened Text
  import opened Listing
  import opened Models

  /** Error messages keyed by form field ("username", "email", "password"). */
  type Errors = map<string, string>

  /** The format errors of the already normalised registration input. Every field has at
      most one message; uniqueness is not looked at here. */
  function FormatErrors(u: string, e: string, p: string): (r: Errors)
    ensures r.Keys <= {"username", "email", "password"}
    ensures "username" in r <==> |u| < 3 || |u| > 80
    ensures u == [] ==> r["username"] == "Username is required"
    ensures 0 < |u| < 3 ==> r["username"] == "Username must be at least 3 characters"
    ensures |u| > 80 ==> r["username"] == "Username must be at most 80 characters"
    ensures "email" in r <==> e == [] || '@' !in e || |e| > 200
    ensures e == [] ==> r["email"] == "Email is required"
    ensures e != [] && ('@' !in e || |e| > 200) ==> r["email"] == "Invalid email address"
    ensures "password" in r <==> |p| < 6
    ensures p == [] ==> r["password"] == "Password is required"
    ensures 0 < |p| < 6 ==> r["password"] == "Password must be at least 6 characters"
  {
    var withUser :=
      if u == [] then map["username" := "Username is required"]
      else if |u| < 3 then map["username" := "Username must be at least 3 characters"]
      else if |u| > 80 then map["username" := "Username must be at most 80 characters"]
      else map[];
    var withEmail :=
      if e == [] then withUser["email" := "Email is required"]
      else if '@' !in e || |e| > 200 then withUser["email" := "Invalid email address"]
      else withUser;
    if p == [] then withEmail["password" := "Password is required"]
    else if |p| < 6 then withEmail["password" := "Password must be at least 6 characters"]
    else withEmail
  }

  /** The `.first()` user whose username or email equals the given one. */
  function Taken(users: map<nat, User>, bound: nat, u: string, e: string): (r: Option<nat>)
    ensures r.None? <==> forall k :: k in users && k < bound ==> users[k].username != u && users[k].email != e
    ensures r.Some? ==> r.value in users && r.value < bound && (users[r.value].username == u || users[r.value].email == e)
    ensures r.Some? ==> forall k :: k in users && k < r.value ==> users[k].username != u && users[k].email != e
  {
    FirstMatch(users, (x: User) => x.username == u || x.email == e, 0, bound)
  }

  /** The uniqueness errors: the found user's username and email are each reported when they
      clash. Some error is reported exactly when some account clashes. */
  function Conflicts(users: map<nat, User>, bound: nat, u: string, e: string): (r: Errors)
    ensures r.Keys <= {"username", "email"}
    ensures r == map[] <==> forall k :: k in users && k < bound ==> users[k].username != u && users[k].email != e
    ensures "username" in r ==> r["username"] == "Username already exists"
    ensures "email" in r ==> r["email"] == "Email already exists"
    ensures "username" in r <==> Taken(users, bound, u, e).Some? && users[Taken(users, bound, u, e).value].username == u
    ensures "email" in r <==> Taken(users, bound, u, e).Some? && users[Taken(users, bound, u, e).value].email == e
  {
    match Taken(users, bound, u, e)
    case None => map[]
    case Some(k) =>
      var x := users[k];
      var byName: Errors := if x.username == u then map["username" := "Username already exists"] else map[];
      var r := if x.email == e then byName["email" := "Email already exists"] else byName;
      assert "username" in r || "email" in r;
      r
  }

  /** Everything `register` reports for the normalised input: the format errors when there
      are any, otherwise the uniqueness errors. */
  function RegisterErrors(users: map<nat, User>, bound: nat, u: string, e: string, p: string): (r: Errors)
    ensures FormatErrors(u, e, p) != map[] ==> r == FormatErrors(u, e, p)
    ensures FormatErrors(u, e, p) == map[] ==> r == Conflicts(users, bound, u, e)
    ensures r == map[] <==>
              && 3 <= |u| <= 80
              && e != [] && '@' in e && |e| <= 200
              && |p| >= 6
              && (forall k :: k in users && k < bound ==> users[k].username != u && users[k].email != e)
  {
    var format := FormatErrors(u, e, p);
    if format != map[] then
      assert "username" in format || "email" in format || "password" in format;
      format
    else Conflicts(users, bound, u, e)
  }

  /** Adding an account whose username and email clash with nobody keeps accounts unique. */
  lemma RegisterKeepsAccountsUnique(users: map<nat, User>, next: nat, u: string, e: string, h: string, now: int)
    requires UsersKeyed(users, next) && UniqueAccounts(users)
    requires forall k :: k in users && k < next ==> users[k].username != u && users[k].email != e
    ensures UsersKeyed(users[next := NewUser(next, u, e, h, now)], next + 1)
    ensures UniqueAccounts(users[next := NewUser(next, u, e, h, now)])
  {
    var users' := users[next := NewUser(next, u, e, h, now)];
    forall j, k | j in users' && k in users' && j != k
      ensures users'[j].username != users'[k].username && users'[j].email != users'[k].email
    {
      if j != next && k != next {
        assert users'[j] == users[j] && users'[k] == users[k];
      }
    }
  }

  /** The format checks of `register`, one if/elif chain per field. */
  method CheckFormat(u: string, e: string, p: string) returns (errors: Errors)
    ensures errors == FormatErrors(u, e, p)
  {
    errors := map[];
    if u == [] {
      errors := errors["username" := "Username is required"];
    } else if |u| < 3 {
      errors := errors["username" := "Username must be at least 3 characters"];
    } else if |u| > 80 {
      errors := errors["username" := "Username must be at most 80 characters"];
    }
    if e == [] {
      errors := errors["email" := "Email is required"];
    } else if '@' !in e || |e| > 200 {
      errors := errors["email" := "Invalid email address"];
    }
    if p == [] {
      errors := errors["password" := "Password is required"];
    } else if |p| < 6 {
      errors := errors["password" := "Password must be at least 6 characters"];
    }
  }

  /** The uniqueness check of `register`, made only when the format errors are empty. */
  method CheckUnique(users: map<nat, User>, bound: nat, u: string, e: string, format: Errors) returns (errors: Errors)
    ensures format != map[] ==> errors == format
    ensures format == map[] ==> errors == Conflicts(users, bound, u, e)
  {
    errors := format;
    if errors == map[] {
      var existing := Taken(users, bound, u, e);
      if existing.Some? {
        var x := users[existing.value];
        if x.username == u {
          errors := errors["username" := "Username already exists"];
        }
        if x.email == e {
          errors := errors["email" := "Email already exists"];
        }
      }
    }
  }

  /** `register`: the input is stripped (the email also lower-cased), the error map is built
      field by field, the store is searched for a clash only when the format is right, and
      the account is added only when no error was found. */
  method Register(db: Database, username: string, email: string, password: string, hash: string -> string, now: int)
    returns (status: Status, errors: Errors)
    requires db.Valid()
    modifies db
    ensures db.Valid() && db.OnlyUsersChanged()
    ensures errors == RegisterErrors(old(db.users), old(db.nextUserId), Trim(username), Lower(Trim(email)), Trim(password))
    ensures status == Ok <==> errors == map[]
    ensures status != Ok ==> status == BadRequest("Validation failed") && unchanged(db)
    ensures status == Ok ==>
              && db.nextUserId == old(db.nextUserId) + 1
              && db.users == old(db.users)[old(db.nextUserId) :=
                   NewUser(old(db.nextUserId), Trim(username), Lower(Trim(email)), hash(Trim(password)), now)]
  {
    var u := Trim(username);
    var e := Lower(Trim(email));
    var p := Trim(password);
    var format := CheckFormat(u, e, p);
    errors := CheckUnique(db.users, db.nextUserId, u, e, format);
    if errors != map[] {
      return BadRequest("Validation failed"), errors;
    }
    var id := db.nextUserId;
    RegisterKeepsAccountsUnique(db.users, id, u, e, hash(p), now);
    db.users := db.users[id := NewUser(id, u, e, hash(p), now)];
    db.nextUserId := id + 1;
    status := Ok;
  }

  // ---------------------------------------------------------------------------
  // Login

  datatype LoginOutcome = Rejected(message: string) | LoggedIn(userId: nat)

  /** Account `k` is the one the login query returns for identifier `i`: its username or its
      email equals `i`, and no account with a lower id matches. */
  predicate FirstAccount(users: map<nat, User>, bound: nat, i: string, k: nat)
  {
    && k in users && k < bound
    && (users[k].username == i || users[k].email == i)
    && forall j :: j in users && j < k ==> users[j].username != i && users[j].email != i
  }

  /** `login`: both fields are stripped and required; the first account whose username or
      email equals the identifier exactly is looked up, and the password is checked against
      its hash by `checkPassword(hash, password)`. */
  function Login(db: Database, identifier: string, password: string, checkPassword: (string, string) -> bool): (r: LoginOutcome)
    reads db
    ensures Trim(identifier) == [] ==> r == Rejected("Username or email is required")
    ensures Trim(identifier) != [] && Trim(password) == [] ==> r == Rejected("Password is required")
    ensures r.Rejected? ==> r.message in {"Username or email is required", "Password is required", "Invalid credentials"}
    ensures r.LoggedIn? ==>
              && Trim(identifier) != [] && Trim(password) != []
              && FirstAccount(db.users, db.nextUserId, Trim(identifier), r.userId)
              && checkPassword(db.users[r.userId].passwordHash, Trim(password))
    ensures forall k :: (Trim(identifier) != [] && Trim(password) != [] &&
                         FirstAccount(db.users, db.nextUserId, Trim(identifier), k)) ==>
              (r == LoggedIn(k) <==> checkPassword(db.users[k].passwordHash, Trim(password)))
    ensures (forall k :: k in db.users && k < db.nextUserId ==>
               db.users[k].username != Trim(identifier) && db.users[k].email != Trim(identifier)) ==> r.Rejected?
  {
    var i := Trim(identifier);
    var p := Trim(password);
    if i == [] then Rejected("Username or email is required")
    else if p == [] then Rejected("Password is required")
    else
      match Taken(db.users, db.nextUserId, i, i)
      case None => Rejected("Invalid credentials")
      case Some(k) =>
        if checkPassword(db.users[k].passwordHash, p) then LoggedIn(k) else Rejected("Invalid credentials")
  }

  /** When the identifier is an account's username and no account uses it as its email,
      login reaches exactly that account: it succeeds iff the password checks against that
      account's hash. */
  lemma LoginByUsername(db: Database, k: nat, identifier: string, password: string, checkPassword: (string, string) -> bool)
    requires db.Valid() && k in db.users
    requires Trim(password) != [] && db.users[k].username == Trim(identifier) != []
    requires forall j :: j in db.users ==> db.users[j].email != Trim(identifier)
    ensures Login(db, identifier, password, checkPassword) == LoggedIn(k) <==>
              checkPassword(db.users[k].passwordHash, Trim(password))
    ensures Login(db, identifier, password, checkPassword).LoggedIn? ==>
              Login(db, identifier, password, checkPassword).userId == k
  {
    assert k < db.nextUserId;
    assert FirstAccount(db.users, db.nextUserId, Trim(identifier), k);
  }

  /** Logging in with an email: when the identifier is an account's email and no account uses
      it as its username, login reaches exactly that account, and succeeds iff the password
      checks against that account's hash. */
  lemma LoginByEmail(db: Database, k: nat, identifier: string, password: string, checkPassword: (string, string) -> bool)
    requires db.Valid() && k in db.users
    requires Trim(password) != [] && db.users[k].email == Trim(identifier) != []
    requires forall j :: j in db.users ==> db.users[j].username != Trim(identifier)
    ensures Login(db, identifier, password, checkPassword) == LoggedIn(k) <==>
              checkPassword(db.users[k].passwordHash, Trim(password))
    ensures Login(db, identifier, password, checkPassword).LoggedIn? ==>
              Login(db, identifier, password, checkPassword).userId == k
  {
    assert k < db.nextUserId;
    assert FirstAccount(db.users, db.nextUserId, Trim(identifier), k);
  }
}
