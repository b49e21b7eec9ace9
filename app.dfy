/** The request handlers of the application module: the listings (home page, search, the
    admin dashboard), the recipe page, recipe creation through the JSON API, rating,
    commenting, and the admin actions approve, reject, remove comment and restore comment. */
module App {
  import opened Common
  import opened Text
  import opened Listing
  import opened Models
  import opened Access
  import opened Ingredients
  import opened Forms

  predicate IsAdmin(actor: Actor)
  {
    actor.Authenticated? && actor.isAdmin
  }

  // ---------------------------------------------------------------------------
  // Listings

  /** The home page: the approved recipes, newest first (before pagination). */
  function IndexListing(recipes: map<nat, Recipe>, bound: nat): (r: seq<Recipe>)
    ensures forall x :: x in r ==> x.approved && exists k :: k in recipes && recipes[k] == x
    ensures forall k :: k in recipes && k < bound && recipes[k].approved ==> recipes[k] in r
    ensures forall i, j :: 0 <= i < j < |r| ==> r[i].createdAt >= r[j].createdAt
  {
    var key := (x: Recipe) => -x.createdAt;
    var p := (x: Recipe) => x.approved;
    var r := Query(recipes, bound, p, key);
    assert forall i, j :: 0 <= i < j < |r| ==> key(r[i]) <= key(r[j]);
    r
  }

  /** The home page lists every approved recipe once: one entry per approved row, and no
      recipe twice when every row carries its own id. */
  lemma IndexListingOnce(recipes: map<nat, Recipe>, bound: nat)
    ensures |IndexListing(recipes, bound)| == |set k | k in recipes && k < bound && recipes[k].approved|
    ensures RecipesKeyed(recipes, bound) ==> Distinct(IndexListing(recipes, bound))
  {
    QueryCount(recipes, bound, (x: Recipe) => x.approved, (x: Recipe) => -x.createdAt,
               set k | k in recipes && k < bound && recipes[k].approved);
    if RecipesKeyed(recipes, bound) {
      RecipesKeyedInjective(recipes, bound);
    }
  }

  /** `column.ilike('%' + q + '%')` without wildcards in `q`: a case-insensitive substring
      test, with case folded on ASCII letters as the database does. */
  predicate ILike(column: string, q: string)
  {
    Contains(Lower(column), Lower(q))
  }

  /** The case of the query does not matter. */
  lemma ILikeIgnoresQueryCase(column: string, q: string)
    ensures ILike(column, q) <==> ILike(column, Lower(q))
  {
    LowerIdempotent(q);
  }

  /** A recipe matches a search when its title, description, ingredients text or category
      contains the query. */
  predicate SearchMatches(r: Recipe, q: string)
  {
    ILike(r.title, q) || ILike(r.description, q) || ILike(r.ingredientsJson, q) || ILike(r.category, q)
  }

  /** The search page. None is the redirect to the home page for a blank query; otherwise the
      approved recipes matching the stripped query, newest first. */
  function Search(recipes: map<nat, Recipe>, bound: nat, query: string): (r: Option<seq<Recipe>>)
    ensures r.None? <==> Trim(query) == []
    ensures r.Some? ==> forall x :: x in r.value ==>
              x.approved && SearchMatches(x, Trim(query)) && exists k :: k in recipes && recipes[k] == x
    ensures r.Some? ==> forall k :: (k in recipes && k < bound && recipes[k].approved &&
              SearchMatches(recipes[k], Trim(query))) ==> recipes[k] in r.value
    ensures r.Some? ==> forall i, j :: 0 <= i < j < |r.value| ==> r.value[i].createdAt >= r.value[j].createdAt
  {
    var q := Trim(query);
    if q == [] then None
    else
      var key := (x: Recipe) => -x.createdAt;
      var p := (x: Recipe) => x.approved && SearchMatches(x, q);
      var r := Query(recipes, bound, p, key);
      assert forall i, j :: 0 <= i < j < |r| ==> key(r[i]) <= key(r[j]);
      Some(r)
  }

  /** The search lists every matching approved recipe once. */
  lemma SearchOnce(recipes: map<nat, Recipe>, bound: nat, query: string)
    ensures Search(recipes, bound, query).Some? ==>
              |Search(recipes, bound, query).value| ==
              |set k | k in recipes && k < bound && recipes[k].approved && SearchMatches(recipes[k], Trim(query))|
    ensures Search(recipes, bound, query).Some? && RecipesKeyed(recipes, bound) ==>
              Distinct(Search(recipes, bound, query).value)
  {
    var q := Trim(query);
    if RecipesKeyed(recipes, bound) {
      RecipesKeyedInjective(recipes, bound);
    }
    if q != [] {
      QueryCount(recipes, bound, (x: Recipe) => x.approved && SearchMatches(x, q), (x: Recipe) => -x.createdAt,
                 set k | k in recipes && k < bound && recipes[k].approved && SearchMatches(recipes[k], q));
    }
  }

  /** The comments shown under a recipe: its comments that are not removed, oldest first. */
  function VisibleComments(comments: map<nat, Comment>, bound: nat, recipeId: nat): (r: seq<Comment>)
    ensures forall c :: c in r ==> c.recipeId == recipeId && !c.isRemoved && exists k :: k in comments && comments[k] == c
    ensures forall k :: (k in comments && k < bound && comments[k].recipeId == recipeId &&
              !comments[k].isRemoved) ==> comments[k] in r
    ensures forall i, j :: 0 <= i < j < |r| ==> r[i].createdAt <= r[j].createdAt
  {
    var key := (c: Comment) => c.createdAt;
    var p := (c: Comment) => c.recipeId == recipeId && !c.isRemoved;
    var r := Query(comments, bound, p, key);
    assert forall i, j :: 0 <= i < j < |r| ==> key(r[i]) <= key(r[j]);
    r
  }

  /** A recipe shows each of its live comments once. */
  lemma VisibleCommentsOnce(comments: map<nat, Comment>, bound: nat, recipeId: nat)
    ensures |VisibleComments(comments, bound, recipeId)| ==
              |set k | k in comments && k < bound && comments[k].recipeId == recipeId && !comments[k].isRemoved|
    ensures CommentsKeyed(comments, bound) ==> Distinct(VisibleComments(comments, bound, recipeId))
  {
    if CommentsKeyed(comments, bound) {
      CommentsKeyedInjective(comments, bound);
    }
    QueryCount(comments, bound, (c: Comment) => c.recipeId == recipeId && !c.isRemoved, (c: Comment) => c.createdAt,
               set k | k in comments && k < bound && comments[k].recipeId == recipeId && !comments[k].isRemoved);
  }

  /** The number of comments the admin dashboard lists. */
  const ModerationLimit: nat := 50

  /** What the admin dashboard shows: the pending recipes newest first with their decoded
      ingredient lists, and the latest comments that are not removed, newest first. */
  datatype Dashboard = Dashboard(pending: seq<Recipe>, pendingIngredients: seq<seq<string>>, comments: seq<Comment>)

  /** The pending recipes, newest first. */
  function PendingListing(recipes: map<nat, Recipe>, bound: nat): (r: seq<Recipe>)
    ensures forall x :: x in r ==> !x.approved && exists k :: k in recipes && recipes[k] == x
    ensures forall k :: k in recipes && k < bound && !recipes[k].approved ==> recipes[k] in r
    ensures forall i, j :: 0 <= i < j < |r| ==> r[i].createdAt >= r[j].createdAt
  {
    var key := (x: Recipe) => -x.createdAt;
    var p := (x: Recipe) => !x.approved;
    var r := Query(recipes, bound, p, key);
    assert forall i, j :: 0 <= i < j < |r| ==> key(r[i]) <= key(r[j]);
    r
  }

  /** The dashboard lists every pending recipe once. */
  lemma PendingListingOnce(recipes: map<nat, Recipe>, bound: nat)
    ensures |PendingListing(recipes, bound)| == |set k | k in recipes && k < bound && !recipes[k].approved|
    ensures RecipesKeyed(recipes, bound) ==> Distinct(PendingListing(recipes, bound))
  {
    if RecipesKeyed(recipes, bound) {
      RecipesKeyedInjective(recipes, bound);
    }
    QueryCount(recipes, bound, (x: Recipe) => !x.approved, (x: Recipe) => -x.createdAt,
               set k | k in recipes && k < bound && !recipes[k].approved);
  }

  /** The latest comments that are not removed, newest first, at most `ModerationLimit`. */
  function LatestComments(comments: map<nat, Comment>, bound: nat): (r: seq<Comment>)
    ensures |r| <= ModerationLimit
    ensures LiveStored(comments, r)
    ensures NewestFirst(r)
    ensures |r| < ModerationLimit ==> forall k :: k in comments && k < bound && !comments[k].isRemoved ==> comments[k] in r
  {
    var live := LiveNewestFirst(comments, bound);
    if |live| <= ModerationLimit then live
    else
      LatestPrefix(comments, live, ModerationLimit);
      live[..ModerationLimit]
  }

  /** No live comment the dashboard leaves out is newer than one it shows. */
  lemma LatestCommentsNewest(comments: map<nat, Comment>, bound: nat)
    ensures var r := LatestComments(comments, bound);
              forall c, k :: (c in r && k in comments && k < bound && !comments[k].isRemoved && comments[k] !in r) ==>
                comments[k].createdAt <= c.createdAt
  {
    var live := LiveNewestFirst(comments, bound);
    if |live| > ModerationLimit {
      LatestPrefix(comments, live, ModerationLimit);
    }
  }

  /** Every comment in `cs` is stored and not removed. */
  ghost predicate LiveStored(comments: map<nat, Comment>, cs: seq<Comment>)
  {
    forall c :: c in cs ==> !c.isRemoved && exists k :: k in comments && comments[k] == c
  }

  /** `cs` is ordered by creation time, newest first. */
  ghost predicate NewestFirst(cs: seq<Comment>)
  {
    forall i, j :: 0 <= i < j < |cs| ==> cs[i].createdAt >= cs[j].createdAt
  }

  /** Every comment that is not removed, newest first. */
  function LiveNewestFirst(comments: map<nat, Comment>, bound: nat): (r: seq<Comment>)
    ensures LiveStored(comments, r)
    ensures forall k :: k in comments && k < bound && !comments[k].isRemoved ==> comments[k] in r
    ensures NewestFirst(r)
  {
    var key := (c: Comment) => -c.createdAt;
    var r := Query(comments, bound, (c: Comment) => !c.isRemoved, key);
    assert forall i, j :: 0 <= i < j < |r| ==> key(r[i]) <= key(r[j]);
    r
  }

  /** The dashboard shows 50 live comments, or all of them when there are fewer, and no
      comment twice. */
  lemma LatestCommentsOnce(comments: map<nat, Comment>, bound: nat)
    ensures var n := |set k | k in comments && k < bound && !comments[k].isRemoved|;
              |LatestComments(comments, bound)| == if n < ModerationLimit then n else ModerationLimit
    ensures CommentsKeyed(comments, bound) ==> Distinct(LatestComments(comments, bound))
  {
    var p := (c: Comment) => !c.isRemoved;
    var key := (c: Comment) => -c.createdAt;
    QueryCount(comments, bound, p, key, set k | k in comments && k < bound && !comments[k].isRemoved);
    if CommentsKeyed(comments, bound) {
      CommentsKeyedInjective(comments, bound);
      PrefixDistinct(LiveNewestFirst(comments, bound), ModerationLimit);
    }
  }

  /** Cutting a newest-first list of live comments keeps the newest: the prefix holds live
      comments in order, and nothing after it is newer than what it holds. */
  lemma LatestPrefix(comments: map<nat, Comment>, live: seq<Comment>, n: nat)
    requires n <= |live|
    requires LiveStored(comments, live) && NewestFirst(live)
    ensures LiveStored(comments, live[..n]) && NewestFirst(live[..n])
    ensures forall c, d :: c in live[..n] && d in live && d !in live[..n] ==> d.createdAt <= c.createdAt
  {
    forall c, d | c in live[..n] && d in live && d !in live[..n] ensures d.createdAt <= c.createdAt {
      var i :| 0 <= i < n && live[..n][i] == c;
      var j :| 0 <= j < |live| && live[j] == d;
    }
  }




  /** The admin page and the admin dashboard (they differ only in the template). */
  function AdminPage(db: Database, actor: Actor, loads: string -> Option<seq<string>>): (r: (Status, Option<Dashboard>))
    reads db
    ensures r.0 == Ok <==> IsAdmin(actor)
    ensures actor.Anonymous? ==> r.0 == LoginRequired
    ensures r.1.Some? <==> r.0 == Ok
    ensures r.1.Some? ==> var d := r.1.value;
              && |d.comments| <= ModerationLimit
              && |d.pendingIngredients| == |d.pending|
              && (forall x :: x in d.pending ==> !x.approved)
              && (forall k :: k in db.recipes && k < db.nextRecipeId && !db.recipes[k].approved ==> db.recipes[k] in d.pending)
              && (forall c :: c in d.comments ==> !c.isRemoved)
              && (forall i, j :: 0 <= i < j < |d.pending| ==> d.pending[i].createdAt >= d.pending[j].createdAt)
              && (forall i, j :: 0 <= i < j < |d.comments| ==> d.comments[i].createdAt >= d.comments[j].createdAt)
    ensures r.1.Some? ==> var d := r.1.value;
              && d.pending == PendingListing(db.recipes, db.nextRecipeId)
              && d.comments == LatestComments(db.comments, db.nextCommentId)
              && forall i :: 0 <= i < |d.pending| ==> d.pendingIngredients[i] == Display(d.pending[i].ingredientsJson, loads)
  {
    if actor.Anonymous? then (LoginRequired, None)
    else if !actor.isAdmin then (Forbidden, None)
    else
      var pending := PendingListing(db.recipes, db.nextRecipeId);
      var shown := LatestComments(db.comments, db.nextCommentId);
      var ingredients := seq(|pending|, i requires 0 <= i < |pending| => Display(pending[i].ingredientsJson, loads));
      (Ok, Some(Dashboard(pending, ingredients, shown)))
  }

  // ---------------------------------------------------------------------------
  // The recipe page

  /** The recipe page, or `Hidden` for the 404 answer (no such recipe, or not visible). */
  datatype RecipePage =
    | Hidden
    | Page(recipe: Recipe, ingredients: seq<string>, average: Option<real>, userRating: Option<int>, comments: seq<Comment>)

  /** The rating `userId` gave `recipeId`, as `.first()` finds it: the one with the lowest id. */
  function FindRating(ratings: map<nat, Rating>, bound: nat, userId: nat, recipeId: nat): (r: Option<nat>)
    ensures r.Some? ==> (r.value in ratings && r.value < bound &&
              ratings[r.value].userId == userId && ratings[r.value].recipeId == recipeId)
    ensures r.None? ==> forall k :: k in ratings && k < bound ==>
              ratings[k].userId != userId || ratings[k].recipeId != recipeId
  {
    FirstMatch(ratings, (x: Rating) => x.userId == userId && x.recipeId == recipeId, 0, bound)
  }

  function RecipeView(db: Database, actor: Actor, id: nat, loads: string -> Option<seq<string>>): (p: RecipePage)
    reads db
    ensures p.Page? <==> id in db.recipes && CanView(actor, db.recipes[id])
    ensures p.Page? ==> p.recipe == db.recipes[id]
    ensures p.Page? && Decoded(p.recipe.ingredientsJson, loads).None? ==> p.ingredients == []
    ensures p.Page? ==> forall c :: c in p.comments ==> c.recipeId == id && !c.isRemoved
    ensures p.Page? ==> forall k :: (k in db.comments && k < db.nextCommentId &&
              db.comments[k].recipeId == id && !db.comments[k].isRemoved) ==> db.comments[k] in p.comments
    ensures p.Page? && actor.Anonymous? ==> p.userRating.None?
    ensures p.Page? && p.userRating.Some? ==> exists k :: (k in db.ratings &&
              db.ratings[k].userId == actor.id && db.ratings[k].recipeId == id && db.ratings[k].score == p.userRating.value)
    ensures p.Page? ==> p.ingredients == Display(p.recipe.ingredientsJson, loads)
    ensures p.Page? ==> p.average == RecipeAverage(db.ratings, db.nextRatingId, id)
    ensures p.Page? ==> p.comments == VisibleComments(db.comments, db.nextCommentId, id)
    ensures p.Page? && actor.Authenticated? ==>
              match FindRating(db.ratings, db.nextRatingId, actor.id, id)
              case Some(k) => p.userRating == Some(db.ratings[k].score)
              case None => p.userRating.None?
  {
    if id !in db.recipes || !CanView(actor, db.recipes[id]) then Hidden
    else
      var recipe := db.recipes[id];
      var mine :=
        if actor.Anonymous? then None
        else match FindRating(db.ratings, db.nextRatingId, actor.id, id)
          case Some(k) => Some(db.ratings[k].score)
          case None => None;
      Page(recipe, Display(recipe.ingredientsJson, loads), RecipeAverage(db.ratings, db.nextRatingId, id),
           mine, VisibleComments(db.comments, db.nextCommentId, id))
  }

  // ---------------------------------------------------------------------------
  // Creating a recipe through the JSON API

  /** The row the API stores: text fields stripped (the ingredients text is stored as sent,
      `[]` when the field is missing), the saved file name or no image, pending, owned by the
      caller. */
  function ApiRecipe(
    id: nat, ownerId: nat, title: string, description: string, instructions: string,
    ingredients: Option<string>, category: string, cookingTime: Option<int>, servings: Option<int>,
    image: Option<Upload>, now: int): (r: Recipe)
    ensures r.id == id && !r.approved && r.userId == Some(ownerId)
    ensures r.title == Trim(title) && r.description == Trim(description)
    ensures r.instructions == Trim(instructions) && r.category == Trim(category)
    ensures Trim(r.title) == r.title && Trim(r.description) == r.description
    ensures ingredients.Some? ==> r.ingredientsJson == ingredients.value
    ensures ingredients.None? ==> r.ingredientsJson == "[]"
    ensures image.Some? && image.value.filename != [] ==> r.image == image.value.savedAs
    ensures image.None? || image.value.filename == [] ==> r.image == ""
    ensures r.cookingTime == cookingTime && r.servings == servings && r.createdAt == now
  {
    TrimIdempotent(title);
    TrimIdempotent(description);
    Recipe(
      id, Trim(title), Trim(description), Trim(instructions),
      if ingredients.Some? then ingredients.value else "[]",
      if image.Some? && image.value.filename != [] then image.value.savedAs else "",
      Trim(category), cookingTime, servings, now, false, Some(ownerId))
  }

  /** `create_recipe`. A numeric field that is non-empty and not an integer, whitespace only
      included, makes the conversion raise, so nothing is stored. No field is validated. */
  method CreateRecipe(
    db: Database, actor: Actor, title: string, description: string, instructions: string,
    ingredients: Option<string>, category: string, cookingTime: IntField, servings: IntField,
    image: Option<Upload>, now: int)
    returns (status: Status, id: Option<nat>)
    requires db.Valid()
    modifies db
    ensures db.Valid() && db.OnlyRecipesChanged()
    ensures actor.Anonymous? ==> status == LoginRequired
    ensures actor.Authenticated? && (IntRaises(cookingTime) || IntRaises(servings)) ==> status == ServerError
    ensures status != Ok ==> unchanged(db) && id.None?
    ensures status == Ok <==> actor.Authenticated? && !IntRaises(cookingTime) && !IntRaises(servings)
    ensures status == Ok ==>
              && id == Some(old(db.nextRecipeId))
              && db.nextRecipeId == old(db.nextRecipeId) + 1
              && db.recipes == old(db.recipes)[id.value := ApiRecipe(
                   id.value, actor.id, title, description, instructions, ingredients, category,
                   IntOrNone(cookingTime), IntOrNone(servings), image, now)]
  {
    if actor.Anonymous? {
      return LoginRequired, None;
    }
    if IntRaises(cookingTime) || IntRaises(servings) {
      return ServerError, None;
    }
    var newId := db.nextRecipeId;
    var row := ApiRecipe(newId, actor.id, title, description, instructions, ingredients, category,
                         IntOrNone(cookingTime), IntOrNone(servings), image, now);
    db.recipes := db.recipes[newId := row];
    db.nextRecipeId := newId + 1;
    return Ok, Some(newId);
  }

  // ---------------------------------------------------------------------------
  // Rating

  /** The ratings table with the next id it issues. */
  datatype RatingTable = RatingTable(rows: map<nat, Rating>, next: nat)

  predicate SamePair(x: Rating, userId: nat, recipeId: nat)
  {
    x.userId == userId && x.recipeId == recipeId
  }

  /** The rating upsert: the existing rating of the (user, recipe) pair takes the new score;
      without one a new rating is added under the next id. */
  function Upsert(t: RatingTable, userId: nat, recipeId: nat, score: int, now: int): (r: RatingTable)
    requires RatingsKeyed(t.rows, t.next)
    ensures forall k :: k in t.rows && !SamePair(t.rows[k], userId, recipeId) ==> k in r.rows && r.rows[k] == t.rows[k]
    ensures exists k :: k in r.rows && SamePair(r.rows[k], userId, recipeId) && r.rows[k].score == score
    ensures FindRating(t.rows, t.next, userId, recipeId).Some? ==> r.rows.Keys == t.rows.Keys && r.next == t.next
    ensures FindRating(t.rows, t.next, userId, recipeId).None? ==>
              r.rows.Keys == t.rows.Keys + {t.next} && r.next == t.next + 1
  {
    match FindRating(t.rows, t.next, userId, recipeId)
    case Some(k) =>
      var r := RatingTable(t.rows[k := t.rows[k].(score := score)], t.next);
      assert SamePair(r.rows[k], userId, recipeId);
      r
    case None =>
      var r := RatingTable(t.rows[t.next := Rating(t.next, score, userId, recipeId, now)], t.next + 1);
      assert SamePair(r.rows[t.next], userId, recipeId);
      r
  }

  /** The upsert keeps every rating under its id and below the counter, keeps at most one
      rating per pair, and leaves exactly one rating for the pair, holding the new score. */
  lemma UpsertKeepsOneRatingPerPair(t: RatingTable, userId: nat, recipeId: nat, score: int, now: int)
    requires RatingsKeyed(t.rows, t.next) && OneRatingPerPair(t.rows)
    ensures var r := Upsert(t, userId, recipeId, score, now);
              && RatingsKeyed(r.rows, r.next)
              && OneRatingPerPair(r.rows)
              && forall k :: k in r.rows && SamePair(r.rows[k], userId, recipeId) ==> r.rows[k].score == score
  {
    var r := Upsert(t, userId, recipeId, score, now);
    match FindRating(t.rows, t.next, userId, recipeId)
    case Some(j) =>
    case None =>
  }

  /** Two `.first()` queries over tables that agree on the searched range give the same row. */
  lemma {:induction false} FirstMatchAgree<T>(m1: map<nat, T>, m2: map<nat, T>, p: T -> bool, from: nat, bound: nat)
    requires forall k :: from <= k < bound ==> (k in m1 <==> k in m2)
    requires forall k :: from <= k < bound && k in m1 ==> p(m1[k]) == p(m2[k])
    ensures FirstMatch(m1, p, from, bound) == FirstMatch(m2, p, from, bound)
    decreases bound - from
  {
    if from < bound {
      FirstMatchAgree(m1, m2, p, from + 1, bound);
    }
  }

  /** Rating twice is rating once with the second score: the second upsert finds the rating
      the first one left, so the last score wins and no second row appears. */
  lemma UpsertLastScoreWins(t: RatingTable, userId: nat, recipeId: nat, first: int, second: int, t1: int, t2: int)
    requires RatingsKeyed(t.rows, t.next)
    ensures Upsert(Upsert(t, userId, recipeId, first, t1), userId, recipeId, second, t2)
         == Upsert(t, userId, recipeId, second, t1)
  {
    var p := (x: Rating) => x.userId == userId && x.recipeId == recipeId;
    var mid := Upsert(t, userId, recipeId, first, t1);
    match FindRating(t.rows, t.next, userId, recipeId)
    case Some(k) =>
      FirstMatchAgree(t.rows, mid.rows, p, 0, t.next);
      assert FindRating(mid.rows, mid.next, userId, recipeId) == Some(k);
    case None =>
      var again := FindRating(mid.rows, mid.next, userId, recipeId);
      assert again == Some(t.next) by {
        assert t.next in mid.rows && p(mid.rows[t.next]);
      }
  }

  /** `rate_recipe`. The score is read with a default of 0 when the field is missing (`Absent`);
      text that is not an integer, the empty text included, makes the conversion raise
      (`Malformed`, or `Blank` for whitespace only). The recipe only has to exist, approved
      or not. */
  method Rate(db: Database, actor: Actor, csrfOk: bool, recipeId: nat, score: IntField, now: int)
    returns (status: Status, average: Option<real>)
    requires db.Valid()
    modifies db
    ensures db.Valid() && db.OnlyRatingsChanged()
    ensures actor.Anonymous? ==> status == LoginRequired
    ensures actor.Authenticated? && !csrfOk ==> status == BadRequest("Invalid CSRF token")
    ensures actor.Authenticated? && csrfOk && IntRaises(score) ==> status == ServerError
    ensures actor.Authenticated? && csrfOk && (score.Absent? || (score.Value? && (score.n < 1 || score.n > 5))) ==>
              status == BadRequest("Invalid score")
    ensures actor.Authenticated? && csrfOk && score.Value? && 1 <= score.n <= 5 && recipeId !in old(db.recipes) ==>
              status == NotFound
    ensures status != Ok ==> unchanged(db) && average.None?
    ensures status == Ok <==>
              actor.Authenticated? && csrfOk && score.Value? && 1 <= score.n <= 5 && recipeId in old(db.recipes)
    ensures status == Ok ==>
              && RatingTable(db.ratings, db.nextRatingId) ==
                   Upsert(RatingTable(old(db.ratings), old(db.nextRatingId)), actor.id, recipeId, score.n, now)
              && average == RecipeAverage(db.ratings, db.nextRatingId, recipeId)
              && average.Some? && 1.0 <= average.value <= 5.0
  {
    if actor.Anonymous? {
      return LoginRequired, None;
    }
    if !csrfOk {
      return BadRequest("Invalid CSRF token"), None;
    }
    if IntRaises(score) {
      return ServerError, None;
    }
    var n := if score.Value? then score.n else 0;
    if n < 1 || n > 5 {
      return BadRequest("Invalid score"), None;
    }
    if recipeId !in db.recipes {
      return NotFound, None;
    }
    average := ApplyRating(db, actor.id, recipeId, n, now);
    return Ok, average;
  }

  /** The upsert step of `rate_recipe`, followed by reading the new average. */
  method ApplyRating(db: Database, userId: nat, recipeId: nat, score: int, now: int) returns (average: Option<real>)
    requires db.Valid() && 1 <= score <= 5
    modifies db
    ensures db.Valid() && db.OnlyRatingsChanged()
    ensures RatingTable(db.ratings, db.nextRatingId) ==
              Upsert(RatingTable(old(db.ratings), old(db.nextRatingId)), userId, recipeId, score, now)
    ensures average == RecipeAverage(db.ratings, db.nextRatingId, recipeId)
    ensures average.Some? && 1.0 <= average.value <= 5.0
  {
    var t := RatingTable(db.ratings, db.nextRatingId);
    RatingKeepsStoreValid(t, userId, recipeId, score, now);
    var r := Upsert(t, userId, recipeId, score, now);
    db.ratings, db.nextRatingId := r.rows, r.next;
    average := RecipeAverage(db.ratings, db.nextRatingId, recipeId);
  }

  /** A rating with a score in 1..5 keeps the ratings table valid, and the rated recipe then
      has an average in 1..5. */
  lemma RatingKeepsStoreValid(t: RatingTable, userId: nat, recipeId: nat, score: int, now: int)
    requires RatingsKeyed(t.rows, t.next) && OneRatingPerPair(t.rows) && ScoresInRange(t.rows)
    requires 1 <= score <= 5
    ensures var r := Upsert(t, userId, recipeId, score, now);
              && RatingsKeyed(r.rows, r.next) && OneRatingPerPair(r.rows) && ScoresInRange(r.rows)
              && (forall k :: k in r.rows && SamePair(r.rows[k], userId, recipeId) ==> r.rows[k].score == score)
              && RecipeAverage(r.rows, r.next, recipeId).Some?
              && 1.0 <= RecipeAverage(r.rows, r.next, recipeId).value <= 5.0
  {
    var r := Upsert(t, userId, recipeId, score, now);
    UpsertKeepsOneRatingPerPair(t, userId, recipeId, score, now);
    RatedRecipeHasAverage(r.rows, r.next, userId, recipeId, score);
    RecipeAverageInRange(r.rows, r.next, recipeId);
  }

  /** A recipe that has a rating below the counter has an average. */
  lemma RatedRecipeHasAverage(ratings: map<nat, Rating>, bound: nat, userId: nat, recipeId: nat, score: int)
    requires RatingsKeyed(ratings, bound)
    requires exists k :: k in ratings && SamePair(ratings[k], userId, recipeId)
    ensures RecipeAverage(ratings, bound, recipeId).Some?
  {
    var k :| k in ratings && SamePair(ratings[k], userId, recipeId);
    NoAverageIffNoRatings(ratings, bound, recipeId);
  }

  // ---------------------------------------------------------------------------
  // Commenting

  /** `comment_recipe`: the stripped body is stored as a new, visible comment. */
  method CommentOn(db: Database, actor: Actor, csrfOk: bool, recipeId: nat, body: string, now: int)
    returns (status: Status, id: Option<nat>)
    requires db.Valid()
    modifies db
    ensures db.Valid() && db.OnlyCommentsChanged()
    ensures actor.Anonymous? ==> status == LoginRequired
    ensures actor.Authenticated? && !csrfOk ==> status == BadRequest("Invalid CSRF token")
    ensures actor.Authenticated? && csrfOk && Trim(body) == [] ==> status == BadRequest("Empty comment")
    ensures actor.Authenticated? && csrfOk && Trim(body) != [] && recipeId !in old(db.recipes) ==> status == NotFound
    ensures status != Ok ==> unchanged(db) && id.None?
    ensures status == Ok <==> actor.Authenticated? && csrfOk && Trim(body) != [] && recipeId in old(db.recipes)
    ensures status == Ok ==>
              && id == Some(old(db.nextCommentId))
              && db.nextCommentId == old(db.nextCommentId) + 1
              && db.comments == old(db.comments)[id.value := NewComment(id.value, Trim(body), actor.id, recipeId, now)]
  {
    if actor.Anonymous? {
      return LoginRequired, None;
    }
    if !csrfOk {
      return BadRequest("Invalid CSRF token"), None;
    }
    var text := Trim(body);
    if text == [] {
      return BadRequest("Empty comment"), None;
    }
    if recipeId !in db.recipes {
      return NotFound, None;
    }
    var newId := db.nextCommentId;
    db.comments := db.comments[newId := NewComment(newId, text, actor.id, recipeId, now)];
    db.nextCommentId := newId + 1;
    return Ok, Some(newId);
  }

  /** A comment just posted shows under its recipe. */
  lemma NewCommentShown(comments: map<nat, Comment>, next: nat, body: string, userId: nat, recipeId: nat, now: int)
    ensures NewComment(next, body, userId, recipeId, now) in
              VisibleComments(comments[next := NewComment(next, body, userId, recipeId, now)], next + 1, recipeId)
  {
  }

  // ---------------------------------------------------------------------------
  // Moderation

  /** The recipe `id` with its approval flag set; nothing else changes. */
  function Approved(recipes: map<nat, Recipe>, id: nat): (r: map<nat, Recipe>)
    requires id in recipes
    ensures r.Keys == recipes.Keys
    ensures r[id].approved && r[id].(approved := recipes[id].approved) == recipes[id]
    ensures forall k :: k in recipes && k != id ==> r[k] == recipes[k]
  {
    recipes[id := recipes[id].(approved := true)]
  }

  /** Approving twice is approving once. */
  lemma ApproveIdempotent(recipes: map<nat, Recipe>, id: nat)
    requires id in recipes
    ensures Approved(Approved(recipes, id), id) == Approved(recipes, id)
  {
  }

  /** Once approved, a recipe is visible to everybody and appears on the home page. */
  lemma ApprovedIsListed(recipes: map<nat, Recipe>, bound: nat, id: nat, actor: Actor)
    requires id in recipes && id < bound
    ensures CanView(actor, Approved(recipes, id)[id])
    ensures Approved(recipes, id)[id] in IndexListing(Approved(recipes, id), bound)
  {
  }

  /** `api_approve_recipe` (also reached through its alias route). */
  method Approve(db: Database, actor: Actor, id: nat) returns (status: Status)
    requires db.Valid()
    modifies db
    ensures db.Valid() && db.OnlyRecipesChanged() && db.nextRecipeId == old(db.nextRecipeId)
    ensures actor.Anonymous? ==> status == LoginRequired
    ensures actor.Authenticated? && !actor.isAdmin ==> status == Forbidden
    ensures IsAdmin(actor) && id !in old(db.recipes) ==> status == NotFound
    ensures status != Ok ==> unchanged(db)
    ensures status == Ok <==> IsAdmin(actor) && id in old(db.recipes)
    ensures status == Ok ==> db.recipes == Approved(old(db.recipes), id)
  {
    if actor.Anonymous? {
      return LoginRequired;
    }
    if !actor.isAdmin {
      return Forbidden;
    }
    if id !in db.recipes {
      return NotFound;
    }
    db.recipes := Approved(db.recipes, id);
    return Ok;
  }

  /** `api_reject_recipe` (also reached through its alias route): the recipe is deleted. */
  method Reject(db: Database, actor: Actor, id: nat) returns (status: Status)
    requires db.Valid()
    modifies db
    ensures db.Valid() && db.OnlyRecipesChanged() && db.nextRecipeId == old(db.nextRecipeId)
    ensures actor.Anonymous? ==> status == LoginRequired
    ensures actor.Authenticated? && !actor.isAdmin ==> status == Forbidden
    ensures IsAdmin(actor) && id !in old(db.recipes) ==> status == NotFound
    ensures status != Ok ==> unchanged(db)
    ensures status == Ok <==> IsAdmin(actor) && id in old(db.recipes)
    ensures status == Ok ==> db.recipes == old(db.recipes) - {id}
  {
    if actor.Anonymous? {
      return LoginRequired;
    }
    if !actor.isAdmin {
      return Forbidden;
    }
    if id !in db.recipes {
      return NotFound;
    }
    db.recipes := db.recipes - {id};
    return Ok;
  }

  /** A deleted recipe is gone: the recipe page answers 404 for everybody. */
  lemma DeletedRecipeHidden(db: Database, actor: Actor, id: nat, loads: string -> Option<seq<string>>)
    requires id !in db.recipes
    ensures RecipeView(db, actor, id, loads) == Hidden
  {
  }

  /** The comment `id` with its removal flag set to `removed`; nothing else changes. */
  function WithRemoved(comments: map<nat, Comment>, id: nat, removed: bool): (r: map<nat, Comment>)
    requires id in comments
    ensures r.Keys == comments.Keys
    ensures r[id].isRemoved == removed && r[id].(isRemoved := comments[id].isRemoved) == comments[id]
    ensures forall k :: k in comments && k != id ==> r[k] == comments[k]
  {
    comments[id := comments[id].(isRemoved := removed)]
  }

  /** Restoring a comment that was visible before its removal gives the table back. */
  lemma RestoreUndoesRemove(comments: map<nat, Comment>, id: nat)
    requires id in comments && !comments[id].isRemoved
    ensures WithRemoved(WithRemoved(comments, id, true), id, false) == comments
  {
  }

  /** A removed comment no longer shows under its recipe; restoring shows it again. When
      rows carry their ids, nothing with the removed comment's id is shown any more, and every
      other live comment of the recipe still is. */
  lemma RemovedCommentHidden(comments: map<nat, Comment>, bound: nat, id: nat)
    requires id in comments && id < bound
    ensures comments[id].(isRemoved := true) !in VisibleComments(WithRemoved(comments, id, true), bound, comments[id].recipeId)
    ensures comments[id].(isRemoved := false) in VisibleComments(WithRemoved(comments, id, false), bound, comments[id].recipeId)
    ensures CommentsKeyed(comments, bound) ==>
              forall c :: c in VisibleComments(WithRemoved(comments, id, true), bound, comments[id].recipeId) ==> c.id != id
    ensures forall k :: (k in comments && k < bound && k != id && comments[k].recipeId == comments[id].recipeId &&
              !comments[k].isRemoved) ==> comments[k] in VisibleComments(WithRemoved(comments, id, true), bound, comments[id].recipeId)
  {
    var removed := WithRemoved(comments, id, true);
    var shown := VisibleComments(removed, bound, comments[id].recipeId);
    if CommentsKeyed(comments, bound) {
      forall c | c in shown ensures c.id != id {
        var k :| k in removed && removed[k] == c;
        assert k != id;
        assert c == comments[k];
      }
    }
  }

  /** Shared shape of `api_remove_comment` and `api_restore_comment`. */
  method SetRemoved(db: Database, actor: Actor, id: nat, removed: bool) returns (status: Status)
    requires db.Valid()
    modifies db
    ensures db.Valid() && db.OnlyCommentsChanged() && db.nextCommentId == old(db.nextCommentId)
    ensures actor.Anonymous? ==> status == LoginRequired
    ensures actor.Authenticated? && !actor.isAdmin ==> status == Forbidden
    ensures IsAdmin(actor) && id !in old(db.comments) ==> status == NotFound
    ensures status != Ok ==> unchanged(db)
    ensures status == Ok <==> IsAdmin(actor) && id in old(db.comments)
    ensures status == Ok ==> db.comments == WithRemoved(old(db.comments), id, removed)
  {
    if actor.Anonymous? {
      return LoginRequired;
    }
    if !actor.isAdmin {
      return Forbidden;
    }
    if id !in db.comments {
      return NotFound;
    }
    db.comments := WithRemoved(db.comments, id, removed);
    return Ok;
  }

  /** `api_remove_comment`: admins only, whoever wrote the comment. */
  method RemoveComment(db: Database, actor: Actor, id: nat) returns (status: Status)
    requires db.Valid()
    modifies db
    ensures db.Valid() && db.OnlyCommentsChanged() && db.nextCommentId == old(db.nextCommentId)
    ensures status == Ok <==> IsAdmin(actor) && id in old(db.comments)
    ensures !IsAdmin(actor) ==> status == (if actor.Anonymous? then LoginRequired else Forbidden)
    ensures status != Ok ==> unchanged(db)
    ensures status == Ok ==> db.comments == WithRemoved(old(db.comments), id, true)
  {
    status := SetRemoved(db, actor, id, true);
  }

  /** `api_restore_comment`. */
  method RestoreComment(db: Database, actor: Actor, id: nat) returns (status: Status)
    requires db.Valid()
    modifies db
    ensures db.Valid() && db.OnlyCommentsChanged() && db.nextCommentId == old(db.nextCommentId)
    ensures status == Ok <==> IsAdmin(actor) && id in old(db.comments)
    ensures !IsAdmin(actor) ==> status == (if actor.Anonymous? then LoginRequired else Forbidden)
    ensures status != Ok ==> unchanged(db)
    ensures status == Ok ==> db.comments == WithRemoved(old(db.comments), id, false)
  {
    status := SetRemoved(db, actor, id, false);
  }
}
