/** The four tables of the recipe application (users, recipes, ratings, comments), the
    defaults a new row takes, the average rating of a recipe, and the store that holds
    the rows: a class whose map fields the request handlers update in place. */
module Models {
  import opened Common
  import opened Listing

  datatype User = User(
    id: nat, username: string, email: string, passwordHash: string, bio: string,
    isAdmin: bool, createdAt: int)

  /** `userId` is nullable: a recipe may have no owner. */
  datatype Recipe = Recipe(
    id: nat, title: string, description: string, instructions: string,
    ingredientsJson: string, image: string, category: string,
    cookingTime: Option<int>, servings: Option<int>, createdAt: int,
    approved: bool, userId: Option<nat>)

  /** A rating always has a score, a user and a recipe (the columns are NOT NULL). */
  datatype Rating = Rating(id: nat, score: int, userId: nat, recipeId: nat, createdAt: int)

  /** A comment always has a body, a user and a recipe; `isRemoved` is the soft-delete flag. */
  datatype Comment = Comment(
    id: nat, body: string, userId: nat, recipeId: nat, isRemoved: bool, createdAt: int)

  /** A recipe row built from the given columns, every other column at its declared default:
      empty ingredient list `[]`, no image, no category, pending, no owner. */
  function NewRecipe(id: nat, title: string, description: string, instructions: string, createdAt: int): (r: Recipe)
    ensures !r.approved && r.userId.None?
    ensures r.ingredientsJson == "[]" && r.image == "" && r.category == ""
    ensures r.cookingTime.None? && r.servings.None?
  {
    Recipe(id, title, description, instructions, "[]", "", "", None, None, createdAt, false, None)
  }

  /** A comment row with `is_removed` at its default: visible. */
  function NewComment(id: nat, body: string, userId: nat, recipeId: nat, createdAt: int): (c: Comment)
    ensures !c.isRemoved
  {
    Comment(id, body, userId, recipeId, false, createdAt)
  }

  /** A user row with `bio` and `is_admin` at their defaults. */
  function NewUser(id: nat, username: string, email: string, passwordHash: string, createdAt: int): (u: User)
    ensures !u.isAdmin && u.bio == ""
  {
    User(id, username, email, passwordHash, "", false, createdAt)
  }

  // ---------------------------------------------------------------------------
  // Average rating

  /** `[s for s in scores if s is not None]`. */
  function NonNull(scores: seq<Option<int>>): (r: seq<int>)
    ensures |r| <= |scores|
    ensures forall x :: x in r <==> Some(x) in scores
  {
    if |scores| == 0 then []
    else
      assert scores == [scores[0]] + scores[1..];
      var rest := NonNull(scores[1..]);
      if scores[0].Some? then [scores[0].value] + rest else rest
  }

  function Sum(xs: seq<int>): int
  {
    if |xs| == 0 then 0 else xs[0] + Sum(xs[1..])
  }

  /** `Recipe.average_rating` before rounding: no value when there are no ratings or no
      rating has a score, otherwise the mean of the scores. */
  function AverageRating(scores: seq<Option<int>>): (avg: Option<real>)
    ensures avg.None? <==> forall s :: s in scores ==> s.None?
    ensures avg.Some? ==> IsMeanOf(avg.value, NonNull(scores))
  {
    if |scores| == 0 then None
    else
      var present := NonNull(scores);
      NoScoresIffEmpty(scores);
      if |present| == 0 then
        None
      else
        Some(Mean(present))
  }

  /** `avg` is the mean of `xs`: times their number it gives their sum. */
  ghost predicate IsMeanOf(avg: real, xs: seq<int>)
  {
    avg * (|xs| as real) == Sum(xs) as real
  }

  /** `sum(xs) / len(xs)` in exact arithmetic. */
  function Mean(xs: seq<int>): (m: real)
    requires |xs| > 0
    ensures IsMeanOf(m, xs)
  {
    (Sum(xs) as real) / (|xs| as real)
  }

  lemma NoScoresIffEmpty(scores: seq<Option<int>>)
    ensures (forall s :: s in scores ==> s.None?) <==> |NonNull(scores)| == 0
  {
    var present := NonNull(scores);
    if |present| > 0 {
      assert present[0] in present;
    }
    forall s | s in scores && s.Some? ensures s.value in present {
      assert Some(s.value) == s;
    }
  }

  lemma {:induction false} SumBounds(xs: seq<int>, lo: int, hi: int)
    requires forall x :: x in xs ==> lo <= x <= hi
    ensures |xs| * lo <= Sum(xs) <= |xs| * hi
  {
    if |xs| > 0 {
      assert xs[0] in xs;
      assert forall x :: x in xs[1..] ==> x in xs;
      SumBounds(xs[1..], lo, hi);
      assert |xs| * lo == lo + (|xs| - 1) * lo;
      assert |xs| * hi == hi + (|xs| - 1) * hi;
    }
  }

  /** A positive count whose multiples by `lo` and `hi` bracket a sum brackets the mean. */
  lemma MeanBetween(n: real, s: real, avg: real, lo: real, hi: real)
    requires n > 0.0 && avg * n == s && lo * n <= s <= hi * n
    ensures lo <= avg <= hi
  {
  }

  lemma ProductAsReal(a: int, b: int)
    ensures (a * b) as real == (a as real) * (b as real)
  {
  }

  /** The mean of integers in `lo..hi` lies in `lo..hi`. */
  lemma MeanOfBounded(xs: seq<int>, lo: int, hi: int)
    requires |xs| > 0 && forall x :: x in xs ==> lo <= x <= hi
    ensures lo as real <= (Sum(xs) as real) / (|xs| as real) <= hi as real
  {
    SumBounds(xs, lo, hi);
    ProductAsReal(|xs|, lo);
    ProductAsReal(|xs|, hi);
    var n := |xs| as real;
    MeanBetween(n, Sum(xs) as real, (Sum(xs) as real) / n, lo as real, hi as real);
  }

  /** When every score lies in `lo..hi` (the handler only stores 1..5), so does the mean. */
  lemma AverageWithinScoreRange(scores: seq<Option<int>>, lo: int, hi: int)
    requires forall x :: Some(x) in scores ==> lo <= x <= hi
    ensures AverageRating(scores).Some? ==>
              lo as real <= AverageRating(scores).value <= hi as real
  {
    if AverageRating(scores).Some? {
      var present := NonNull(scores);
      assert |present| > 0;
      MeanOfBounded(present, lo, hi);
    }
  }

  /** Ratings 3 and 5 average to 4. */
  lemma AverageExample()
    ensures AverageRating([Some(3), Some(5)]) == Some(4.0)
  {
    assert NonNull([Some(3), Some(5)]) == [3, 5] by {
      assert [Some(3), Some(5)][1..] == [Some(5)];
      assert NonNull([Some(5)]) == [5];
    }
    assert Sum([3, 5]) == 8 by {
      assert [3, 5][1..] == [5];
    }
  }

  /** The ratings of one recipe, as its `ratings` relationship loads them. */
  function RatingsOf(ratings: map<nat, Rating>, bound: nat, recipeId: nat): (r: seq<Rating>)
    ensures forall x :: x in r <==> x in Rows(ratings, bound) && x.recipeId == recipeId
  {
    Filter(Rows(ratings, bound), (x: Rating) => x.recipeId == recipeId)
  }

  function ScoresOf(rs: seq<Rating>): (r: seq<Option<int>>)
    ensures |r| == |rs| && forall k :: 0 <= k < |rs| ==> r[k] == Some(rs[k].score)
  {
    seq(|rs|, k requires 0 <= k < |rs| => Some(rs[k].score))
  }

  /** The average rating of recipe `recipeId`. */
  function RecipeAverage(ratings: map<nat, Rating>, bound: nat, recipeId: nat): Option<real>
  {
    AverageRating(ScoresOf(RatingsOf(ratings, bound, recipeId)))
  }

  /** Since a rating always has a score, a recipe has no average exactly when it has no
      ratings; the "every score is null" case of `average_rating` cannot arise. */
  lemma NoAverageIffNoRatings(ratings: map<nat, Rating>, bound: nat, recipeId: nat)
    ensures RecipeAverage(ratings, bound, recipeId).None? <==>
              forall k :: k in ratings && k < bound ==> ratings[k].recipeId != recipeId
  {
    var rs := RatingsOf(ratings, bound, recipeId);
    var scores := ScoresOf(rs);
    assert RecipeAverage(ratings, bound, recipeId) == AverageRating(scores);
    if |rs| == 0 {
      assert scores == [];
      assert AverageRating(scores).None?;
      forall k | k in ratings && k < bound ensures ratings[k].recipeId != recipeId {
        assert ratings[k] in Rows(ratings, bound);
        assert ratings[k] !in rs;
      }
    } else {
      assert scores[0] in scores && scores[0].Some?;
      assert AverageRating(scores).Some?;
      assert rs[0] in rs;
      assert rs[0].recipeId == recipeId && rs[0] in Rows(ratings, bound);
      var k :| k in ratings && k < bound && ratings[k] == rs[0];
    }
  }

  /** Every stored score lies in 1..5, as `rate_recipe` ensures. */
  ghost predicate ScoresInRange(ratings: map<nat, Rating>)
  {
    forall k :: k in ratings ==> 1 <= ratings[k].score <= 5
  }

  lemma RecipeAverageInRange(ratings: map<nat, Rating>, bound: nat, recipeId: nat)
    requires ScoresInRange(ratings)
    ensures RecipeAverage(ratings, bound, recipeId).Some? ==>
              1.0 <= RecipeAverage(ratings, bound, recipeId).value <= 5.0
  {
    var rs := RatingsOf(ratings, bound, recipeId);
    var scores := ScoresOf(rs);
    forall x | Some(x) in scores ensures 1 <= x <= 5 {
      var k :| 0 <= k < |scores| && scores[k] == Some(x);
      assert rs[k] in rs;
      assert rs[k] in Rows(ratings, bound);
    }
    AverageWithinScoreRange(scores, 1, 5);
  }

  // ---------------------------------------------------------------------------
  // The store

  /** Every row sits under its own id, below the next id to be issued. */
  ghost predicate UsersKeyed(users: map<nat, User>, next: nat)
  {
    forall k :: k in users ==> k < next && users[k].id == k
  }

  ghost predicate RecipesKeyed(recipes: map<nat, Recipe>, next: nat)
  {
    forall k :: k in recipes ==> k < next && recipes[k].id == k
  }

  ghost predicate RatingsKeyed(ratings: map<nat, Rating>, next: nat)
  {
    forall k :: k in ratings ==> k < next && ratings[k].id == k
  }

  ghost predicate CommentsKeyed(comments: map<nat, Comment>, next: nat)
  {
    forall k :: k in comments ==> k < next && comments[k].id == k
  }

  /** Rows that carry their own ids are different rows under different ids. */
  lemma RecipesKeyedInjective(recipes: map<nat, Recipe>, next: nat)
    requires RecipesKeyed(recipes, next)
    ensures Injective(recipes)
  {
    forall j, k | j in recipes && k in recipes && j != k ensures recipes[j] != recipes[k] {
      assert recipes[j].id == j && recipes[k].id == k;
    }
  }

  lemma RatingsKeyedInjective(ratings: map<nat, Rating>, next: nat)
    requires RatingsKeyed(ratings, next)
    ensures Injective(ratings)
  {
    forall j, k | j in ratings && k in ratings && j != k ensures ratings[j] != ratings[k] {
      assert ratings[j].id == j && ratings[k].id == k;
    }
  }

  /** A recipe's ratings hold one entry per rating row that points at it, and no rating
      twice in a keyed table, so the average weighs every stored score once. */
  lemma RatingsOfOnce(ratings: map<nat, Rating>, bound: nat, recipeId: nat)
    ensures |RatingsOf(ratings, bound, recipeId)| ==
              |set k | k in ratings && k < bound && ratings[k].recipeId == recipeId|
    ensures RatingsKeyed(ratings, bound) ==> Distinct(RatingsOf(ratings, bound, recipeId))
  {
    var p := (x: Rating) => x.recipeId == recipeId;
    RowsCount(ratings, bound, p);
    assert MatchingIds(ratings, bound, p) == set k | k in ratings && k < bound && ratings[k].recipeId == recipeId;
    if RatingsKeyed(ratings, bound) {
      RatingsKeyedInjective(ratings, bound);
      RowsDistinct(ratings, bound);
      FilterDistinct(Rows(ratings, bound), p);
    }
  }

  lemma CommentsKeyedInjective(comments: map<nat, Comment>, next: nat)
    requires CommentsKeyed(comments, next)
    ensures Injective(comments)
  {
    forall j, k | j in comments && k in comments && j != k ensures comments[j] != comments[k] {
      assert comments[j].id == j && comments[k].id == k;
    }
  }

  /** The UNIQUE constraints on `users.username` and `users.email`. */
  ghost predicate UniqueAccounts(users: map<nat, User>)
  {
    forall j, k :: j in users && k in users && j != k ==>
      users[j].username != users[k].username && users[j].email != users[k].email
  }

  /** At most one rating per (user, recipe) pair, which the rating upsert maintains. */
  ghost predicate OneRatingPerPair(ratings: map<nat, Rating>)
  {
    forall j, k :: j in ratings && k in ratings && j != k ==>
      ratings[j].userId != ratings[k].userId || ratings[j].recipeId != ratings[k].recipeId
  }

  /** The database session: four tables and the next id each will issue. */
  class Database {
    var users: map<nat, User>
    var recipes: map<nat, Recipe>
    var ratings: map<nat, Rating>
    var comments: map<nat, Comment>
    var nextUserId: nat
    var nextRecipeId: nat
    var nextRatingId: nat
    var nextCommentId: nat

    ghost predicate Valid()
      reads this
    {
      && UsersKeyed(users, nextUserId)
      && RecipesKeyed(recipes, nextRecipeId)
      && RatingsKeyed(ratings, nextRatingId)
      && CommentsKeyed(comments, nextCommentId)
      && UniqueAccounts(users)
      && OneRatingPerPair(ratings)
      && ScoresInRange(ratings)
    }

    /** Only the recipes table changed. */
    twostate predicate OnlyRecipesChanged()
      reads this
    {
      && users == old(users) && ratings == old(ratings) && comments == old(comments)
      && nextUserId == old(nextUserId) && nextRatingId == old(nextRatingId)
      && nextCommentId == old(nextCommentId)
    }

    /** Only the ratings table changed. */
    twostate predicate OnlyRatingsChanged()
      reads this
    {
      && users == old(users) && recipes == old(recipes) && comments == old(comments)
      && nextUserId == old(nextUserId) && nextRecipeId == old(nextRecipeId)
      && nextCommentId == old(nextCommentId)
    }

    /** Only the comments table changed. */
    twostate predicate OnlyCommentsChanged()
      reads this
    {
      && users == old(users) && recipes == old(recipes) && ratings == old(ratings)
      && nextUserId == old(nextUserId) && nextRecipeId == old(nextRecipeId)
      && nextRatingId == old(nextRatingId)
    }

    /** Only the users table changed. */
    twostate predicate OnlyUsersChanged()
      reads this
    {
      && recipes == old(recipes) && ratings == old(ratings) && comments == old(comments)
      && nextRecipeId == old(nextRecipeId) && nextRatingId == old(nextRatingId)
      && nextCommentId == old(nextCommentId)
    }

    /** An empty database; ids start at 1. */
    constructor ()
      ensures Valid()
      ensures users == map[] && recipes == map[] && ratings == map[] && comments == map[]
      ensures nextUserId == 1 && nextRecipeId == 1 && nextRatingId == 1 && nextCommentId == 1
    {
      users, recipes, ratings, comments := map[], map[], map[], map[];
      nextUserId, nextRecipeId, nextRatingId, nextCommentId := 1, 1, 1, 1;
    }
  }
}
