/** Who may see and who may change a recipe. The same visibility rule guards the recipe
    page of the application and the view page of the posts blueprint. */
module Access {
  import opened Common
  import opened Models

  /** A recipe is shown when it is approved, or to a logged-in admin, or to its owner.
      Anybody else is answered as if the recipe did not exist. */
  predicate CanView(actor: Actor, r: Recipe): (ok: bool)
    ensures actor.Anonymous? ==> (ok <==> r.approved)
    ensures actor.Authenticated? && (actor.isAdmin || r.userId == Some(actor.id)) ==> ok
    ensures ok ==> r.approved || actor.Authenticated?
  {
    r.approved || (actor.Authenticated? && (actor.isAdmin || r.userId == Some(actor.id)))
  }

  /** Edit and delete are allowed to the owner and to admins. A recipe without an owner
      can only be changed by admins. */
  predicate CanModify(userId: nat, isAdmin: bool, r: Recipe): (ok: bool)
    ensures isAdmin ==> ok
    ensures !isAdmin ==> (ok <==> r.userId == Some(userId))
    ensures r.userId.None? ==> (ok <==> isAdmin)
  {
    r.userId == Some(userId) || isAdmin
  }

  /** An approved recipe is visible to everybody, logged in or not. */
  lemma ApprovedVisibleToAll(actor: Actor, r: Recipe)
    requires r.approved
    ensures CanView(actor, r)
  {
  }

  /** A pending recipe is hidden from anonymous visitors and from every logged-in user who
      is neither an admin nor its owner. */
  lemma PendingHidden(actor: Actor, r: Recipe)
    requires !r.approved
    ensures !CanView(actor, r) <==>
              actor.Anonymous? || (!actor.isAdmin && r.userId != Some(actor.id))
  {
  }

  /** Whoever may change a recipe may also see it. */
  lemma ModifierCanView(userId: nat, isAdmin: bool, r: Recipe)
    requires CanModify(userId, isAdmin, r)
    ensures CanView(Authenticated(userId, isAdmin), r)
  {
  }

  /** A recipe that has just been created by `ownerId` (pending, owned) is visible exactly to
      its owner and to admins. */
  lemma NewRecipeVisibleToOwnerAndAdmins(actor: Actor, r: Recipe, ownerId: nat)
    requires !r.approved && r.userId == Some(ownerId)
    ensures CanView(actor, r) <==> actor.Authenticated? && (actor.isAdmin || actor.id == ownerId)
  {
  }

  /** A recipe built with the declared defaults is pending and has no owner, so only admins
      can see it. */
  lemma DefaultRecipeAdminOnly(actor: Actor, id: nat, title: string, description: string, instructions: string, createdAt: int)
    ensures CanView(actor, NewRecipe(id, title, description, instructions, createdAt)) <==>
              actor.Authenticated? && actor.isAdmin
  {
  }
}
