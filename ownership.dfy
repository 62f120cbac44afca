/** The handler-local ownership gate used by the restaurant and meal controllers and by
    meal creation. */
module Ownership {
  import opened Wrappers
  import opened Schemas

  /** `owner.toString() !== caller.toString()` raises Forbidden; an absent owner makes
      the `toString` (or `_id`) read throw a TypeError. */
  function Check(owner: Option<Id>, caller: Id): (r: Outcome)
    ensures r == Pass <==> owner == Some(caller)
    ensures r.Fail? ==> (r.error == Forbidden <==> owner.Some?)
    ensures r.Fail? ==> (r.error == Internal <==> owner.None?)
  {
    match owner
    case None => Fail(Internal)
    case Some(u) => if u != caller then Fail(Forbidden) else Pass
  }
}
