/** `RestaurantsController`: which guards each route declares, and the ownership gates
    in front of update and delete. */
module RestaurantsController {
  import opened Wrappers
  import opened Schemas
  import opened External
  import opened Store
  import Ownership
  import RolesGuard
  import RestaurantsService

  datatype Route = ListRestaurants | CreateRestaurant | RestaurantDetail | UpdateRestaurant | DeleteRestaurant

  /** What a route declares: no guard, or `AuthGuard()` with `RolesGuard` metadata
      (`None` when the route has no `@Roles`). */
  datatype Guarding = Open | Authenticated(roles: Option<seq<Role>>)

  function Guards(route: Route): (g: Guarding)
    ensures g.Open? <==> route == ListRestaurants || route == RestaurantDetail
    ensures route == DeleteRestaurant ==> g == Authenticated(None)
    ensures route == CreateRestaurant || route == UpdateRestaurant ==> g == Authenticated(Some([AdminRole]))
  {
    match route
    case ListRestaurants => Open
    case CreateRestaurant => Authenticated(Some([AdminRole]))
    case RestaurantDetail => Open
    case UpdateRestaurant => Authenticated(Some([AdminRole]))
    case DeleteRestaurant => Authenticated(None)
  }

  /** Whether the guards let a request through; `user` is the request user the token
      resolved to, `None` when there is no valid token. */
  function Admits(route: Route, user: Option<User>): (r: bool)
    ensures Guards(route).Open? ==> r
  {
    match Guards(route)
    case Open => true
    case Authenticated(roles) => user.Some? && RolesGuard.CanActivate(roles, user.value)
  }

  /** Create and update require the admin role; delete requires only a login; the
      listing and the detail are public. */
  lemma RoleRequirements(user: User)
    ensures Admits(CreateRestaurant, Some(user)) <==> user.role == AdminRole
    ensures Admits(UpdateRestaurant, Some(user)) <==> user.role == AdminRole
    ensures Admits(DeleteRestaurant, Some(user))
    ensures !Admits(CreateRestaurant, None) && !Admits(UpdateRestaurant, None) && !Admits(DeleteRestaurant, None)
    ensures Admits(ListRestaurants, None) && Admits(RestaurantDetail, None)
  {
  }

  /** `createRestaurant(user, restaurant)`: the service takes only the body, so the
      caller is dropped and the stored restaurant has no owner. */
  method Create(o: Oracles, db: Database, caller: User, dto: RestaurantsService.CreateRestaurantDto)
    returns (r: Result<(Id, Restaurant)>)
    requires db.Valid()
    modifies db
    ensures db.Valid()
    ensures db.users == old(db.users) && db.meals == old(db.meals)
    ensures db.restaurants == old(db.restaurants).Insert(RestaurantsService.NewRestaurant(o, dto))
    ensures r == Ok((old(db.restaurants.next), RestaurantsService.NewRestaurant(o, dto)))
    ensures r.Ok? && r.value.1.user.None?
  {
    r := RestaurantsService.Create(o, db, dto);
  }

  /** `update`: `detail` errors first, then the owner gate, then the service update. */
  method Update(o: Oracles, db: Database, id: Id, u: RestaurantsService.UpdateRestaurantDto, caller: Id)
    returns (r: Result<Option<Restaurant>>)
    requires db.Valid()
    modifies db
    ensures db.Valid()
    ensures db.users == old(db.users) && db.meals == old(db.meals)
    ensures var found := RestaurantsService.Detail(o, old(db.restaurants), id);
      && (found.Err? ==> r == Err(found.error) && db.restaurants == old(db.restaurants))
      && (found.Ok? && Ownership.Check(found.value.user, caller).Fail? ==>
            r == Err(Ownership.Check(found.value.user, caller).error) && db.restaurants == old(db.restaurants))
      && (found.Ok? && Ownership.Check(found.value.user, caller).Pass? ==>
            var x := RestaurantsService.Patched(found.value, u);
            r == Ok(Some(x)) && db.restaurants == old(db.restaurants).Put(id, x))
  {
    var found := RestaurantsService.Detail(o, db.restaurants, id);
    if found.Err? {
      return Err(found.error);
    }
    var gate := Ownership.Check(found.value.user, caller);
    if gate.Fail? {
      return Err(gate.error);
    }
    r := RestaurantsService.Update(o, db, id, u);
  }

  /** `delete`: `detail` errors first, then the owner gate, then the image purge; the
      record is removed only when the purge reports success. `purge` is what the bucket
      call would answer; it is not consulted when there are no images. */
  method Delete(o: Oracles, db: Database, id: Id, caller: Id, purge: PurgeOutcome) returns (r: Result<bool>)
    requires db.Valid()
    modifies db
    ensures db.Valid()
    ensures db.users == old(db.users) && db.meals == old(db.meals)
    ensures var found := RestaurantsService.Detail(o, old(db.restaurants), id);
      && (found.Err? ==> r == Err(found.error) && db.restaurants == old(db.restaurants))
      && (found.Ok? && Ownership.Check(found.value.user, caller).Fail? ==>
            r == Err(Ownership.Check(found.value.user, caller).error) && db.restaurants == old(db.restaurants))
      && (found.Ok? && Ownership.Check(found.value.user, caller).Pass? ==>
            var purged := RestaurantsService.DeleteImages(found.value.images, purge);
            && (purged.Err? ==> r == Err(Internal) && db.restaurants == old(db.restaurants))
            && (purged == Ok(true) ==> r == Ok(true) && db.restaurants == old(db.restaurants).Remove(id))
            && (purged == Ok(false) ==> r == Ok(false) && db.restaurants == old(db.restaurants)))
  {
    var restaurant := RestaurantsService.Detail(o, db.restaurants, id);
    if restaurant.Err? {
      return Err(restaurant.error);
    }
    var gate := Ownership.Check(restaurant.value.user, caller);
    if gate.Fail? {
      return Err(gate.error);
    }
    var isDeleted := RestaurantsService.DeleteImages(restaurant.value.images, purge);
    if isDeleted.Err? {
      return Err(isDeleted.error);
    }
    if isDeleted.value {
      var _ := RestaurantsService.Delete(o, db, id);
      return Ok(true);
    } else {
      return Ok(false);
    }
  }

  /** A restaurant created through this controller has no owner, so the gates in front
      of update, delete and meal creation throw on it for every caller. */
  lemma CreatedRestaurantIsUnownable(o: Oracles, dto: RestaurantsService.CreateRestaurantDto, caller: Id)
    ensures Ownership.Check(RestaurantsService.NewRestaurant(o, dto).user, caller) == Fail(Internal)
  {
  }
}
