/** `MealService`: meal lookups, and the two-step writes that keep a restaurant's
    `menu` in step with the meal collection. */
module MealService {
  import opened Wrappers
  import opened Schemas
  import opened External
  import opened Store
  import opened JsArray
  import Ownership

  /** The body of `POST /meals` after validation; its `user` must be empty. */
  datatype CreateMealDto = CreateMealDto(
    name: string, description: string, price: real, category: MealCategory, restaurant: Id)

  /** The body of `PUT /meals/:id`: every field optional, `user` must be empty. */
  datatype UpdateMealDto = UpdateMealDto(
    name: Option<string>, description: Option<string>, price: Option<real>,
    category: Option<MealCategory>, restaurant: Option<Id>)

  /** `list`: every meal, in natural order. */
  function List(meals: Table<Meal>): (r: seq<(Id, Meal)>)
    requires meals.Valid()
    ensures forall e :: e in r <==> e.0 in meals.rows && meals.rows[e.0] == e.1
    ensures Ascending(r)
  {
    meals.Docs()
  }

  /** `findById`: the id format is checked before the store is read. */
  function FindById(o: Oracles, meals: Table<Meal>, id: Id): (r: Result<Meal>)
    ensures !o.isValidObjectId(id) ==> r == Err(BadRequest)
    ensures r.Ok? <==> o.isValidObjectId(id) && id in meals.rows
    ensures r.Ok? ==> r.value == meals.rows[id]
    ensures r.Err? && o.isValidObjectId(id) ==> r.error == NotFound
  {
    if !o.isValidObjectId(id) then Err(BadRequest)
    else if id !in meals.rows then Err(NotFound)
    else Ok(meals.rows[id])
  }

  /** `findByRestaurant`: `find({ restaurant: restaurant_id })` after the id check. */
  function FindByRestaurant(o: Oracles, meals: Table<Meal>, restaurantId: Id): (r: Result<seq<(Id, Meal)>>)
    requires meals.Valid()
    ensures r.Err? <==> !o.isValidObjectId(restaurantId)
    ensures r.Err? ==> r.error == BadRequest
    ensures r.Ok? ==> forall e :: e in r.value <==>
                        e.0 in meals.rows && meals.rows[e.0] == e.1 && e.1.restaurant == restaurantId
    ensures r.Ok? ==> Ascending(r.value)
  {
    if !o.isValidObjectId(restaurantId) then Err(BadRequest)
    else Ok(Where(meals.Docs(), (m: Meal) => m.restaurant == restaurantId))
  }

  /** The document `findByIdAndUpdate` writes: present fields replace stored ones. */
  function Patched(m: Meal, u: UpdateMealDto): (r: Meal)
    ensures r.user == m.user
    ensures u.name.None? ==> r.name == m.name
    ensures u.name.Some? ==> r.name == u.name.value
    ensures u.description.None? ==> r.description == m.description
    ensures u.description.Some? ==> r.description == u.description.value
    ensures u.price.None? ==> r.price == m.price
    ensures u.price.Some? ==> r.price == u.price.value
    ensures u.category.None? ==> r.category == m.category
    ensures u.category.Some? ==> r.category == u.category.value
    ensures u.restaurant.None? ==> r.restaurant == m.restaurant
    ensures u.restaurant.Some? ==> r.restaurant == u.restaurant.value
  {
    Meal(
      if u.name.Some? then u.name.value else m.name,
      if u.description.Some? then u.description.value else m.description,
      if u.price.Some? then u.price.value else m.price,
      if u.category.Some? then u.category.value else m.category,
      if u.restaurant.Some? then u.restaurant.value else m.restaurant,
      m.user)
  }

  /** Applying the same update twice is the same as applying it once. */
  lemma PatchedIdempotent(m: Meal, u: UpdateMealDto)
    ensures Patched(Patched(m, u), u) == Patched(m, u)
  {
  }

  /** The meal `create` stores: the body plus the caller as `user`. */
  function NewMeal(dto: CreateMealDto, caller: Id): (m: Meal)
    ensures m.user == caller && m.restaurant == dto.restaurant
    ensures m.name == dto.name && m.description == dto.description
    ensures m.price == dto.price && m.category == dto.category
  {
    Meal(dto.name, dto.description, dto.price, dto.category, dto.restaurant, caller)
  }

  /** `create`. The meal is inserted first; only then is the restaurant loaded and its
      owner compared with the caller, so a NotFound or Forbidden still leaves the new
      meal in the store. On success its id is pushed onto the restaurant's menu. A
      restaurant id that cannot be cast makes the insert itself fail. */
  method Create(o: Oracles, db: Database, dto: CreateMealDto, caller: Id) returns (r: Result<(Id, Meal)>)
    requires db.Valid()
    modifies db
    ensures db.Valid()
    ensures db.users == old(db.users)
    ensures !o.isValidObjectId(dto.restaurant) ==>
              r == Err(Internal) && db.meals == old(db.meals) && db.restaurants == old(db.restaurants)
    ensures o.isValidObjectId(dto.restaurant) ==> db.meals == old(db.meals).Insert(NewMeal(dto, caller))
    ensures o.isValidObjectId(dto.restaurant) && dto.restaurant !in old(db.restaurants.rows) ==>
              r == Err(NotFound) && db.restaurants == old(db.restaurants)
    ensures o.isValidObjectId(dto.restaurant) && dto.restaurant in old(db.restaurants.rows) ==>
              var rest := old(db.restaurants.rows[dto.restaurant]);
              var gate := Ownership.Check(rest.user, caller);
              && (gate.Fail? ==> r == Err(gate.error) && db.restaurants == old(db.restaurants))
              && (gate.Pass? ==>
                    && r == Ok((old(db.meals.next), NewMeal(dto, caller)))
                    && db.restaurants == old(db.restaurants).Put(dto.restaurant,
                         rest.(menu := rest.menu + [old(db.meals.next)])))
  {
    if !o.isValidObjectId(dto.restaurant) {
      return Err(Internal);
    }
    var meal := NewMeal(dto, caller);
    var id := db.meals.next;
    MenusAfterMealInsert(db.restaurants.rows, id);
    db.meals := db.meals.Insert(meal);

    if dto.restaurant !in db.restaurants.rows {
      return Err(NotFound);
    }
    var restaurant := db.restaurants.rows[dto.restaurant];
    var gate := Ownership.Check(restaurant.user, caller);
    if gate.Fail? {
      return Err(gate.error);
    }
    MenuPush(restaurant.menu, id);
    restaurant := restaurant.(menu := restaurant.menu + [id]);
    db.restaurants := db.restaurants.Put(dto.restaurant, restaurant);
    return Ok((id, meal));
  }

  /** `update`: `findByIdAndUpdate(id, updateMeal, { new: true })`, which resolves to
      `null` for an absent id. Menus are not touched, even when `restaurant` changes. */
  method Update(o: Oracles, db: Database, id: Id, u: UpdateMealDto) returns (r: Result<Option<Meal>>)
    requires db.Valid()
    modifies db
    ensures db.Valid()
    ensures db.users == old(db.users) && db.restaurants == old(db.restaurants)
    ensures var castFails := !o.isValidObjectId(id) || (u.restaurant.Some? && !o.isValidObjectId(u.restaurant.value));
      && (castFails ==> r == Err(Internal) && db.meals == old(db.meals))
      && (!castFails && id !in old(db.meals.rows) ==> r == Ok(None) && db.meals == old(db.meals))
      && (!castFails && id in old(db.meals.rows) ==>
            var m := Patched(old(db.meals.rows[id]), u);
            r == Ok(Some(m)) && db.meals == old(db.meals).Put(id, m))
  {
    if !o.isValidObjectId(id) || (u.restaurant.Some? && !o.isValidObjectId(u.restaurant.value)) {
      return Err(Internal);
    }
    if id !in db.meals.rows {
      return Ok(None);
    }
    var m := Patched(db.meals.rows[id], u);
    db.meals := db.meals.Put(id, m);
    return Ok(Some(m));
  }

  /** `delete`: the meal is removed first; reading `res.restaurant` on a `null` result
      throws, so `{ deleted: false }` is never returned. The parent restaurant is then
      loaded (a missing one throws, after the meal is already gone), the meal's position
      in the menu is looked up with `indexOf` and one entry is spliced out there. */
  method Delete(o: Oracles, db: Database, id: Id) returns (r: Result<bool>)
    requires db.Valid()
    modifies db
    ensures db.Valid()
    ensures db.users == old(db.users)
    ensures !o.isValidObjectId(id) || id !in old(db.meals.rows) ==>
              r == Err(Internal) && db.meals == old(db.meals) && db.restaurants == old(db.restaurants)
    ensures o.isValidObjectId(id) && id in old(db.meals.rows) ==>
              var rid := old(db.meals.rows[id]).restaurant;
              && db.meals == old(db.meals).Remove(id)
              && (rid !in old(db.restaurants.rows) ==> r == Err(Internal) && db.restaurants == old(db.restaurants))
              && (rid in old(db.restaurants.rows) ==>
                    var rest := old(db.restaurants.rows[rid]);
                    && r == Ok(true)
                    && db.restaurants == old(db.restaurants).Put(rid,
                         rest.(menu := Splice1(rest.menu, IndexOf(rest.menu, id)))))
  {
    if !o.isValidObjectId(id) || id !in db.meals.rows {
      return Err(Internal);
    }
    var res := db.meals.rows[id];
    db.meals := db.meals.Remove(id);

    if res.restaurant !in db.restaurants.rows {
      return Err(Internal);
    }
    var restaurant := db.restaurants.rows[res.restaurant];
    var position := IndexOf(restaurant.menu, id);
    MenuSplice(restaurant.menu, db.meals.next, position);
    restaurant := restaurant.(menu := Splice1(restaurant.menu, position));
    db.restaurants := db.restaurants.Put(res.restaurant, restaurant);
    return Ok(true);
  }
}
