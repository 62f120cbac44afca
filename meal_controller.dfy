/** `MealController`: every route needs an authenticated caller; update and delete load
    the meal first and compare its creator with the caller. */
module MealController {
  import opened Wrappers
  import opened Schemas
  import opened External
  import opened Store
  import opened JsArray
  import MealService
  import Ownership

  /** `POST /meals`: no check of its own, the caller is passed through. */
  method CreateMeal(o: Oracles, db: Database, caller: Id, dto: MealService.CreateMealDto)
    returns (r: Result<(Id, Meal)>)
    requires db.Valid()
    modifies db
    ensures db.Valid()
    ensures db.users == old(db.users)
    ensures !o.isValidObjectId(dto.restaurant) ==>
              r == Err(Internal) && db.meals == old(db.meals) && db.restaurants == old(db.restaurants)
    ensures o.isValidObjectId(dto.restaurant) ==> db.meals == old(db.meals).Insert(MealService.NewMeal(dto, caller))
    ensures o.isValidObjectId(dto.restaurant) && dto.restaurant !in old(db.restaurants.rows) ==>
              r == Err(NotFound) && db.restaurants == old(db.restaurants)
    ensures o.isValidObjectId(dto.restaurant) && dto.restaurant in old(db.restaurants.rows) ==>
              var rest := old(db.restaurants.rows[dto.restaurant]);
              var gate := Ownership.Check(rest.user, caller);
              && (gate.Fail? ==> r == Err(gate.error) && db.restaurants == old(db.restaurants))
              && (gate.Pass? ==>
                    && r == Ok((old(db.meals.next), MealService.NewMeal(dto, caller)))
                    && db.restaurants == old(db.restaurants).Put(dto.restaurant,
                         rest.(menu := rest.menu + [old(db.meals.next)])))
    ensures r.Ok? ==> r.value.1.user == caller && r.value.0 in db.meals.rows && r.value.1 == db.meals.rows[r.value.0]
  {
    r := MealService.Create(o, db, dto, caller);
  }

  /** `PUT /meals/:id`: `findById` errors first, then Forbidden unless the caller created
      the meal, then the service update. */
  method Update(o: Oracles, db: Database, u: MealService.UpdateMealDto, id: Id, caller: Id)
    returns (r: Result<Option<Meal>>)
    requires db.Valid()
    modifies db
    ensures db.Valid()
    ensures db.users == old(db.users) && db.restaurants == old(db.restaurants)
    ensures var found := MealService.FindById(o, old(db.meals), id);
      && (found.Err? ==> r == Err(found.error) && db.meals == old(db.meals))
      && (found.Ok? && found.value.user != caller ==> r == Err(Forbidden) && db.meals == old(db.meals))
      && (found.Ok? && found.value.user == caller ==>
            if u.restaurant.Some? && !o.isValidObjectId(u.restaurant.value) then
              r == Err(Internal) && db.meals == old(db.meals)
            else
              var m := MealService.Patched(found.value, u);
              r == Ok(Some(m)) && db.meals == old(db.meals).Put(id, m))
  {
    var found := MealService.FindById(o, db.meals, id);
    if found.Err? {
      return Err(found.error);
    }
    if found.value.user != caller {
      return Err(Forbidden);
    }
    r := MealService.Update(o, db, id, u);
  }

  /** `DELETE /meals/:id`: `findById` errors first, then Forbidden unless the caller
      created the meal, then the service delete. */
  method Delete(o: Oracles, db: Database, id: Id, caller: Id) returns (r: Result<bool>)
    requires db.Valid()
    modifies db
    ensures db.Valid()
    ensures db.users == old(db.users)
    ensures var found := MealService.FindById(o, old(db.meals), id);
      && (found.Err? ==> r == Err(found.error) && unchanged(db))
      && (found.Ok? && found.value.user != caller ==> r == Err(Forbidden) && unchanged(db))
      && (found.Ok? && found.value.user == caller ==>
            var rid := found.value.restaurant;
            && db.meals == old(db.meals).Remove(id)
            && (rid !in old(db.restaurants.rows) ==> r == Err(Internal) && db.restaurants == old(db.restaurants))
            && (rid in old(db.restaurants.rows) ==>
                  var rest := old(db.restaurants.rows[rid]);
                  r == Ok(true) &&
                  db.restaurants == old(db.restaurants).Put(rid,
                    rest.(menu := Splice1(rest.menu, IndexOf(rest.menu, id))))))
  {
    var found := MealService.FindById(o, db.meals, id);
    if found.Err? {
      return Err(found.error);
    }
    if found.value.user != caller {
      return Err(Forbidden);
    }
    r := MealService.Delete(o, db, id);
  }

  /** Creating a meal on one's own restaurant and then deleting it restores that
      restaurant's menu and the meal collection: the push and the splice are a round
      trip on the store. */
  method CreateThenDelete(o: Oracles, db: Database, caller: Id, dto: MealService.CreateMealDto)
    returns (created: Result<(Id, Meal)>, deleted: Result<bool>)
    requires db.Valid()
    requires o.isValidObjectId(dto.restaurant) && o.isValidObjectId(db.meals.next)
    requires dto.restaurant in db.restaurants.rows && db.restaurants.rows[dto.restaurant].user == Some(caller)
    modifies db
    ensures db.Valid()
    ensures created.Ok? && created.value.0 == old(db.meals.next) && deleted == Ok(true)
    ensures db.users == old(db.users) && db.restaurants == old(db.restaurants)
    ensures db.meals.rows == old(db.meals.rows) && db.meals.next == old(db.meals.next) + 1
  {
    var rid := dto.restaurant;
    var rest := db.restaurants.rows[rid];
    var id := db.meals.next;
    var meal := MealService.NewMeal(dto, caller);
    ghost var restaurants0, meals0 := db.restaurants, db.meals;
    MenuPush(rest.menu, id);
    created := CreateMeal(o, db, caller, dto);
    assert db.meals.rows == meals0.rows[id := meal];
    assert db.restaurants.rows == restaurants0.rows[rid := rest.(menu := rest.menu + [id])];
    PushThenRemove(rest.menu, id);
    deleted := Delete(o, db, id, caller);
    assert db.restaurants.rows == restaurants0.rows[rid := rest.(menu := rest.menu + [id])][rid := rest];
    assert db.restaurants.rows == restaurants0.rows by {
      PutTwice(restaurants0.rows, rid, rest.(menu := rest.menu + [id]), rest);
    }
    assert db.meals.rows == meals0.rows by { InsertThenRemove(meals0.rows, id, meal); }
  }

  /** A meal created on a restaurant the caller does not own is stored although the
      answer is Forbidden, and no menu lists it. Its creator may still delete it; the
      `indexOf` then answers -1, and `splice(-1, 1)` removes the last entry of the other
      owner's menu. */
  method OrphanDelete(o: Oracles, db: Database, caller: Id, dto: MealService.CreateMealDto)
    returns (created: Result<(Id, Meal)>, deleted: Result<bool>)
    requires db.Valid()
    requires o.isValidObjectId(dto.restaurant) && o.isValidObjectId(db.meals.next)
    requires dto.restaurant in db.restaurants.rows
    requires db.restaurants.rows[dto.restaurant].user.Some?
    requires db.restaurants.rows[dto.restaurant].user != Some(caller)
    modifies db
    ensures db.Valid()
    ensures created == Err(Forbidden) && deleted == Ok(true)
    ensures var rest := old(db.restaurants.rows[dto.restaurant]);
      db.restaurants == old(db.restaurants).Put(dto.restaurant,
        rest.(menu := if rest.menu == [] then [] else rest.menu[..|rest.menu| - 1]))
    ensures db.users == old(db.users) && db.meals.rows == old(db.meals.rows)
    ensures db.meals.next == old(db.meals.next) + 1
  {
    var rest := db.restaurants.rows[dto.restaurant];
    var id := db.meals.next;
    MenuPush(rest.menu, id);
    created := CreateMeal(o, db, caller, dto);
    RemoveMissing(rest.menu, id);
    deleted := Delete(o, db, id, caller);
    assert db.meals.rows == old(db.meals.rows);
  }
}
