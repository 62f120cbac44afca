/** `RestaurantsService`: listing, lookup and the single-document writes on the
    restaurant collection, and the short-circuit in front of the image purge. */
module RestaurantsService {
  import opened Wrappers
  import opened Schemas
  import opened External
  import opened Store
  import opened Pagination
  import opened JsArray

  /** The body of `POST /restaurants` after validation; its `user` must be empty. */
  datatype CreateRestaurantDto = CreateRestaurantDto(
    name: string, description: string, email: string, phoneNo: string, address: string,
    category: RestaurantCategory)

  /** The body of `PUT /restaurants/:id`: every field optional, `user` must be empty. */
  datatype UpdateRestaurantDto = UpdateRestaurantDto(
    name: Option<string>, description: Option<string>, email: Option<string>,
    phoneNo: Option<string>, address: Option<string>, category: Option<RestaurantCategory>)

  /** `findAll`: keyword filter on `name`, then the page. */
  function FindAll(o: Oracles, restaurants: Table<Restaurant>, q: Query): (r: Result<seq<(Id, Restaurant)>>)
    ensures r.Err? <==> Skip(q) < 0
    ensures r.Ok? ==> |r.value| <= Abs(ResPerPage(q))
    ensures r.Ok? ==> forall e :: e in r.value ==>
              e.0 in restaurants.rows && restaurants.rows[e.0] == e.1 && KeywordPasses(o, q.keyword, e.1.name)
    ensures r.Ok? ==> Ascending(r.value)
    ensures r.Ok? ==> var m := Matching(o, restaurants.Docs(), (x: Restaurant) => x.name, q.keyword);
      && (forall i :: 0 <= i < |r.value| ==> Skip(q) + i < |m| && r.value[i] == m[Skip(q) + i])
      && |r.value| == (if Skip(q) >= |m| then 0 else Min(|m| - Skip(q), Abs(ResPerPage(q))))
  {
    Find(o, restaurants.Docs(), (x: Restaurant) => x.name, q)
  }

  /** The document `create` stores: the body, no images, an empty menu, the geocoded
      location (absent when the lookup failed) and no owner. */
  function NewRestaurant(o: Oracles, dto: CreateRestaurantDto): (r: Restaurant)
    ensures r.user.None? && r.menu == [] && r.images == []
    ensures r.location == o.geocode(dto.address)
    ensures r.name == dto.name && r.address == dto.address && r.category == dto.category
    ensures r.description == dto.description && r.email == dto.email && r.phoneNo == dto.phoneNo
  {
    Restaurant(dto.name, dto.description, dto.email, dto.phoneNo, dto.address, dto.category,
               [], o.geocode(dto.address), [], None)
  }

  /** `create(restaurantData)`: inserts the body plus its location. */
  method Create(o: Oracles, db: Database, dto: CreateRestaurantDto) returns (r: Result<(Id, Restaurant)>)
    requires db.Valid()
    modifies db
    ensures db.Valid()
    ensures db.users == old(db.users) && db.meals == old(db.meals)
    ensures db.restaurants == old(db.restaurants).Insert(NewRestaurant(o, dto))
    ensures r == Ok((old(db.restaurants.next), NewRestaurant(o, dto)))
  {
    var restaurant := NewRestaurant(o, dto);
    var id := db.restaurants.next;
    db.restaurants := db.restaurants.Insert(restaurant);
    return Ok((id, restaurant));
  }

  /** `detail`: the id format is checked before the store is read. */
  function Detail(o: Oracles, restaurants: Table<Restaurant>, id: Id): (r: Result<Restaurant>)
    ensures !o.isValidObjectId(id) ==> r == Err(BadRequest)
    ensures r.Ok? <==> o.isValidObjectId(id) && id in restaurants.rows
    ensures r.Ok? ==> r.value == restaurants.rows[id]
    ensures r.Err? && o.isValidObjectId(id) ==> r.error == NotFound
  {
    if !o.isValidObjectId(id) then Err(BadRequest)
    else if id !in restaurants.rows then Err(NotFound)
    else Ok(restaurants.rows[id])
  }

  /** The document `findByIdAndUpdate` writes: present fields replace stored ones; the
      location is not recomputed. */
  function Patched(x: Restaurant, u: UpdateRestaurantDto): (r: Restaurant)
    ensures r.user == x.user && r.menu == x.menu && r.images == x.images && r.location == x.location
    ensures u.name.None? ==> r.name == x.name
    ensures u.name.Some? ==> r.name == u.name.value
    ensures u.description.None? ==> r.description == x.description
    ensures u.description.Some? ==> r.description == u.description.value
    ensures u.email.None? ==> r.email == x.email
    ensures u.email.Some? ==> r.email == u.email.value
    ensures u.phoneNo.None? ==> r.phoneNo == x.phoneNo
    ensures u.phoneNo.Some? ==> r.phoneNo == u.phoneNo.value
    ensures u.address.None? ==> r.address == x.address
    ensures u.address.Some? ==> r.address == u.address.value
    ensures u.category.None? ==> r.category == x.category
    ensures u.category.Some? ==> r.category == u.category.value
  {
    x.(name := if u.name.Some? then u.name.value else x.name,
       description := if u.description.Some? then u.description.value else x.description,
       email := if u.email.Some? then u.email.value else x.email,
       phoneNo := if u.phoneNo.Some? then u.phoneNo.value else x.phoneNo,
       address := if u.address.Some? then u.address.value else x.address,
       category := if u.category.Some? then u.category.value else x.category)
  }

  /** `update`: `findByIdAndUpdate(id, restaurant, { new: true })`; `null` for an
      absent id, a cast error for a malformed one. */
  method Update(o: Oracles, db: Database, id: Id, u: UpdateRestaurantDto) returns (r: Result<Option<Restaurant>>)
    requires db.Valid()
    modifies db
    ensures db.Valid()
    ensures db.users == old(db.users) && db.meals == old(db.meals)
    ensures !o.isValidObjectId(id) ==> r == Err(Internal) && db.restaurants == old(db.restaurants)
    ensures o.isValidObjectId(id) && id !in old(db.restaurants.rows) ==>
              r == Ok(None) && db.restaurants == old(db.restaurants)
    ensures o.isValidObjectId(id) && id in old(db.restaurants.rows) ==>
              var x := Patched(old(db.restaurants.rows[id]), u);
              r == Ok(Some(x)) && db.restaurants == old(db.restaurants).Put(id, x)
  {
    if !o.isValidObjectId(id) {
      return Err(Internal);
    }
    if id !in db.restaurants.rows {
      return Ok(None);
    }
    var x := Patched(db.restaurants.rows[id], u);
    db.restaurants := db.restaurants.Put(id, x);
    return Ok(Some(x));
  }

  /** `delete`: `findByIdAndDelete(id)`, resolving to the removed document or `null`.
      The restaurant's meals stay in the meal collection. */
  method Delete(o: Oracles, db: Database, id: Id) returns (r: Result<Option<Restaurant>>)
    requires db.Valid()
    modifies db
    ensures db.Valid()
    ensures db.users == old(db.users) && db.meals == old(db.meals)
    ensures !o.isValidObjectId(id) ==> r == Err(Internal) && db.restaurants == old(db.restaurants)
    ensures o.isValidObjectId(id) ==> db.restaurants == old(db.restaurants).Remove(id)
    ensures o.isValidObjectId(id) ==>
              r == if id in old(db.restaurants.rows) then Ok(Some(old(db.restaurants.rows[id]))) else Ok(None)
  {
    if !o.isValidObjectId(id) {
      return Err(Internal);
    }
    r := if id in db.restaurants.rows then Ok(Some(db.restaurants.rows[id])) else Ok(None);
    db.restaurants := db.restaurants.Remove(id);
  }

  /** `deleteImages`: an empty list is reported as purged without calling the bucket;
      otherwise the answer is the bulk delete's, and a rejected call propagates. */
  function DeleteImages(images: seq<Image>, purge: PurgeOutcome): (r: Result<bool>)
    ensures images == [] ==> r == Ok(true)
    ensures images != [] ==> (r.Ok? <==> purge.Resolved?)
    ensures images != [] && purge.Resolved? ==> r.value == purge.ok
    ensures r.Err? ==> r.error == Internal
  {
    if |images| == 0 then Ok(true)
    else match purge
      case Resolved(ok) => Ok(ok)
      case Rejected => Err(Internal)
  }
}
