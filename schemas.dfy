/** The documents of the three collections: users, restaurants and meals. */
module Schemas {
  import opened Wrappers

  /** A document id (a Mongo ObjectId). */
  type Id = nat

  datatype Role = AdminRole | UserRole

  /** A user document. The store always writes a hash into `password`; the field is
      `select: false`, so ordinary queries return the document without it (`None`). */
  datatype User = User(name: string, email: string, password: Option<string>, role: Role)

  datatype RestaurantCategory = FastFood | Cafe | FineDinning

  datatype MealCategory = Soups | Salads | Sandwiches | Pasta

  /** The geocoded location embedded in a restaurant (coordinates are not modelled). */
  datatype Location = Location(formattedAddress: string, city: string, state: string,
                               zipcode: string, country: string)

  /** An object stored in the image bucket, identified by its key. */
  datatype Image = Image(key: string)

  /** A restaurant document. `menu` holds meal ids in order; `user` is the owner, which
      may be absent. */
  datatype Restaurant = Restaurant(
    name: string, description: string, email: string, phoneNo: string, address: string,
    category: RestaurantCategory, images: seq<Image>, location: Option<Location>,
    menu: seq<Id>, user: Option<Id>)

  /** A meal document: `restaurant` is the restaurant it was created for, `user` its creator. */
  datatype Meal = Meal(
    name: string, description: string, price: real, category: MealCategory,
    restaurant: Id, user: Id)

  /** What a query without `+password` returns for a stored user. */
  function Projected(u: User): (v: User)
    ensures v.password.None?
    ensures v.name == u.name && v.email == u.email && v.role == u.role
  {
    u.(password := None)
  }

  /** The unique index on `email`: no two users share an address. */
  ghost predicate UniqueEmails(users: map<Id, User>) {
    forall a, b :: a in users && b in users && users[a].email == users[b].email ==> a == b
  }
}
