# restaurant-api: a Dafny model of the store rules

This project models the core of a NestJS/Mongoose food-delivery backend. The backend has
three document collections: users, restaurants and meals. On top of them sit the rules its
services and controllers enforce:

- id validation before lookups;
- ownership gates in front of writes;
- the two-step bookkeeping that keeps a restaurant's `menu` list in step with the meal
  collection;
- the image purge that must succeed before a restaurant is deleted;
- sign-up behind a unique email index, and login against a bcrypt hash;
- bearer-token validation and the role guard;
- the keyword/page arithmetic of the listings.

Each collection is a `Store.Table`: a map from ids to documents, plus the id the next insert
receives. Listing ids in ascending order therefore lists documents in insertion (natural)
order. `Store.Database` is a class holding the three tables. Its `Valid()` invariant says:

- every id is below its table's counter;
- no two users share an email (the unique index);
- every restaurant's menu lists only meal ids already handed out, each at most once.

Every state-changing operation is a method with `modifies db`. Its postcondition states the
new contents of all three tables, case by case. Lookups, listings, login, token validation
and the guards are functions over table values.

Each HTTP request is one sequential step. Exceptions become `Wrappers.Result` values.
`Internal` stands for anything Nest answers with a 500:

- a TypeError from reading a property of `undefined` or `null`;
- a Mongoose cast error on a malformed id;
- an uncaught rejected call.

Calls outside the core are inputs of the model. `External.Oracles` carries them as
uninterpreted functions:

- `isValidObjectId`;
- `bcrypt.hash` and `bcrypt.compare`;
- the case-insensitive `$regex` name match;
- the geocoder, which answers `None` when its error is swallowed.

The answer of the bucket's bulk delete is a `PurgeOutcome` parameter. A non-duplicate store
failure during sign-up is a `storeFault` parameter. A token is modelled by its payload
(`Token(id)`).

Behaviour of the code that the model reproduces:

- `MealService.Create` inserts the meal before it loads the restaurant. A NotFound or
  Forbidden answer therefore leaves the new meal stored, and no menu lists it.
- The restaurant controller passes the caller to a `create` that takes only the body. No
  restaurant created through the API has an owner. Update, delete and meal creation on such
  a restaurant throw for every caller (`CreatedRestaurantIsUnownable`). The code also
  calls `restaurantsService.getByUser`, which the service does not define.
- `detail` does not populate the owner or the menu.
- `login` and `signUp` answer with the user document including its password hash. `login`
  loads it with `+password`, and `create` returns what was written. Only ordinary queries
  drop the hash (`Schemas.Projected`).
- Meal deletion splices at the position `indexOf` returns. When the meal is not in its
  restaurant's menu, that position is -1 and `splice(-1, 1)` removes the menu's last entry
  (`JsArray.RemoveMissing`). This happens to an orphan left by a Forbidden create, which
  its creator may still delete (`MealController.OrphanDelete`, and "## Findings" below).
- The real `deleteImages` rejects on a storage error rather than resolving `false`. The
  controller then answers 500. A resolved `false` (as in the controller's tests) gives
  `{ deleted: false }`.
- `signUp` swallows every store error except a duplicate key, and resolves to `undefined`.

## Model

| member | source | states |
|---|---|---|
| `JsArray.IndexOf` | src/meal/meal.service.ts:90 | -1 exactly when the id is not in the menu; otherwise the first position that holds it |
| `JsArray.Splice1` | src/meal/meal.service.ts:91 | `splice(start, 1)` removes exactly the element at the normalised start (negative counts from the end); a start past the end removes nothing |
| `JsArray.SpliceKeeps` | src/meal/meal.service.ts:91 | a splice only removes: every entry left was there before, and a menu without repeats stays without repeats |
| `JsArray.RemoveDistinct` | src/meal/meal.service.ts:90-91 | in a menu without repeats, the id found by `indexOf` is gone after the splice |
| `JsArray.RemoveFound` | src/meal/meal.service.ts:90-91 | at the found position p the new menu is `menu[..p] + menu[p+1..]`: one shorter, with one occurrence of the id removed from its multiset |
| `JsArray.RemoveOnlyOccurrence` | src/meal/meal.service.ts:90-91 | an id listed once in the menu is absent afterwards |
| `JsArray.RemoveMissing` | src/meal/meal.service.ts:90-91 | when the id is missing, the last entry is removed (nothing if the menu is empty) |
| `JsArray.PushThenRemove` | src/meal/meal.service.ts:70-91 | pushing a new id and then splicing it out restores the menu |
| `MealService.List` | src/meal/meal.service.ts:25-27 | exactly the stored meals, in natural order |
| `MealService.FindById` | src/meal/meal.service.ts:29-42 | BadRequest for a malformed id whatever the store holds; NotFound for an absent one; otherwise exactly the stored meal |
| `MealService.FindByRestaurant` | src/meal/meal.service.ts:44-51 | BadRequest for a malformed id; otherwise exactly the meals whose `restaurant` is the id, in natural order |
| `MealService.Patched` | src/meal/meal.service.ts:77-82 | each of name, description, price, category and restaurant takes the update's value when given and keeps the stored one otherwise; the creator never changes |
| `MealService.PatchedIdempotent` | src/meal/meal.service.ts:77-82 | applying an update twice equals applying it once |
| `MealService.NewMeal` | src/meal/meal.service.ts:53-54 | the created meal carries the body's fields and the caller's id as `user` |
| `MealService.Create` | src/meal/meal.service.ts:53-74 | a malformed restaurant id stores nothing; otherwise the meal is stored first; an absent restaurant gives NotFound, another owner Forbidden, no owner a TypeError, all with menus unchanged; on success the id is appended to that menu only |
| `MealService.Update` | src/meal/meal.service.ts:77-82 | a cast failure changes nothing; an absent id resolves to null; otherwise only that meal is replaced by the patched one, which is returned |
| `MealService.Delete` | src/meal/meal.service.ts:84-96 | an absent meal throws before anything changes; otherwise only that meal leaves the store, the parent's menu is spliced at `indexOf`, and the answer is `deleted: true` (a missing parent throws after the removal) |
| `MealController.CreateMeal` | src/meal/meal.controller.ts:61-69 | no check of its own: the same outcome and the same three tables as the service `create`, with the caller as the meal's `user` |
| `MealController.Update` | src/meal/meal.controller.ts:71-85 | `findById` errors first; Forbidden with the store unchanged unless the caller created the meal; otherwise the service update's result |
| `MealController.Delete` | src/meal/meal.controller.ts:87-100 | `findById` errors first; Forbidden with nothing changed unless the caller created the meal; otherwise the service delete and its menu splice |
| `Ownership.Check` | src/restaurants/restaurants.controller.ts:108-110 | passes exactly when the stored owner is the caller; Forbidden for another owner; a TypeError when there is no owner |
| `Pagination.Window` | src/restaurants/restaurants.service.ts:36-37 | a negative skip errors; otherwise element i is the matching document at `skip + i`, and there are `min(remaining, abs(limit))` of them, or all remaining when `limit` is 0 |
| `Pagination.ResPerPage` | src/restaurants/restaurants.service.ts:21 | `Number(resPerPage)`, falling back to 10: the given size unless it is absent, NaN or 0, then 10; never 0 |
| `Pagination.CurrentPage` | src/restaurants/restaurants.service.ts:22 | `Number(page)`, falling back to 1: the given page unless it is absent, NaN or 0, then 1; never 0 |
| `Pagination.Skip` | src/restaurants/restaurants.service.ts:23 | the first page skips nothing; a positive page and size never skip a negative number |
| `Pagination.KeywordPasses` | src/restaurants/restaurants.service.ts:25-32 | an absent or empty keyword passes every name; otherwise exactly the names the case-insensitive pattern matches |
| `Pagination.Matching` | src/restaurants/restaurants.service.ts:25-35 | exactly the listed documents whose name passes the keyword, in their order |
| `Pagination.Find` | src/restaurants/restaurants.service.ts:20-37 | errors exactly when `skip` is negative; otherwise the matching documents from position `skip` on, `min(remaining, abs(resPerPage))` of them, in natural order |
| `Pagination.NoKeywordKeepsAll` | src/restaurants/restaurants.service.ts:25-32 | an absent or empty keyword keeps every document |
| `Pagination.DefaultFirstPage` | src/restaurants/restaurants.service.ts:20-37 | with no parameters the listing is the first ten documents |
| `Pagination.WindowSlice` | src/restaurants/restaurants.service.ts:36-37 | a non-negative skip and a positive limit give a slice of the listing |
| `Pagination.PageSlice` | src/restaurants/restaurants.service.ts:20-37 | page p of size n is the slice `[n*(p-1), n*(p-1)+n)` of the matching documents, cut at their end; its start is never negative |
| `RestaurantsService.FindAll` | src/restaurants/restaurants.service.ts:20-40 | an error exactly when `skip` is negative; otherwise the stored restaurants whose name passes the keyword, from position `skip` on, `min(remaining, abs(resPerPage))` of them, in natural order |
| `RestaurantsService.NewRestaurant` | src/restaurants/restaurants.service.ts:43-52 | the stored document has the body's name, description, email, phone, address and category, the geocoder's location, no images, an empty menu and no owner |
| `RestaurantsService.Create` | src/restaurants/restaurants.service.ts:43-53 | inserts that document under a fresh id and returns it; nothing else changes |
| `RestaurantsService.Detail` | src/restaurants/restaurants.service.ts:56-72 | BadRequest for a malformed id whatever the store holds; NotFound for an absent one; otherwise the stored record |
| `RestaurantsService.Patched` | src/restaurants/restaurants.service.ts:75-80 | each of name, description, email, phone, address and category takes the update's value when given and keeps the stored one otherwise; owner, menu, images and location stay |
| `RestaurantsService.Update` | src/restaurants/restaurants.service.ts:75-80 | a malformed id changes nothing; an absent one resolves to null; otherwise only that record changes and the updated record is returned |
| `RestaurantsService.Delete` | src/restaurants/restaurants.service.ts:83-85 | removes only that id and resolves to the removed record or null; meals stay |
| `RestaurantsService.DeleteImages` | src/restaurants/restaurants.service.ts:105-110 | an empty list counts as purged; otherwise the bulk delete's answer, and a rejection propagates |
| `RestaurantsController.Guards` | src/restaurants/restaurants.controller.ts:39-116 | listing and detail carry no guard; create and update need a token and the admin role; delete needs only a token |
| `RestaurantsController.Admits` | src/restaurants/restaurants.controller.ts:52-116 | public routes admit every request |
| `RestaurantsController.RoleRequirements` | src/restaurants/restaurants.controller.ts:52-116 | create and update admit exactly admins; delete admits any logged-in user; listing and detail are public |
| `RestaurantsController.Create` | src/restaurants/restaurants.controller.ts:61-66 | answers exactly what the service `create` stores and returns, under the fresh id; the caller is dropped, so the stored restaurant has no owner |
| `RestaurantsController.Update` | src/restaurants/restaurants.controller.ts:101-113 | `detail` errors first; the owner gate's error with the store unchanged; otherwise the service update's result |
| `RestaurantsController.Delete` | src/restaurants/restaurants.controller.ts:115-143 | `detail` errors first, then the owner gate, both with the store unchanged; the record is removed and `deleted: true` returned only when the purge succeeds; a purge answering false keeps it and returns `deleted: false` |
| `RestaurantsController.CreatedRestaurantIsUnownable` | src/restaurants/restaurants.controller.ts:65 | the owner gate throws for every caller on a restaurant created through the API |
| `RolesGuard.MatchRoles` | src/auth/guards/roles.guard.ts:26-29 | true exactly when some entry of the list is the user's role |
| `RolesGuard.CanActivate` | src/auth/guards/roles.guard.ts:9-23 | without role metadata every user passes; with it, exactly the users whose role is listed |
| `RolesGuard.EmptyListDenies` | src/auth/guards/roles.guard.ts:17-22 | a present but empty list denies every user |
| `RolesGuard.MoreRolesNeverDeny` | src/auth/guards/roles.guard.ts:26-29 | widening the list never turns an allow into a deny |
| `AuthService.WithoutPasswords` | src/auth/schemas/user.schema.ts:20-22 | a listing as a query returns it: the same ids in the same order, each user without its password |
| `AuthService.FindAll` | src/auth/auth.service.ts:28-48 | an error exactly when `skip` is negative; otherwise the users (without passwords) whose name passes the keyword, from position `skip` on, `min(remaining, abs(resPerPage))` of them, in natural order |
| `AuthService.Detail` | src/auth/auth.service.ts:51-59 | BadRequest for a malformed id; otherwise the stored user without its password, or null when absent |
| `AuthService.FindByEmail` | src/auth/auth.service.ts:88 | finds a user with that email exactly when one exists |
| `AuthService.RoleOrDefault` | src/auth/schemas/user.schema.ts:24-27 | the given role, or `user` when none is given |
| `AuthService.NewUser` | src/auth/auth.service.ts:62-73 | the stored password is the hash of the given one; name and email as given; role defaults to `user` |
| `AuthService.SignUp` | src/auth/auth.service.ts:62-82 | a taken email gives Conflict and adds nobody; another store failure resolves to undefined and adds nobody; otherwise exactly the new user is inserted and returned |
| `AuthService.Login` | src/auth/auth.service.ts:85-103 | an unknown email gives Unauthorized; success returns the stored user with that email, whose hash the password matches, with a token naming that user's id |
| `AuthService.LoginSucceedsIff` | src/auth/auth.service.ts:88-102 | with unique emails, a stored user's login succeeds exactly when the password matches, with that user and its id as the token claim; otherwise Unauthorized |
| `AuthService.SignUpThenLogin` | src/auth/auth.service.ts:62-102 | right after sign-up, login with the same credentials returns the new user and a token for its id |
| `JwtStrategy.Validate` | src/auth/jwt.strategy.ts:25-35 | looks up exactly the payload's id: Unauthorized when absent, otherwise that user unchanged except for the hidden password |
| `JwtStrategy.LoginTokenValidates` | src/auth/jwt.strategy.ts:25-35 | the token a login issues resolves back to the user who logged in |
| `Schemas.Projected` | src/auth/schemas/user.schema.ts:20-22 | a query result keeps name, email and role and drops the password |
| `Schemas.UniqueEmails` | src/auth/schemas/user.schema.ts:16 | the unique index: no two stored users share an email |
| `Store.Table.Docs` | src/restaurants/restaurants.service.ts:34-35 | `find`: every stored document exactly once, in ascending id (insertion) order |
| `Store.Table.Insert` | src/restaurants/restaurants.service.ts:50 | `create`: the document is stored under the next fresh id; every other document stays |
| `Store.Table.Put` | src/restaurants/restaurants.service.ts:76-79 | `findByIdAndUpdate` / `save` on a stored id: that document is replaced, the others and the id counter stay |
| `Store.Table.Remove` | src/restaurants/restaurants.service.ts:84 | `findByIdAndDelete`: that id is gone, the others and the id counter stay |
| `MealController.CreateThenDelete` | src/meal/meal.service.ts:53-96 | creating a meal on one's own restaurant and then deleting it restores that restaurant's menu and the meal collection |
| `MealController.OrphanDelete` | src/meal/meal.controller.ts:61-100 | a meal created on another owner's restaurant is answered Forbidden yet stored; its creator's delete then removes the last entry of that owner's menu |
| `JsArray.RemoveEntry` | src/meal/meal.service.ts:90-91 | the intended removal: splice only when `indexOf` finds the id; an absent id leaves the menu unchanged |
| `JsArray.RemoveEntryKeepsOthers` | src/meal/meal.service.ts:90-91 | on a menu without repeats, the intended removal drops exactly that id and keeps every other entry |

## Left out

- MealService.Delete: Mongoose's `indexOf` is given the deleted meal document (`src/meal/meal.service.ts:90`), and the model matches it against the menu's ids by the meal's id. If a document never equals a stored ObjectId, every deletion takes the -1 path of `JsArray.RemoveMissing`; the model does not cover that reading.
- JwtStrategy.LoginTokenValidates: it requires the user's stored id to pass the ObjectId format check. Ids are naturals here, and the format check is an input classifying request strings, so the invariant cannot state that stored ids are well formed.

- Network, library and framework calls are inputs of the model and are not modelled
  themselves: S3 upload and delete, the geocoder, JWT signing and expiry, bcrypt (including
  its salt and constant-time comparison), Mongoose's id format check, and `$regex` (an
  invalid pattern is not modelled).
- Location coordinates (floating point) and the `2dsphere` index; a meal's `price` is an
  unbounded real.
- Query numbers are given already converted by `Number(...)`. A fractional `page` or
  `resPerPage` is not modelled.
- Mongo's natural order is modelled as insertion order.
- The model does not cover Mongo's `limit(n < 0)` batch mechanics; a negative limit is taken
  as its absolute value.
- Error messages, `populate`, timestamps and `__v`.
- DTO validation (`class-validator` decorators). The DTO datatypes hold only the declared
  fields, and their `user` field, which must be empty, is gone. An undeclared body field
  (for example `menu` or `images` on `PUT /restaurants/:id`) reaches the store unless the
  validation pipe whitelists; it is not modelled.
- Nest wiring (decorators, dependency injection, Swagger, the meal module) is not modelled.
  So are the commented-out upload route and `uploadImages`, which no route reaches.
- `getRestaurantsByUser`: the service method it calls is not defined in the source.
- The meal routes' `AuthGuard()`: every meal handler is a method taking the authenticated
  caller's id.
- Concurrency: two requests racing on one menu (a lost update) are not modelled, nor is a
  crash between the two writes of meal create or delete.
- A lookup by a stored reference (a meal's `restaurant`) is not cast, so it never fails
  casting.

## Findings

| source | as written | input that shows it | evidently intended | confidence | as-written member | corrected member |
|---|---|---|---|---|---|---|
| src/meal/meal.service.ts:90-91 | `splice(indexOf(res), 1)` runs even when `indexOf` answers -1, and `splice(-1, 1)` removes the last element | a meal created on a restaurant owned by someone else (stored, answered Forbidden, listed in no menu), then deleted by its creator | remove the meal from the menu only when the menu lists it | not executed | `MealController.OrphanDelete` | `JsArray.RemoveEntryKeepsOthers` |

The services keep the code as written; `JsArray.RemoveEntry` states the intended removal beside it.

