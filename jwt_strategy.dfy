/** `JwtStrategy.validate`: resolves a verified token's payload to the request user. */
module JwtStrategy {
  import opened Wrappers
  import opened Schemas
  import opened External
  import opened Store
  import AuthService

  /** `validate(payload)`: `findById(payload.id)`, Unauthorized when no user has that id.
      The payload id is a string, so `findById` casts it first. */
  function Validate(o: Oracles, users: Table<User>, payload: Token): (r: Result<User>)
    ensures !o.isValidObjectId(payload.id) ==> r == Err(Internal)
    ensures o.isValidObjectId(payload.id) ==> (r.Ok? <==> payload.id in users.rows)
    ensures r.Ok? ==> r.value == Projected(users.rows[payload.id])
    ensures o.isValidObjectId(payload.id) && r.Err? ==> r.error == Unauthorized
  {
    if !o.isValidObjectId(payload.id) then Err(Internal)
    else if payload.id !in users.rows then Err(Unauthorized)
    else Ok(Projected(users.rows[payload.id]))
  }

  /** The token a login issues resolves back to the same user, without its hash. */
  lemma LoginTokenValidates(o: Oracles, users: Table<User>, dto: AuthService.LoginDto)
    requires users.Valid()
    requires AuthService.Login(o, users, dto).Ok?
    requires o.isValidObjectId(AuthService.Login(o, users, dto).value.1.id)
    ensures var (user, token) := AuthService.Login(o, users, dto).value;
      Validate(o, users, token) == Ok(Projected(user))
  {
  }
}
