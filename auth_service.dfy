/** `AuthService`: user listing and lookup, sign-up behind the unique email index, and
    login against the stored bcrypt hash. */
module AuthService {
  import opened Wrappers
  import opened Schemas
  import opened External
  import opened Store
  import opened Pagination
  import opened JsArray

  /** The body of `POST /auth/signup` after validation; `role` is optional. */
  datatype SignUpDto = SignUpDto(name: string, email: string, password: string, role: Option<Role>)

  datatype LoginDto = LoginDto(email: string, password: string)

  /** The documents of a user listing as a query returns them, without passwords. */
  function WithoutPasswords(docs: seq<(Id, User)>): (r: seq<(Id, User)>)
    ensures |r| == |docs|
    ensures forall i :: 0 <= i < |r| ==> r[i].0 == docs[i].0 && r[i].1 == Projected(docs[i].1)
  {
    seq(|docs|, i requires 0 <= i < |docs| => (docs[i].0, Projected(docs[i].1)))
  }

  /** `findAll`: the same keyword filter and paging as the restaurant listing. */
  function FindAll(o: Oracles, users: Table<User>, q: Query): (r: Result<seq<(Id, User)>>)
    ensures r.Err? <==> Skip(q) < 0
    ensures r.Ok? ==> |r.value| <= Abs(ResPerPage(q))
    ensures r.Ok? ==> forall e :: e in r.value ==>
              && e.0 in users.rows && e.1 == Projected(users.rows[e.0])
              && KeywordPasses(o, q.keyword, e.1.name)
    ensures r.Ok? ==> Ascending(r.value)
    ensures r.Ok? ==> var m := Matching(o, WithoutPasswords(users.Docs()), (u: User) => u.name, q.keyword);
      && (forall i :: 0 <= i < |r.value| ==> Skip(q) + i < |m| && r.value[i] == m[Skip(q) + i])
      && |r.value| == (if Skip(q) >= |m| then 0 else Min(|m| - Skip(q), Abs(ResPerPage(q))))
  {
    var docs := users.Docs();
    var hidden := WithoutPasswords(docs);
    assert Ascending(hidden) by {
      assert forall i :: 0 <= i < |hidden| ==> hidden[i].0 == docs[i].0;
    }
    var r := Find(o, hidden, (u: User) => u.name, q);
    assert r.Ok? ==> forall e :: e in r.value ==> e.0 in users.rows && e.1 == Projected(users.rows[e.0]) by {
      if r.Ok? {
        forall e | e in r.value ensures e.0 in users.rows && e.1 == Projected(users.rows[e.0]) {
          var i :| 0 <= i < |hidden| && hidden[i] == e;
        }
      }
    }
    r
  }

  /** `detail`: BadRequest on a malformed id; an absent user is `null`, not an error. */
  function Detail(o: Oracles, users: Table<User>, id: Id): (r: Result<Option<User>>)
    ensures !o.isValidObjectId(id) ==> r == Err(BadRequest)
    ensures o.isValidObjectId(id) ==> r.Ok? && (r.value.Some? <==> id in users.rows)
    ensures r.Ok? && r.value.Some? ==> r.value.value == Projected(users.rows[id])
  {
    if !o.isValidObjectId(id) then Err(BadRequest)
    else if id in users.rows then Ok(Some(Projected(users.rows[id])))
    else Ok(None)
  }

  ghost predicate EmailTaken(users: Table<User>, email: string) {
    exists id :: id in users.rows && users.rows[id].email == email
  }

  /** `findOne({ email })`: the first user in natural order with that address. */
  function FindByEmail(users: Table<User>, email: string): (r: Option<Id>)
    requires users.Valid()
    ensures r.None? <==> !EmailTaken(users, email)
    ensures r.Some? ==> r.value in users.rows && users.rows[r.value].email == email
  {
    var docs := users.Docs();
    var matches := Where(docs, (u: User) => u.email == email);
    assert EmailTaken(users, email) ==> matches != [] by {
      if EmailTaken(users, email) {
        var id :| id in users.rows && users.rows[id].email == email;
        assert (id, users.rows[id]) in docs;
      }
    }
    if matches == [] then None
    else
      assert matches[0] in matches;
      Some(matches[0].0)
  }

  /** The schema default for `role`. */
  function RoleOrDefault(role: Option<Role>): (r: Role)
    ensures role.None? ==> r == UserRole
    ensures role.Some? ==> r == role.value
  {
    if role.Some? then role.value else UserRole
  }

  /** The document `signUp` creates: the hash of the password, never the password. */
  function NewUser(o: Oracles, dto: SignUpDto): (u: User)
    ensures u.password == Some(o.hash(dto.password))
    ensures u.name == dto.name && u.email == dto.email
    ensures u.role == RoleOrDefault(dto.role)
  {
    User(dto.name, dto.email, Some(o.hash(dto.password)), RoleOrDefault(dto.role))
  }

  /** `signUp`. A duplicate email makes the insert fail with code 11000, which is
      reported as Conflict; `storeFault` stands for any other failure of the insert,
      which is caught and swallowed, so the call resolves to `undefined` (`None`). */
  method SignUp(o: Oracles, db: Database, dto: SignUpDto, storeFault: bool) returns (r: Result<Option<(Id, User)>>)
    requires db.Valid()
    modifies db
    ensures db.Valid()
    ensures db.restaurants == old(db.restaurants) && db.meals == old(db.meals)
    ensures EmailTaken(old(db.users), dto.email) ==> r == Err(Conflict) && db.users == old(db.users)
    ensures !EmailTaken(old(db.users), dto.email) && storeFault ==> r == Ok(None) && db.users == old(db.users)
    ensures !EmailTaken(old(db.users), dto.email) && !storeFault ==>
              && db.users == old(db.users).Insert(NewUser(o, dto))
              && r == Ok(Some((old(db.users.next), NewUser(o, dto))))
  {
    if FindByEmail(db.users, dto.email).Some? {
      return Err(Conflict);
    }
    if storeFault {
      return Ok(None);
    }
    var user := NewUser(o, dto);
    var id := db.users.next;
    InsertFreshEmail(db.users, user);
    db.users := db.users.Insert(user);
    return Ok(Some((id, user)));
  }

  /** `login`. An unknown email and a failed comparison are both Unauthorized; a stored
      document without a hash makes `bcrypt.compare` throw. The user is returned as
      loaded with `+password`, so the hash is part of the answer; the token's only claim
      is the user's id. */
  function Login(o: Oracles, users: Table<User>, dto: LoginDto): (r: Result<(User, Token)>)
    requires users.Valid()
    ensures !EmailTaken(users, dto.email) ==> r == Err(Unauthorized)
    ensures r.Err? ==> r.error == Unauthorized || r.error == Internal
    ensures r.Ok? ==>
              && r.value.1.id in users.rows && users.rows[r.value.1.id] == r.value.0
              && r.value.0.email == dto.email
              && r.value.0.password.Some? && o.compare(dto.password, r.value.0.password.value)
  {
    match FindByEmail(users, dto.email)
    case None => Err(Unauthorized)
    case Some(id) =>
      var user := users.rows[id];
      if user.password.None? then Err(Internal)
      else if !o.compare(dto.password, user.password.value) then Err(Unauthorized)
      else Ok((user, Token(id)))
  }

  /** With unique emails, login for a stored user succeeds exactly when the password
      matches its hash, and the token names that user. */
  lemma LoginSucceedsIff(o: Oracles, users: Table<User>, id: Id, password: string)
    requires users.Valid() && UniqueEmails(users.rows)
    requires id in users.rows && users.rows[id].password.Some?
    ensures var r := Login(o, users, LoginDto(users.rows[id].email, password));
      (r.Ok? <==> o.compare(password, users.rows[id].password.value))
      && (r.Ok? ==> r.value == (users.rows[id], Token(id)))
      && (r.Err? ==> r.error == Unauthorized)
  {
    var email := users.rows[id].email;
    assert EmailTaken(users, email);
    var found := FindByEmail(users, email);
    assert found == Some(id);
  }

  /** A new user can log in straight away with the password it signed up with, given
      that bcrypt accepts a password against its own hash. */
  lemma SignUpThenLogin(o: Oracles, users: Table<User>, dto: SignUpDto)
    requires users.Valid() && UniqueEmails(users.rows) && !EmailTaken(users, dto.email)
    requires o.compare(dto.password, o.hash(dto.password))
    ensures Login(o, users.Insert(NewUser(o, dto)), LoginDto(dto.email, dto.password))
            == Ok((NewUser(o, dto), Token(users.next)))
  {
    var after := users.Insert(NewUser(o, dto));
    InsertFreshEmail(users, NewUser(o, dto));
    LoginSucceedsIff(o, after, users.next, dto.password);
  }

  /** Inserting a user whose email is not taken keeps the emails unique. */
  lemma InsertFreshEmail(users: Table<User>, u: User)
    requires users.Valid() && UniqueEmails(users.rows) && !EmailTaken(users, u.email)
    ensures UniqueEmails(users.Insert(u).rows)
  {
    var after := users.Insert(u);
    forall a, b | a in after.rows && b in after.rows && after.rows[a].email == after.rows[b].email
      ensures a == b
    {
      if a != users.next && b != users.next {
        assert users.rows[a].email == users.rows[b].email;
      }
    }
  }
}
