/**
 * AuthService: credential check, token issue and registration over the
 * `users` table. bcrypt and the JWT signer are parameters: `compare`
 * stands for bcrypt.compare, `hash` for the service's bcrypt.hash call,
 * `hookHash` for the insert hook's own bcrypt.hash call (a fresh salt),
 * and `sign` for JwtService.sign, None when signing throws.
 */
module AuthService {
  import opened Common
  import opened UserEntity
  import AuthDto
  import Tables
  import Database

  const UserNotFound: Exception := Unauthorized("User not found")
  const InvalidPassword: Exception := Unauthorized("Invalid password")
  const LoginFailed: Exception := Unauthorized("Login failed")
  const EmailExists: Exception := BadRequest("Email already exists")
  const ColumnTooLong: Exception := QueryFailed("value too long for type character varying")

  /** A user row with the password property removed. */
  datatype PublicUser = PublicUser(id: int, email: string, username: string, isAdmin: bool, createdAt: int)

  /** The claims signed into the access token. */
  datatype Payload = Payload(email: string, sub: int, username: string, isAdmin: bool)

  /** The user part of a login response. */
  datatype ResponseUser = ResponseUser(id: int, email: string, username: string, isAdmin: bool)

  datatype LoginResponse = LoginResponse(accessToken: string, user: ResponseUser)

  /** Strips the password: every other property is kept. */
  function WithoutPassword(u: User): (p: PublicUser)
    ensures p.id == u.id && p.email == u.email && p.username == u.username
    ensures p.isAdmin == u.isAdmin && p.createdAt == u.createdAt
  {
    PublicUser(u.id, u.email, u.username, u.isAdmin, u.createdAt)
  }

  /** The row a `findOne({ where: { email } })` returns, if any. */
  function FindByEmail(users: map<int, User>, nextId: int, email: string): (r: Option<User>)
    requires Database.UsersValid(users, nextId)
    ensures r.Some? ==> r.value in users.Values && r.value.email == email
    ensures r.None? <==> forall id :: id in users ==> users[id].email != email
  {
    match Tables.FindFirst(users, nextId, (u: User) => u.email == email)
    case Some(id) => Some(users[id])
    case None => None
  }

  /** Under the unique e-mail constraint, the lookup finds the one row holding that e-mail. */
  lemma FindByEmailUnique(users: map<int, User>, nextId: int, id: int)
    requires Database.UsersValid(users, nextId) && id in users
    ensures FindByEmail(users, nextId, users[id].email) == Some(users[id])
  {
    var r := FindByEmail(users, nextId, users[id].email);
    var id' :| id' in users && users[id'] == r.value;
  }

  /**
   * `validateUser`: Unauthorized("User not found") when no row holds the
   * e-mail; otherwise the row without its password when `compare` accepts
   * the password against the stored digest, and Unauthorized("Invalid
   * password") when it does not.
   */
  function ValidateUser(users: map<int, User>, nextId: int, email: string, password: string,
                        compare: (string, string) -> bool): (r: Result<PublicUser>)
    requires Database.UsersValid(users, nextId)
    ensures r == Failure(UserNotFound) <==> forall id :: id in users ==> users[id].email != email
    ensures forall id :: id in users && users[id].email == email ==>
              r == if compare(password, users[id].password) then Success(WithoutPassword(users[id]))
                   else Failure(InvalidPassword)
  {
    var found := FindByEmail(users, nextId, email);
    if found.None? then
      Failure(UserNotFound)
    else
      var user := found.value;
      if compare(password, user.password) then Success(WithoutPassword(user)) else Failure(InvalidPassword)
  }

  /**
   * `login`: signs the user's e-mail, id (as `sub`), username and admin
   * flag, and answers the token with those same public properties; a
   * signing failure becomes Unauthorized("Login failed").
   */
  function Login(user: PublicUser, sign: Payload -> Option<string>): (r: Result<LoginResponse>)
    ensures r.Failure? <==> sign(Payload(user.email, user.id, user.username, user.isAdmin)).None?
    ensures r.Failure? ==> r.error == LoginFailed
    ensures r.Success? ==>
      && Some(r.value.accessToken) == sign(Payload(user.email, user.id, user.username, user.isAdmin))
      && r.value.user == ResponseUser(user.id, user.email, user.username, user.isAdmin)
  {
    // `isAdmin || false` is the stored flag itself.
    var payload := Payload(user.email, user.id, user.username, user.isAdmin);
    match sign(payload)
    case None => Failure(LoginFailed)
    case Some(token) => Success(LoginResponse(token, ResponseUser(user.id, user.email, user.username, user.isAdmin)))
  }

  /** The login response never depends on the password: two rows differing only there log in alike. */
  lemma LoginHidesPassword(u: User, v: User, sign: Payload -> Option<string>)
    requires u.(password := v.password) == v
    ensures Login(WithoutPassword(u), sign) == Login(WithoutPassword(v), sign)
  {
  }

  /**
   * The login flow (validate, then log in): a token is issued only for
   * the row holding the submitted e-mail, whose password `compare`
   * accepted, and its subject is that row's id.
   */
  lemma ValidatedLoginIsForThatUser(users: map<int, User>, nextId: int, email: string, password: string,
                                    compare: (string, string) -> bool, sign: Payload -> Option<string>)
    requires Database.UsersValid(users, nextId)
    requires ValidateUser(users, nextId, email, password, compare).Success?
    ensures var r := Login(ValidateUser(users, nextId, email, password, compare).value, sign);
            r.Success? ==>
              exists id :: id in users && users[id].email == email && compare(password, users[id].password)
                && r.value.user.id == id && r.value.user.email == email
  {
    var v := ValidateUser(users, nextId, email, password, compare);
    var id :| id in users && users[id].email == email;
    assert v == Success(WithoutPassword(users[id]));
  }

  /**
   * The row `register` inserts: e-mail and username as given, the
   * service's digest of the password run once more through the insert
   * hook, not an administrator, created at `now`.
   */
  function NewUser(dto: AuthDto.RegisterDto, id: int, now: int, hash: string -> string, hookHash: string -> string)
    : (u: User)
    ensures u.id == id && u.email == dto.email && u.username == dto.username
    ensures !u.isAdmin && u.createdAt == now
    ensures hash(dto.password) != [] ==> u.password == hookHash(hash(dto.password))
  {
    HashPassword(User(id, dto.email, dto.username, hash(dto.password), false, now), hookHash)
  }

  /**
   * `register`: BadRequest("Email already exists") and no change when the
   * e-mail is taken; otherwise the new row is inserted under the next id
   * (or the insert fails, changing nothing, when a value exceeds its
   * column width) and the response is the login of that row without its
   * password.
   */
  method Register(db: Database.Store, dto: AuthDto.RegisterDto, now: int,
                  hash: string -> string, hookHash: string -> string, sign: Payload -> Option<string>)
    returns (r: Result<LoginResponse>)
    requires db.Valid()
    modifies db
    ensures db.Valid()
    ensures db.projects == old(db.projects) && db.tasks == old(db.tasks)
    ensures db.nextProjectId == old(db.nextProjectId) && db.nextTaskId == old(db.nextTaskId)
    ensures (exists id :: id in old(db.users) && old(db.users)[id].email == dto.email) ==>
              r == Failure(EmailExists) && db.users == old(db.users) && db.nextUserId == old(db.nextUserId)
    ensures (forall id :: id in old(db.users) ==> old(db.users)[id].email != dto.email) ==>
              var u := NewUser(dto, old(db.nextUserId), now, hash, hookHash);
              if FitsColumns(u) then
                && db.users == old(db.users)[u.id := u] && db.nextUserId == old(db.nextUserId) + 1
                && r == Login(WithoutPassword(u), sign)
              else
                r == Failure(ColumnTooLong) && db.users == old(db.users) && db.nextUserId == old(db.nextUserId)
  {
    var existing := FindByEmail(db.users, db.nextUserId, dto.email);
    if existing.Some? {
      return Failure(EmailExists);
    }
    var u := NewUser(dto, db.nextUserId, now, hash, hookHash);
    if !FitsColumns(u) {
      return Failure(ColumnTooLong);
    }
    InsertKeepsUsersValid(db.users, db.nextUserId, u);
    db.users := db.users[u.id := u];
    db.nextUserId := db.nextUserId + 1;
    r := Login(WithoutPassword(u), sign);
  }

  /** Inserting a row with a fresh id and e-mail that fits its columns keeps the users table valid. */
  lemma InsertKeepsUsersValid(users: map<int, User>, nextId: int, u: User)
    requires Database.UsersValid(users, nextId)
    requires u.id == nextId && FitsColumns(u)
    requires forall id :: id in users ==> users[id].email != u.email
    ensures Database.UsersValid(users[u.id := u], nextId + 1)
  {
  }

  /** After an insert, validating the new row's e-mail compares against exactly the digest stored for it. */
  lemma ValidateAfterInsert(users: map<int, User>, nextId: int, u: User, password: string,
                            compare: (string, string) -> bool)
    requires Database.UsersValid(users, nextId)
    requires u.id == nextId && FitsColumns(u)
    requires forall id :: id in users ==> users[id].email != u.email
    ensures Database.UsersValid(users[u.id := u], nextId + 1)
    ensures ValidateUser(users[u.id := u], nextId + 1, u.email, password, compare)
            == if compare(password, u.password) then Success(WithoutPassword(u)) else Failure(InvalidPassword)
  {
    InsertKeepsUsersValid(users, nextId, u);
    assert u.id in users[u.id := u];
  }

  /**
   * Because the service hashes the password and the insert hook hashes
   * that digest again, a freshly registered user cannot log in with the
   * password they chose: when `compare(x, hookHash(y))` holds exactly for
   * `x == y`, as bcrypt's does, validation with the plaintext fails with
   * Unauthorized("Invalid password"), and only the first digest itself is
   * accepted.
   */
  lemma RegisteredPlaintextRejected(users: map<int, User>, nextId: int, dto: AuthDto.RegisterDto, now: int,
                                    hash: string -> string, hookHash: string -> string,
                                    compare: (string, string) -> bool)
    requires Database.UsersValid(users, nextId)
    requires forall id :: id in users ==> users[id].email != dto.email
    requires FitsColumns(NewUser(dto, nextId, now, hash, hookHash))
    requires hash(dto.password) != [] && hash(dto.password) != dto.password
    requires forall x, y :: compare(x, hookHash(y)) <==> x == y
    ensures var u := NewUser(dto, nextId, now, hash, hookHash);
            Database.UsersValid(users[nextId := u], nextId + 1)
            && ValidateUser(users[nextId := u], nextId + 1, dto.email, dto.password, compare) == Failure(InvalidPassword)
            && ValidateUser(users[nextId := u], nextId + 1, dto.email, hash(dto.password), compare).Success?
  {
    var u := NewUser(dto, nextId, now, hash, hookHash);
    ValidateAfterInsert(users, nextId, u, dto.password, compare);
    ValidateAfterInsert(users, nextId, u, hash(dto.password), compare);
  }
}
