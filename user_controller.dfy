/**
 * Registration (`UserController.create`) and login (`UserController.login`), and the
 * request-body check the framework runs against the login schema before calling
 * `login`.
 */
module UserController {
  import opened Results
  import opened Models
  import opened Repository
  import opened CredentialsSchema
  import UserService

  /** The roles string every registered user gets. */
  const StudentRoles: string := "['student']"

  /** The framework's answer to a request body that fails its schema: 422 Unprocessable Entity. */
  const InvalidRequestBody: HttpError :=
    HttpError(422, "The request body is invalid. See error object `details` property for more info.")

  /** The body of a registration request (a user record without an id), which `create` updates in place. */
  class NewUserRequest {
    var email: string
    var password: string
    var roles: string
    var properties: map<string, string>

    constructor (email: string, password: string, roles: string, properties: map<string, string>)
      ensures this.email == email && this.password == password
      ensures this.roles == roles && this.properties == properties
    {
      this.email := email;
      this.password := password;
      this.roles := roles;
      this.properties := properties;
    }
  }

  /** A credentials validator that refuses everything outside the credentials schema. */
  ghost predicate EnforcesCredentialsSchema(validateCredentials: Credentials -> Outcome)
  {
    forall c :: validateCredentials(c).Pass? ==> MatchesCredentialsSchema(c)
  }

  /**
   * `create`: overwrite the request's roles, validate its email and password, replace
   * the plaintext password by its hash and store the request as one new record. When
   * validation throws, the error propagates, nothing is hashed and nothing is stored.
   */
  method Create(repository: UserRepository, request: NewUserRequest, hasher: PasswordHasher,
                validateCredentials: Credentials -> Outcome) returns (r: Result<User>)
    requires repository.Valid()
    modifies repository, request
    ensures repository.Valid()
    ensures request.roles == StudentRoles
    ensures request.email == old(request.email) && request.properties == old(request.properties)
    ensures match validateCredentials(Credentials(old(request.email), old(request.password)))
      case Fail(e) =>
        && r == Err(e)
        && request.password == old(request.password)
        && repository.users == old(repository.users)
        && repository.nextId == old(repository.nextId)
      case Pass =>
        && request.password == hasher.hashPassword(old(request.password))
        && r == Ok(User(old(repository.nextId), old(request.email), hasher.hashPassword(old(request.password)),
                        StudentRoles, old(request.properties)))
        && repository.users == old(repository.users) + [r.value]
        && repository.nextId == old(repository.nextId) + 1
        && (forall i :: 0 <= i < |old(repository.users)| ==> old(repository.users)[i].id != r.value.id)
    ensures EnforcesCredentialsSchema(validateCredentials) && r.Ok? ==>
      MatchesCredentialsSchema(Credentials(old(request.email), old(request.password)))
  {
    request.roles := StudentRoles;
    var outcome := validateCredentials(Credentials(request.email, request.password));
    if outcome.Fail? {
      return Err(outcome.error);
    }
    var password := hasher.hashPassword(request.password);
    request.password := password;
    var created := repository.Create(request.email, request.password, request.roles, request.properties);
    return Ok(created);
  }

  /** The response of a successful login: an object whose only property is the token. */
  datatype LoginResponse = LoginResponse(token: string)

  /**
   * `login`: verify the credentials against the store, drop the password from the
   * verified record and issue a token for what remains.
   */
  function Login(users: seq<User>, credentials: Credentials, hasher: PasswordHasher,
                 generateToken: UserInfo -> string): (r: Result<LoginResponse>)
    ensures r.Err? ==> r.error == UserService.InvalidCredentials
    ensures r.Ok? ==> exists u :: u in users && u.email == credentials.email && r.value.token == generateToken(OmitPassword(u))
  {
    match UserService.VerifyCredentials(users, users, credentials, hasher)
    case Err(e) => Err(e)
    case Ok(user) => Ok(LoginResponse(generateToken(OmitPassword(user))))
  }

  /** A failed verification propagates unchanged, and no token generator is consulted. */
  lemma LoginFailurePropagates(users: seq<User>, credentials: Credentials, hasher: PasswordHasher,
                               g1: UserInfo -> string, g2: UserInfo -> string)
    requires UserService.VerifyCredentials(users, users, credentials, hasher).Err?
    ensures Login(users, credentials, hasher, g1) == Err(UserService.VerifyCredentials(users, users, credentials, hasher).error)
    ensures Login(users, credentials, hasher, g1) == Login(users, credentials, hasher, g2)
  {
  }

  /**
   * A successful login issues the token generated from the first record with the
   * supplied email, carrying every property of that record except its password.
   */
  lemma LoginTokenFromVerifiedUser(users: seq<User>, credentials: Credentials, hasher: PasswordHasher,
                                   generateToken: UserInfo -> string, i: int)
    requires IsFirst(users, ByEmail(credentials.email), i)
    requires Login(users, credentials, hasher, generateToken).Ok?
    ensures Login(users, credentials, hasher, generateToken) ==
      Ok(LoginResponse(generateToken(UserInfo(users[i].id, users[i].email, users[i].roles, users[i].properties))))
  {
    FindOneAt(users, ByEmail(credentials.email), i);
  }

  /**
   * On a store with distinct ids, login succeeds exactly when the password matches
   * the hash of the first record with the supplied email, and the token is generated
   * from that record without its password.
   */
  lemma LoginOnDistinctIds(users: seq<User>, credentials: Credentials, hasher: PasswordHasher,
                           generateToken: UserInfo -> string, i: int)
    requires IsFirst(users, ByEmail(credentials.email), i)
    requires IdsDistinct(users)
    ensures Login(users, credentials, hasher, generateToken) ==
      if hasher.comparePassword(credentials.password, users[i].password)
      then Ok(LoginResponse(generateToken(OmitPassword(users[i]))))
      else Err(UserService.InvalidCredentials)
  {
    UserService.SameStoreComparesOwnHash(users, credentials, hasher, i);
  }

  /** Stores that differ only in password hashes give the same first email match. */
  lemma FirstEmailMatchIgnoresPasswords(u1: seq<User>, u2: seq<User>, email: string)
    requires |u1| == |u2|
    requires forall k :: 0 <= k < |u1| ==> OmitPassword(u1[k]) == OmitPassword(u2[k])
    ensures FirstMatch(u1, ByEmail(email)) == FirstMatch(u2, ByEmail(email))
    ensures FirstMatch(u1, ByEmail(email)) < |u1| ==>
      OmitPassword(u1[FirstMatch(u1, ByEmail(email))]) == OmitPassword(u2[FirstMatch(u1, ByEmail(email))])
  {
    assert forall k :: 0 <= k < |u1| ==> u1[k].email == u2[k].email;
    FirstMatchUnique(u2, ByEmail(email), FirstMatch(u1, ByEmail(email)));
  }

  /**
   * The token never depends on a stored password hash: two stores that agree on
   * everything but the hashes yield the same token whenever both logins succeed.
   */
  lemma TokenIgnoresPasswordHashes(u1: seq<User>, u2: seq<User>, credentials: Credentials,
                                   h1: PasswordHasher, h2: PasswordHasher, generateToken: UserInfo -> string)
    requires |u1| == |u2|
    requires forall k :: 0 <= k < |u1| ==> OmitPassword(u1[k]) == OmitPassword(u2[k])
    ensures Login(u1, credentials, h1, generateToken).Ok? && Login(u2, credentials, h2, generateToken).Ok? ==>
      Login(u1, credentials, h1, generateToken) == Login(u2, credentials, h2, generateToken)
  {
    FirstEmailMatchIgnoresPasswords(u1, u2, credentials.email);
  }

  /**
   * The round trip of registration and login: a record stored by `create` under a
   * fresh email and a fresh id lets its owner log in with the password they
   * registered, provided the hasher accepts each password against its own hash.
   */
  lemma RegisteredUserCanLogIn(users: seq<User>, id: nat, credentials: Credentials,
                               properties: map<string, string>, hasher: PasswordHasher,
                               generateToken: UserInfo -> string)
    requires Sound(hasher)
    requires forall k :: 0 <= k < |users| ==> users[k].email != credentials.email && users[k].id != id
    ensures Login(users + [User(id, credentials.email, hasher.hashPassword(credentials.password), StudentRoles, properties)],
                  credentials, hasher, generateToken)
      == Ok(LoginResponse(generateToken(UserInfo(id, credentials.email, StudentRoles, properties))))
  {
    var added := User(id, credentials.email, hasher.hashPassword(credentials.password), StudentRoles, properties);
    FindOneAppend(users, added, ByEmail(credentials.email));
    FindOneAppend(users, added, ById(id));
    assert hasher.comparePassword(credentials.password, hasher.hashPassword(credentials.password));
  }

  /**
   * `create` does not check that the email is new: once a record with some email is
   * stored, a later record with the same email changes no login outcome for that
   * email, so its owner logs in (or fails) as the earlier account.
   */
  lemma EarlierAccountShadowsRegistration(users: seq<User>, added: User, credentials: Credentials,
                                          hasher: PasswordHasher, generateToken: UserInfo -> string)
    requires exists k :: 0 <= k < |users| && users[k].email == credentials.email
    ensures Login(users + [added], credentials, hasher, generateToken) == Login(users, credentials, hasher, generateToken)
  {
    FindOneAppend(users, added, ByEmail(credentials.email));
    var found := FindOne(users, ByEmail(credentials.email)).value;
    FindOneAppend(users, added, ById(found.id));
  }

  /**
   * The login endpoint: the framework checks the body against the credentials schema
   * and answers 422 without calling `login` when it does not match; otherwise `login`
   * runs.
   */
  function HandleLogin(users: seq<User>, body: Credentials, hasher: PasswordHasher,
                       generateToken: UserInfo -> string): (r: Result<LoginResponse>)
    ensures r.Ok? ==> IsEmail(body.email) && |body.password| >= PasswordMinLength
    ensures !MatchesCredentialsSchema(body) <==> r == Err(InvalidRequestBody)
    ensures r.Err? ==> r.error == InvalidRequestBody || r.error == UserService.InvalidCredentials
  {
    if !MatchesCredentialsSchema(body) then Err(InvalidRequestBody)
    else Login(users, body, hasher, generateToken)
  }
}
