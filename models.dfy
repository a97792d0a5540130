/** The records the login and registration logic works on, and the password hasher it calls. */
module Models {

  /**
   * A stored user record. `roles` is the plain string the registration endpoint
   * writes. `properties` holds every further property of the record (for example
   * firstName and lastName), by name; in a record that matches a JavaScript
   * object it never holds the keys of the four named fields (see `WellFormed`).
   */
  datatype User = User(id: nat, email: string, password: string, roles: string, properties: map<string, string>)

  /** The names of the record's own fields, which `properties` never repeats. */
  const FieldNames: set<string> := {"id", "email", "password", "roles"}

  /** A record that matches a JavaScript object: no property shadows a named field. */
  predicate WellFormed(user: User)
  {
    forall k :: k in user.properties ==> k !in FieldNames
  }

  /** The email and password a client supplies. */
  datatype Credentials = Credentials(email: string, password: string)

  /** A user record with its `password` property removed. */
  datatype UserInfo = UserInfo(id: nat, email: string, roles: string, properties: map<string, string>)

  /** The object `_.omit(user, ['password'])` builds. */
  function OmitPassword(user: User): (info: UserInfo)
    ensures WellFormed(user) ==> "password" !in info.properties
  {
    UserInfo(user.id, user.email, user.roles, user.properties)
  }

  /** Two records give the same projection exactly when they differ at most in their password. */
  lemma OmitPasswordForgetsOnlyPassword(u: User, v: User)
    ensures OmitPassword(u) == OmitPassword(v) <==> u.(password := v.password) == v
  {
  }

  /**
   * The password hasher: `hashPassword` stands for the salted one-way hash (a fresh
   * salt per call is modelled by the caller supplying the hasher), `comparePassword`
   * for the check of a plaintext against a stored hash, plaintext first.
   */
  datatype PasswordHasher = PasswordHasher(hashPassword: string -> string, comparePassword: (string, string) -> bool)

  /** A hasher that accepts every password against its own hash. */
  ghost predicate Sound(hasher: PasswordHasher)
  {
    forall p :: hasher.comparePassword(p, hasher.hashPassword(p))
  }
}
