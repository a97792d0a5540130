/**
 * Credential verification (`UserService.verifyCredentials`): look the user up by
 * email, look the record up again by its id, compare the supplied password with the
 * stored hash, and fail every miss with one and the same Unauthorized error.
 */
module UserService {
  import opened Results
  import opened Models
  import opened Repository

  const InvalidCredentialsMessage: string := "Invalid email or password."

  /** `HttpErrors.Unauthorized(invalidCredentialsError)`: status 401 with the uniform message. */
  const InvalidCredentials: HttpError := HttpError(401, InvalidCredentialsMessage)

  /**
   * `verifyCredentials`. Each of the two lookups is awaited, so each may see a
   * different state of the store: `atEmailLookup` is the store the email lookup
   * reads and `atIdLookup` the one the id lookup reads. A call that runs alone
   * passes the same store twice.
   */
  function VerifyCredentials(atEmailLookup: seq<User>, atIdLookup: seq<User>, credentials: Credentials,
                             hasher: PasswordHasher): (r: Result<User>)
    ensures r.Err? ==> r.error == InvalidCredentials
    ensures r.Ok? ==> r.value in atEmailLookup && r.value.email == credentials.email
  {
    match FindOne(atEmailLookup, ByEmail(credentials.email))
    case None => Err(InvalidCredentials)
    case Some(foundUser) =>
      match FindOne(atIdLookup, ById(foundUser.id))
      case None => Err(InvalidCredentials)
      case Some(credentialsFound) =>
        if hasher.comparePassword(credentials.password, credentialsFound.password) then Ok(foundUser)
        else Err(InvalidCredentials)
  }

  /** An unknown email is rejected with the uniform error. */
  lemma UnknownEmailRejected(atEmailLookup: seq<User>, atIdLookup: seq<User>, credentials: Credentials,
                             hasher: PasswordHasher)
    requires forall i :: 0 <= i < |atEmailLookup| ==> atEmailLookup[i].email != credentials.email
    ensures VerifyCredentials(atEmailLookup, atIdLookup, credentials, hasher) == Err(InvalidCredentials)
  {
  }

  /** A record that has vanished before the id lookup is rejected with the same error. */
  lemma MissingIdRecordRejected(atEmailLookup: seq<User>, atIdLookup: seq<User>, credentials: Credentials,
                                hasher: PasswordHasher, i: int)
    requires IsFirst(atEmailLookup, ByEmail(credentials.email), i)
    requires forall k :: 0 <= k < |atIdLookup| ==> atIdLookup[k].id != atEmailLookup[i].id
    ensures VerifyCredentials(atEmailLookup, atIdLookup, credentials, hasher) == Err(InvalidCredentials)
  {
    FindOneAt(atEmailLookup, ByEmail(credentials.email), i);
  }

  /**
   * When both lookups find a record, the outcome is decided by comparing the
   * supplied plaintext with the hash of the record the id lookup found, and a
   * success returns the record the email lookup found. A wrong password gets the
   * same error as an unknown email.
   */
  lemma ComparisonDecides(atEmailLookup: seq<User>, atIdLookup: seq<User>, credentials: Credentials,
                          hasher: PasswordHasher, i: int, j: int)
    requires IsFirst(atEmailLookup, ByEmail(credentials.email), i)
    requires IsFirst(atIdLookup, ById(atEmailLookup[i].id), j)
    ensures VerifyCredentials(atEmailLookup, atIdLookup, credentials, hasher) ==
      if hasher.comparePassword(credentials.password, atIdLookup[j].password) then Ok(atEmailLookup[i])
      else Err(InvalidCredentials)
  {
    FindOneAt(atEmailLookup, ByEmail(credentials.email), i);
    FindOneAt(atIdLookup, ById(atEmailLookup[i].id), j);
  }

  /**
   * A success means: the returned record is the first one with the supplied email,
   * the id lookup found a first record with its id, and the password matched that
   * record's hash.
   */
  lemma AcceptedOnlyOnMatch(atEmailLookup: seq<User>, atIdLookup: seq<User>, credentials: Credentials,
                            hasher: PasswordHasher)
    requires VerifyCredentials(atEmailLookup, atIdLookup, credentials, hasher).Ok?
    ensures exists i, j ::
      IsFirst(atEmailLookup, ByEmail(credentials.email), i) &&
      IsFirst(atIdLookup, ById(atEmailLookup[i].id), j) &&
      hasher.comparePassword(credentials.password, atIdLookup[j].password) &&
      VerifyCredentials(atEmailLookup, atIdLookup, credentials, hasher) == Ok(atEmailLookup[i])
  {
    var i := FirstMatch(atEmailLookup, ByEmail(credentials.email));
    var j := FirstMatch(atIdLookup, ById(atEmailLookup[i].id));
    assert IsFirst(atEmailLookup, ByEmail(credentials.email), i);
    assert IsFirst(atIdLookup, ById(atEmailLookup[i].id), j);
  }

  /** Every failure is the very same value, whatever the store, credentials or hasher. */
  lemma FailuresIndistinguishable(e1: seq<User>, d1: seq<User>, c1: Credentials, h1: PasswordHasher,
                                  e2: seq<User>, d2: seq<User>, c2: Credentials, h2: PasswordHasher)
    requires VerifyCredentials(e1, d1, c1, h1).Err? && VerifyCredentials(e2, d2, c2, h2).Err?
    ensures VerifyCredentials(e1, d1, c1, h1) == VerifyCredentials(e2, d2, c2, h2)
  {
  }

  /** With an unknown email the hasher is never consulted: any two hashers give the same outcome. */
  lemma UnknownEmailNeverCompares(atEmailLookup: seq<User>, atIdLookup: seq<User>, credentials: Credentials,
                                  h1: PasswordHasher, h2: PasswordHasher)
    requires forall i :: 0 <= i < |atEmailLookup| ==> atEmailLookup[i].email != credentials.email
    ensures VerifyCredentials(atEmailLookup, atIdLookup, credentials, h1) ==
            VerifyCredentials(atEmailLookup, atIdLookup, credentials, h2)
  {
  }

  /** When the id lookup misses, the hasher is not consulted either. */
  lemma MissingIdRecordNeverCompares(atEmailLookup: seq<User>, atIdLookup: seq<User>, credentials: Credentials,
                                     h1: PasswordHasher, h2: PasswordHasher, i: int)
    requires IsFirst(atEmailLookup, ByEmail(credentials.email), i)
    requires forall k :: 0 <= k < |atIdLookup| ==> atIdLookup[k].id != atEmailLookup[i].id
    ensures VerifyCredentials(atEmailLookup, atIdLookup, credentials, h1) ==
            VerifyCredentials(atEmailLookup, atIdLookup, credentials, h2)
  {
    MissingIdRecordRejected(atEmailLookup, atIdLookup, credentials, h1, i);
    MissingIdRecordRejected(atEmailLookup, atIdLookup, credentials, h2, i);
  }

  /**
   * The hasher is consulted once, on the supplied plaintext and the id-lookup
   * record's hash, in that order: hashers that agree on that one pair give the
   * same outcome.
   */
  lemma SingleComparison(atEmailLookup: seq<User>, atIdLookup: seq<User>, credentials: Credentials,
                         h1: PasswordHasher, h2: PasswordHasher, i: int, j: int)
    requires IsFirst(atEmailLookup, ByEmail(credentials.email), i)
    requires IsFirst(atIdLookup, ById(atEmailLookup[i].id), j)
    requires h1.comparePassword(credentials.password, atIdLookup[j].password) ==
             h2.comparePassword(credentials.password, atIdLookup[j].password)
    ensures VerifyCredentials(atEmailLookup, atIdLookup, credentials, h1) ==
            VerifyCredentials(atEmailLookup, atIdLookup, credentials, h2)
  {
    ComparisonDecides(atEmailLookup, atIdLookup, credentials, h1, i, j);
    ComparisonDecides(atEmailLookup, atIdLookup, credentials, h2, i, j);
  }

  /** On one unchanged store the id lookup cannot miss: it finds at least the email-lookup record. */
  lemma SameStoreIdLookupFinds(users: seq<User>, email: string, i: int)
    requires IsFirst(users, ByEmail(email), i)
    ensures FindOne(users, ById(users[i].id)).Some?
    ensures FindOne(users, ById(users[i].id)).value.id == users[i].id
  {
    assert ById(users[i].id)(users[i]);
  }

  /**
   * On one unchanged store the id lookup cannot miss, and when ids are distinct it
   * finds the email-lookup record itself, so the password is checked against that
   * record's own hash.
   */
  lemma SameStoreComparesOwnHash(users: seq<User>, credentials: Credentials, hasher: PasswordHasher, i: int)
    requires IsFirst(users, ByEmail(credentials.email), i)
    requires IdsDistinct(users)
    ensures VerifyCredentials(users, users, credentials, hasher) ==
      if hasher.comparePassword(credentials.password, users[i].password) then Ok(users[i])
      else Err(InvalidCredentials)
  {
    var j := FirstMatch(users, ById(users[i].id));
    assert j <= i by {
      assert ById(users[i].id)(users[i]);
    }
    assert j == i;
    ComparisonDecides(users, users, credentials, hasher, i, j);
  }

  /**
   * The record returned is the one the email lookup found, even when the id lookup
   * found a different record whose hash was the one compared.
   */
  lemma ReturnsEmailLookupRecord(atEmailLookup: seq<User>, atIdLookup: seq<User>, credentials: Credentials,
                                 hasher: PasswordHasher, i: int, j: int)
    requires IsFirst(atEmailLookup, ByEmail(credentials.email), i)
    requires IsFirst(atIdLookup, ById(atEmailLookup[i].id), j)
    requires atEmailLookup[i] != atIdLookup[j]
    requires hasher.comparePassword(credentials.password, atIdLookup[j].password)
    ensures VerifyCredentials(atEmailLookup, atIdLookup, credentials, hasher) == Ok(atEmailLookup[i])
    ensures VerifyCredentials(atEmailLookup, atIdLookup, credentials, hasher) != Ok(atIdLookup[j])
  {
    ComparisonDecides(atEmailLookup, atIdLookup, credentials, hasher, i, j);
  }

  /**
   * An instance of the above: with two records sharing id 1, the password is checked
   * against the first record's hash and the second record is returned.
   */
  lemma ReturnsEmailLookupRecordExample()
    ensures
      var compared := User(1, "b@x.com", "hash-b", "['student']", map[]);
      var returned := User(1, "a@x.com", "hash-a", "['student']", map[]);
      var hasher := PasswordHasher(p => p, (p, h) => h == "hash-b");
      VerifyCredentials([compared, returned], [compared, returned], Credentials("a@x.com", "secret123"), hasher)
        == Ok(returned)
  {
    var compared := User(1, "b@x.com", "hash-b", "['student']", map[]);
    var returned := User(1, "a@x.com", "hash-a", "['student']", map[]);
    var hasher := PasswordHasher(p => p, (p, h) => h == "hash-b");
    var users := [compared, returned];
    assert IsFirst(users, ByEmail("a@x.com"), 1);
    assert IsFirst(users, ById(1), 0);
    ReturnsEmailLookupRecord(users, users, Credentials("a@x.com", "secret123"), hasher, 1, 0);
  }
}
