# Login and registration logic of lb4-sample, modelled in Dafny

This project models the part of the LoopBack 4 sample application that decides
logins and registrations.

- **Credential verification** (`UserService.verifyCredentials`). It looks the user
  up by email, then looks the record up again by its id. It then compares the
  supplied plaintext password with the stored hash. Every miss throws one
  Unauthorized error (status 401) with the message `Invalid email or password.`
  A success returns the record the email lookup found.
- **Registration** (`UserController.create`). It overwrites the request's roles
  with the string `['student']` and validates the email and password. It then
  replaces the plaintext password by its hash and stores the request as one new record.
- **Login** (`UserController.login`). It verifies the credentials, removes the
  `password` property from the verified record and issues a token for what is left.
  It answers `{token}`. Before `login` runs, the framework checks the request body
  against the credentials schema: a required `email` in the `email` format and a
  required `password` of at least 8 characters.

Modules, one per file:

- `Results` (results.dfy): `Option`, `Result`, `Outcome` and `HttpError`. Thrown
  errors become `Err` values.
- `Models` (models.dfy): the `User` record, `Credentials`, `UserInfo` (a record
  without its password) with `OmitPassword`, and the `PasswordHasher`.
- `Repository` (repository.dfy): `findOne` over a sequence of records, which
  returns the first match. Also the `UserRepository` class that `create` writes to.
- `CredentialsSchema` (credentials_schema.dfy): the credentials schema.
- `UserService` (user_service.dfy): `VerifyCredentials` and its properties.
- `UserController` (user_controller.dfy): `Create` (a method that updates the
  request object and the repository), `Login`, `HandleLogin` and their properties.

Collaborators that are not part of this model become parameters:

- The bcrypt hasher is a `PasswordHasher`: a pair of functions `hashPassword` and
  `comparePassword`. A fresh salt for each call is modelled by the caller, which
  supplies the hasher. `Sound(hasher)` states that every password matches its own hash.
- The JWT service is a function `generateToken: UserInfo -> string`.
- The credentials validator (src/services/utils/validator) is a function
  `validateCredentials: Credentials -> Outcome`. It either passes or throws an error.
  `EnforcesCredentialsSchema` states that it refuses everything outside the schema.
- The ORM repository is a sequence of `User` records. The class gives each created
  record the next value of a counter as its id, so ids stay distinct.

The two lookups in `verifyCredentials` are each awaited, so other requests can
change the store between them. `VerifyCredentials` therefore takes the store as each
lookup sees it. `Login` passes the same store twice. On one unchanged store the
id lookup cannot miss (`SameStoreIdLookupFinds`), and with distinct ids it finds the email-lookup record itself
(`SameStoreComparesOwnHash`). With two different states the id lookup can miss, and
that case gets the same uniform error as the other failures.

Behaviour of the code worth knowing:

- Verification returns the full record, hash included. The password is removed by
  `login` (src/controllers/user.controller.ts:268), not by the verifier.
- Verification does two lookups, not one.
- Roles are the string `['student']`, not a set of role names.
- The framework answers a body that fails the schema with 422 Unprocessable Entity.
- `create` does not check that the email is new. `EarlierAccountShadowsRegistration`
  shows the result: a second registration with a known email never changes the login
  outcome for that email.

## Model

| member | source | states |
|---|---|---|
| `Models.OmitPassword` | src/controllers/user.controller.ts:268 | `_.omit(user, ['password'])`: the record's id, email, roles and other properties, without the password; from a well-formed record no `password` key survives anywhere |
| `Models.OmitPasswordForgetsOnlyPassword` | src/controllers/user.controller.ts:268 | two records give the same password-free projection exactly when they differ at most in their password |
| `Repository.ByEmail` | src/services/user.service.ts:22 | the filter `{where: {email}}` holds of a record exactly when its email equals the supplied one |
| `Repository.ById` | src/services/user.service.ts:29 | the filter `{where: {id}}` holds of a record exactly when its id equals the given one |
| `Repository.FirstMatch` | src/services/user.service.ts:21-30 | the position returned is the first record matching the filter, or the length of the store when none matches |
| `Repository.FindOne` | src/services/user.service.ts:21-30 | `findOne` gives nothing exactly when no stored record matches; otherwise a stored record that matches |
| `Repository.FindOneAt` | src/services/user.service.ts:21-30 | `findOne` returns the record at the first matching position |
| `Repository.FindOneAppend` | src/controllers/user.controller.ts:96 | after one record is appended, `findOne` still returns an earlier match if there is one; otherwise the new record if it matches |
| `Repository.UserRepository.Create` | src/controllers/user.controller.ts:96 | the repository's `create` appends exactly one record with a fresh id, keeps ids distinct and leaves earlier records untouched |
| `UserService.VerifyCredentials` | src/services/user.service.ts:18-46 | every failure is the one Unauthorized error; a success returns a stored record with the supplied email |
| `UserService.UnknownEmailRejected` | src/services/user.service.ts:19-26 | an email no record holds yields Unauthorized with `Invalid email or password.` |
| `UserService.MissingIdRecordRejected` | src/services/user.service.ts:28-34 | when the id lookup finds no record, the result is the same uniform error |
| `UserService.ComparisonDecides` | src/services/user.service.ts:36-45 | once both lookups succeed, the result is decided by comparing the plaintext with the hash of the id-lookup record; a wrong password gets the uniform error; a match returns the email-lookup record |
| `UserService.AcceptedOnlyOnMatch` | src/services/user.service.ts:21-45 | a success means the first record with the email was found, its id found a record, and the password matched that record's hash |
| `UserService.FailuresIndistinguishable` | src/services/user.service.ts:19-43 | any two failing verifications, whatever the store, credentials or hasher, give identical results |
| `UserService.UnknownEmailNeverCompares` | src/services/user.service.ts:21-26 | with an unknown email the result does not depend on the hasher: no comparison is made |
| `UserService.MissingIdRecordNeverCompares` | src/services/user.service.ts:28-36 | when the id lookup misses, the result does not depend on the hasher either |
| `UserService.SingleComparison` | src/services/user.service.ts:36-39 | the hasher is consulted only on the pair (supplied plaintext, id-lookup record's hash), in that order |
| `UserService.SameStoreComparesOwnHash` | src/services/user.service.ts:28-39 | on one store with distinct ids, the password is compared with the email-lookup record's own hash |
| `UserService.ReturnsEmailLookupRecord` | src/services/user.service.ts:45 | when the id lookup finds a different record and the password matches that record's hash, the email-lookup record is returned, not the compared one |
| `UserService.ReturnsEmailLookupRecordExample` | src/services/user.service.ts:45 | with two records sharing id 1, the password is checked against the first record's hash and the second record is returned |
| `UserService.SameStoreIdLookupFinds` | src/services/user.service.ts:28-34 | when both lookups read one unchanged store, the id lookup always finds a record with the email-lookup record's id |
| `CredentialsSchema.IsEmail` | src/controllers/user.controller.ts:251-254 | `format: 'email'`: a local part of atoms joined by single dots, one `@`, and a domain of two or more labels |
| `CredentialsSchema.MatchesCredentialsSchema` | src/controllers/user.controller.ts:247-259 | a body is accepted exactly when its email is in the email format and its password has at least 8 characters |
| `CredentialsSchema.EmailHasOneAt` | src/controllers/user.controller.ts:251-254 | an accepted email contains exactly one `@` |
| `CredentialsSchema.EmailFromParts` | src/controllers/user.controller.ts:251-254 | a well-formed local part, `@` and a well-formed domain make an accepted email |
| `CredentialsSchema.KnownUserCredentialsAccepted` | src/controllers/user.controller.ts:247-259 | `a@x.com` with `secret123` matches the login schema |
| `CredentialsSchema.UnknownUserCredentialsAccepted` | src/controllers/user.controller.ts:247-259 | `unknown@x.com` with `anything1` matches the login schema |
| `CredentialsSchema.ExampleCredentialsRefused` | src/controllers/user.controller.ts:247-259 | a domain without a dot, a missing `@` and a 5-character password are refused |
| `UserController.NewUserRequest.constructor` | src/controllers/user.controller.ts:89-95 | the registration request object, with the email, password, roles and other properties it was built with; `create` later updates its roles and password in place |
| `UserController.Create` | src/controllers/user.controller.ts:78-97 | roles become `['student']`; a validation failure propagates with nothing hashed or stored; otherwise one record is stored with the hash of the original password, the request's other fields and a fresh id, and the id counter advances by one; under a schema-enforcing validator only schema-conforming credentials are stored |
| `UserController.Login` | src/controllers/user.controller.ts:241-272 | a failure is the uniform Unauthorized error; a success is a stored record with the supplied email, and the token is generated from that record without its password |
| `UserController.LoginFailurePropagates` | src/controllers/user.controller.ts:267-270 | a failed verification propagates unchanged, and the result does not depend on the token generator |
| `UserController.LoginTokenFromVerifiedUser` | src/controllers/user.controller.ts:267-271 | a successful login answers `{token}` generated from the first record with the supplied email, with its id, email, roles and other properties and without its password |
| `UserController.LoginOnDistinctIds` | src/controllers/user.controller.ts:267-271 | with distinct ids, login succeeds exactly when the password matches the first record with the email; the token comes from that record |
| `UserController.TokenIgnoresPasswordHashes` | src/controllers/user.controller.ts:268-270 | stores that differ only in password hashes give the same token whenever both logins succeed |
| `UserController.RegisteredUserCanLogIn` | src/controllers/user.controller.ts:91-96 | a record stored by registration under a fresh email and id logs in with the registered password, given a sound hasher |
| `UserController.EarlierAccountShadowsRegistration` | src/controllers/user.controller.ts:89-96 | appending a record whose email is already stored changes no login outcome for that email |
| `UserController.HandleLogin` | src/controllers/user.controller.ts:247-259 | a body outside the schema gets 422 and no login; a success implies a well-formed email and a password of at least 8 characters |

## Left out

- The other CRUD endpoints of the user controller (`count`, `find`, `updateAll`, `findById`, `updateById`, `replaceById`, `deleteById`): each one only passes its call to the ORM repository.
- `printCurrentUser` and its `@authenticate` / `@authorize` decorators: the framework enforces them through a voter whose file is not part of this model.
- The test controller, the ping controller and the geocoder service: network calls and delegation.
- The application class and the entry point: dependency-injection bindings, OpenAPI setup, static files and server start.
- The internals of bcrypt hashing, JWT signing and the credentials validator: they are cryptographic or in files that are not part of this model. They are parameters here.
- Errors thrown by the hasher, the token service or the store (hashing failure, signing failure, an unavailable database): not modelled. The collaborators are total functions here.
- Response timing is not modelled. An unknown email and an id-lookup miss return without a password comparison, while a wrong password pays for the bcrypt comparison (10 rounds, src/application.ts:95). So the failures are equal in value (`FailuresIndistinguishable`), not in duration.
- `console.log` of the credentials at login, and the async machinery. Each operation is sequential, except that verification may see a different store for each of its two lookups.
- The exact engine behind the schema's `email` format is not part of this model. `IsEmail` takes the dot-atom rule: atoms joined by single dots, one `@`, and at least two labels of letters, digits and inner hyphens. Letters are ASCII in either case. This is the stricter of the two common rules. The looser "fast" rule also accepts a one-label domain such as `a@x`, so the first refusal in `ExampleCredentialsRefused` holds only under the rule chosen here.
- generateToken: the JWT also carries its issue and expiry times, which are not modelled; the generator is a function of the `UserInfo` alone. So the token equalities in `TokenIgnoresPasswordHashes`, `RegisteredUserCanLogIn` and `EarlierAccountShadowsRegistration` mean the generator receives equal inputs, not that a real server returns equal tokens.
- The schema's `required` and `type: 'string'` checks: bodies are typed `Credentials` values, so a missing or non-string field cannot be written.
- Email matching in `findOne` is exact string equality. Connectors that compare case-insensitively are not modelled.
