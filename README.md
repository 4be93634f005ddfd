# TastyPoint user service, modelled in Dafny

This project models the account service of the TastyPoint web API
(`UserService`): signing in with a username and a BCrypt-hashed password and
receiving a JWT, listing accounts, looking one up by id, registering, updating
and deleting accounts. The service keeps one invariant over the user store: no
two accounts share a username. It stores only password hashes. It turns every
failure of a repository write or of the unit-of-work commit into an
application error that carries the cause's message.

Layout:

- `hashing.dfy`, module `Hashing`: the password hasher the service is given.
  `Sound` says a digest verifies the password it was made from. `Binding` is
  an idealisation: a digest verifies no other password (real BCrypt has
  collisions and ignores password bytes past the 72nd).
- `ids.dfy`, module `Ids`: the least element of a finite set of ids. It fixes
  the order in which accounts are listed.
- `accounts.dfy`, module `Accounts`: the user entity, requests and responses,
  the four error kinds with their exact messages and .NET exception types,
  the store (`users` by id, `nextId`) with its invariant `Valid`, and the
  repository queries the service makes.
- `lifecycle.dfy`, module `Lifecycle`: each operation as a function from the
  store before to the store after plus the outcome, and the lemmas that state
  what the service promises.
- `user_service.dfy`, module `UserServices`: class `UserService`. It holds the
  store in fields `users` and `nextId`, and the injected hasher and token
  issuer. Its methods change the store step by step as the source does.
  `Authenticate`, `GetByIdAsync`, `GetById` and the three mutating methods
  are each proved equal to their `Lifecycle` function; `ListAsync` is proved
  against `ListAll`. The mutating methods are also proved to keep `Valid()`;
  the others modify nothing.

Modelling decisions:

- The exceptions the service throws itself become error values. `Raised`
  records which .NET exception type each one is: `KeyNotFoundException` for
  not-found, `AppException` for the rest. Exceptions that escape from the
  repository's reads or from BCrypt are not modelled (see "Left out").
- BCrypt and the JWT handler are foreign code, so they are not defined here.
  The service receives them as function values: a `Hasher` and
  `tokens: User -> Token`. The salt BCrypt draws at random is a parameter.
- A repository write plus its commit is one step that may fail. The parameter
  `saveError: Option<string>` is the message of the exception that step
  raises. A failed step leaves the store unchanged (the unit of work is taken
  to be atomic).
- The store assigns ids: a new account gets `nextId`.
- Usernames are compared by exact string equality. The source passes
  `model.Username` straight to the repository, so this is an assumption.
- The mapping from `UpdateRequest` to a user copies the username only when it
  is neither null nor empty. It never touches `PasswordHash`. The mapping
  configuration is not part of this model, so this is an assumption: the
  update mapping is taken to copy only supplied fields.
- `ListAsync` returns accounts in ascending id order. The repository imposes
  no order, so this is an assumption.
- No storage-level unique constraint on usernames is modelled. Uniqueness is
  checked only in the service, at lines 61 and 87-89 of `UserService.cs`.

## Model

| member | source | states |
|---|---|---|
| `Hashing.VerifyAfterHash` | TastyPoint.API/Security/Services/UserService.cs:68 | A hash made by the hasher verifies the password it was made from, for any salt |
| `Hashing.VerifyRejectsOther` | TastyPoint.API/Security/Services/UserService.cs:36 | Under the collision-free idealisation, a hash does not verify a different password |
| `Accounts.Message` | TastyPoint.API/Security/Services/UserService.cs:76-78 | A persistence failure's message ends with the message of the exception that caused it |
| `Accounts.FindById` | TastyPoint.API/Security/Services/UserService.cs:128 | Finds the account exactly when the id is stored, and returns the stored account |
| `Accounts.FindByUsername` | TastyPoint.API/Security/Services/UserService.cs:33 | With unique usernames: finds an account exactly when one has the username, and then it is that account |
| `Accounts.ListAll` | TastyPoint.API/Security/Services/UserService.cs:48 | The listing has one entry per stored account, every stored account appears, and every entry is a stored account |
| `Accounts.ListAllInIdOrder` | TastyPoint.API/Security/Services/UserService.cs:48 | When each account is stored under its own id, the listing is in strictly ascending id order |
| `Lifecycle.Authenticate` | TastyPoint.API/Security/Services/UserService.cs:30-44 | Every failure is `InvalidCredentials`; it succeeds exactly when an account with the username has a hash that verifies the password; the response is that account's projection with the token issued for that same account |
| `Lifecycle.GetById` | TastyPoint.API/Security/Services/UserService.cs:51-56 | Returns the stored account when the id exists; otherwise fails with `NotFound` |
| `Lifecycle.Register` | TastyPoint.API/Security/Services/UserService.cs:58-80 | A taken username fails as a duplicate before any change; a write or commit failure wraps its cause as a saving error; any failure leaves the store unchanged; success stores the account under the next id with the password's hash and advances the id |
| `Lifecycle.Update` | TastyPoint.API/Security/Services/UserService.cs:82-108 | It fails with `NotFound` exactly when the id is missing; for an existing account, a username owned by a different account fails as a duplicate, and otherwise the update succeeds when the save succeeds and fails with the updating error carrying the cause when it does not; any failure leaves the store unchanged; success consumes no id |
| `Lifecycle.Delete` | TastyPoint.API/Security/Services/UserService.cs:110-123 | It fails with `NotFound` exactly when the id is missing; for an existing id it succeeds when the save succeeds and fails with the deleting error carrying the cause when it does not; any failure leaves the store unchanged; success removes exactly that id |
| `Lifecycle.RegisterKeepsValid` | TastyPoint.API/Security/Services/UserService.cs:60-74 | Registration preserves the store invariant: usernames stay unique, and every account sits under its own id below `nextId` |
| `Lifecycle.UpdateKeepsValid` | TastyPoint.API/Security/Services/UserService.cs:86-100 | Update preserves the store invariant, so a rename never creates a second account with the same username |
| `Lifecycle.DeleteKeepsValid` | TastyPoint.API/Security/Services/UserService.cs:110-117 | Delete preserves the store invariant |
| `Lifecycle.RegisterAddsOneAccount` | TastyPoint.API/Security/Services/UserService.cs:64-74 | A registration with a free username and a successful save adds exactly one account under a fresh id, with the requested username and a hash that verifies the password; existing accounts are unchanged |
| `Lifecycle.RegisterTwice` | TastyPoint.API/Security/Services/UserService.cs:60-62 | Registering an already registered username fails as a duplicate whatever the save would do, and the first account keeps its hash |
| `Lifecycle.RegisterThenAuthenticate` | TastyPoint.API/Security/Services/UserService.cs:33-43 | After registering, signing in with the same username and password succeeds and returns the new account with its token |
| `Lifecycle.RegisterThenWrongPassword` | TastyPoint.API/Security/Services/UserService.cs:36-38 | After registering, under the collision-free idealisation, any other password is refused with `InvalidCredentials` |
| `Lifecycle.AuthenticateUnknownUsername` | TastyPoint.API/Security/Services/UserService.cs:33-38 | An unknown username gets the same error and message as a wrong password, never not-found |
| `Lifecycle.UpdateClash` | TastyPoint.API/Security/Services/UserService.cs:86-89 | For an existing account, update fails as a duplicate exactly when the requested username belongs to a different account |
| `Lifecycle.UpdateFollowsSave` | TastyPoint.API/Security/Services/UserService.cs:86-105 | For an existing account and a username that is free or its own, the update succeeds exactly when the save does, and otherwise fails with the updating error carrying the cause |
| `Lifecycle.UpdateChangesOnlyTarget` | TastyPoint.API/Security/Services/UserService.cs:91-100 | A successful update keeps every other account, the ids and `nextId`; a supplied username replaces the old one; with no password (null or empty) the hash is untouched; otherwise the new hash verifies the new password |
| `Lifecycle.MissingIdIsNotFound` | TastyPoint.API/Security/Services/UserService.cs:126-130 | Get, update and delete of a missing id fail with not-found whatever the save would do, never with the wrapped save error, and change nothing |
| `Lifecycle.DeleteThenGetById` | TastyPoint.API/Security/Services/UserService.cs:110-117 | After a successful delete, a lookup of that id fails with not-found; all other accounts are still found as before |
| `Lifecycle.SaveFailureCarriesCause` | TastyPoint.API/Security/Services/UserService.cs:71-122 | A write or commit failure in register, update (of an existing account with no clash) or delete (of an existing id) is an `AppException` whose message is that operation's fixed prefix ("saving", "updating", "deleting") followed by the cause's message |
| `Lifecycle.KeyNotFoundOnlyForMissingId` | TastyPoint.API/Security/Services/UserService.cs:38-129 | Get, update and delete raise `KeyNotFoundException` exactly when the id is not stored; registration and sign-in failures are always `AppException` |
| `Lifecycle.Step` | TastyPoint.API/Security/Services/UserService.cs:58-123 | Any register, update or delete call, however its save ends, takes a store that satisfies the invariant to one that does |
| `Lifecycle.Replay` | TastyPoint.API/Security/Services/UserService.cs:58-123 | After any sequence of register, update and delete calls, no two accounts share a username and every account sits under its own id |
| `UserServices.UserService.constructor` | TastyPoint.API/Security/Services/UserService.cs:21-27 | The service starts from the injected store, hasher and token issuer, with the invariant established |
| `UserServices.UserService.Authenticate` | TastyPoint.API/Security/Services/UserService.cs:30-44 | Equals `Lifecycle.Authenticate` on the current store; every failure is `InvalidCredentials`; a success is the projection of an account with that username, with the token issued for it; the store is not modified |
| `UserServices.UserService.ListAsync` | TastyPoint.API/Security/Services/UserService.cs:46-49 | Returns every stored account once, in ascending id order |
| `UserServices.UserService.GetByIdAsync` | TastyPoint.API/Security/Services/UserService.cs:51-56 | Returns the stored account for an existing id and fails with not-found otherwise, without modifying the store |
| `UserServices.UserService.GetById` | TastyPoint.API/Security/Services/UserService.cs:125-131 | The private lookup: the same result as `GetByIdAsync`, without modifying the store |
| `UserServices.UserService.RegisterAsync` | TastyPoint.API/Security/Services/UserService.cs:58-80 | Equals `Lifecycle.Register` and keeps the invariant; a taken username is refused; on failure nothing changes; on success exactly the new account is added, and its hash verifies the password |
| `UserServices.UserService.UpdateAsync` | TastyPoint.API/Security/Services/UserService.cs:82-108 | Equals `Lifecycle.Update` and keeps the invariant; not-found exactly when the id is missing; with no clash it succeeds exactly when the save does and otherwise carries the updating error with the cause; on failure nothing changes; on success the hash changes only for a non-empty password, which it then verifies |
| `UserServices.UserService.DeleteAsync` | TastyPoint.API/Security/Services/UserService.cs:110-123 | Equals `Lifecycle.Delete` and keeps the invariant; not-found exactly when the id is missing; an existing id with a successful save is deleted; on failure nothing changes; on success exactly that id is removed |

## Left out

- Asynchrony (`async`/`Task`) is left out: every operation is one atomic step.
  So is the race between two concurrent registrations of the same username.
  The model has no interleaving, so this race cannot appear in it.
- The Entity Framework repository and unit of work are not part of this
  model. They are reduced to a map with an id counter. A write and its commit
  are one step that either applies entirely or fails with a message. A
  tracked entity that is changed in memory before a failed commit is not
  modelled.
- BCrypt's hashing, salting and constant-time comparison are not defined.
  They are given by the `Hasher` value and the `Sound` and `Binding`
  properties. "Two hashes of the same password differ" depends on the random
  salt, so it is not stated.
- JWT generation (signing, claims, expiry) is not defined. It is the injected
  function `tokens`.
- AutoMapper is replaced by explicit field copies. The user's profile fields
  and any response fields besides id, username and token are not part of this
  model, because the entity and response classes are not part of it.
- Request validation (`[Required]`, `[MaxLength]`) is left out. The username
  and password of `RegisterRequest` and `AuthenticateRequest` are taken to be
  non-null strings.
  `TastyPoint.API/Publishing/Resources/SavePromotionResource.cs` only carries
  such annotations, so it is left out.
- Reads of the store and the hasher are taken never to fail. In the source,
  the repository reads (`FindByUsernameAsync` at lines 33 and 87, `ListAsync`
  at 48, `FindByIdAsync` at 53, `ExistsByUsername` at 61, `FindById` at 128)
  and BCrypt's `Verify` (line 36) and `HashPassword` (lines 68 and 93) sit
  outside every `try`. A storage fault there, or a stored hash BCrypt cannot
  parse, escapes as the raw exception rather than an `AppException`; the
  model has no such outcome.
- `TastyPoint.API/Security/Domain/Services/IUserService.cs` declares only the
  signatures that `UserService` implements. It has no behaviour of its own.
- `Lifecycle.RegisterThenWrongPassword` relies on `Binding`, an idealisation
  of BCrypt that real BCrypt does not meet. Besides ruling out hash
  collisions, it rules out BCrypt's 72-byte truncation: BCrypt reads only the
  first 72 bytes of the password's UTF-8 encoding, so two passwords that agree
  on those bytes always verify against each other's hash. For such a pair the
  source signs in with the "wrong" password.
- `Hashing.VerifyRejectsOther` relies on `Binding` in the same way and fails
  for the same pairs.
- `UserServices.UserService.ListAsync`: ascending id order is an assumption.
  The repository's own order is unspecified.
