/** What each operation of the user service does to the store, as functions
    from the store before the call to the store after it and the outcome the
    caller sees; and the properties the service promises, as lemmas over them.

    The parameters stand for what the service cannot compute itself: the
    hasher and the token issuer it was constructed with, the salt BCrypt
    draws, and `saveError`, the message of the exception the repository write
    or the commit raises (`None` when both succeed). A failed write or commit
    leaves the store as it was. */
module Lifecycle {
  import opened Hashing
  import opened Accounts

  datatype Transition = Transition(after: Store, outcome: Outcome)

  /** The response projection: the account without its hash, and a token. */
  function ResponseFor(user: User, token: Token): AuthenticateResponse
  {
    AuthenticateResponse(user.id, user.username, token)
  }

  // ------------------------------------------------------------ operations

  /** Sign-in. An unknown username and a wrong password give the same error;
      a sign-in that succeeds answers for the account found, with the token
      issued for that account. */
  function Authenticate(s: Store, h: Hasher, tokens: User -> Token, model: AuthenticateRequest)
    : (r: Result<AuthenticateResponse>)
    requires UniqueUsernames(s.users)
    ensures r.Err? ==> r.error == InvalidCredentials
    ensures r.Ok? <==> exists id :: id in s.users && s.users[id].username == model.username
                                 && h.verify(model.password, s.users[id].passwordHash)
    ensures forall id :: id in s.users && s.users[id].username == model.username ==>
              (r.Ok? <==> h.verify(model.password, s.users[id].passwordHash)) &&
              (r.Ok? ==> r.value == ResponseFor(s.users[id], tokens(s.users[id])))
  {
    match FindByUsername(s.users, model.username)
    case None => Err(InvalidCredentials)
    case Some(user) =>
      if !h.verify(model.password, user.passwordHash) then
        Err(InvalidCredentials)
      else
        Ok(ResponseFor(user, tokens(user)))
  }

  /** Lookup by id. */
  function GetById(s: Store, id: int): (r: Result<User>)
    ensures r.Ok? <==> id in s.users
    ensures r.Ok? ==> r.value == s.users[id]
    ensures r.Err? ==> r.error == NotFound
  {
    match FindById(s.users, id)
    case None => Err(NotFound)
    case Some(user) => Ok(user)
  }

  /** Registration: the username must be free; the account is stored with
      the hash of the password, under the id the store assigns. */
  function Register(s: Store, h: Hasher, model: RegisterRequest, salt: Salt, saveError: Option<string>)
    : (r: Transition)
    ensures r.outcome.Failed? ==> r.after == s
    ensures ExistsByUsername(s.users, model.username) ==>
              r.outcome == Failed(DuplicateUsername(model.username))
    ensures !ExistsByUsername(s.users, model.username) && saveError.Some? ==>
              r.outcome == Failed(PersistenceFailure(Saving, saveError.value))
    ensures r.outcome.Done? ==>
              && r.after.users == s.users[s.nextId := User(s.nextId, model.username, h.hash(model.password, salt))]
              && r.after.nextId == s.nextId + 1
  {
    if ExistsByUsername(s.users, model.username) then
      Transition(s, Failed(DuplicateUsername(model.username)))
    else
      var user := User(s.nextId, model.username, h.hash(model.password, salt));
      match saveError
      case Some(cause) => Transition(s, Failed(PersistenceFailure(Saving, cause)))
      case None => Transition(Store(s.users[s.nextId := user], s.nextId + 1), Done)
  }

  /** The username `model` asks for belongs to an account other than `id`. */
  predicate TakenByOther(s: Store, id: int, model: UpdateRequest)
    requires UniqueUsernames(s.users)
  {
    model.username.Some? &&
    match FindByUsername(s.users, model.username.value)
    case None => false
    case Some(owner) => owner.id != id
  }

  /** The mapping of an update request onto an account: a supplied username
      replaces the stored one; id and hash are left alone. */
  function ApplyUpdate(model: UpdateRequest, user: User): User
  {
    if Supplied(model.username) then user.(username := model.username.value) else user
  }

  /** Update: the account must exist, and the requested username must not
      belong to another account; a supplied password is re-hashed. */
  function Update(s: Store, h: Hasher, id: int, model: UpdateRequest, salt: Salt, saveError: Option<string>)
    : (r: Transition)
    requires UniqueUsernames(s.users)
    ensures r.outcome.Failed? ==> r.after == s
    ensures r.outcome == Failed(NotFound) <==> id !in s.users
    ensures id in s.users && TakenByOther(s, s.users[id].id, model) ==>
              r.outcome == Failed(DuplicateUsername(model.username.value))
    ensures id in s.users && !TakenByOther(s, s.users[id].id, model) ==>
              r.outcome == (if saveError.Some? then Failed(PersistenceFailure(Updating, saveError.value)) else Done)
    ensures r.outcome.Done? ==> r.after.nextId == s.nextId
  {
    match FindById(s.users, id)
    case None => Transition(s, Failed(NotFound))
    case Some(user) =>
      if TakenByOther(s, user.id, model) then
        Transition(s, Failed(DuplicateUsername(model.username.value)))
      else
        var rehashed :=
          if Supplied(model.password) then user.(passwordHash := h.hash(model.password.value, salt)) else user;
        var updated := ApplyUpdate(model, rehashed);
        match saveError
        case Some(cause) => Transition(s, Failed(PersistenceFailure(Updating, cause)))
        case None => Transition(Store(s.users[id := updated], s.nextId), Done)
  }

  /** Delete: the account must exist; it is removed. */
  function Delete(s: Store, id: int, saveError: Option<string>): (r: Transition)
    ensures r.outcome.Failed? ==> r.after == s
    ensures r.outcome == Failed(NotFound) <==> id !in s.users
    ensures id in s.users && saveError.Some? ==> r.outcome == Failed(PersistenceFailure(Deleting, saveError.value))
    ensures id in s.users && saveError.None? ==> r.outcome == Done
    ensures r.outcome.Done? ==> r.after == Store(s.users - {id}, s.nextId)
  {
    match FindById(s.users, id)
    case None => Transition(s, Failed(NotFound))
    case Some(_) =>
      match saveError
      case Some(cause) => Transition(s, Failed(PersistenceFailure(Deleting, cause)))
      case None => Transition(Store(s.users - {id}, s.nextId), Done)
  }

  // ------------------------------------------------------- the invariant

  lemma RegisterKeepsValid(s: Store, h: Hasher, model: RegisterRequest, salt: Salt, saveError: Option<string>)
    requires Valid(s)
    ensures Valid(Register(s, h, model, salt, saveError).after)
  {
  }

  lemma UpdateKeepsValid(s: Store, h: Hasher, id: int, model: UpdateRequest, salt: Salt, saveError: Option<string>)
    requires Valid(s)
    ensures Valid(Update(s, h, id, model, salt, saveError).after)
  {
  }

  lemma DeleteKeepsValid(s: Store, id: int, saveError: Option<string>)
    requires Valid(s)
    ensures Valid(Delete(s, id, saveError).after)
  {
  }

  // --------------------------------------------------------- registration

  /** A registration with a free username and a successful save adds exactly
      one account, under a fresh id, whose hash verifies the password; every
      other account is as it was. */
  lemma RegisterAddsOneAccount(s: Store, h: Hasher, model: RegisterRequest, salt: Salt)
    requires Valid(s) && Sound(h)
    requires !ExistsByUsername(s.users, model.username)
    ensures var r := Register(s, h, model, salt, None);
      && r.outcome == Done
      && s.nextId !in s.users
      && r.after.users.Keys == s.users.Keys + {s.nextId}
      && |r.after.users| == |s.users| + 1
      && r.after.users[s.nextId].username == model.username
      && h.verify(model.password, r.after.users[s.nextId].passwordHash)
      && forall id :: id in s.users ==> r.after.users[id] == s.users[id]
  {
  }

  /** The first registration of a username succeeds; a second one with the
      same username is refused and leaves the first account's hash intact. */
  lemma RegisterTwice(s: Store, h: Hasher, first: RegisterRequest, second: RegisterRequest,
                      salt1: Salt, salt2: Salt, saveError: Option<string>)
    requires Valid(s)
    requires !ExistsByUsername(s.users, first.username)
    requires second.username == first.username
    ensures var s1 := Register(s, h, first, salt1, None).after;
      var r2 := Register(s1, h, second, salt2, saveError);
      && r2.outcome == Failed(DuplicateUsername(first.username))
      && r2.after.users[s.nextId].passwordHash == h.hash(first.password, salt1)
  {
    var s1 := Register(s, h, first, salt1, None).after;
    assert s1.users[s.nextId].username == second.username;
  }

  /** A registered account can sign in with the password it registered with,
      and gets the token issued for the stored account. */
  lemma RegisterThenAuthenticate(s: Store, h: Hasher, tokens: User -> Token, model: RegisterRequest, salt: Salt)
    requires Valid(s) && Sound(h)
    requires !ExistsByUsername(s.users, model.username)
    ensures var after := Register(s, h, model, salt, None).after;
      UniqueUsernames(after.users) &&
      Authenticate(after, h, tokens, AuthenticateRequest(model.username, model.password))
        == Ok(ResponseFor(after.users[s.nextId], tokens(after.users[s.nextId])))
  {
  }

  /** With a collision-free hasher, any other password is refused, with the
      same error an unknown username gets. */
  lemma RegisterThenWrongPassword(s: Store, h: Hasher, tokens: User -> Token, model: RegisterRequest,
                                  salt: Salt, other: string)
    requires Valid(s) && Binding(h)
    requires !ExistsByUsername(s.users, model.username)
    requires other != model.password
    ensures var after := Register(s, h, model, salt, None).after;
      UniqueUsernames(after.users) &&
      Authenticate(after, h, tokens, AuthenticateRequest(model.username, other)) == Err(InvalidCredentials)
  {
  }

  /** A username nobody has is refused with the error a wrong password gets,
      not with not-found. */
  lemma AuthenticateUnknownUsername(s: Store, h: Hasher, tokens: User -> Token, model: AuthenticateRequest)
    requires UniqueUsernames(s.users)
    requires !ExistsByUsername(s.users, model.username)
    ensures Authenticate(s, h, tokens, model) == Err(InvalidCredentials)
  {
  }

  // --------------------------------------------------------------- update

  /** An update is refused as a duplicate exactly when the account exists and
      the requested username belongs to a different account; keeping the
      account's own username is not a clash. */
  lemma UpdateClash(s: Store, h: Hasher, id: int, model: UpdateRequest, salt: Salt, saveError: Option<string>)
    requires Valid(s)
    requires id in s.users
    ensures var r := Update(s, h, id, model, salt, saveError);
      (r.outcome.Failed? && r.outcome.error.DuplicateUsername?)
        <==> (model.username.Some? &&
              exists other :: other in s.users && other != id && s.users[other].username == model.username.value)
  {
  }

  /** An update that succeeds changes only the addressed account: its id
      stays, a supplied username replaces the old one, and the hash is
      replaced exactly when a non-empty password is supplied, by one that
      verifies that password. */
  lemma UpdateChangesOnlyTarget(s: Store, h: Hasher, id: int, model: UpdateRequest, salt: Salt)
    requires Valid(s) && Sound(h)
    requires Update(s, h, id, model, salt, None).outcome == Done
    ensures var after := Update(s, h, id, model, salt, None).after;
      && id in s.users
      && after.users.Keys == s.users.Keys
      && after.nextId == s.nextId
      && (forall other :: other in s.users && other != id ==> after.users[other] == s.users[other])
      && after.users[id].id == id
      && after.users[id].username == (if Supplied(model.username) then model.username.value else s.users[id].username)
      && (!Supplied(model.password) ==> after.users[id].passwordHash == s.users[id].passwordHash)
      && (Supplied(model.password) ==> h.verify(model.password.value, after.users[id].passwordHash))
  {
  }

  // ------------------------------------------------------ missing ids, delete

  /** Get, update and delete of a missing id fail with not-found, whatever the
      write or commit would have done, and change nothing. */
  lemma MissingIdIsNotFound(s: Store, h: Hasher, id: int, model: UpdateRequest, salt: Salt, saveError: Option<string>)
    requires UniqueUsernames(s.users)
    requires id !in s.users
    ensures GetById(s, id) == Err(NotFound)
    ensures Update(s, h, id, model, salt, saveError) == Transition(s, Failed(NotFound))
    ensures Delete(s, id, saveError) == Transition(s, Failed(NotFound))
  {
  }

  /** After a successful delete, the account can no longer be found, and all
      other accounts are still there. */
  lemma DeleteThenGetById(s: Store, id: int)
    requires Delete(s, id, None).outcome == Done
    ensures var after := Delete(s, id, None).after;
      && GetById(after, id) == Err(NotFound)
      && after.users.Keys == s.users.Keys - {id}
      && forall other :: other in after.users ==> GetById(after, other) == GetById(s, other)
  {
  }

  /** A write or commit failure surfaces as the persistence error of the
      operation that was writing, raised as an `AppException` whose message is
      that operation's fixed prefix followed by the cause's message. */
  lemma SaveFailureCarriesCause(s: Store, h: Hasher, model: RegisterRequest, id: int, update: UpdateRequest,
                                salt: Salt, cause: string)
    requires UniqueUsernames(s.users)
    ensures !ExistsByUsername(s.users, model.username) ==>
      var r := Register(s, h, model, salt, Some(cause));
      && r.outcome == Failed(PersistenceFailure(Saving, cause))
      && Raised(r.outcome.error) == AppException
      && Message(r.outcome.error) == "An error occurred while saving the user: " + cause
    ensures id in s.users && !TakenByOther(s, s.users[id].id, update) ==>
      var r := Update(s, h, id, update, salt, Some(cause));
      && r.outcome == Failed(PersistenceFailure(Updating, cause))
      && Raised(r.outcome.error) == AppException
      && Message(r.outcome.error) == "An error occurred while updating the user: " + cause
    ensures id in s.users ==>
      var r := Delete(s, id, Some(cause));
      && r.outcome == Failed(PersistenceFailure(Deleting, cause))
      && Raised(r.outcome.error) == AppException
      && Message(r.outcome.error) == "An error occurred while deleting the user: " + cause
  {
    if !ExistsByUsername(s.users, model.username) {
      RegisterSaveFailure(s, h, model, salt, cause);
    }
    if id in s.users && !TakenByOther(s, s.users[id].id, update) {
      UpdateSaveFailure(s, h, id, update, salt, cause);
    }
    if id in s.users {
      DeleteSaveFailure(s, id, cause);
    }
  }

  /** The three branches of the lemma above, one operation at a time, so that
      each unfolds only its own operation and message. */
  lemma RegisterSaveFailure(s: Store, h: Hasher, model: RegisterRequest, salt: Salt, cause: string)
    requires !ExistsByUsername(s.users, model.username)
    ensures var r := Register(s, h, model, salt, Some(cause));
      && r.outcome == Failed(PersistenceFailure(Saving, cause))
      && Raised(r.outcome.error) == AppException
      && Message(r.outcome.error) == "An error occurred while saving the user: " + cause
  {
  }

  lemma UpdateSaveFailure(s: Store, h: Hasher, id: int, update: UpdateRequest, salt: Salt, cause: string)
    requires UniqueUsernames(s.users)
    requires id in s.users && !TakenByOther(s, s.users[id].id, update)
    ensures var r := Update(s, h, id, update, salt, Some(cause));
      && r.outcome == Failed(PersistenceFailure(Updating, cause))
      && Raised(r.outcome.error) == AppException
      && Message(r.outcome.error) == "An error occurred while updating the user: " + cause
  {
  }

  lemma DeleteSaveFailure(s: Store, id: int, cause: string)
    requires id in s.users
    ensures var r := Delete(s, id, Some(cause));
      && r.outcome == Failed(PersistenceFailure(Deleting, cause))
      && Raised(r.outcome.error) == AppException
      && Message(r.outcome.error) == "An error occurred while deleting the user: " + cause
  {
  }

  /** Only a lookup of a missing id raises `KeyNotFoundException`: get, update
      and delete raise it exactly when the id is not stored, while
      registration and sign-in only ever raise `AppException`. */
  lemma KeyNotFoundOnlyForMissingId(s: Store, h: Hasher, tokens: User -> Token, id: int, update: UpdateRequest,
                                    register: RegisterRequest, login: AuthenticateRequest,
                                    salt: Salt, saveError: Option<string>)
    requires UniqueUsernames(s.users)
    ensures var r := GetById(s, id);
      r.Err? && Raised(r.error) == KeyNotFoundException <==> id !in s.users
    ensures var r := Update(s, h, id, update, salt, saveError);
      r.outcome.Failed? && Raised(r.outcome.error) == KeyNotFoundException <==> id !in s.users
    ensures var r := Delete(s, id, saveError);
      r.outcome.Failed? && Raised(r.outcome.error) == KeyNotFoundException <==> id !in s.users
    ensures var r := Register(s, h, register, salt, saveError);
      r.outcome.Failed? ==> Raised(r.outcome.error) == AppException
    ensures var r := Authenticate(s, h, tokens, login);
      r.Err? ==> Raised(r.error) == AppException
  {
  }

  /** With no clash, an update of an existing account ends as its save does:
      it succeeds when the save succeeds and otherwise fails with the updating
      error that carries the cause. */
  lemma UpdateFollowsSave(s: Store, h: Hasher, id: int, model: UpdateRequest, salt: Salt, saveError: Option<string>)
    requires Valid(s)
    requires id in s.users
    requires !model.username.Some? || forall other :: other in s.users && s.users[other].username == model.username.value ==> other == id
    ensures var r := Update(s, h, id, model, salt, saveError);
      r.outcome == (if saveError.None? then Done else Failed(PersistenceFailure(Updating, saveError.value)))
  {
  }

  // ------------------------------------------------------ any sequence of calls

  /** A call to one of the mutating operations, with what the environment
      decides for it: the salt drawn and how the save ends. */
  datatype Call =
    | RegisterCall(model: RegisterRequest, salt: Salt, saveError: Option<string>)
    | UpdateCall(id: int, update: UpdateRequest, salt: Salt, saveError: Option<string>)
    | DeleteCall(id: int, saveError: Option<string>)

  /** One call, from a store that satisfies the invariant to one that does. */
  function Step(s: Store, h: Hasher, call: Call): (r: Transition)
    requires Valid(s)
    ensures Valid(r.after)
  {
    match call
    case RegisterCall(model, salt, saveError) => Register(s, h, model, salt, saveError)
    case UpdateCall(id, update, salt, saveError) => Update(s, h, id, update, salt, saveError)
    case DeleteCall(id, saveError) => Delete(s, id, saveError)
  }

  /** The store after a sequence of calls, each applied to the store the one
      before it left. Whatever the calls and however their saves end, no two
      accounts ever share a username. */
  function Replay(s: Store, h: Hasher, calls: seq<Call>): (r: Store)
    requires Valid(s)
    ensures Valid(r)
    decreases |calls|
  {
    if calls == [] then s else Replay(Step(s, h, calls[0]).after, h, calls[1..])
  }
}
