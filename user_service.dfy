/** The user service: authentication and the account lifecycle over a shared
    user store. The store (repository plus unit of work) is the object's
    state; the hasher and the token issuer are fixed when it is constructed.
    Authentication, the lookups and the three mutating methods are proved
    equal to the matching function of `Lifecycle`; the listing is proved
    against `ListAll`. */
module UserServices {
  import opened Hashing
  import opened Accounts
  import Lifecycle

  class UserService {
    /** The durable accounts, by id. */
    var users: map<int, User>
    /** The id the store assigns to the next account it adds. */
    var nextId: int
    const hasher: Hasher
    /** The JWT handler's GenerateToken. */
    const tokens: User -> Token

    function State(): Store
      reads this
    {
      Store(users, nextId)
    }

    ghost predicate Valid()
      reads this
    {
      Accounts.Valid(State()) && Sound(hasher)
    }

    constructor (repository: Store, hasher: Hasher, tokens: User -> Token)
      requires Accounts.Valid(repository) && Sound(hasher)
      ensures Valid()
      ensures State() == repository && this.hasher == hasher && this.tokens == tokens
    {
      users, nextId := repository.users, repository.nextId;
      this.hasher, this.tokens := hasher, tokens;
    }

    method Authenticate(model: AuthenticateRequest) returns (r: Result<AuthenticateResponse>)
      requires Valid()
      ensures r == Lifecycle.Authenticate(State(), hasher, tokens, model)
      ensures r.Err? ==> r.error == InvalidCredentials
      ensures r.Ok? ==> exists id :: id in users && users[id].username == model.username
                          && r.value == Lifecycle.ResponseFor(users[id], tokens(users[id]))
    {
      var user := FindByUsername(users, model.username);
      if user.None? || !hasher.verify(model.password, user.value.passwordHash) {
        return Err(InvalidCredentials);
      }
      var token := tokens(user.value);
      return Ok(Lifecycle.ResponseFor(user.value, token));
    }

    method ListAsync() returns (r: seq<User>)
      requires Valid()
      ensures |r| == |users|
      ensures forall id :: id in users ==> users[id] in r
      ensures forall i, j :: 0 <= i < j < |r| ==> r[i].id < r[j].id
    {
      r := ListAll(users);
      ListAllInIdOrder(users);
    }

    method GetByIdAsync(id: int) returns (r: Result<User>)
      ensures r == Lifecycle.GetById(State(), id)
      ensures r.Ok? <==> id in users
      ensures r.Ok? ==> r.value == users[id]
      ensures r.Err? ==> r.error == NotFound
    {
      var user := FindById(users, id);
      if user.None? {
        return Err(NotFound);
      }
      return Ok(user.value);
    }

    method RegisterAsync(model: RegisterRequest, salt: Salt, saveError: Option<string>) returns (r: Outcome)
      requires Valid()
      modifies this
      ensures Valid()
      ensures Lifecycle.Register(old(State()), hasher, model, salt, saveError) == Lifecycle.Transition(State(), r)
      ensures ExistsByUsername(old(users), model.username) ==> r == Failed(DuplicateUsername(model.username))
      ensures r.Failed? ==> unchanged(this)
      ensures r == Done ==>
                && old(nextId) !in old(users)
                && users == old(users)[old(nextId) := User(old(nextId), model.username, hasher.hash(model.password, salt))]
                && hasher.verify(model.password, users[old(nextId)].passwordHash)
    {
      Lifecycle.RegisterKeepsValid(State(), hasher, model, salt, saveError);
      if ExistsByUsername(users, model.username) {
        return Failed(DuplicateUsername(model.username));
      }
      var user := User(0, model.username, hasher.hash(model.password, salt));
      match saveError {
        case Some(cause) =>
          return Failed(PersistenceFailure(Saving, cause));
        case None =>
          user := user.(id := nextId);
          users := users[nextId := user];
          nextId := nextId + 1;
          return Done;
      }
    }

    method UpdateAsync(id: int, model: UpdateRequest, salt: Salt, saveError: Option<string>) returns (r: Outcome)
      requires Valid()
      modifies this
      ensures Valid()
      ensures Lifecycle.Update(old(State()), hasher, id, model, salt, saveError) == Lifecycle.Transition(State(), r)
      ensures r == Failed(NotFound) <==> id !in old(users)
      ensures id in old(users) && !Lifecycle.TakenByOther(old(State()), id, model) ==>
                r == (if saveError.Some? then Failed(PersistenceFailure(Updating, saveError.value)) else Done)
      ensures r.Failed? ==> unchanged(this)
      ensures r == Done ==>
                && id in old(users)
                && users.Keys == old(users).Keys && nextId == old(nextId)
                && (Supplied(model.password) ==> hasher.verify(model.password.value, users[id].passwordHash))
                && (!Supplied(model.password) ==> users[id].passwordHash == old(users)[id].passwordHash)
    {
      Lifecycle.UpdateKeepsValid(State(), hasher, id, model, salt, saveError);
      var found := GetById(id);
      if found.Err? {
        return Failed(found.error);
      }
      var user := found.value;
      if model.username.Some? {
        var existing := FindByUsername(users, model.username.value);
        if existing.Some? && existing.value.id != user.id {
          return Failed(DuplicateUsername(model.username.value));
        }
      }
      if Supplied(model.password) {
        user := user.(passwordHash := hasher.hash(model.password.value, salt));
      }
      user := Lifecycle.ApplyUpdate(model, user);
      match saveError {
        case Some(cause) =>
          return Failed(PersistenceFailure(Updating, cause));
        case None =>
          users := users[id := user];
          return Done;
      }
    }

    method DeleteAsync(id: int, saveError: Option<string>) returns (r: Outcome)
      requires Valid()
      modifies this
      ensures Valid()
      ensures Lifecycle.Delete(old(State()), id, saveError) == Lifecycle.Transition(State(), r)
      ensures r == Failed(NotFound) <==> id !in old(users)
      ensures id in old(users) && saveError.None? ==> r == Done
      ensures r.Failed? ==> unchanged(this)
      ensures r == Done ==> users == old(users) - {id} && nextId == old(nextId)
    {
      Lifecycle.DeleteKeepsValid(State(), id, saveError);
      var found := GetById(id);
      if found.Err? {
        return Failed(found.error);
      }
      match saveError {
        case Some(cause) =>
          return Failed(PersistenceFailure(Deleting, cause));
        case None =>
          users := users - {found.value.id};
          return Done;
      }
    }

    /** The private lookup Update and Delete start with. */
    method GetById(id: int) returns (r: Result<User>)
      ensures r == Lifecycle.GetById(State(), id)
      ensures r.Ok? <==> id in users
      ensures r.Ok? ==> r.value == users[id]
      ensures r.Err? ==> r.error == NotFound
    {
      var user := FindById(users, id);
      if user.None? {
        return Err(NotFound);
      }
      return Ok(user.value);
    }
  }
}
