/** Accounts as the user service sees them: the user entity, the request and
    response shapes, the error taxonomy with its messages, and the user store
    behind the repository with the queries the service makes of it. */
module Accounts {
  import opened Hashing
  import opened Ids

  datatype Option<+T> = None | Some(value: T)

  /** A signed access token, opaque to this service. */
  type Token = string

  /** A stored account. `id` is assigned by the store when the account is
      added; `passwordHash` is the only trace of the password that is kept. */
  datatype User = User(id: int, username: string, passwordHash: Digest)

  datatype AuthenticateRequest = AuthenticateRequest(username: string, password: string)

  /** What a successful sign-in returns: the account without its hash, plus
      the token issued for it. */
  datatype AuthenticateResponse = AuthenticateResponse(id: int, username: string, token: Token)

  datatype RegisterRequest = RegisterRequest(username: string, password: string)

  /** Both fields may be null (`None`); an empty or null field is "not supplied". */
  datatype UpdateRequest = UpdateRequest(username: Option<string>, password: Option<string>)

  /** `string.IsNullOrEmpty` negated. */
  predicate Supplied(field: Option<string>)
  {
    field.Some? && field.value != ""
  }

  // ---------------------------------------------------------------- errors

  /** The write a persistence failure interrupted; it selects the wording. */
  datatype WriteAction = Saving | Updating | Deleting

  datatype AppError =
    | InvalidCredentials
    | NotFound
    | DuplicateUsername(username: string)
    | PersistenceFailure(action: WriteAction, cause: string)

  /** The .NET exception type each error is raised as. */
  datatype ExceptionType = AppException | KeyNotFoundException

  function Raised(e: AppError): ExceptionType
  {
    if e.NotFound? then KeyNotFoundException else AppException
  }

  function ActionWord(action: WriteAction): string
  {
    match action
    case Saving => "saving"
    case Updating => "updating"
    case Deleting => "deleting"
  }

  /** The message each error carries. A persistence failure ends with the
      message of the exception that caused it. */
  function Message(e: AppError): (m: string)
    ensures e.PersistenceFailure? ==> |e.cause| <= |m| && m[|m| - |e.cause|..] == e.cause
  {
    match e
    case InvalidCredentials => "Username or password is incorrect"
    case NotFound => "User not found"
    case DuplicateUsername(name) => "Username '" + name + "' is already taken"
    case PersistenceFailure(action, cause) =>
      "An error occurred while " + ActionWord(action) + " the user: " + cause
  }

  /** The result of an operation that returns a value, or of one that does not. */
  datatype Result<+T> = Ok(value: T) | Err(error: AppError)
  datatype Outcome = Done | Failed(error: AppError)

  // ----------------------------------------------------------------- store

  /** The durable user store behind the repository and unit of work: users by
      id, and the id the store will assign to the next account it adds. */
  datatype Store = Store(users: map<int, User>, nextId: int)

  /** No two stored accounts share a username (compared exactly). */
  ghost predicate UniqueUsernames(users: map<int, User>)
  {
    forall i, j :: i in users && j in users && users[i].username == users[j].username ==> i == j
  }

  /** Every account sits under its own id, ids below `nextId` are the only
      ones handed out, and usernames are unique. */
  ghost predicate Valid(s: Store)
  {
    && (forall id :: id in s.users ==> s.users[id].id == id && id < s.nextId)
    && UniqueUsernames(s.users)
  }

  // ------------------------------------------------------ repository queries

  /** FindById / FindByIdAsync. */
  function FindById(users: map<int, User>, id: int): (r: Option<User>)
    ensures r.Some? <==> id in users
    ensures r.Some? ==> r.value == users[id]
  {
    if id in users then Some(users[id]) else None
  }

  /** ExistsByUsername. */
  predicate ExistsByUsername(users: map<int, User>, username: string)
  {
    exists id :: id in users && users[id].username == username
  }

  /** FindByUsernameAsync: the one account with that username, if any. */
  function FindByUsername(users: map<int, User>, username: string): (r: Option<User>)
    requires UniqueUsernames(users)
    ensures r.Some? <==> ExistsByUsername(users, username)
    ensures forall id :: id in users && users[id].username == username ==> r == Some(users[id])
  {
    if ExistsByUsername(users, username) then
      var id :| id in users && users[id].username == username;
      Some(users[id])
    else
      None
  }

  /** ListAsync: every stored account exactly once, in ascending id order. */
  function ListAll(users: map<int, User>): (r: seq<User>)
    ensures |r| == |users|
    ensures forall id :: id in users ==> users[id] in r
    ensures forall i :: 0 <= i < |r| ==> r[i] in users.Values
    decreases |users|
  {
    if |users| == 0 then
      []
    else
      var least := Least(users.Keys);
      var rest := users - {least};
      assert rest.Keys == users.Keys - {least};
      var r := [users[least]] + ListAll(rest);
      assert forall id :: id in users ==> id == least || (id in rest && rest[id] == users[id]);
      assert forall id :: id in users ==> users[id] in r;
      r
  }

  predicate AscendingIds(list: seq<User>)
  {
    forall i, j :: 0 <= i < j < |list| ==> list[i].id < list[j].id
  }

  lemma PrependAscending(first: User, list: seq<User>)
    requires AscendingIds(list)
    requires forall j :: 0 <= j < |list| ==> first.id < list[j].id
    ensures AscendingIds([first] + list)
  {
  }

  /** When every account sits under its own id, the listing is in strictly
      ascending id order. */
  lemma {:induction false} ListAllInIdOrder(users: map<int, User>)
    requires forall id :: id in users ==> users[id].id == id
    ensures AscendingIds(ListAll(users))
    decreases |users|
  {
    if |users| == 0 {
      assert ListAll(users) == [];
      assert AscendingIds([]);
    } else {
      var least := Least(users.Keys);
      var rest := users - {least};
      assert rest.Keys == users.Keys - {least};
      ListAllInIdOrder(rest);
      assert ListAll(users) == [users[least]] + ListAll(rest);
      var tail := ListAll(rest);
      forall j | 0 <= j < |tail|
        ensures least < tail[j].id
      {
        assert tail[j] in rest.Values;
        var k :| k in rest && rest[k] == tail[j];
        assert k in users && k != least;
      }
      PrependAscending(users[least], tail);
    }
  }
}
