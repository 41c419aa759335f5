/** The HTTP layer: each endpoint calls the service once and turns what it
    returned or threw into a status and a body, by the `catch` clauses it
    declares. */
module UserController {
  import opened Wrappers
  import opened Decimal
  import opened Users
  import opened Exceptions
  import opened UserRepository
  import opened UserService

  const Ok: int := 200
  const Created: int := 201
  const BadRequest: int := 400
  const NotFound: int := 404
  const InternalServerError: int := 500

  /** A response body: a user, or the text of an error message. */
  datatype Body = UserBody(user: User) | TextBody(text: string)

  /** What an endpoint does: answer with a status and an optional body, or let
      an exception no `catch` clause matches propagate to the caller. */
  datatype Reply = Respond(status: int, body: Option<Body>) | Propagate(error: Exception)

  /** The `catch` clauses of `getUser`, in order. */
  const GetUserCatches: seq<JavaClass> := [RuntimeExceptionClass]

  /** The `catch` clauses of `createUser`, in order. */
  const CreateUserCatches: seq<JavaClass> := [IllegalArgumentExceptionClass, ExceptionClass]

  /** `getUser` given what `getUserById` returned or threw. Its one clause
      catches every `RuntimeException`, so an `IllegalArgumentException` also
      answers 404. */
  function GetUser(outcome: Result<User, Exception>): (r: Reply)
    ensures outcome.Success? ==> r == Respond(Ok, Some(UserBody(outcome.value)))
    ensures outcome.Failure? && Unchecked(outcome.error) ==> r == Respond(NotFound, None)
    ensures outcome.Failure? && InstanceOf(outcome.error, IllegalArgumentExceptionClass) ==>
              r == Respond(NotFound, None)
    ensures outcome.Failure? && !Unchecked(outcome.error) ==> r == Propagate(outcome.error)
    ensures r.Respond? ==> r.status == Ok || r.status == NotFound
  {
    match outcome
    case Success(user) => Respond(Ok, Some(UserBody(user)))
    case Failure(e) =>
      match FirstCatch(GetUserCatches, e)
      case Some(_) => Respond(NotFound, None)
      case None => Propagate(e)
  }

  /** `createUser` given what `createNewUser` returned or threw. The
      `IllegalArgumentException` clause comes before the catch-all, so it
      wins for that class and the catch-all takes every other exception. */
  function CreateUser(outcome: Result<User, Exception>): (r: Reply)
    ensures outcome.Success? ==> r == Respond(Created, Some(UserBody(outcome.value)))
    ensures outcome.Failure? && InstanceOf(outcome.error, IllegalArgumentExceptionClass) ==>
              r == Respond(BadRequest, Some(TextBody(outcome.error.message)))
    ensures outcome.Failure? && !InstanceOf(outcome.error, IllegalArgumentExceptionClass) ==>
              r == Respond(InternalServerError, None)
    // nothing escapes
    ensures r.Respond? && (r.status == Created || r.status == BadRequest || r.status == InternalServerError)
  {
    match outcome
    case Success(user) => Respond(Created, Some(UserBody(user)))
    case Failure(e) =>
      match FirstCatch(CreateUserCatches, e)
      case Some(0) => Respond(BadRequest, Some(TextBody(e.message)))
      case Some(_) => Respond(InternalServerError, None)
      case None => Propagate(e)
  }

  /** One service call made by an endpoint. */
  datatype ServiceCall = GetUserByIdCall(id: Long) | CreateNewUserCall(user: User)

  /** One request handled end to end: the repository state after it, the
      service calls the endpoint made, the repository calls the service made,
      and the reply. */
  datatype Exchange = Exchange(repo: Repository, serviceCalls: seq<ServiceCall>,
                               repoCalls: seq<RepoCall>, reply: Reply)

  /** `GET /api/users/{id}` against a repository state. */
  function HandleGetUser(repo: Repository, id: Long): (x: Exchange)
    ensures x.serviceCalls == [GetUserByIdCall(id)]
    ensures x.repo == repo
    ensures x.repoCalls == [FindByIdCall(id)]
    ensures x.reply.Respond?
    ensures id in repo.users ==> x.reply == Respond(Ok, Some(UserBody(repo.users[id])))
    ensures id !in repo.users ==> x.reply == Respond(NotFound, None)
    // the body carries the requested id when stored users carry their keys
    ensures IdsMatchKeys(repo) && x.reply.status == Ok ==>
              x.reply.body.Some? && x.reply.body.value.UserBody? && x.reply.body.value.user.id == Some(id)
  {
    var run := GetUserById(repo, id);
    Exchange(run.repo, [GetUserByIdCall(id)], run.calls, GetUser(run.result))
  }

  /** `POST /api/users` against a repository state; `save` is what the
      repository's `save` returns or throws if it is called. */
  function HandleCreateUser(repo: Repository, candidate: User, save: Result<User, Exception>): (x: Exchange)
    ensures x.serviceCalls == [CreateNewUserCall(candidate)]
    ensures x.reply.Respond?
    ensures x.reply.status == Created || x.reply.status == BadRequest || x.reply.status == InternalServerError
    // a duplicate email is a 400 carrying the service's message, and nothing is saved
    ensures EmailInUse(repo, candidate.email) ==>
              && x.reply == Respond(BadRequest, Some(TextBody(EmailInUseMessage)))
              && x.repo == repo
              && x.repoCalls == [FindByEmailCall(candidate.email)]
    // a fresh email is looked up, then saved once as given
    ensures !EmailInUse(repo, candidate.email) ==>
              x.repoCalls == [FindByEmailCall(candidate.email), SaveCall(candidate)]
    // a successful save is a 201 whose body is the saved user, given the
    // default id if it came back without one
    ensures !EmailInUse(repo, candidate.email) && save.Success? ==>
              && x.reply == Respond(Created, Some(UserBody(WithDefaultId(save.value))))
              && x.reply.body.value.user.id.Some?
              && x.repo == Persist(repo, save.value)
    // a failing save is a 400 for an IllegalArgumentException, a 500 otherwise
    ensures !EmailInUse(repo, candidate.email) && save.Failure? ==>
              && x.repo == repo
              && x.reply == (if InstanceOf(save.error, IllegalArgumentExceptionClass)
                             then Respond(BadRequest, Some(TextBody(save.error.message)))
                             else Respond(InternalServerError, None))
  {
    var run := CreateNewUser(repo, candidate, save);
    Exchange(run.repo, [CreateNewUserCall(candidate)], run.calls, CreateUser(run.result))
  }

  /** The four request scenarios the controller is exercised with: a stored
      user fetched, a missing id, a fresh user created with id 5, and a
      duplicate email rejected. */
  lemma ControllerScenarios()
    ensures var stored := User(Some(1), "control_test", "control@example.com");
            HandleGetUser(Repository(map[1 := stored]), 1).reply == Respond(Ok, Some(UserBody(stored)))
    ensures HandleGetUser(Repository(map[]), 99).reply == Respond(NotFound, None)
    ensures var input := User(None, "new_control", "control_new@test.com");
            var created := User(Some(5), "new_control", "control_new@test.com");
            HandleCreateUser(Repository(map[]), input, Success(created)).reply
              == Respond(Created, Some(UserBody(created)))
    ensures var existing := User(Some(7), "other", "existing@test.com");
            HandleCreateUser(Repository(map[7 := existing]), User(None, "dup", "existing@test.com"), Failure(RuntimeException(""))).reply
              == Respond(BadRequest, Some(TextBody("Email address is already in use.")))
  {
  }
}
