/** The business rules of the user service: "fetch or fail" and "create with
    a unique email". Each operation takes the repository state and returns the
    state afterwards, the repository calls it made, and what it returned or
    threw. */
module UserService {
  import opened Wrappers
  import opened Decimal
  import opened Users
  import opened Exceptions
  import opened UserRepository

  const NotFoundPrefix: string := "User not found with ID: "
  const EmailInUseMessage: string := "Email address is already in use."
  /** The id a created user gets when `save` hands it back without one. */
  const DefaultId: Long := 99

  /** One service call: the repository state after it, the repository calls
      it made in order, and its outcome. */
  datatype Run<+T> = Run(repo: Repository, calls: seq<RepoCall>, result: Result<T, Exception>)

  /** `"User not found with ID: " + id`: the prefix followed by the id as
      Java renders a `Long`, so the id can be read back from the message. */
  function NotFoundMessage(id: Long): (m: string)
    ensures |m| > |NotFoundPrefix| && m[..|NotFoundPrefix|] == NotFoundPrefix
    ensures m[|NotFoundPrefix|..] == LongToString(id)
    ensures ParseLong(m[|NotFoundPrefix|..]) == Some(id as int)
  {
    var m := NotFoundPrefix + LongToString(id);
    assert m[|NotFoundPrefix|..] == LongToString(id);
    LongToStringRoundTrip(id);
    m
  }

  /** `getUserById(id)`: the stored user, or a `RuntimeException` naming the
      id when there is none; the repository is only read. */
  function GetUserById(repo: Repository, id: Long): (run: Run<User>)
    ensures run.repo == repo
    ensures run.calls == [FindByIdCall(id)]
    ensures run.result.Success? <==> id in repo.users
    ensures run.result.Success? ==> run.result.value == repo.users[id]
    ensures run.result.Failure? ==> run.result.error == RuntimeException(NotFoundMessage(id))
  {
    var found := FindById(repo, id);
    Run(repo, [FindByIdCall(id)],
        match found
        case Some(user) => Success(user)
        case None => Failure(RuntimeException(NotFoundMessage(id))))
  }

  /** The user `save` returned, given the default id when it came back
      without one. */
  function WithDefaultId(saved: User): (u: User)
    ensures u.id.Some?
    ensures saved.id.Some? ==> u == saved
    ensures saved.id.None? ==> u.id == Some(DefaultId)
    ensures u.username == saved.username && u.email == saved.email
  {
    if saved.id.None? then saved.(id := Some(DefaultId)) else saved
  }

  /** `createNewUser(candidate)`. `save` is what the repository's `save`
      returns or throws when it is called; it is not called at all when the
      candidate's email is already stored. */
  function CreateNewUser(repo: Repository, candidate: User, save: Result<User, Exception>): (run: Run<User>)
    // the email check always comes first
    ensures |run.calls| >= 1 && run.calls[0] == FindByEmailCall(candidate.email)
    // duplicate email: rejected, nothing saved, nothing changed
    ensures EmailInUse(repo, candidate.email) ==>
              && run.result == Failure(IllegalArgumentException(EmailInUseMessage))
              && run.calls == [FindByEmailCall(candidate.email)]
              && run.repo == repo
    // fresh email: `save` is called exactly once, with the candidate as given
    ensures !EmailInUse(repo, candidate.email) ==>
              run.calls == [FindByEmailCall(candidate.email), SaveCall(candidate)]
    // whatever `save` throws propagates unchanged
    ensures !EmailInUse(repo, candidate.email) && save.Failure? ==>
              run.result == save && run.repo == repo
    // a saved user with an id is returned as it is
    ensures !EmailInUse(repo, candidate.email) && save.Success? && save.value.id.Some? ==>
              run.result == save && run.repo == Persist(repo, save.value)
    // a saved user without one is returned with the default id
    ensures !EmailInUse(repo, candidate.email) && save.Success? && save.value.id.None? ==>
              run.result == Success(save.value.(id := Some(DefaultId))) && run.repo == repo
    // every user handed back has an id
    ensures run.result.Success? ==> run.result.value.id.Some?
  {
    var lookup := FindByEmailCall(candidate.email);
    if EmailInUse(repo, candidate.email) then
      Run(repo, [lookup], Failure(IllegalArgumentException(EmailInUseMessage)))
    else
      var calls := [lookup, SaveCall(candidate)];
      match save
      case Failure(e) => Run(repo, calls, Failure(e))
      case Success(saved) => Run(Persist(repo, saved), calls, Success(WithDefaultId(saved)))
  }

  /** `save` persists the user it is given, so a user it returns carries the
      candidate's email; whether it carries an id is not promised. */
  predicate SaveKeepsEmail(candidate: User, save: Result<User, Exception>) {
    save.Success? ==> save.value.email == candidate.email
  }

  /** Creating a user keeps emails unique and ids matching their keys,
      provided the user `save` returns has the candidate's email. */
  lemma CreatePreservesConsistency(repo: Repository, candidate: User, save: Result<User, Exception>)
    requires Consistent(repo)
    requires SaveKeepsEmail(candidate, save)
    ensures Consistent(CreateNewUser(repo, candidate, save).repo)
  {
  }

  /** A created user whose id `save` assigned can be fetched back by that id. */
  lemma CreateThenGet(repo: Repository, candidate: User, save: Result<User, Exception>)
    requires !EmailInUse(repo, candidate.email)
    requires save.Success? && save.value.id.Some?
    ensures var run := CreateNewUser(repo, candidate, save);
            && run.result.Success?
            && GetUserById(run.repo, run.result.value.id.value).result == run.result
  {
  }

  /** The default id is not stored: when `save` returns a user without an id
      and nothing is stored under the default id, fetching the created user's
      id fails. */
  lemma DefaultIdNotStored(repo: Repository, candidate: User, save: Result<User, Exception>)
    requires !EmailInUse(repo, candidate.email)
    requires save.Success? && save.value.id.None?
    requires DefaultId !in repo.users
    ensures var run := CreateNewUser(repo, candidate, save);
            && run.result.Success? && run.result.value.id == Some(DefaultId)
            && GetUserById(run.repo, DefaultId).result.Failure?
  {
  }

  /** Once a candidate is created and stored under the id `save` assigned,
      creating it again is rejected as a duplicate, whatever `save` would do,
      and changes nothing. */
  lemma CreateTwiceRejected(repo: Repository, candidate: User, save: Result<User, Exception>,
                            again: Result<User, Exception>)
    requires SaveKeepsEmail(candidate, save)
    requires save.Success? ==> save.value.id.Some?
    requires CreateNewUser(repo, candidate, save).result.Success?
    ensures var after := CreateNewUser(repo, candidate, save).repo;
            var second := CreateNewUser(after, candidate, again);
            && second.result == Failure(IllegalArgumentException(EmailInUseMessage))
            && second.repo == after
  {
  }
}
