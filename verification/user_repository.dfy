/** The persistence gateway the service depends on. The code declares only
    its interface; here its state is an immutable map from id to stored user,
    and every call the service makes on it is recorded. */
module UserRepository {
  import opened Wrappers
  import opened Decimal
  import opened Users

  datatype Repository = Repository(users: map<Long, User>)

  /** One call on the repository interface. */
  datatype RepoCall = FindByIdCall(id: Long) | FindByEmailCall(email: string) | SaveCall(user: User)

  /** `findById(id)`: the user stored under `id`, if any. */
  function FindById(repo: Repository, id: Long): (r: Option<User>)
    ensures r.Some? <==> id in repo.users
    ensures r.Some? ==> r.value == repo.users[id]
  {
    if id in repo.users then Some(repo.users[id]) else None
  }

  /** Some stored user has this email. */
  predicate EmailInUse(repo: Repository, email: string) {
    exists id :: id in repo.users && repo.users[id].email == email
  }

  /** `findByEmail(email)`: a search over the stored users for one with this
      email. */
  method FindByEmail(repo: Repository, email: string) returns (r: Option<User>)
    ensures r.Some? <==> EmailInUse(repo, email)
    ensures r.Some? ==> r.value in repo.users.Values && r.value.email == email
  {
    var unseen := repo.users.Keys;
    while unseen != {}
      invariant unseen <= repo.users.Keys
      invariant forall id :: id in repo.users && id !in unseen ==> repo.users[id].email != email
      decreases unseen
    {
      var id :| id in unseen;
      if repo.users[id].email == email {
        return Some(repo.users[id]);
      }
      unseen := unseen - {id};
    }
    return None;
  }

  /** The state after `save` returned `saved`: a user that carries an id is
      stored under it, replacing whatever was there; one without an id has no
      key to be found by and leaves the map as it was. */
  function Persist(repo: Repository, saved: User): (after: Repository)
    ensures saved.id.Some? ==> FindById(after, saved.id.value) == Some(saved)
    ensures forall id: Long :: saved.id != Some(id) ==> FindById(after, id) == FindById(repo, id)
  {
    match saved.id
    case Some(k) => Repository(repo.users[k := saved])
    case None => repo
  }

  /** Every stored user carries the id it is stored under. */
  predicate IdsMatchKeys(repo: Repository) {
    forall id :: id in repo.users ==> repo.users[id].id == Some(id)
  }

  /** No two stored users share an email. */
  predicate EmailsUnique(repo: Repository) {
    forall a, b :: a in repo.users && b in repo.users && repo.users[a].email == repo.users[b].email ==> a == b
  }

  /** The state the service layer maintains (see `CreatePreservesConsistency`). */
  predicate Consistent(repo: Repository) {
    IdsMatchKeys(repo) && EmailsUnique(repo)
  }
}
