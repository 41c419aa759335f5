# User service and controller: a verified model

This project models the decision logic of a small user-management HTTP
service: the `UserService` business rules ("fetch a user or fail", "create a
user whose email is not yet registered") and the `UserController` mapping of
each service outcome to an HTTP status and body.

Everything is a value. The repository (`UserRepository`, an interface with no
implementation in the code) is an immutable map from id to stored user; each
service operation takes that state and returns the state afterwards, the
repository calls it made in order, and what it returned or threw. Java
exceptions are values carrying their run-time class and message, and a
`try` statement's `catch` clauses are modelled by the rule Java applies: the
first clause whose class the exception is an instance of handles it.

Modules, leaf first:

- `Wrappers` (`wrappers.dfy`): `Option` (`java.util.Optional`, or a nullable
  reference) and `Result` (a returned value or a thrown exception).
- `Decimal` (`decimal.dfy`): Java's 64-bit `long` and `Long.toString`, which
  string concatenation uses for `"User not found with ID: " + id`, with a
  parser and a round-trip proof.
- `Users` (`users.dfy`): the `User` record (`id` absent until saved,
  `username`, `email`).
- `Exceptions` (`exceptions.dfy`): `Exception`, `RuntimeException`,
  `IllegalArgumentException`, `instanceof`, and `catch` clause selection.
- `UserRepository` (`user_repository.dfy`): `findById`, `findByEmail`, the
  effect of `save`, and the consistency the service maintains (`CreatePreservesConsistency`) (stored users
  carry the id they are stored under; no two share an email).
- `UserService` (`user_service.dfy`): `getUserById`, `createNewUser` and the
  properties relating them.
- `UserController` (`user_controller.dfy`): `getUser`, `createUser`, and the
  two endpoints composed with the service.

The repository's `save` is external: what it returns or throws when called is
a parameter (`save`) of `CreateNewUser`. `CreateNewUser` branches on
`EmailInUse`, the predicate `FindByEmail`'s result is proved to decide
(present exactly when some stored user has the email).

Notes on the code's behaviour:

- `getUser` catches every `RuntimeException`, so an
  `IllegalArgumentException` from the service also answers 404, and no
  failure of `getUserById` answers 500; only an exception that is not a
  `RuntimeException` would escape (`Propagate`), and `getUserById` throws none.
- `createNewUser` does not return `save`'s result unchanged in every case:
  a user returned without an id gets id 99. In the model, that id is not
  stored (the model returns an updated copy; see the aliasing entry under
  "Left out"), so a created user can be fetched back by its id only when
  `save` assigned the id (`CreateThenGet` versus `DefaultIdNotStored`).
- A failure thrown by `save` propagates as it is; if it is an
  `IllegalArgumentException`, `createUser` answers 400 with its message,
  otherwise 500.

## Model

| member | source | states |
|---|---|---|
| Decimal.NatToDecimal | UserService.java:22 | the decimal rendering of a magnitude is a non-empty string of digits that starts with '0' exactly when the number is zero, and is exactly "0" for zero |
| Decimal.LongToString | UserService.java:22 | `Long.toString` starts with '-' exactly for negative values, followed by digits with no leading zero; zero is exactly "0" |
| Decimal.NatToDecimalRoundTrip | UserService.java:22 | reading the decimal digits of a number back gives the number |
| Decimal.LongToStringRoundTrip | UserService.java:22 | parsing `Long.toString(n)` gives back `n`, for every 64-bit value |
| Decimal.LongToStringInjective | UserService.java:22 | two ids with the same rendering are the same id |
| Exceptions.RuntimeException | UserService.java:22 | a `RuntimeException` is unchecked, is not an `IllegalArgumentException`, and carries its message |
| Exceptions.IllegalArgumentException | UserService.java:36 | an `IllegalArgumentException` is also a `RuntimeException` and carries its message |
| Exceptions.FirstCatch | UserController.java:18-39 | the chosen catch clause is one the exception is an instance of and no earlier clause matches; none is chosen exactly when no clause matches |
| UserRepository.FindById | UserRepository.java:5-6 | `findById` finds a user exactly when one is stored under the id, and what it finds is the user stored under the id |
| UserRepository.FindByEmail | UserRepository.java:11-12 | `findByEmail` finds a user exactly when some stored user has the email, and what it finds is a stored user with that email |
| UserRepository.Persist | UserRepository.java:8-9 | after `save` returns a user with an id, `findById` on that id gives that user, and every other id finds what it found before |
| UserService.NotFoundMessage | UserService.java:22 | the not-found message is "User not found with ID: " followed by `Long.toString(id)`, which parses back to the requested id |
| UserService.GetUserById | UserService.java:20-23 | succeeds exactly when the id is stored, with the stored user; otherwise throws a `RuntimeException` with the not-found message; one `findById` call and the state is unchanged |
| UserService.WithDefaultId | UserService.java:43-45 | the returned user always has an id: the saved one's if present, otherwise 99, with username and email kept |
| UserService.CreateNewUser | UserService.java:31-48 | a stored email is rejected with `IllegalArgumentException("Email address is already in use.")` before any save and with the state unchanged; otherwise `save` is called once with the candidate, its failure propagates, its user is returned as it is when it has an id and with id 99 when not; every returned user has an id; the state afterwards holds the saved user under its id, and is unchanged when `save` throws or returns no id |
| UserService.CreatePreservesConsistency | UserService.java:33-40 | when the user `save` returns has the candidate's email (with or without an id), creating a user keeps emails unique and every stored user's id equal to its key |
| UserService.CreateThenGet | UserService.java:40-47 | a user whose id `save` assigned can be fetched back by that id, equal to what was returned |
| UserService.DefaultIdNotStored | UserService.java:43-45 | a user patched with id 99 is not stored under 99, so fetching 99 fails when nothing else is stored there |
| UserService.CreateTwiceRejected | UserService.java:33-37 | once a candidate is created and stored under the id `save` assigned, creating it again is rejected as a duplicate and changes nothing |
| UserController.GetUser | UserController.java:17-25 | a returned user answers 200 with it as body; every `RuntimeException`, `IllegalArgumentException` included, answers 404 with no body; only a checked exception propagates |
| UserController.CreateUser | UserController.java:28-40 | a returned user answers 201 with it as body; an `IllegalArgumentException` answers 400 with its message; any other exception answers 500 with no body; nothing propagates |
| UserController.HandleGetUser | UserController.java:17-25 | `GET` calls the service once, which makes one `findById` call and changes nothing; answers 200 with the stored user (whose id is the requested one when stored users carry their keys) or 404, and never propagates |
| UserController.HandleCreateUser | UserController.java:28-40 | `POST` calls the service once; a duplicate email answers 400 with "Email address is already in use." after one email lookup and no save; a fresh email is looked up and then saved once as given; a successful save answers 201 with the saved user as body (id 99 when it came back without one) and leaves the saved user stored under its id; a failing save answers 400 or 500; the status is always 201, 400 or 500 |
| UserController.ControllerScenarios | UserServiceTest.java:33-109 | the stored user 1 is fetched with 200, the missing id 99 answers 404 with no body, a fresh user saved with id 5 answers 201 with that user, and a duplicate email answers 400 with the message |

## Left out

- Spring: the `@RestController` and mapping annotations, path and body binding, and `ResponseEntity`/`HttpStatus` objects. A status is an integer and a body an optional value.
- Mockito and JUnit: the test class is used only for its scenarios (`ControllerScenarios`).
- Constructors and dependency injection: the service and controller are functions that receive the repository state directly.
- A repository implementation: none exists in the code. `findById` and `findByEmail` never throw; what `save` returns or throws is a parameter, and its effect on the state is an assumption of the model: a user with an id is stored under it, and a user without one, or a `save` that throws, leaves the state unchanged.
- Java object aliasing: `savedUser.setId(99L)` may mutate an object the repository also holds; the model returns an updated copy, which is why id 99 is not stored.
- Concurrency: two concurrent creates with the same email can both pass the email check; the model is sequential.
- `null`: a `null` id, email or exception message, and `java.lang.Error`, are not modelled.
- Parsing of malformed path ids: done by the framework before `getUser` runs.
