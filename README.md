# gox-server user store, modelled in Dafny

This project models the in-memory user store of the gox-server web service
(`internal/repository/user_repo.go`). The store is a process-wide slice of
`User` records. Package initialisation seeds it with two users: Olivia Ponton,
then Faith Ordway. It offers three operations:

- `CreateUser` appends a record. It never checks the ID for uniqueness and always returns a nil error.
- `GetAllUsers` returns the records in insertion order.
- `GetUserById` scans the records in order. It returns a copy of the first record with the requested ID. On a miss it returns the zero-value `User`. Its error is always nil.

Files:

- `models.dfy` (module `Models`): the `User` record; a 128-bit `Uuid` whose zero value is the nil UUID; an opaque `Time` whose zero value is Go's zero instant; the zero-value record `ZeroUser`; and the `Error` type.
- `wrappers.dfy` (module `Wrappers`): `Option`, used for Go's nil-or-error results and for search results.
- `user_repo.dfy` (module `Repository`):
  - the seed data;
  - the specification functions `IndexOfId` and `UserById`;
  - the class `UserStore`, whose field `users` stands for the package-level slice;
  - lemmas about lookups after appends, ID uniqueness and the seed.

The clock readings (`time.Now()`) in the seed are parameters of the
constructor. `uuid.MustParse` of the two seed literals is replaced by the
128-bit values those literals denote.

## Model

| member | source | states |
|---|---|---|
| `Repository.UserStore.constructor` | internal/repository/user_repo.go:20-37 | the store starts out holding exactly the two seed records, Olivia's then Faith's, with the given clock readings |
| `Repository.SeedShape` | internal/repository/user_repo.go:20-37 | the seed has two records, IDs `d9b5a4b1-d1d1-4d92-a14b-441a5e5a5ae5` then `...ae6`, distinct and neither nil |
| `Repository.SeedLookups` | internal/repository/user_repo.go:20-55 | on the seed, each seed ID finds its own record and the nil UUID finds the zero-value record |
| `Repository.UserStore.CreateUser` | internal/repository/user_repo.go:39-42 | the new contents are the old contents with the user appended at the end, even when its ID is already stored; the error is always nil |
| `Repository.AppendKeepsPrefix` | internal/repository/user_repo.go:40 | appending grows the store by one, places the user last, and leaves every earlier record unchanged at its index |
| `Repository.UserStore.GetAllUsers` | internal/repository/user_repo.go:44-46 | returns the current contents in insertion order; the store is not modified |
| `Repository.IndexOfId` | internal/repository/user_repo.go:49-53 | the position found holds the ID and no earlier position does; nothing is found exactly when no record holds the ID |
| `Repository.UserById` | internal/repository/user_repo.go:48-55 | the answer is the lowest-position record with the ID when one exists, and the zero-value record when none does |
| `Repository.UserStore.GetUserById` | internal/repository/user_repo.go:48-55 | the loop answers exactly `UserById` of the current contents, the error is always nil, and the store is not modified |
| `Repository.LookupAfterCreate` | internal/repository/user_repo.go:39-55 | after appending a user whose ID no earlier record has, looking that ID up answers that user |
| `Repository.CreateKeepsEarlierHits` | internal/repository/user_repo.go:39-53 | appending never changes the answer for an ID already stored: first match wins, so a duplicate-ID record is shadowed |
| `Repository.CreateKeepsMisses` | internal/repository/user_repo.go:39-55 | appending a record with a different ID leaves a miss a miss, answered by the zero-value record |
| `Repository.CreateUniqueIff` | internal/repository/user_repo.go:39-42 | after an append the IDs are unique if and only if they were unique before and the new ID was not already stored |
| `Repository.LookupUniqueHit` | internal/repository/user_repo.go:48-53 | while IDs are unique, looking up the ID of any stored record answers that record |
| `Repository.MissLooksLikeZeroRecord` | internal/repository/user_repo.go:48-55 | a miss on the nil UUID gives the same answer as a hit on a stored zero-value record, so callers cannot tell them apart |

## Left out

- The `UserRepository` interface and the `userRepository` struct (internal/repository/user_repo.go:10-18): nothing calls them, and their signatures do not match the free functions.
- Aliasing: `GetAllUsers` returns the slice itself, so a caller writing to its elements would write into the store. The model returns the contents as a value. `GetUserById` returns a pointer to a copy, which the model represents as a `User` value.
- Concurrency: the Go slice is mutated without a lock, and concurrent `CreateUser` calls from different requests can race. The model is strictly sequential.
- Clock and UUID library: `time.Now()` readings are opaque constructor parameters. `uuid.MustParse` is replaced by the values it yields for the two literals. The monotonic-clock part of Go's `time.Time` is not represented.
- `internal/service/service.go`: `NewUserService` depends on randomness and the clock. The other service methods are one-line delegations through an interface the repository does not implement.
- `api/handler.go`: HTTP plumbing and the external `uuid.Parse`. Its "user not found" branch cannot be reached, because `GetUserById` never returns an error.
- `pkg/utils/utils.go`: JSON and HTML rendering through library code. `cmd/gox/main.go`: route registration and server start. `config/config.go`: reading the `ADDR` environment variable with default `:1981`.
- The `models` package that declares `User` is not part of this model. Its fields are taken from the seed literals.
