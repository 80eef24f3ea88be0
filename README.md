# User accounts: validator and repository, in Dafny

This project models the user-account module of a small Go backend
(`src/user/user.go`): the minimum-field validator, the bcrypt wrapper, and
the repository operations that create, read, update and delete rows of the
`users` table and log users in.

- `bcrypt.dfy` (module `Bcrypt`): the bcrypt library as two abstract
  function values, `generate` (digest plus Go error) and `compare` (nil or an
  error), and `MatchPassword`, which turns any comparison error into `false`.
  That bcrypt accepts its own digests is the predicate `RoundTrips`, taken
  only as a hypothesis.
- `users.dfy` (module `Users`): the `User` record, its zero value `User{}`,
  and `ValidateUserMinimumFields`. The validator's message has two partners
  in the model. One is a reference definition: filter the required fields
  (password, email, name, in that order) and space-join the names of the
  empty ones. The other is a parser that reads the message back into the
  list of missing names. The round-trip lemma shows that the message names
  a field exactly when that field is empty.
- `store.dfy` (module `UserStore`): the `users` table as the class
  `UsersTable`: a map from `id` to the other five columns, plus the next
  value of the id sequence. There is one method per repository operation,
  and each follows the SQL statement it issues. A failed connection or
  statement is the boolean input `dbFails`. The clock is the input `now`.
  The invariant `Valid()` says that ids are fresh and that every stored row
  has an email and a name. It holds because validation runs before anything
  is written.
- `scenarios.dfy` (module `Scenarios`): client methods that chain
  repository calls and prove the outcome from the repository's contracts
  alone. Two of them follow the sequences of the update and delete tests in
  `src/user/user_test.go`: look the user up by email, then update or delete
  the id returned. The others follow the intended order of use: create then
  fetch, create then log in, update then fetch, update then log in, delete
  then fetch, delete then check uniqueness, and check uniqueness then
  create.

Where the intended design and the code differ, the model follows the code.
- `UpdateUserFields` writes the password it is given into `currentpassword`
  without hashing it (`src/user/user.go:150-151`), while `CreateUser` hashes
  it. `Scenarios.UpdateThenLogin` shows the consequence: after an update, a
  login with the new password succeeds only if bcrypt accepts the plaintext
  as its own digest.
- `CreateUser` ignores the error from bcrypt (`src/user/user.go:57`), so
  the row stores whatever digest came back. A stored password is therefore
  not guaranteed to be non-empty.
- No operation enforces email uniqueness. The lookups by email may pick any
  of the matching rows.

## Model

| member | source | states |
|---|---|---|
| `Bcrypt.MatchPassword` | src/user/user.go:31-36 | accepts exactly when bcrypt's comparison reports no error; every error, mismatch or malformed digest, is the same `false` |
| `Bcrypt.Encrypt` | src/user/user.go:26-29 | the abstract `generate`: returns the digest together with the error value, and the digest is kept even when the error is not nil; when bcrypt accepts its own digests, a digest returned without error is accepted for its password |
| `Bcrypt.MatchAcceptsOwnDigest` | src/user/user_test.go:13-23 | if bcrypt accepts its own digests, a digest produced without error matches the password it came from |
| `Users.ValidateUserMinimumFields` | src/user/user.go:159-181 | returns the user unchanged; the code is empty iff password, email and name are all non-empty; the code equals the reference message: the prefix, then a space and the name of each empty field, in the order CurrentPassword, Email, Name |
| `Users.ValidatorCodeParses` | src/user/user.go:164-178 | the validator's code reads back as exactly the list of empty required fields, in checking order |
| `Users.ValidatorNamesExactlyMissingFields` | src/user/user.go:164-178 | the message names CurrentPassword, Email or Name iff that field is empty, in both directions |
| `Users.ValidatorCodeIsFaithful` | src/user/user.go:164-178 | two users get the same code iff the same fields are empty |
| `Users.ValidatorMissingNameExample` | src/user/user_test.go:75-82 | the test user with an empty name gets "Please provide all fields, including: Name" |
| `Users.SplitSpacedInvertsSpaced` | src/user/user.go:164-174 | field names without spaces, space-joined as the validator joins them, split back into the same list |
| `UserStore.EmailCountZeroIffAbsent` | src/user/user.go:191-200 | the `COUNT(*)` by email is zero iff no row carries that email |
| `UserStore.EmailCountAfterInsert` | src/user/user.go:60 | an insert under a fresh id raises the count of its email by exactly one |
| `UserStore.EmailCountAfterDelete` | src/user/user.go:77-78 | deleting a row lowers the count of its own email by exactly one and leaves every other email's count alone |
| `UserStore.OnlyRowWithEmail` | src/user/user.go:150-151 | a row written under an id is the only match for its email when no other row carries it |
| `UserStore.UsersTable.CreateUser` | src/user/user.go:38-67 | fails, and leaves the table and the sequence unchanged, iff validation fails or the store fails; otherwise inserts exactly one row under the fresh id, with bcrypt's digest of the password and `created_date == updated_date == now`; keeps `Valid()` |
| `UserStore.UsersTable.DeleteUser` | src/user/user.go:69-85 | removes the row with that id and no other; reports success whether or not a row matched; fails only on store failure, with the table unchanged |
| `UserStore.UsersTable.GetUserRecordById` | src/user/user.go:87-102 | fails with the zero user iff the store fails or no row has the id; otherwise returns the row's id, dates, email and name; never returns a password |
| `UserStore.UsersTable.GetUserRecordByEmail` | src/user/user.go:104-119 | fails with the zero user iff the store fails or no row has the email; otherwise returns one row carrying that email, without its password |
| `UserStore.UsersTable.LoginUser` | src/user/user.go:121-135 | succeeds only with a row of that email whose digest bcrypt accepts, and returns its id, digest, email and name; succeeds when the store is reachable and every row of that email accepts; otherwise (unknown email, wrong password, store failure) returns exactly the zero user and false |
| `UserStore.UsersTable.UpdateUserFields` | src/user/user.go:137-157 | on validation failure, store failure or unknown id returns the input user unchanged with failure and leaves the table alone; otherwise overwrites only password (unhashed), email, name and `updated_date = now` of that row, keeps `created_date` and all other rows, and returns the row as the store reports it with the caller's password; keeps `Valid()` |
| `UserStore.UsersTable.ValidateEmailIsUnique` | src/user/user.go:183-201 | true iff the store is reachable and the count of rows with the email is zero, that is, iff no row carries it |
| `Scenarios.CreateThenFetchByEmail` | src/user/user.go:38-119 | a user created under an unused email is found by it, with its email and name and both dates equal to the creation time |
| `Scenarios.CreateThenLogin` | src/user/user.go:121-135 | a just-created user logs in with its password; a wrong password and an unknown email both get the zero user and false |
| `Scenarios.UpdateThenFetch` | src/user/user.go:87-157 | after an update, the lookup by id shows the new email and name, the original creation date and `now` |
| `Scenarios.UpdateThenLogin` | src/user/user.go:150-151 | after an update, logging in with the new password succeeds iff bcrypt accepts the plaintext compared with itself |
| `Scenarios.DeleteThenFetch` | src/user/user.go:69-102 | after a delete, the lookup by id fails with the zero user |
| `Scenarios.FetchByEmailThenUpdate` | src/user/user_test.go:52-60 | when some row carries the email, the lookup by email and the update of the id it returned both succeed, and that row now holds the new email and name, with `now` as update date |
| `Scenarios.FetchByEmailThenDelete` | src/user/user_test.go:62-73 | when some row carries the email, the lookup by email and the delete of the id it returned both succeed, and exactly that row is gone |
| `Scenarios.DeleteThenCheck` | src/user/user.go:69-201 | deleting the only row that carries an email makes the uniqueness check return true again |
| `Scenarios.CheckThenCreate` | src/user/user.go:183-201 | after a create, the email is no longer unique; if it was unique before, exactly one row now carries it |

## Left out

- The inside of bcrypt and its cost factor 14 (`src/user/user.go:26-29`): bcrypt is a foreign library. It is modelled only by the shape of its two entry points.
- Salt randomness: `generate` is a function of the password, so two hashes of one password are equal in the model. Nothing in the module depends on this.
- The encrypt-then-match round trip of `src/user/user_test.go:13-23`: this is a property of bcrypt, so it appears only as the hypothesis `RoundTrips`.
- `db.DBConnect`, the `Query`/`QueryRow`/`Scan` plumbing and SQL parsing: the `db` package is not part of this model. A failed connection and a failed statement both become the input `dbFails`. The store's ordering of rows, collation and case rules are left out too: emails compare as exact strings.
- The nil-connection dereference after a connection error (`src/user/user.go:51-60`, `72-78`, `90-96`, `107-113`, `122-125`, `144-151`): Go would panic here. The model reports this as a failure with the table unchanged.
- `log.Fatal` in `ValidateEmailIsUnique` (`src/user/user.go:193`): the process abort is modelled as returning `false`.
- Partial scans: a `Scan` that fails part-way through converting columns is modelled as a scan that assigns nothing.
- String ids: the Go functions take the id as a string and let the store convert it. The model takes an integer. A non-numeric id is a statement failure, which `dbFails` covers.
- Gaps in the id sequence: the store may consume a sequence value on a failed insert. The model advances the sequence only on success, so it does not capture those gaps.
- `utils.CurrentTime`: it is not part of this model. The time is the parameter `now`. Dates are strings as in the source, so `created_date <= updated_date` cannot be stated.
- Date columns: `created_date` and `updated_date` keep and return the written `now` string verbatim. The columns' type and the driver's rendering of a timestamp when it is scanned back are not modelled, so "the date read back equals `now`" holds only in the model's store.
- Logging through `fmt.Println` and `fmt.Print`.
- Concurrent check-then-insert races: the module has no concurrency of its own.
- The commented-out uniqueness check in `CreateUser` (`src/user/user.go:41-44`).
- `UserStore.UsersTable.GetUserRecordByEmail`: when several rows carry the email, the store's choice among them is left open. The contract says only that the result is one of them.
- `UserStore.UsersTable.LoginUser`: when several rows carry the email, login checks only the row the store picks, so success is guaranteed only when every such row accepts the password.
