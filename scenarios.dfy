/**
 * Sequences of repository calls, as a caller of the user module makes them,
 * with what the operations' contracts let the caller conclude. Each method
 * is a client of `UsersTable` and proves its result from the contracts
 * alone.
 */
module Scenarios {
  import opened Bcrypt
  import opened Users
  import opened UserStore

  /**
   * A user created under an email no other row carries is found again by
   * that email, with its email and name, and with both dates equal.
   */
  method CreateThenFetchByEmail(t: UsersTable, u: User, now: string) returns (fetched: User)
    requires t.Valid()
    requires HasMinimumFields(u)
    requires forall id :: id in t.rows ==> t.rows[id].email != u.email
    modifies t
    ensures t.Valid()
    ensures fetched.email == u.email && fetched.name == u.name
    ensures fetched.createdDate == fetched.updatedDate == now
    ensures fetched.id == old(t.nextId)
  {
    var createFailed := t.CreateUser(u, now, false);
    assert !createFailed;
    var failed;
    fetched, failed := t.GetUserRecordByEmail(u.email, false);
    assert old(t.nextId) in RowsWithEmail(t.rows, u.email);
  }

  /**
   * With a bcrypt that accepts its own digests, a user just created can log
   * in with the password it was created with; a wrong password and an
   * unknown email both get the same zero user and false.
   */
  method CreateThenLogin(t: UsersTable, u: User, now: string, wrongPassword: string, unknownEmail: string)
    returns (user: User, ok: bool, wrongUser: User, wrongOk: bool, unknownUser: User, unknownOk: bool)
    requires t.Valid()
    requires RoundTrips(t.hasher)
    requires HasMinimumFields(u)
    requires Encrypt(t.hasher, u.currentPassword).1 == Nil
    requires t.hasher.compare(Encrypt(t.hasher, u.currentPassword).0, wrongPassword) != Nil
    requires forall id :: id in t.rows ==> t.rows[id].email != u.email
    requires forall id :: id in t.rows ==> t.rows[id].email != unknownEmail
    requires unknownEmail != u.email
    modifies t
    ensures t.Valid()
    ensures ok && user.name == u.name && user.email == u.email
    ensures !wrongOk && wrongUser == EmptyUser
    ensures !unknownOk && unknownUser == EmptyUser
  {
    var createFailed := t.CreateUser(u, now, false);
    assert !createFailed;
    var id := old(t.nextId);
    OnlyRowWithEmail(old(t.rows), id, t.rows[id]);
    MatchAcceptsOwnDigest(t.hasher, u.currentPassword);
    user, ok := t.LoginUser(u, false);
    wrongUser, wrongOk := t.LoginUser(u.(currentPassword := wrongPassword), false);
    EmailCountZeroIffAbsent(t.rows, unknownEmail);
    unknownUser, unknownOk := t.LoginUser(u.(email := unknownEmail), false);
  }

  /**
   * After a successful update, the lookup by id shows the new email and
   * name, the original creation date and `now` as the update date.
   */
  method UpdateThenFetch(t: UsersTable, id: int, u: User, now: string) returns (fetched: User)
    requires t.Valid()
    requires id in t.rows
    requires HasMinimumFields(u)
    modifies t
    ensures t.Valid()
    ensures fetched.id == id && fetched.email == u.email && fetched.name == u.name
    ensures fetched.createdDate == old(t.rows[id].createdDate) && fetched.updatedDate == now
  {
    var updated, updateFailed := t.UpdateUserFields(id, u, now, false);
    assert !updateFailed;
    var failed;
    fetched, failed := t.GetUserRecordById(id, false);
  }

  /**
   * An update stores the password as given, so a later login with that
   * password succeeds only if bcrypt accepts the plaintext as its own
   * digest.
   */
  method UpdateThenLogin(t: UsersTable, id: int, u: User, now: string) returns (user: User, ok: bool)
    requires t.Valid()
    requires id in t.rows
    requires HasMinimumFields(u)
    requires forall other :: other in t.rows && other != id ==> t.rows[other].email != u.email
    modifies t
    ensures t.Valid()
    ensures ok <==> t.hasher.compare(u.currentPassword, u.currentPassword) == Nil
  {
    var updated, updateFailed := t.UpdateUserFields(id, u, now, false);
    OnlyRowWithEmail(old(t.rows), id, t.rows[id]);
    user, ok := t.LoginUser(u, false);
  }

  /**
   * The update test's sequence: look the user up by email, then update the
   * id the lookup returned. When some row carries the email, both calls
   * succeed and that row now holds the new fields.
   */
  method FetchByEmailThenUpdate(t: UsersTable, email: string, u: User, now: string)
    returns (record: User, fetchFailed: bool, updated: User, updateFailed: bool)
    requires t.Valid()
    requires HasMinimumFields(u)
    requires exists id :: id in t.rows && t.rows[id].email == email
    modifies t
    ensures t.Valid()
    ensures !fetchFailed && !updateFailed
    ensures record.id in old(t.rows) && old(t.rows)[record.id].email == email && record.id in t.rows
    ensures t.rows[record.id].email == u.email && t.rows[record.id].name == u.name
    ensures updated.id == record.id && updated.updatedDate == now
  {
    record, fetchFailed := t.GetUserRecordByEmail(email, false);
    updated, updateFailed := t.UpdateUserFields(record.id, u, now, false);
  }

  /**
   * The delete test's sequence: look the user up by email, then delete the
   * id the lookup returned. When some row carries the email, both calls
   * succeed and exactly that row is gone.
   */
  method FetchByEmailThenDelete(t: UsersTable, email: string)
    returns (record: User, fetchFailed: bool, deleteFailed: bool)
    requires t.Valid()
    requires exists id :: id in t.rows && t.rows[id].email == email
    modifies t
    ensures t.Valid()
    ensures !fetchFailed && !deleteFailed
    ensures record.id in old(t.rows) && old(t.rows)[record.id].email == email
    ensures t.rows == old(t.rows) - {record.id}
  {
    record, fetchFailed := t.GetUserRecordByEmail(email, false);
    deleteFailed := t.DeleteUser(record.id, false);
  }

  /**
   * Deleting the only row that carries an email makes the email unique
   * again.
   */
  method DeleteThenCheck(t: UsersTable, id: int, email: string) returns (unique: bool)
    requires t.Valid()
    requires RowsWithEmail(t.rows, email) == {id}
    modifies t
    ensures t.Valid()
    ensures unique
  {
    ghost var rows0 := t.rows;
    var deleteFailed := t.DeleteUser(id, false);
    EmailCountAfterDelete(rows0, id, email);
    unique := t.ValidateEmailIsUnique(email, false);
  }

  /** A deleted user is no longer found by id: the zero user and failure. */
  method DeleteThenFetch(t: UsersTable, id: int) returns (fetched: User, failed: bool)
    requires t.Valid()
    modifies t
    ensures t.Valid()
    ensures failed && fetched == EmptyUser
  {
    var deleteFailed := t.DeleteUser(id, false);
    fetched, failed := t.GetUserRecordById(id, false);
  }

  /**
   * An email reported unique stops being unique once a user is created
   * with it: the uniqueness check and the insert are separate calls.
   */
  method CheckThenCreate(t: UsersTable, u: User, now: string) returns (before: bool, after: bool)
    requires t.Valid()
    requires HasMinimumFields(u)
    modifies t
    ensures t.Valid()
    ensures after == false
    ensures before ==> EmailCount(t.rows, u.email) == 1
  {
    before := t.ValidateEmailIsUnique(u.email, false);
    ghost var rows0 := t.rows;
    var createFailed := t.CreateUser(u, now, false);
    EmailCountAfterInsert(rows0, old(t.nextId), t.rows[old(t.nextId)]);
    after := t.ValidateEmailIsUnique(u.email, false);
  }
}
