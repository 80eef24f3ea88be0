/**
 * The user repository over the `users` table.
 *
 * The table is an object: a map from the `id` column to the other five
 * columns, and the next value of the id sequence. Each repository operation
 * is one method whose body follows the SQL statement it issues. A failure to
 * connect or of the statement itself is the input `dbFails`: the statement
 * then has no effect and the operation reports failure. Validation runs
 * before anything touches the table, so a record that fails it is never
 * written.
 */
module UserStore {
  import opened Bcrypt
  import opened Users

  /** One row of `users`; the `id` column is the row's key in the table. */
  datatype Row = Row(
    createdDate: string,
    currentPassword: string,
    email: string,
    name: string,
    updatedDate: string)

  /** A row scanned by `SELECT id, created_date, email, name, updated_date`: no password. */
  function ProfileOf(id: int, row: Row): User
  {
    User(id, row.createdDate, "", row.email, row.name, row.updatedDate)
  }

  /** A row scanned by `SELECT id, currentpassword, email, name`: no dates. */
  function CredentialsOf(id: int, row: Row): User
  {
    User(id, "", row.currentPassword, row.email, row.name, "")
  }

  /** The ids of the rows `WHERE email=$1` selects. */
  function RowsWithEmail(rows: map<int, Row>, email: string): (ids: set<int>)
    ensures forall id :: id in ids <==> id in rows && rows[id].email == email
  {
    set id | id in rows && rows[id].email == email
  }

  /** `SELECT COUNT(*) FROM users WHERE email=$1`. */
  function EmailCount(rows: map<int, Row>, email: string): nat
  {
    |RowsWithEmail(rows, email)|
  }

  /** A non-empty set of ids has a member the store can pick. */
  lemma NonEmptyHasMember(ids: set<int>)
    requires ids != {}
    ensures exists id :: id in ids
  {
    if forall id :: id !in ids {
      assert false;
    }
  }

  /** The count is zero exactly when no row carries the email. */
  lemma EmailCountZeroIffAbsent(rows: map<int, Row>, email: string)
    ensures EmailCount(rows, email) == 0 <==> forall id :: id in rows ==> rows[id].email != email
  {
    if EmailCount(rows, email) == 0 {
      assert RowsWithEmail(rows, email) == {};
    } else {
      NonEmptyHasMember(RowsWithEmail(rows, email));
    }
  }

  /** Inserting a row under a fresh id adds exactly one to the count of its email. */
  lemma {:induction false} EmailCountAfterInsert(rows: map<int, Row>, id: int, row: Row)
    requires id !in rows
    ensures EmailCount(rows[id := row], row.email) == EmailCount(rows, row.email) + 1
  {
    assert RowsWithEmail(rows[id := row], row.email) == RowsWithEmail(rows, row.email) + {id};
  }

  /** A row written under `id` is the only one with its email when no other row has that email. */
  lemma {:induction false} OnlyRowWithEmail(rows: map<int, Row>, id: int, row: Row)
    requires forall other :: other in rows && other != id ==> rows[other].email != row.email
    ensures RowsWithEmail(rows[id := row], row.email) == {id}
  {
    var ids := RowsWithEmail(rows[id := row], row.email);
    forall other | other in ids
      ensures other == id
    {
    }
  }

  /**
   * Deleting a row lowers the count of its own email by exactly one and
   * leaves the count of every other email alone.
   */
  lemma {:induction false} EmailCountAfterDelete(rows: map<int, Row>, id: int, email: string)
    ensures EmailCount(rows - {id}, email)
            == if id in rows && rows[id].email == email then EmailCount(rows, email) - 1
               else EmailCount(rows, email)
  {
    if id in rows && rows[id].email == email {
      assert RowsWithEmail(rows - {id}, email) == RowsWithEmail(rows, email) - {id};
    } else {
      assert RowsWithEmail(rows - {id}, email) == RowsWithEmail(rows, email);
    }
  }

  /** The `users` table and the repository operations on it. */
  class UsersTable {
    /** The bcrypt library the repository hashes and compares with. */
    const hasher: Hasher
    /** The table, keyed by the `id` column. */
    var rows: map<int, Row>
    /** The next value of the `id` sequence. */
    var nextId: int

    /**
     * Ids are positive and below the sequence's next value, and no row was
     * ever written without an email and a name.
     */
    ghost predicate Valid()
      reads this
    {
      && 1 <= nextId
      && (forall id :: id in rows ==> 1 <= id < nextId)
      && (forall id :: id in rows ==> rows[id].email != "" && rows[id].name != "")
    }

    /** An empty table. */
    constructor (hasher: Hasher)
      ensures Valid()
      ensures this.hasher == hasher && rows == map[] && nextId == 1
    {
      this.hasher := hasher;
      rows := map[];
      nextId := 1;
    }

    /**
     * CreateUser: a record missing a required field is refused before the
     * table is touched. Otherwise one row is inserted under a fresh id, with
     * the bcrypt digest of the password (stored even when bcrypt reported an
     * error, which the operation never looks at) and both dates set to the
     * same `now`. Returns true on failure.
     */
    method CreateUser(newUser: User, now: string, dbFails: bool) returns (failed: bool)
      requires Valid()
      modifies this
      ensures Valid()
      ensures failed <==> !HasMinimumFields(newUser) || dbFails
      ensures failed ==> rows == old(rows) && nextId == old(nextId)
      ensures !failed ==> && old(nextId) !in old(rows)
                          && nextId == old(nextId) + 1
                          && rows == old(rows)[old(nextId) := Row(now, Encrypt(hasher, newUser.currentPassword).0,
                                                                  newUser.email, newUser.name, now)]
    {
      var errorResult := false;
      var (_, e) := ValidateUserMinimumFields(newUser);
      if e.code != "" {
        return true;
      }
      if dbFails {
        errorResult := true;
      } else {
        var (password, _) := Encrypt(hasher, newUser.currentPassword);
        var t := now;
        rows := rows[nextId := Row(t, password, newUser.email, newUser.name, t)];
        nextId := nextId + 1;
      }
      return errorResult;
    }

    /**
     * DeleteUser: removes the row with that id, if there is one, and no
     * other. Reports success whether or not a row matched.
     */
    method DeleteUser(id: int, dbFails: bool) returns (failed: bool)
      requires Valid()
      modifies this
      ensures Valid()
      ensures failed == dbFails
      ensures rows == if dbFails then old(rows) else old(rows) - {id}
      ensures nextId == old(nextId)
    {
      var errorResult := false;
      if dbFails {
        errorResult := true;
      } else {
        rows := rows - {id};
      }
      return errorResult;
    }

    /**
     * GetUserRecordById: the row's id, dates, email and name, never its
     * password; the zero user and failure when there is no such row.
     */
    method GetUserRecordById(id: int, dbFails: bool) returns (user: User, failed: bool)
      ensures failed <==> dbFails || id !in rows
      ensures failed ==> user == EmptyUser
      ensures !failed ==> user == ProfileOf(id, rows[id])
      ensures user.currentPassword == ""
    {
      if dbFails || id !in rows {
        return EmptyUser, true;
      }
      user, failed := ProfileOf(id, rows[id]), false;
    }

    /**
     * GetUserRecordByEmail: like the lookup by id, for one of the rows that
     * carry the email (emails are not unique, and the store picks one).
     */
    method GetUserRecordByEmail(email: string, dbFails: bool) returns (user: User, failed: bool)
      ensures failed <==> dbFails || RowsWithEmail(rows, email) == {}
      ensures failed ==> user == EmptyUser
      ensures !failed ==> user.id in rows && user.email == email && user == ProfileOf(user.id, rows[user.id])
      ensures user.currentPassword == ""
    {
      var ids := RowsWithEmail(rows, email);
      if dbFails || ids == {} {
        return EmptyUser, true;
      }
      NonEmptyHasMember(ids);
      var id :| id in ids;
      user, failed := ProfileOf(id, rows[id]), false;
    }

    /**
     * LoginUser: succeeds only with a stored row of that email whose digest
     * bcrypt accepts for the entered password, and then returns that row's
     * id, digest, email and name. Every other outcome, an unknown email, a
     * wrong password or a store failure, is the same zero user and false.
     */
    method LoginUser(userRequest: User, dbFails: bool) returns (user: User, ok: bool)
      ensures ok ==> && !dbFails
                     && user.id in RowsWithEmail(rows, userRequest.email)
                     && user == CredentialsOf(user.id, rows[user.id])
                     && MatchPassword(hasher, user.currentPassword, userRequest.currentPassword)
      ensures !ok ==> user == EmptyUser
      ensures (&& !dbFails
               && RowsWithEmail(rows, userRequest.email) != {}
               && forall id :: id in RowsWithEmail(rows, userRequest.email) ==>
                    MatchPassword(hasher, rows[id].currentPassword, userRequest.currentPassword))
              ==> ok
    {
      var ids := RowsWithEmail(rows, userRequest.email);
      if dbFails || ids == {} {
        return EmptyUser, false;
      }
      NonEmptyHasMember(ids);
      var id :| id in ids;
      var userRecord := CredentialsOf(id, rows[id]);
      if MatchPassword(hasher, userRecord.currentPassword, userRequest.currentPassword) {
        return userRecord, true;
      } else {
        return EmptyUser, false;
      }
    }

    /**
     * UpdateUserFields: a record missing a required field comes back as it
     * was, with failure, and the table is untouched. Otherwise the row with
     * that id gets the new password (written as given, not hashed), email
     * and name and `updated_date = now`; its creation date and every other
     * row stay. The result is the row the store reports back, with the
     * caller's password left in place. No row with that id is a failure.
     */
    method UpdateUserFields(id: int, u: User, now: string, dbFails: bool) returns (result: User, failed: bool)
      requires Valid()
      modifies this
      ensures Valid()
      ensures nextId == old(nextId)
      ensures failed <==> !HasMinimumFields(u) || dbFails || id !in old(rows)
      ensures failed ==> result == u && rows == old(rows)
      ensures !failed ==> rows == old(rows)[id := Row(old(rows)[id].createdDate, u.currentPassword,
                                                      u.email, u.name, now)]
      ensures !failed ==> result == ProfileOf(id, rows[id]).(currentPassword := u.currentPassword)
    {
      var errorResult := false;
      var (_, e) := ValidateUserMinimumFields(u);
      if e.code != "" {
        return u, true;
      }
      result := u;
      if dbFails || id !in rows {
        errorResult := true;
      } else {
        var row := rows[id];
        rows := rows[id := Row(row.createdDate, u.currentPassword, u.email, u.name, now)];
        result := result.(id := id, createdDate := row.createdDate, email := u.email,
                          name := u.name, updatedDate := now);
      }
      return result, errorResult;
    }

    /**
     * ValidateEmailIsUnique: true exactly when the count of rows with the
     * email is zero; false when the store cannot be reached.
     */
    method ValidateEmailIsUnique(email: string, dbFails: bool) returns (unique: bool)
      ensures unique <==> !dbFails && EmailCount(rows, email) == 0
      ensures unique <==> !dbFails && forall id :: id in rows ==> rows[id].email != email
    {
      if dbFails {
        return false;
      }
      var count := EmailCount(rows, email);
      EmailCountZeroIffAbsent(rows, email);
      if count > 0 {
        return false;
      }
      return true;
    }
  }
}
