/** The user server actions: creating a user with a unique, lower-cased email and
    a hashed password, deleting one, and the two listings. None of them looks at
    the caller's session. */
module Users {
  import opened Wrappers
  import opened Text
  import opened Schema
  import opened Session

  /** `CreateUserInput`. */
  datatype CreateUserInput = CreateUserInput(name: string, email: string, password: string, role: Role)

  /** A `users` row without its `password` column, as `createUser` returns it. */
  datatype PublicUser = PublicUser(id: int, name: string, email: string, role: Role, createdAt: nat)

  function WithoutPassword(u: User): PublicUser {
    PublicUser(u.id, u.name, u.email, u.role, u.createdAt)
  }

  /** `createUser`. `hash` stands for bcrypt's `hash` with its random salt already
      drawn; `now` is the insertion time. The duplicate check uses the lower-cased
      email. The insert stores it as `varchar(255)` stores it: cut to 255 characters
      when only spaces are lost, refused otherwise. A cut email that equals a stored
      one breaks the unique constraint, and the insert fails. Every failure leaves
      the database as it was. */
  function CreateUser(db: Db, input: CreateUserInput, hash: string -> string, now: nat): (r: (Db, Result<PublicUser>))
    requires Valid(db)
    ensures Valid(r.0)
    ensures EmailTaken(db, Lower(input.email)) ==> r == (db, Failure("User with this email already exists"))
    ensures !EmailTaken(db, Lower(input.email)) && r.1.Failure? ==> r.1.error == "Failed to create user"
    ensures r.1.Success? <==> && !EmailTaken(db, Lower(input.email))
                              && FitVarchar(Lower(input.email)).Some?
                              && !EmailTaken(db, FitVarchar(Lower(input.email)).value)
    ensures |input.email| <= MaxVarchar ==> (r.1.Success? <==> !EmailTaken(db, Lower(input.email)))
    ensures r.1.Failure? ==> r.0 == db
    ensures r.0.nextIssueId == db.nextIssueId
    ensures r.1.Success? ==>
              var id := r.1.value.id;
              && id !in db.users
              && r.0.issues == db.issues
              && r.0.users == db.users[id := User(id, input.name, FitVarchar(Lower(input.email)).value, hash(input.password), input.role, now)]
              && r.1.value == WithoutPassword(r.0.users[id])
  {
    var email := Lower(input.email);
    if EmailTaken(db, email) then
      (db, Failure("User with this email already exists"))
    else
      match FitVarchar(email)
      case None => (db, Failure("Failed to create user"))
      case Some(stored) =>
        if EmailTaken(db, stored) then
          (db, Failure("Failed to create user"))
        else
          var row := User(db.nextUserId, input.name, stored, hash(input.password), input.role, now);
          (db.(users := db.users[row.id := row], nextUserId := db.nextUserId + 1), Success(WithoutPassword(row)))
  }

  /** `deleteUser`: no authorisation and no self-check. Deleting an id that is not
      there succeeds and changes nothing; deleting a user an issue is assigned to
      violates the foreign key and fails. */
  function DeleteUser(db: Db, userId: int): (r: (Db, Result<()>))
    requires Valid(db)
    ensures Valid(r.0)
    ensures r.1.Success? <==> !Referenced(db, userId)
    ensures r.1.Failure? ==> r == (db, Failure("Failed to delete user"))
    ensures r.1.Success? ==> r.0 == db.(users := db.users - {userId})
  {
    if Referenced(db, userId) then (db, Failure("Failed to delete user"))
    else (db.(users := db.users - {userId}), Success(()))
  }

  /** `getAllFieldWorkers`: the whole rows, hash included, of every FieldOfficer.
      The query has no `ORDER BY`, so the rows are given keyed by id. */
  function GetAllFieldWorkers(db: Db): (r: map<int, User>)
    ensures forall k :: k in r <==> k in db.users && db.users[k].role == FieldOfficer
    ensures forall k :: k in r ==> r[k] == db.users[k]
  {
    map k | k in db.users && db.users[k].role == FieldOfficer :: db.users[k]
  }

  /** `getAllUsers`: every row. */
  function GetAllUsers(db: Db): (r: map<int, User>)
    ensures r == db.users
  {
    db.users
  }

  /** No Admin is ever listed as a field worker, and the field workers together with
      the Admins are all the users. */
  lemma FieldWorkersPartition(db: Db)
    ensures forall k :: k in GetAllFieldWorkers(db) ==> GetAllFieldWorkers(db)[k].role != Admin
    ensures forall k :: k in GetAllUsers(db) ==> (k in GetAllFieldWorkers(db) <==> GetAllUsers(db)[k].role != Admin)
  {
  }

  /** A second `createUser` with an email that differs only in letter case is
      refused, and no second record appears. The reason given is the duplicate
      unless the first email had been cut to fit its column; then it is the unique
      constraint's. */
  lemma DuplicateRefused(db: Db, first: CreateUserInput, second: CreateUserInput, hash: string -> string, now: nat, later: nat)
    requires Valid(db)
    requires CreateUser(db, first, hash, now).1.Success?
    requires Lower(second.email) == Lower(first.email)
    ensures var db1 := CreateUser(db, first, hash, now).0;
            var again := CreateUser(db1, second, hash, later);
            again.1.Failure? && again.0 == db1
    ensures |first.email| <= MaxVarchar ==>
              var db1 := CreateUser(db, first, hash, now).0;
              CreateUser(db1, second, hash, later) == (db1, Failure("User with this email already exists"))
  {
    var db1 := CreateUser(db, first, hash, now).0;
    var id := CreateUser(db, first, hash, now).1.value.id;
    assert db1.users[id].email == FitVarchar(Lower(second.email)).value;
  }

  /** A user created with a password can then log in with it, under any spelling of
      the email that lower-cases to the stored address: the lookup finds the new row
      and returns its identity. `compare` is bcrypt's `compare`, which accepts a
      password against its own hash. */
  lemma CreatedUserCanLogIn(db: Db, input: CreateUserInput, hash: string -> string, now: nat,
                            email: string, compare: (string, string) -> bool)
    requires Valid(db)
    requires CreateUser(db, input, hash, now).1.Success?
    requires Lower(email) == CreateUser(db, input, hash, now).1.value.email
    requires compare(input.password, hash(input.password))
    ensures var (db1, r) := CreateUser(db, input, hash, now);
            ValidateCredentials(db1, email, input.password, compare)
              == Some(SessionUser(r.value.id, Lower(email), input.name, input.role))
    ensures |input.email| <= MaxVarchar ==> Lower(email) == Lower(input.email)
  {
    var (db1, r) := CreateUser(db, input, hash, now);
    var id := r.value.id;
    assert db1.users[id].email == Lower(email);
    var found := FindByEmail(db1, Lower(email));
    assert found.value.id == id;
  }

  /** A user whose email was cut to fit its column cannot log in with the email
      they were created with: no stored email is longer than 255 characters, and
      the lookup compares the whole address. */
  lemma CutEmailLocksOut(db: Db, input: CreateUserInput, hash: string -> string, now: nat,
                         password: string, compare: (string, string) -> bool)
    requires Valid(db)
    requires CreateUser(db, input, hash, now).1.Success?
    requires |input.email| > MaxVarchar
    ensures ValidateCredentials(CreateUser(db, input, hash, now).0, input.email, password, compare) == None
  {
  }

  /** After a successful delete the user is gone for `getUserById`, and so can no
      longer log in. */
  lemma DeletedUserGone(db: Db, userId: int, email: string, password: string, compare: (string, string) -> bool)
    requires Valid(db)
    requires DeleteUser(db, userId).1.Success?
    ensures var db1 := DeleteUser(db, userId).0;
            && GetUserById(db1, userId) == None
            && (var v := ValidateCredentials(db1, email, password, compare); v.Some? ==> v.value.id != userId)
  {
  }
}
