/** The two tables: `users` and `road_issues`, their enumerations, column
    constraints and the foreign key between them. The database is one immutable
    value, `Db`, and every server action maps one `Db` to the next. */
module Schema {
  import opened Wrappers

  /** `user_role`. */
  datatype Role = Admin | FieldOfficer {
    function Name(): string {
      match this
      case Admin => "Admin"
      case FieldOfficer => "FieldOfficer"
    }
  }

  /** `issue_type`. */
  datatype IssueType = Pothole | Cracks | Drainage | Signage | Other {
    function Name(): string {
      match this
      case Pothole => "pothole"
      case Cracks => "cracks"
      case Drainage => "drainage"
      case Signage => "signage"
      case Other => "other"
    }
  }

  /** `severity`. */
  datatype Severity = Low | Medium | High {
    function Name(): string {
      match this
      case Low => "Low"
      case Medium => "Medium"
      case High => "High"
    }
  }

  /** `status`; the stored literal of `InProgress` has a space. */
  datatype Status = Reported | InProgress | Completed {
    function Name(): string {
      match this
      case Reported => "Reported"
      case InProgress => "In Progress"
      case Completed => "Completed"
    }
  }

  /** The enumeration value a string literal stands for, if any. */
  function ParseRole(s: string): (r: Option<Role>)
    ensures r.Some? ==> r.value.Name() == s
    ensures forall x: Role :: x.Name() == s ==> r == Some(x)
  {
    if s == "Admin" then Some(Admin)
    else if s == "FieldOfficer" then Some(FieldOfficer)
    else None
  }

  function ParseIssueType(s: string): (r: Option<IssueType>)
    ensures r.Some? ==> r.value.Name() == s
    ensures forall x: IssueType :: x.Name() == s ==> r == Some(x)
  {
    if s == "pothole" then Some(Pothole)
    else if s == "cracks" then Some(Cracks)
    else if s == "drainage" then Some(Drainage)
    else if s == "signage" then Some(Signage)
    else if s == "other" then Some(Other)
    else None
  }

  function ParseSeverity(s: string): (r: Option<Severity>)
    ensures r.Some? ==> r.value.Name() == s
    ensures forall x: Severity :: x.Name() == s ==> r == Some(x)
  {
    if s == "Low" then Some(Low)
    else if s == "Medium" then Some(Medium)
    else if s == "High" then Some(High)
    else None
  }

  function ParseStatus(s: string): (r: Option<Status>)
    ensures r.Some? ==> r.value.Name() == s
    ensures forall x: Status :: x.Name() == s ==> r == Some(x)
  {
    if s == "Reported" then Some(Reported)
    else if s == "In Progress" then Some(InProgress)
    else if s == "Completed" then Some(Completed)
    else None
  }

  /** `varchar(255)`: `road_name` and `email`, counted in characters. */
  const MaxVarchar: nat := 255

  /** What storing `s` in a `varchar(255)` column gives. A value that fits is stored
      as it is. A longer one whose excess characters are all spaces is cut to 255
      characters. Any other longer value is an error. */
  function FitVarchar(s: string): (r: Option<string>)
    ensures r.Some? <==> |s| <= MaxVarchar || forall i :: MaxVarchar <= i < |s| ==> s[i] == ' '
    ensures r.Some? ==> && |r.value| <= MaxVarchar && |r.value| <= |s|
                        && r.value == s[..|r.value|]
                        && (forall i :: |r.value| <= i < |s| ==> s[i] == ' ')
    ensures |s| <= MaxVarchar ==> r == Some(s)
    ensures r.Some? && |s| > MaxVarchar ==> r.value == s[..MaxVarchar]
  {
    if |s| <= MaxVarchar then Some(s)
    else if forall i :: MaxVarchar <= i < |s| ==> s[i] == ' ' then Some(s[..MaxVarchar])
    else None
  }

  /** One row of `users`; `password` holds the credential hash. */
  datatype User = User(id: int, name: string, email: string, password: string, role: Role, createdAt: nat)

  /** One row of `road_issues`. Coordinates are opaque: the only question ever asked
      of them is whether they are zero. */
  datatype Issue = Issue(
    id: int,
    roadName: string,
    locationDetails: string,
    latitude: Option<real>,
    longitude: Option<real>,
    issueType: IssueType,
    severity: Severity,
    status: Status,
    photoUrl: Option<string>,
    assignedTo: Option<int>,
    reportedAt: nat)

  /** The database: both tables keyed by their `serial` primary keys, and the next
      value of each serial sequence. */
  datatype Db = Db(users: map<int, User>, issues: map<int, Issue>, nextUserId: int, nextIssueId: int)

  /** A `users` row with the given email exists. */
  predicate EmailTaken(db: Db, email: string) {
    exists k :: k in db.users && db.users[k].email == email
  }

  /** An issue references the user. */
  predicate Referenced(db: Db, userId: int) {
    exists k :: k in db.issues && db.issues[k].assignedTo == Some(userId)
  }

  /** What the database's constraints guarantee of every state: serial keys that
      match the rows' ids and start at 1, `varchar(255)` lengths, unique emails, and
      the foreign key from `assigned_to` to `users.id`. */
  predicate Valid(db: Db) {
    && db.nextUserId >= 1
    && db.nextIssueId >= 1
    && (forall k :: k in db.users ==> 1 <= k < db.nextUserId && db.users[k].id == k)
    && (forall k :: k in db.users ==> |db.users[k].email| <= MaxVarchar)
    && (forall j, k :: j in db.users && k in db.users && db.users[j].email == db.users[k].email ==> j == k)
    && (forall k :: k in db.issues ==> 1 <= k < db.nextIssueId && db.issues[k].id == k)
    && (forall k :: k in db.issues ==> |db.issues[k].roadName| <= MaxVarchar)
    && (forall k :: k in db.issues && db.issues[k].assignedTo.Some? ==> db.issues[k].assignedTo.value in db.users)
  }

  /** The empty database every deployment starts from is valid. */
  function EmptyDb(): (db: Db)
    ensures Valid(db) && db.users == map[] && db.issues == map[]
  {
    Db(map[], map[], 1, 1)
  }
}
