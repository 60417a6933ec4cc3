/** The issue server actions: creation, the guarded status update and assignment,
    the listings and the dashboard counts. Each action maps the database, and the
    session `getSession` produced for the request, to the next database and the
    action's response. */
module Issues {
  import opened Wrappers
  import opened Json
  import opened Schema
  import opened Session

  // ---------------------------------------------------------------------------
  // createIssue
  // ---------------------------------------------------------------------------

  /** `CreateIssueInput`; an omitted optional property is `None`. */
  datatype CreateIssueInput = CreateIssueInput(
    roadName: string,
    locationDetails: string,
    issueType: IssueType,
    severity: Option<Severity>,
    latitude: Option<real>,
    longitude: Option<real>,
    assignedTo: Option<int>,
    photoUrl: Option<string>)

  /** `x || null`, where `zero` is the one falsy value of the type. */
  function OrNull<T(==)>(x: Option<T>, zero: T): (r: Option<T>)
    ensures r.Some? <==> x.Some? && x.value != zero
    ensures r.Some? ==> r == x
  {
    if x.Some? && x.value != zero then x else None
  }

  /** The row `createIssue` asks the database to insert, given the next serial id
      and the insertion time. */
  function NewIssue(input: CreateIssueInput, id: int, now: nat): Issue {
    Issue(
      id,
      input.roadName,
      input.locationDetails,
      OrNull(input.latitude, 0.0),
      OrNull(input.longitude, 0.0),
      input.issueType,
      if input.severity.Some? then input.severity.value else Low,
      Reported,
      OrNull(input.photoUrl, ""),
      OrNull(input.assignedTo, 0),
      now)
  }

  /** The database accepts an inserted or updated issue row: `road_name` fits its
      `varchar(255)` and a non-null `assigned_to` names a user. */
  predicate Acceptable(db: Db, row: Issue) {
    |row.roadName| <= MaxVarchar && (row.assignedTo.Some? ==> row.assignedTo.value in db.users)
  }

  /** `createIssue`: inserts the row under a fresh id, or fails without writing. A
      road name longer than the column is stored cut to 255 characters when only
      spaces are lost, and refused otherwise. */
  function CreateIssue(db: Db, input: CreateIssueInput, now: nat): (r: (Db, Result<Issue>))
    requires Valid(db)
    ensures Valid(r.0)
    ensures r.1.Success? <==> FitVarchar(input.roadName).Some?
                              && (input.assignedTo.Some? && input.assignedTo.value != 0 ==> input.assignedTo.value in db.users)
    ensures r.1.Failure? ==> r.0 == db && r.1.error == "Failed to create issue"
    ensures r.0.nextUserId == db.nextUserId
    ensures r.1.Success? ==>
              var issue := r.1.value;
              && issue.id !in db.issues
              && r.0.issues == db.issues[issue.id := issue]
              && r.0.users == db.users
              && issue.status == Reported
              && issue.reportedAt == now
              && Some(issue.roadName) == FitVarchar(input.roadName)
              && issue.locationDetails == input.locationDetails
              && issue.issueType == input.issueType
              && issue.severity == (if input.severity == None then Low else input.severity.value)
  {
    match FitVarchar(input.roadName)
    case None => (db, Failure("Failed to create issue"))
    case Some(roadName) =>
      var row := NewIssue(input, db.nextIssueId, now).(roadName := roadName);
      if Acceptable(db, row) then
        (db.(issues := db.issues[row.id := row], nextIssueId := db.nextIssueId + 1), Success(row))
      else
        (db, Failure("Failed to create issue"))
  }

  /** A falsy coordinate, assignee or photo URL is stored as null, and a truthy one
      as given: a latitude of `0` and an empty `photoUrl` are both lost. */
  lemma FalsyBecomesNull(db: Db, input: CreateIssueInput, now: nat)
    requires Valid(db)
    requires CreateIssue(db, input, now).1.Success?
    ensures var issue := CreateIssue(db, input, now).1.value;
            && (issue.latitude == None <==> input.latitude == None || input.latitude == Some(0.0))
            && (issue.longitude == None <==> input.longitude == None || input.longitude == Some(0.0))
            && (issue.assignedTo == None <==> input.assignedTo == None || input.assignedTo == Some(0))
            && (issue.photoUrl == None <==> input.photoUrl == None || input.photoUrl == Some(""))
            && (issue.latitude.Some? ==> issue.latitude == input.latitude)
            && (issue.longitude.Some? ==> issue.longitude == input.longitude)
            && (issue.assignedTo.Some? ==> issue.assignedTo == input.assignedTo)
            && (issue.photoUrl.Some? ==> issue.photoUrl == input.photoUrl)
  {
  }

  // ---------------------------------------------------------------------------
  // getIssueById, updateIssueStatus, assignIssue
  // ---------------------------------------------------------------------------

  /** `getIssueById`. */
  function GetIssueById(db: Db, id: int): (r: Result<Issue>)
    ensures r.Success? <==> id in db.issues
    ensures r.Success? ==> r.value == db.issues[id]
    ensures r.Failure? ==> r.error == "Issue not found"
  {
    if id in db.issues then Success(db.issues[id]) else Failure("Issue not found")
  }

  /** An issue `createIssue` reported is found by `getIssueById` under the id it was
      given, as it was returned; an id that was never given out is not found. */
  lemma CreatedIssueFound(db: Db, input: CreateIssueInput, now: nat, id: int)
    requires Valid(db)
    requires CreateIssue(db, input, now).1.Success?
    ensures var (db1, created) := CreateIssue(db, input, now);
            GetIssueById(db1, created.value.id) == Success(created.value)
    ensures id !in db.issues && id != CreateIssue(db, input, now).1.value.id ==>
              GetIssueById(CreateIssue(db, input, now).0, id) == Failure("Issue not found")
  {
  }

  /** Who may change an issue's status: an Admin, or the worker the STORED row is
      assigned to. */
  predicate MayUpdate(c: Claims, issue: Issue) {
    IsAdmin(c) || (issue.assignedTo.Some? && HasId(c, issue.assignedTo.value))
  }

  /** `updateIssueStatus`: any status may follow any other once the caller is
      authorised; every failure leaves the database as it was. */
  function UpdateIssueStatus(db: Db, session: Option<Claims>, id: int, status: Status): (r: (Db, Result<Issue>))
    requires Valid(db)
    ensures Valid(r.0)
    ensures session.None? ==> r == (db, Failure("Not authenticated"))
    ensures session.Some? && id !in db.issues ==> r == (db, Failure("Issue not found"))
    ensures session.Some? && id in db.issues && !MayUpdate(session.value, db.issues[id]) ==>
              r == (db, Failure("Not authorized to update this issue"))
    ensures r.1.Success? <==> session.Some? && id in db.issues && MayUpdate(session.value, db.issues[id])
    ensures r.1.Success? ==>
              && r.1.value == db.issues[id].(status := status)
              && r.0 == db.(issues := db.issues[id := r.1.value])
  {
    match session
    case None => (db, Failure("Not authenticated"))
    case Some(c) =>
      if id !in db.issues then (db, Failure("Issue not found"))
      else if !MayUpdate(c, db.issues[id]) then (db, Failure("Not authorized to update this issue"))
      else
        var issue := db.issues[id].(status := status);
        (db.(issues := db.issues[id := issue]), Success(issue))
  }

  /** `assignIssue`: Admin only. An unknown issue is reported as a success with no
      issue and nothing written; an unknown user breaks the foreign key. */
  function AssignIssue(db: Db, session: Option<Claims>, issueId: int, userId: int): (r: (Db, Result<Option<Issue>>))
    requires Valid(db)
    ensures Valid(r.0)
    ensures session.None? || !IsAdmin(session.value) ==> r == (db, Failure("Not authorized to assign issues"))
    ensures r.1.Success? <==> session.Some? && IsAdmin(session.value) && (issueId in db.issues ==> userId in db.users)
    ensures r.1.Failure? ==> r.0 == db
    ensures session.Some? && IsAdmin(session.value) && r.1.Failure? ==> r.1.error == "Failed to assign issue"
    ensures r.1.Success? && issueId !in db.issues ==> r == (db, Success(None))
    ensures r.1.Success? && issueId in db.issues ==>
              && r.1.value == Some(db.issues[issueId].(assignedTo := Some(userId)))
              && r.0 == db.(issues := db.issues[issueId := r.1.value.value])
  {
    if session.None? || !IsAdmin(session.value) then (db, Failure("Not authorized to assign issues"))
    else if issueId !in db.issues then (db, Success(None))
    else
      var issue := db.issues[issueId].(assignedTo := Some(userId));
      if Acceptable(db, issue) then (db.(issues := db.issues[issueId := issue]), Success(Some(issue)))
      else (db, Failure("Failed to assign issue"))
  }

  /** The authorisation rule of a status update, stated without `MayUpdate`: a
      caller gets through exactly when its role is the string "Admin" or its id is
      the number stored as the issue's assignee. A caller without a session never
      does. */
  lemma UpdateAuthorisation(db: Db, c: Claims, id: int, status: Status)
    requires Valid(db) && id in db.issues
    ensures UpdateIssueStatus(db, Some(c), id, status).1.Success?
            <==> c.role == JString("Admin") || exists n :: db.issues[id].assignedTo == Some(n) && c.id == JNumber(n)
    ensures UpdateIssueStatus(db, None, id, status).1.Failure?
  {
    var issue := db.issues[id];
    if issue.assignedTo.Some? && c.id == JNumber(issue.assignedTo.value) {
      assert HasId(c, issue.assignedTo.value);
    }
  }

  /** Updating the same issue to the same status twice: the second call succeeds
      too and writes nothing new. */
  lemma UpdateIdempotent(db: Db, session: Option<Claims>, id: int, status: Status)
    requires Valid(db)
    requires UpdateIssueStatus(db, session, id, status).1.Success?
    ensures var (db1, _) := UpdateIssueStatus(db, session, id, status);
            var (db2, r2) := UpdateIssueStatus(db1, session, id, status);
            r2.Success? && db2 == db1
  {
    var (db1, _) := UpdateIssueStatus(db, session, id, status);
    assert db1.issues[id].assignedTo == db.issues[id].assignedTo;
    assert db1.issues[id := db1.issues[id].(status := status)] == db1.issues;
  }

  /** A successful update touches one row and one column: every other issue, every
      other column of the issue, and the users are as they were. */
  lemma UpdateChangesOnlyStatus(db: Db, session: Option<Claims>, id: int, status: Status)
    requires Valid(db)
    requires UpdateIssueStatus(db, session, id, status).1.Success?
    ensures var db1 := UpdateIssueStatus(db, session, id, status).0;
            && db1.users == db.users
            && db1.issues.Keys == db.issues.Keys
            && (forall k :: k in db.issues && k != id ==> db1.issues[k] == db.issues[k])
            && db1.issues[id].status == status
            && db1.issues[id] == db.issues[id].(status := status)
  {
  }

  // ---------------------------------------------------------------------------
  // getIssues, getIssuesByAssignee
  // ---------------------------------------------------------------------------

  /** `ORDER BY reported_at DESC`; rows with equal times may come in any order. */
  predicate NewestFirst(s: seq<Issue>) {
    forall i, j :: 0 <= i < j < |s| ==> s[i].reportedAt >= s[j].reportedAt
  }

  function Ids(s: seq<Issue>): (r: seq<int>)
    ensures |r| == |s|
  {
    if |s| == 0 then [] else [s[0].id] + Ids(s[1..])
  }

  /** `rows` lists every row of `m` exactly once, and nothing else. */
  predicate ListsExactly(rows: seq<Issue>, m: map<int, Issue>) {
    && multiset(Ids(rows)) == multiset(m.Keys)
    && (forall y :: y in rows ==> y.id in m && m[y.id] == y)
  }

  /** One step of insertion sort, newest first. */
  function InsertNewestFirst(x: Issue, s: seq<Issue>): (r: seq<Issue>)
    requires NewestFirst(s)
    ensures NewestFirst(r)
    ensures multiset(Ids(r)) == multiset(Ids(s)) + multiset{x.id}
    ensures forall y :: y in r <==> y == x || y in s
  {
    if |s| == 0 || x.reportedAt >= s[0].reportedAt then
      assert ([x] + s)[1..] == s;
      [x] + s
    else
      var t := InsertNewestFirst(x, s[1..]);
      assert ([s[0]] + t)[1..] == t;
      assert s == [s[0]] + s[1..];
      assert forall y :: y in t ==> y.reportedAt <= s[0].reportedAt;
      [s[0]] + t
  }

  lemma NonEmpty(s: set<int>)
    requires |s| > 0
    ensures exists k :: k in s
  {
    if forall k :: k !in s {
      assert false;
    }
  }

  /** The rows of `m`, newest first. */
  method SortNewestFirst(m: map<int, Issue>) returns (rows: seq<Issue>)
    requires forall k :: k in m ==> m[k].id == k
    ensures NewestFirst(rows)
    ensures ListsExactly(rows, m)
  {
    rows := [];
    var rest := m.Keys;
    while |rest| > 0
      invariant rest <= m.Keys
      invariant NewestFirst(rows)
      invariant multiset(Ids(rows)) == multiset(m.Keys - rest)
      invariant forall y :: y in rows ==> y.id in m && m[y.id] == y
      decreases |rest|
    {
      NonEmpty(rest);
      var k :| k in rest;
      rows := InsertNewestFirst(m[k], rows);
      KeyMoved(m.Keys, rest, k);
      rest := rest - {k};
    }
  }

  /** Taking `k` out of the keys still to insert adds it to those already
      inserted. */
  lemma KeyMoved(keys: set<int>, rest: set<int>, k: int)
    requires k in rest && rest <= keys
    ensures multiset(keys - (rest - {k})) == multiset(keys - rest) + multiset{k}
  {
    assert keys - (rest - {k}) == (keys - rest) + {k};
  }

  /** The issues assigned to one user, keyed as in the table. */
  function AssignedTo(m: map<int, Issue>, userId: int): (r: map<int, Issue>)
    ensures forall k :: k in r <==> k in m && m[k].assignedTo == Some(userId)
    ensures forall k :: k in r ==> r[k] == m[k]
  {
    map k | k in m && m[k].assignedTo == Some(userId) :: m[k]
  }

  /** `getIssues`: every issue, newest first, for any caller. */
  method GetIssues(db: Db) returns (issues: seq<Issue>)
    requires Valid(db)
    ensures NewestFirst(issues)
    ensures ListsExactly(issues, db.issues)
  {
    issues := SortNewestFirst(db.issues);
  }

  /** `getIssuesByAssignee`: the issues assigned to `userId`, newest first, for any
      caller. */
  method GetIssuesByAssignee(db: Db, userId: int) returns (issues: seq<Issue>)
    requires Valid(db)
    ensures NewestFirst(issues)
    ensures ListsExactly(issues, AssignedTo(db.issues, userId))
  {
    issues := SortNewestFirst(AssignedTo(db.issues, userId));
  }

  /** What `ListsExactly` means row by row: a row is listed exactly when it is in
      the table, and no id is listed twice. */
  lemma {:induction false} ListedRows(rows: seq<Issue>, m: map<int, Issue>)
    requires ListsExactly(rows, m)
    requires forall k :: k in m ==> m[k].id == k
    ensures forall k :: k in m ==> m[k] in rows
    ensures forall i, j :: 0 <= i < j < |rows| ==> rows[i].id != rows[j].id
    ensures |rows| == |m|
  {
    forall k | k in m
      ensures m[k] in rows
    {
      assert k in multiset(Ids(rows));
      IdsMember(rows, k);
    }
    forall i, j | 0 <= i < j < |rows|
      ensures rows[i].id != rows[j].id
    {
      if rows[i].id == rows[j].id {
        IdsTwice(rows, i, j);
        assert false;
      }
    }
    assert |multiset(Ids(rows))| == |Ids(rows)|;
    assert |multiset(m.Keys)| == |m.Keys|;
  }

  lemma {:induction false} IdsMember(rows: seq<Issue>, k: int)
    requires k in multiset(Ids(rows))
    ensures exists y :: y in rows && y.id == k
  {
    if rows[0].id != k {
      assert Ids(rows) == [rows[0].id] + Ids(rows[1..]);
      IdsMember(rows[1..], k);
      var y :| y in rows[1..] && y.id == k;
      assert y in rows;
    }
  }

  lemma {:induction false} IdsTwice(rows: seq<Issue>, i: int, j: int)
    requires 0 <= i < j < |rows| && rows[i].id == rows[j].id
    ensures multiset(Ids(rows))[rows[i].id] >= 2
  {
    assert Ids(rows) == [rows[0].id] + Ids(rows[1..]);
    if i == 0 {
      IdsHas(rows[1..], j - 1);
    } else {
      IdsTwice(rows[1..], i - 1, j - 1);
    }
  }

  lemma {:induction false} IdsHas(rows: seq<Issue>, i: int)
    requires 0 <= i < |rows|
    ensures rows[i].id in multiset(Ids(rows))
  {
    assert Ids(rows) == [rows[0].id] + Ids(rows[1..]);
    if i > 0 {
      IdsHas(rows[1..], i - 1);
    }
  }

  /** The assignee listing, against the table itself: an issue is listed exactly
      when it is stored and assigned to `userId`. */
  lemma AssigneeListing(db: Db, userId: int, issues: seq<Issue>)
    requires Valid(db)
    requires ListsExactly(issues, AssignedTo(db.issues, userId))
    ensures forall k :: k in db.issues ==> (db.issues[k] in issues <==> db.issues[k].assignedTo == Some(userId))
    ensures forall y :: y in issues ==> y.id in db.issues && db.issues[y.id] == y && y.assignedTo == Some(userId)
  {
    var m := AssignedTo(db.issues, userId);
    ListedRows(issues, m);
  }

  // ---------------------------------------------------------------------------
  // getDashboardStats
  // ---------------------------------------------------------------------------

  /** The `stats` object: the total and one count per status. */
  datatype Stats = Stats(totalIssues: nat, reported: nat, inProgress: nat, completed: nat)

  /** The ids of the issues in the given status. */
  function InStatus(m: map<int, Issue>, s: Status): (r: set<int>)
    ensures forall k :: k in r <==> k in m && m[k].status == s
  {
    set k | k in m && m[k].status == s
  }

  /** Every issue is in exactly one status. */
  lemma {:induction false} StatusPartition(m: map<int, Issue>)
    ensures |m.Keys| == |InStatus(m, Reported)| + |InStatus(m, InProgress)| + |InStatus(m, Completed)|
  {
    var a, b, c := InStatus(m, Reported), InStatus(m, InProgress), InStatus(m, Completed);
    assert m.Keys == a + b + c;
    assert a * b == {};
    assert (a + b) * c == {};
  }

  /** `getDashboardStats`: the per-status counts add up to the total. */
  function GetDashboardStats(db: Db): (r: Stats)
    ensures r.totalIssues == |db.issues|
    ensures r.reported == |InStatus(db.issues, Reported)|
    ensures r.inProgress == |InStatus(db.issues, InProgress)|
    ensures r.completed == |InStatus(db.issues, Completed)|
    ensures r.totalIssues == r.reported + r.inProgress + r.completed
  {
    StatusPartition(db.issues);
    Stats(|db.issues.Keys|, |InStatus(db.issues, Reported)|, |InStatus(db.issues, InProgress)|, |InStatus(db.issues, Completed)|)
  }

  /** A status update moves one issue from its old status count to its new one and
      leaves the total alone. */
  lemma {:induction false} UpdateMovesOneCount(db: Db, session: Option<Claims>, id: int, status: Status)
    requires Valid(db)
    requires UpdateIssueStatus(db, session, id, status).1.Success?
    requires db.issues[id].status != status
    ensures var db1 := UpdateIssueStatus(db, session, id, status).0;
            && |InStatus(db1.issues, status)| == |InStatus(db.issues, status)| + 1
            && |InStatus(db1.issues, db.issues[id].status)| + 1 == |InStatus(db.issues, db.issues[id].status)|
            && GetDashboardStats(db1).totalIssues == GetDashboardStats(db).totalIssues
  {
    var db1 := UpdateIssueStatus(db, session, id, status).0;
    var old_ := db.issues[id].status;
    assert InStatus(db1.issues, status) == InStatus(db.issues, status) + {id};
    assert InStatus(db1.issues, old_) + {id} == InStatus(db.issues, old_);
    assert db1.issues.Keys == db.issues.Keys;
  }

  // ---------------------------------------------------------------------------
  // The lifecycle scenario
  // ---------------------------------------------------------------------------

  /** An Admin reports an issue and assigns it to worker `w`; `w` moves it to
      "In Progress"; another worker `v` then tries to complete it and is refused,
      and the issue stays "In Progress". */
  lemma LifecycleScenario(db: Db, input: CreateIssueInput, now: nat, admin: Claims, w: int, worker: Claims, v: int, other: Claims)
    requires Valid(db)
    requires |input.roadName| <= MaxVarchar && input.assignedTo == None
    requires IsAdmin(admin)
    requires w in db.users && worker.id == JNumber(w) && worker.role == JString("FieldOfficer")
    requires v != w && other.id == JNumber(v) && other.role == JString("FieldOfficer")
    ensures var created := CreateIssue(db, input, now);
            created.1.Success? && created.1.value.status == Reported &&
            (var a := created.1.value.id;
             var handed := AssignIssue(created.0, Some(admin), a, w);
             handed.1 == Success(Some(created.1.value.(assignedTo := Some(w)))) &&
             (var started := UpdateIssueStatus(handed.0, Some(worker), a, InProgress);
              started.1.Success? && started.0.issues[a].status == InProgress &&
              (var refused := UpdateIssueStatus(started.0, Some(other), a, Completed);
               refused.1 == Failure("Not authorized to update this issue") &&
               refused.0 == started.0 && refused.0.issues[a].status == InProgress)))
  {
    var (db1, created) := CreateIssue(db, input, now);
    var a := created.value.id;
    var (db2, handed) := AssignIssue(db1, Some(admin), a, w);
    assert db2.issues[a].assignedTo == Some(w);
    var (db3, started) := UpdateIssueStatus(db2, Some(worker), a, InProgress);
    assert db3.issues[a].assignedTo == Some(w);
    assert !MayUpdate(other, db3.issues[a]);
  }
}
