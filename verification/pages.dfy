/** The two dashboard pages whose guards the actions themselves lack: the Admin's
    workers page, with its no-self-delete guard around `deleteUser`, and the field
    worker's dashboard, listing only the caller's issues. Both read the session
    `getSession` produced for the request. */
module Pages {
  import opened Wrappers
  import opened Json
  import opened Schema
  import opened Session
  import opened Issues
  import opened Users

  /** A server component either redirects or renders its content. */
  datatype Page<T> = RedirectTo(location: string) | Render(content: T)

  // ---------------------------------------------------------------------------
  // /dashboard/admin/workers
  // ---------------------------------------------------------------------------

  /** The workers page: Admins see every field worker; anyone else is sent away
      before anything is listed. */
  function WorkersPage(db: Db, session: Option<Claims>): (r: Page<map<int, User>>)
    ensures session.None? ==> r == RedirectTo("/auth/login")
    ensures session.Some? && !IsAdmin(session.value) ==> r == RedirectTo("/dashboard/fieldworker")
    ensures r.Render? <==> session.Some? && IsAdmin(session.value)
    ensures r.Render? ==> r.content == GetAllFieldWorkers(db)
  {
    if session.None? then RedirectTo("/auth/login")
    else if !IsAdmin(session.value) then RedirectTo("/dashboard/fieldworker")
    else Render(GetAllFieldWorkers(db))
  }

  /** The delete button is disabled on the caller's own row. */
  predicate DeleteDisabled(session: Claims, workerId: int) {
    HasId(session, workerId)
  }

  /** The server action behind a worker's delete button: `deleteUser` unless the
      worker is the caller. */
  function DeleteWorker(db: Db, session: Claims, workerId: int): (r: Db)
    requires Valid(db)
    ensures Valid(r)
    ensures DeleteDisabled(session, workerId) ==> r == db
    ensures !DeleteDisabled(session, workerId) ==> r == DeleteUser(db, workerId).0
  {
    if !HasId(session, workerId) then DeleteUser(db, workerId).0 else db
  }

  /** An Admin who tries to delete their own account keeps it. The guard is the
      page's alone: `deleteUser` called directly with the same id removes any user
      no issue is assigned to. */
  lemma SelfDeleteRefused(db: Db, session: Claims, selfId: int)
    requires Valid(db)
    requires IsAdmin(session) && HasId(session, selfId) && selfId in db.users
    ensures selfId in DeleteWorker(db, session, selfId).users
    ensures !Referenced(db, selfId) ==> selfId !in DeleteUser(db, selfId).0.users
  {
  }

  /** Deleting another worker removes exactly that worker, when no issue is
      assigned to them. */
  lemma DeleteOtherWorker(db: Db, session: Claims, workerId: int)
    requires Valid(db)
    requires !HasId(session, workerId) && !Referenced(db, workerId)
    ensures DeleteWorker(db, session, workerId).users == db.users - {workerId}
    ensures DeleteWorker(db, session, workerId).issues == db.issues
  {
  }

  // ---------------------------------------------------------------------------
  // /dashboard/fieldworker
  // ---------------------------------------------------------------------------

  /** `myStats`: the listed issues and their per-status counts. */
  datatype MyStats = MyStats(total: nat, reported: nat, inProgress: nat, completed: nat)

  datatype FieldworkerView = FieldworkerView(issues: seq<Issue>, myStats: MyStats)

  /** The statuses of the listed issues, in order. */
  function Statuses(issues: seq<Issue>): (r: seq<Status>)
    ensures |r| == |issues|
    ensures forall i :: 0 <= i < |issues| ==> r[i] == issues[i].status
  {
    seq(|issues|, i requires 0 <= i < |issues| => issues[i].status)
  }

  /** `issues.filter((i) => i.status === s).length`: how many of the listed issues
      are in status `s`. */
  function CountStatus(issues: seq<Issue>, s: Status): (n: nat)
    ensures n == multiset(Statuses(issues))[s]
    ensures n <= |issues|
  {
    if |issues| == 0 then 0
    else
      assert Statuses(issues) == [issues[0].status] + Statuses(issues[1..]);
      (if issues[0].status == s then 1 else 0) + CountStatus(issues[1..], s)
  }

  /** Every listed issue is counted under exactly one status. */
  lemma {:induction false} CountsAddUp(issues: seq<Issue>)
    ensures CountStatus(issues, Reported) + CountStatus(issues, InProgress) + CountStatus(issues, Completed) == |issues|
  {
    if |issues| > 0 {
      CountsAddUp(issues[1..]);
    }
  }

  /** `myStats`: the number of listed issues, and how many of them are in each
      status. */
  function MyStatsOf(issues: seq<Issue>): (r: MyStats)
    ensures r.total == |issues|
    ensures r.reported == multiset(Statuses(issues))[Reported]
    ensures r.inProgress == multiset(Statuses(issues))[InProgress]
    ensures r.completed == multiset(Statuses(issues))[Completed]
    ensures r.total == r.reported + r.inProgress + r.completed
  {
    CountsAddUp(issues);
    MyStats(|issues|, CountStatus(issues, Reported), CountStatus(issues, InProgress), CountStatus(issues, Completed))
  }

  /** The ids of the listed issues in status `s`. */
  function ListedInStatus(rows: seq<Issue>, s: Status): set<int> {
    set y | y in rows && y.status == s :: y.id
  }

  /** Splitting off the first row splits off its id, when it is in status `s`. */
  lemma ListedInStatusCons(rows: seq<Issue>, s: Status)
    requires |rows| > 0
    ensures ListedInStatus(rows, s) == (if rows[0].status == s then {rows[0].id} else {}) + ListedInStatus(rows[1..], s)
  {
    assert rows == [rows[0]] + rows[1..];
  }

  /** An id that no later row carries is not among the later rows' ids. */
  lemma FirstIdFresh(rows: seq<Issue>, s: Status)
    requires |rows| > 0
    requires forall j :: 0 < j < |rows| ==> rows[j].id != rows[0].id
    ensures rows[0].id !in ListedInStatus(rows[1..], s)
  {
    forall y | y in rows[1..] ensures y.id != rows[0].id {
      var j :| 0 <= j < |rows[1..]| && rows[1..][j] == y;
      assert rows[j + 1] == y;
    }
  }

  /** Over rows with distinct ids, the count of a status is the number of their ids
      in that status. */
  lemma {:induction false} CountDistinct(rows: seq<Issue>, s: Status)
    requires forall i, j :: 0 <= i < j < |rows| ==> rows[i].id != rows[j].id
    ensures CountStatus(rows, s) == |ListedInStatus(rows, s)|
  {
    if |rows| > 0 {
      var rest := rows[1..];
      assert forall i, j :: 0 <= i < j < |rest| ==> rest[i].id != rest[j].id by {
        forall i, j | 0 <= i < j < |rest| ensures rest[i].id != rest[j].id {
          assert rest[i] == rows[i + 1] && rest[j] == rows[j + 1];
        }
      }
      CountDistinct(rest, s);
      ListedInStatusCons(rows, s);
      FirstIdFresh(rows, s);
    }
  }

  /** A listing of exactly the rows of `m` counts, for each status, the issues of
      `m` in that status. */
  lemma {:induction false} ListedStatusCount(rows: seq<Issue>, m: map<int, Issue>, s: Status)
    requires ListsExactly(rows, m)
    requires forall k :: k in m ==> m[k].id == k
    ensures CountStatus(rows, s) == |InStatus(m, s)|
  {
    ListedRows(rows, m);
    CountDistinct(rows, s);
    SameStatusIds(rows, m, s);
  }

  /** When the rows are exactly the table's rows, their ids in a status are the
      table's ids in that status. */
  lemma SameStatusIds(rows: seq<Issue>, m: map<int, Issue>, s: Status)
    requires forall y :: y in rows ==> y.id in m && m[y.id] == y
    requires forall k :: k in m ==> m[k] in rows && m[k].id == k
    ensures ListedInStatus(rows, s) == InStatus(m, s)
  {
    forall k | k in InStatus(m, s) ensures k in ListedInStatus(rows, s) {
      var y := m[k];
      assert y in rows && y.status == s && y.id == k;
    }
    forall k | k in ListedInStatus(rows, s) ensures k in InStatus(m, s) {
      var y :| y in rows && y.status == s && y.id == k;
    }
  }

  /** The field worker's dashboard. An Admin is sent to their own dashboard. The
      listing is `getIssuesByAssignee(session.id)`; an id that is not a number makes
      the query fail, and the page falls back to no issues. */
  method FieldworkerPage(db: Db, session: Option<Claims>) returns (r: Page<FieldworkerView>)
    requires Valid(db)
    ensures session.None? ==> r == RedirectTo("/auth/login")
    ensures session.Some? && IsAdmin(session.value) ==> r == RedirectTo("/dashboard/admin")
    ensures r.Render? <==> session.Some? && !IsAdmin(session.value)
    ensures r.Render? && session.value.id.JNumber? ==>
              var mine := AssignedTo(db.issues, session.value.id.n);
              && NewestFirst(r.content.issues)
              && ListsExactly(r.content.issues, mine)
              && r.content.myStats == MyStats(|mine|, |InStatus(mine, Reported)|,
                                              |InStatus(mine, InProgress)|, |InStatus(mine, Completed)|)
    ensures r.Render? && !session.value.id.JNumber? ==> r.content.issues == []
    ensures r.Render? ==> r.content.myStats == MyStatsOf(r.content.issues)
  {
    if session.None? {
      return RedirectTo("/auth/login");
    }
    if IsAdmin(session.value) {
      return RedirectTo("/dashboard/admin");
    }
    var issues: seq<Issue> := [];
    if session.value.id.JNumber? {
      var n := session.value.id.n;
      issues := GetIssuesByAssignee(db, n);
      AssignedKeys(db.issues, n);
      ListedRows(issues, AssignedTo(db.issues, n));
      ListedStatusCount(issues, AssignedTo(db.issues, n), Reported);
      ListedStatusCount(issues, AssignedTo(db.issues, n), InProgress);
      ListedStatusCount(issues, AssignedTo(db.issues, n), Completed);
    }
    r := Render(FieldworkerView(issues, MyStatsOf(issues)));
  }

  lemma AssignedKeys(m: map<int, Issue>, userId: int)
    requires forall k :: k in m ==> m[k].id == k
    ensures forall k :: k in AssignedTo(m, userId) ==> AssignedTo(m, userId)[k].id == k
  {
  }

  /** What a field worker sees is their own work only: every listed issue is a
      stored issue assigned to them, and every issue assigned to them is listed. */
  lemma {:induction false} FieldworkerSeesOwnIssues(db: Db, session: Claims, issues: seq<Issue>)
    requires Valid(db)
    requires session.id.JNumber?
    requires ListsExactly(issues, AssignedTo(db.issues, session.id.n))
    ensures forall y :: y in issues ==> y.id in db.issues && y.assignedTo.Some? && HasId(session, y.assignedTo.value)
    ensures forall k :: k in db.issues && db.issues[k].assignedTo == Some(session.id.n) ==> db.issues[k] in issues
  {
    AssigneeListing(db, session.id.n, issues);
  }
}
