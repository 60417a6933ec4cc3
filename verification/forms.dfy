/** The two client forms that feed the server actions: the issue report form
    (zod schema, image upload, mapping into `createIssue`) and the form that adds
    a user (zod schema, mapping into `createUser`). zod's `.min` counts UTF-16 code
    units, as JavaScript's `length` does. */
module Forms {
  import opened Wrappers
  import opened Text
  import opened Schema
  import opened Session
  import opened Issues
  import opened Users
  import opened AuthActions

  // ---------------------------------------------------------------------------
  // ReportForm
  // ---------------------------------------------------------------------------

  /** What the report form holds when submitted. `severity` is `None` when the
      select was never touched; the coordinates are `None` until the browser's
      position is captured. */
  datatype ReportFormInput = ReportFormInput(
    roadName: string,
    location: string,
    issueType: string,
    severity: Option<string>,
    description: Option<string>,
    latitude: Option<real>,
    longitude: Option<real>)

  /** The values `formSchema` lets through to `onSubmit`. */
  datatype IssueFormValues = IssueFormValues(
    roadName: string,
    location: string,
    issueType: IssueType,
    severity: Severity,
    description: Option<string>,
    latitude: Option<real>,
    longitude: Option<real>)

  /** The severity the form submits: the chosen one, or the default "Low". */
  function SeverityField(raw: ReportFormInput, default: string): string {
    if raw.severity.Some? then raw.severity.value else default
  }

  /** `formSchema.safeParse` of the report form, with `defaultValues` applied. The
      two coordinates are optional independently of each other. */
  function ValidateReport(raw: ReportFormInput): (r: Option<IssueFormValues>)
    ensures r.Some? <==> && Utf16Length(raw.roadName) >= 3
                         && Utf16Length(raw.location) >= 5
                         && ParseIssueType(raw.issueType).Some?
                         && ParseSeverity(SeverityField(raw, "Low")).Some?
    ensures r.Some? ==> && r.value.roadName == raw.roadName
                        && r.value.location == raw.location
                        && r.value.issueType.Name() == raw.issueType
                        && r.value.severity.Name() == SeverityField(raw, "Low")
                        && r.value.latitude == raw.latitude
                        && r.value.longitude == raw.longitude
  {
    var issueType := ParseIssueType(raw.issueType);
    var severity := ParseSeverity(SeverityField(raw, "Low"));
    if Utf16Length(raw.roadName) >= 3 && Utf16Length(raw.location) >= 5 && issueType.Some? && severity.Some? then
      Some(IssueFormValues(raw.roadName, raw.location, issueType.value, severity.value,
                           raw.description, raw.latitude, raw.longitude))
    else None
  }

  /** An untouched severity select submits "Low". */
  lemma DefaultSeverityIsLow(raw: ReportFormInput)
    requires raw.severity.None?
    requires ValidateReport(raw).Some?
    ensures ValidateReport(raw).value.severity == Low
  {
  }

  /** The minimum length counts UTF-16 code units, so a road name of two characters
      outside the Basic Multilingual Plane is long enough. */
  lemma AstralRoadNameAccepted(raw: ReportFormInput, c: char, d: char)
    requires c as int > 0xFFFF && d as int > 0xFFFF
    requires raw.roadName == [c, d]
    requires Utf16Length(raw.location) >= 5 && ParseIssueType(raw.issueType).Some?
    requires raw.severity.None?
    ensures |raw.roadName| < 3
    ensures ValidateReport(raw).Some?
  {
    assert raw.roadName[1..] == [d];
    assert Utf16Length(raw.roadName) == 4;
    assert ParseSeverity(SeverityField(raw, "Low")) == Some(Low);
  }

  /** How the image upload ended: no file chosen, `fetch` or `res.json()` threw, or
      the route answered with its `ok` flag and JSON body. */
  datatype Upload =
    | NoFile
    | UploadThrew(message: string)
    | UploadResponse(ok: bool, url: Option<string>, error: Option<string>)

  /** `message || fallback`. */
  function OrFallback(message: Option<string>, fallback: string): string {
    if message.Some? && message.value != "" then message.value else fallback
  }

  /** The `photoUrl` the upload yields, or the message the form shows when it
      failed. */
  function UploadResult(upload: Upload): (r: Result<Option<string>>)
    ensures upload.NoFile? ==> r == Success(None)
    ensures r.Success? && r.value.Some? ==> upload.UploadResponse? && upload.ok && upload.url == r.value && r.value.value != ""
    ensures upload.UploadResponse? ==> (r.Success? <==> upload.ok && upload.url.Some? && upload.url.value != "")
    ensures upload.UploadThrew? ==> r.Failure?
    ensures r.Failure? ==> r.error != ""
  {
    match upload
    case NoFile => Success(None)
    case UploadThrew(message) => Failure(OrFallback(Some(message), "Failed to upload image"))
    case UploadResponse(ok, url, error) =>
      if !ok || url.None? || url.value == "" then
        Failure(OrFallback(error, "Failed to upload image"))
      else Success(url)
  }

  /** The `createIssue` input `onSubmit` builds: `location` becomes
      `locationDetails`, the description is dropped, and `assignedTo` is passed only
      when truthy. */
  function ReportInput(values: IssueFormValues, assignedTo: Option<int>, photoUrl: Option<string>): (r: CreateIssueInput)
    ensures r.locationDetails == values.location
    ensures r.assignedTo.Some? <==> assignedTo.Some? && assignedTo.value != 0
  {
    CreateIssueInput(values.roadName, values.location, values.issueType, Some(values.severity),
                     values.latitude, values.longitude, OrNull(assignedTo, 0), photoUrl)
  }

  /** How a submission ends: stopped by a failed upload, or with `createIssue`'s
      response. */
  datatype SubmitOutcome = UploadFailed(message: string) | Submitted(response: Result<Issue>)

  /** `onSubmit` of the report form. */
  function SubmitReport(db: Db, values: IssueFormValues, assignedTo: Option<int>, upload: Upload, now: nat): (r: (Db, SubmitOutcome))
    requires Valid(db)
    ensures Valid(r.0)
    ensures UploadResult(upload).Failure? ==> r == (db, UploadFailed(UploadResult(upload).error))
    ensures UploadResult(upload).Success? ==>
              var created := CreateIssue(db, ReportInput(values, assignedTo, UploadResult(upload).value), now);
              r == (created.0, Submitted(created.1))
  {
    match UploadResult(upload)
    case Failure(message) => (db, UploadFailed(message))
    case Success(photoUrl) =>
      var created := CreateIssue(db, ReportInput(values, assignedTo, photoUrl), now);
      (created.0, Submitted(created.1))
  }

  /** A submitted report is stored as "Reported" with the form's own fields: the
      road, the location as its details, the chosen type and severity, the
      uploaded URL, and the assignee only when one was truthy. */
  lemma SubmittedReportStored(db: Db, values: IssueFormValues, assignedTo: Option<int>, upload: Upload, now: nat)
    requires Valid(db)
    requires var r := SubmitReport(db, values, assignedTo, upload, now).1; r.Submitted? && r.response.Success?
    ensures var issue := SubmitReport(db, values, assignedTo, upload, now).1.response.value;
            && issue.status == Reported
            && Some(issue.roadName) == FitVarchar(values.roadName)
            && issue.locationDetails == values.location
            && issue.issueType == values.issueType
            && issue.severity == values.severity
            && issue.photoUrl == UploadResult(upload).value
            && issue.assignedTo == OrNull(assignedTo, 0)
            && issue.latitude == OrNull(values.latitude, 0.0)
            && issue.longitude == OrNull(values.longitude, 0.0)
  {
    var photoUrl := UploadResult(upload).value;
    assert photoUrl.Some? ==> photoUrl.value != "";
  }

  // ---------------------------------------------------------------------------
  // AddFieldWorkerForm
  // ---------------------------------------------------------------------------

  /** What the add-user form holds when submitted; `role` is `None` when the select
      was never touched. */
  datatype WorkerFormInput = WorkerFormInput(name: string, email: string, password: string, role: Option<string>)

  datatype WorkerFormValues = WorkerFormValues(name: string, email: string, password: string, role: Role)

  /** The role the form submits: the chosen one, or the default "FieldOfficer". */
  function RoleField(raw: WorkerFormInput, default: string): string {
    if raw.role.Some? then raw.role.value else default
  }

  /** `formSchema.safeParse` of the add-user form. `isEmail` is zod's email check. */
  function ValidateWorker(raw: WorkerFormInput, isEmail: string -> bool): (r: Option<WorkerFormValues>)
    ensures r.Some? <==> && Utf16Length(raw.name) >= 2
                         && isEmail(raw.email)
                         && Utf16Length(raw.password) >= 6
                         && ParseRole(RoleField(raw, "FieldOfficer")).Some?
    ensures r.Some? ==> && r.value.name == raw.name
                        && r.value.email == raw.email
                        && r.value.password == raw.password
                        && r.value.role.Name() == RoleField(raw, "FieldOfficer")
  {
    var role := ParseRole(RoleField(raw, "FieldOfficer"));
    if Utf16Length(raw.name) >= 2 && isEmail(raw.email) && Utf16Length(raw.password) >= 6 && role.Some? then
      Some(WorkerFormValues(raw.name, raw.email, raw.password, role.value))
    else None
  }

  /** An untouched role select creates a FieldOfficer. */
  lemma DefaultRoleIsFieldOfficer(raw: WorkerFormInput, isEmail: string -> bool)
    requires raw.role.None?
    requires ValidateWorker(raw, isEmail).Some?
    ensures ValidateWorker(raw, isEmail).value.role == FieldOfficer
  {
  }

  /** `onSubmit` of the add-user form: `createUser` receives exactly the validated
      values, and the new row holds the hash of the typed password. */
  function SubmitWorker(db: Db, values: WorkerFormValues, hash: string -> string, now: nat): (r: (Db, Result<PublicUser>))
    requires Valid(db)
    ensures Valid(r.0)
    ensures r == CreateUser(db, CreateUserInput(values.name, values.email, values.password, values.role), hash, now)
    ensures r.1.Failure? ==> r.0 == db
    ensures r.1.Success? ==> && r.1.value.id in r.0.users
                             && r.0.users[r.1.value.id].password == hash(values.password)
                             && r.1.value.name == values.name
                             && Some(r.1.value.email) == FitVarchar(Lower(values.email))
                             && r.1.value.role == values.role
    ensures r.1.Success? && |values.email| <= MaxVarchar ==> r.1.value.email == Lower(values.email)
  {
    CreateUser(db, CreateUserInput(values.name, values.email, values.password, values.role), hash, now)
  }

  /** A user added through the form can log in with the email and password typed
      into it: `login` redirects to the role's dashboard, and the next request's
      session is that user. The form's minimum lengths are what make the password
      and name non-empty, which `login` and `parseSessionToken` insist on. An email
      cut to fit its column is the exception (`Users.CutEmailLocksOut`). */
  lemma {:induction false} AddedUserLogsIn(db: Db, raw: WorkerFormInput, isEmail: string -> bool,
                                           hash: string -> string, now: nat,
                                           compare: (string, string) -> bool, jar: CookieJar)
    requires Valid(db)
    requires ValidateWorker(raw, isEmail).Some?
    requires SubmitWorker(db, ValidateWorker(raw, isEmail).value, hash, now).1.Success?
    requires raw.email != "" && |raw.email| <= MaxVarchar && IsLatin1(raw.email) && IsLatin1(raw.name)
    requires compare(raw.password, hash(raw.password))
    ensures var values := ValidateWorker(raw, isEmail).value;
            var (db1, created) := SubmitWorker(db, values, hash, now);
            var user := SessionUser(created.value.id, Lower(raw.email), raw.name, values.role);
            var (jar1, outcome) := Login(db1, jar, Some(raw.email), Some(raw.password), compare);
            && outcome == Redirect(LandingPage(values.role))
            && GetSession(jar1) == Some(ClaimsOf(user))
  {
    var values := ValidateWorker(raw, isEmail).value;
    var (db1, created) := SubmitWorker(db, values, hash, now);
    var user := SessionUser(created.value.id, Lower(raw.email), raw.name, values.role);
    SubmittedWorkerAccepted(db, values, hash, now, compare);
    LowerLatin1(raw.email);
    assert |raw.password| > 0 && |raw.name| > 0;
    AcceptedLogin(db1, jar, raw.email, raw.password, compare, user);
  }

  /** Credentials accepted for a user with Latin-1 strings and a non-empty name log
      that user in. */
  lemma AcceptedLogin(db: Db, jar: CookieJar, email: string, password: string,
                      compare: (string, string) -> bool, user: SessionUser)
    requires Valid(db)
    requires email != "" && password != ""
    requires ValidateCredentials(db, email, password, compare) == Some(user)
    requires IsLatin1(user.email) && IsLatin1(user.name) && |user.name| > 0
    ensures var (jar1, outcome) := Login(db, jar, Some(email), Some(password), compare);
            outcome == Redirect(LandingPage(user.role)) && GetSession(jar1) == Some(ClaimsOf(user))
  {
    assert !Blank(Some(email)) && !Blank(Some(password));
    LoginThenSession(db, jar, Some(email), Some(password), compare);
  }

  /** The credentials typed into the add-user form are accepted once the user is
      created, when the email is stored uncut. */
  lemma SubmittedWorkerAccepted(db: Db, values: WorkerFormValues, hash: string -> string, now: nat,
                                compare: (string, string) -> bool)
    requires Valid(db)
    requires SubmitWorker(db, values, hash, now).1.Success?
    requires |values.email| <= MaxVarchar
    requires compare(values.password, hash(values.password))
    ensures var (db1, created) := SubmitWorker(db, values, hash, now);
            ValidateCredentials(db1, values.email, values.password, compare)
              == Some(SessionUser(created.value.id, Lower(values.email), values.name, values.role))
  {
    var input := CreateUserInput(values.name, values.email, values.password, values.role);
    CreatedUserCanLogIn(db, input, hash, now, values.email, compare);
  }
}
