# Road management system: issue lifecycle, access control and session codec

A Dafny model of the server core of the road management system, a Next.js
application in which the public and field officers report road defects, Admins
assign them, and the assigned field officer moves them through "Reported",
"In Progress" and "Completed".

The database is one immutable value, `Schema.Db`, made of:

- the `users` and `road_issues` tables, as maps keyed by their serial ids;
- the next value of each serial sequence.

`Schema.Valid` is what the tables' constraints guarantee of every state:

- keys match the rows' ids;
- ids start at 1;
- `varchar(255)` lengths hold;
- emails are unique;
- the foreign key from `assigned_to` to `users.id` holds.

Every server action is a pure function from the database, the session that
`getSession` produced for the request, and the action's arguments, to the next
database and the action's `{ success, ... }` response (`Wrappers.Result`).

The modules follow the program:

| module | models |
|---|---|
| `Text` | JavaScript string helpers: `toLowerCase`, UTF-16 `length`, the Latin-1 test `btoa` applies |
| `Base64` | `btoa` (section 4 of RFC 4648, with padding) and `atob` (the WHATWG forgiving-base64 decode) |
| `Json` | `JSON.stringify` and `JSON.parse` for flat objects of scalars (RFC 8259), with the round trip between them |
| `Schema` | `lib/db/schema`: enumerations, rows, constraints |
| `Session` | `lib/auth.ts`: the unsigned session token, credential check, user lookup |
| `Issues` | `app/issues/actions.ts` |
| `Users` | `app/users/actions.ts` |
| `AuthActions` | `app/auth/actions/actions.ts`: `login`, `logout`, `getSession` over a cookie map |
| `Forms` | the zod schemas and `onSubmit` mappings of `ReportForm` and `AddFieldWorkerForm` |
| `Pages` | the guards of the Admin workers page and the field worker dashboard |

Several facts shape the model:

- A parsed session is whatever `JSON.parse` produced (`Session.Claims`, four JSON values).
- The guards compare the claims with `===`. So `session.role === "Admin"` holds only for the string "Admin" (`Session.IsAdmin`).
- `n === session.id` holds only for the number `n` (`Session.HasId`).
- The token is not signed, so anyone can write a session.

Some behaviours of the code are easy to miss:

- `assigned_to` references `users.id` with no `ON DELETE` action.
  - So `deleteUser` of a user an issue is assigned to fails with "Failed to delete user", and the issue keeps its assignee.
  - In the same way, `createIssue` and `assignIssue` with an unknown user fail.
- `road_name` and `email` are `varchar(255)` (`Schema.FitVarchar`). PostgreSQL stores a longer value cut to 255 characters when only spaces are lost, and refuses any other longer value.
- `createIssue` checks no pairing of latitude and longitude. Nor does the report form.
- `assignIssue` on an unknown issue id reports success with no issue.
- `getIssues` and `getIssuesByAssignee` check no caller.
- `deleteUser` has no authorisation of its own. The no-self-delete rule lives only in the workers page.

## Model

| member | source | states |
|---|---|---|
| `Text.Lower` | lib/auth.ts:23 | lower-casing keeps the length and maps each character by itself, upper-case ASCII letters down by 32 |
| `Text.LowerLatin1` | app/users/actions.ts:61 | a Latin-1 email is still Latin-1 once lower-cased, so lower-casing never makes `btoa` fail |
| `Text.Utf16Length` | components/Forms/ReportForm.tsx:25-26 | JavaScript `length` is the number of characters plus the number of characters outside the Basic Multilingual Plane, which take two UTF-16 units each |
| `Base64.Btoa` | lib/auth.ts:49 | `btoa` succeeds exactly on Latin-1 text; its output is Latin-1, a multiple of four long, and empty only for empty input |
| `Base64.Atob` | lib/auth.ts:54 | `atob` succeeds exactly when, after whitespace is removed and, if the length is then a multiple of 4, one or two trailing `=` are dropped, only alphabet characters remain and the length is not 1 more than a multiple of 4 |
| `Base64.RemoveWhitespace` | lib/auth.ts:54 | `atob` drops ASCII whitespace: nothing is left of a whitespace character, any other character is kept |
| `Base64.RemoveWhitespaceConcat` | lib/auth.ts:54 | whitespace is dropped piece by piece, so together with the one-character cases every other character is kept, in order |
| `Base64.TripleRoundTrip` | lib/auth.ts:49-54 | the four characters `btoa` writes for three bytes decode back to those bytes |
| `Base64.DecodeEncode` | lib/auth.ts:49-54 | decoding the unpadded encoding of a Latin-1 string gives back the string |
| `Base64.AtobBtoa` | lib/auth.ts:47-54 | `atob(btoa(s)) == s` for every Latin-1 string |
| `Json.Lookup` | lib/auth.ts:55-57 | a property read after `JSON.parse` finds the LAST member with that name, and is absent exactly when no member has it |
| `Json.Escape` | lib/auth.ts:49 | the escaped form of a string is Latin-1 exactly when the string is |
| `Json.StringRoundTrip` | lib/auth.ts:49-55 | parsing a quoted, escaped string gives back the string and the rest of the text |
| `Json.NumberRoundTrip` | lib/auth.ts:49-55 | parsing a written integer gives back the integer and the rest of the text |
| `Json.MembersRoundTrip` | lib/auth.ts:49-55 | parsing a written member list gives back the members, in order |
| `Json.ObjectRoundTrip` | lib/auth.ts:49-55 | `JSON.parse(JSON.stringify(o))` has exactly the members of `o`, in order |
| `Json.ObjectLatin1Text` | lib/auth.ts:49 | `btoa(JSON.stringify(o))` can succeed exactly when every member name and string value of `o` is Latin-1 |
| `Schema.ParseRole` | lib/db/schema/users.ts:3 | a role literal stands for the one role with that name, and any other string for none |
| `Schema.ParseIssueType` | lib/db/schema/issues.ts:13-19 | an issue type literal stands for the one type with that name, and any other string for none |
| `Schema.ParseSeverity` | lib/db/schema/issues.ts:20 | a severity literal stands for the one severity with that name, and any other string for none |
| `Schema.ParseStatus` | lib/db/schema/issues.ts:21-25 | a status literal, "In Progress" with its space, stands for the one status with that name |
| `Schema.FitVarchar` | lib/db/schema/users.ts:8 | storing into `varchar(255)` keeps a value that fits, cuts a longer one to exactly its first 255 characters when only spaces follow them, and refuses any other; what is stored is a prefix followed in the input only by spaces |
| `Schema.EmptyDb` | lib/db/schema/issues.ts:27-42 | the empty database satisfies every table constraint |
| `Session.CreateSessionToken` | lib/auth.ts:47-50 | `createSessionToken` succeeds exactly when the user's email and name are Latin-1; otherwise `btoa` throws |
| `Session.ParseSessionToken` | lib/auth.ts:52-64 | `parseSessionToken` never fails other than by returning no session; a token `atob` refuses, or whose text `JSON.parse` refuses, gives no session; otherwise there is a session exactly when the parsed `id`, `email`, `name` and `role` are all present and truthy, and it is those four values |
| `Session.ClaimTextLatin1` | lib/auth.ts:47-50 | the JSON text of a session is Latin-1 exactly when its email, name and role are |
| `Session.ClaimLookups` | lib/auth.ts:55-57 | each of the four properties of a written session object is read back under its name |
| `Session.ClaimToken` | lib/auth.ts:47-55 | the token of a session object decodes to its text, and the text parses to its members |
| `Session.AnyClaimsParse` | lib/auth.ts:52-64 | any `btoa(JSON.stringify({id, email, name, role}))` with Latin-1 strings is accepted exactly when the id is non-zero and the strings are non-empty, and then with exactly those values; the role need not be a role name |
| `Session.SessionRoundTrip` | lib/auth.ts:47-64 | parsing the token of a Latin-1 user gives back exactly its id, email, name and role; a zero id or an empty email or name makes it refused |
| `Session.FindByEmail` | lib/auth.ts:20-24 | the look-up by email finds a row exactly when one has that email, and then that row |
| `Session.ValidateCredentials` | lib/auth.ts:15-45 | credentials are accepted exactly when a row has the lower-cased email and `compare` accepts the password against its hash; the result is that row's id, email, name and role |
| `Session.GetUserById` | lib/auth.ts:66-88 | `getUserById` returns the identity of the row with that id, and nothing for an unknown id |
| `Issues.OrNull` | app/issues/actions.ts:29-32 | `x \|\| null` keeps a value other than the type's falsy one, and gives null otherwise |
| `Issues.CreateIssue` | app/issues/actions.ts:20-43 | `createIssue` succeeds exactly when `varchar(255)` accepts the road name and a truthy assignee is a user; it then adds one row under a fresh id, with the road name as the column stores it, status "Reported", severity the given one or "Low", time `now`, and the users and the user serial unchanged; a failure writes nothing; the constraints keep holding |
| `Issues.FalsyBecomesNull` | app/issues/actions.ts:29-32 | a missing or zero latitude, longitude or assignee, or a missing or empty photo URL, is stored as null, and any other value as given |
| `Issues.GetIssueById` | app/issues/actions.ts:59-76 | `getIssueById` returns the stored row, or "Issue not found" exactly when there is none |
| `Issues.CreatedIssueFound` | app/issues/actions.ts:20-76 | an issue `createIssue` reported is found by `getIssueById` under its new id, exactly as returned; an id never given out is "Issue not found" |
| `Issues.UpdateIssueStatus` | app/issues/actions.ts:78-121 | no session gives "Not authenticated", an unknown id "Issue not found", a caller neither Admin nor the stored assignee "Not authorized to update this issue", all without writing; otherwise only that issue's status changes, to any status from any status |
| `Issues.AssignIssue` | app/issues/actions.ts:123-144 | a caller without an Admin session gets "Not authorized to assign issues" and nothing changes; for an Admin, an unknown issue is a success with no issue and no write, an unknown user fails with "Failed to assign issue" without writing, otherwise only that issue's assignee changes |
| `Issues.UpdateAuthorisation` | app/issues/actions.ts:100-107 | a status update gets through exactly when the role is the string "Admin" or the id is the number stored as the assignee; without a session it never does |
| `Issues.UpdateIdempotent` | app/issues/actions.ts:109-116 | repeating a successful status update succeeds again and changes nothing more |
| `Issues.UpdateChangesOnlyStatus` | app/issues/actions.ts:109-113 | a successful update leaves the users, the other issues and every other column of the issue as they were |
| `Issues.InsertNewestFirst` | app/issues/actions.ts:50 | inserting a row into a newest-first list keeps it newest first and adds exactly that row |
| `Issues.SortNewestFirst` | app/issues/actions.ts:47-50 | the rows of a table, newest `reportedAt` first, each id exactly once |
| `Issues.AssignedTo` | app/issues/actions.ts:151 | the issues whose assignee is the given user, and only those |
| `Issues.GetIssues` | app/issues/actions.ts:45-57 | `getIssues` lists every issue exactly once, newest first, for any caller |
| `Issues.GetIssuesByAssignee` | app/issues/actions.ts:146-159 | `getIssuesByAssignee` lists exactly the issues assigned to the user, each once, newest first, for any caller |
| `Issues.ListedRows` | app/issues/actions.ts:47-50 | a listing of a table holds every row, no id twice, and as many rows as the table |
| `Issues.AssigneeListing` | app/issues/actions.ts:148-152 | a stored issue is in the assignee listing exactly when it is assigned to that user |
| `Issues.InStatus` | app/issues/actions.ts:167-169 | the issues in a status, and only those |
| `Issues.StatusPartition` | app/issues/actions.ts:165-170 | the three per-status counts add up to the number of issues |
| `Issues.GetDashboardStats` | app/issues/actions.ts:161-186 | the total is the number of issues; `reported`, `inProgress` and `completed` are the numbers of issues in each status, and they add up to the total |
| `Issues.UpdateMovesOneCount` | app/issues/actions.ts:109-116 | a status change moves one issue from the old status's count to the new one's and leaves the total alone |
| `Issues.LifecycleScenario` | app/issues/actions.ts:20-144 | an Admin reports and assigns an issue; the assignee moves it to "In Progress"; another field officer is refused "Completed" and the issue stays "In Progress" |
| `Users.CreateUser` | app/users/actions.ts:40-76 | an existing lower-cased email gives "User with this email already exists"; an email `varchar(255)` refuses, or one that collides with a stored email once cut to fit, gives "Failed to create user"; both write nothing; otherwise one new row under a fresh id with the lower-cased email as the column stores it, the name, the role and the hash of the password, returned without the password; the issues and the issue serial are unchanged; the constraints keep holding |
| `Users.DeleteUser` | app/users/actions.ts:78-87 | `deleteUser` removes the row with that id, and succeeds when there is none; it fails without writing exactly when an issue is assigned to the user |
| `Users.GetAllFieldWorkers` | app/users/actions.ts:16-28 | the listed rows are exactly the users whose role is FieldOfficer |
| `Users.GetAllUsers` | app/users/actions.ts:30-38 | every user row |
| `Users.FieldWorkersPartition` | app/users/actions.ts:16-38 | no Admin is listed as a field worker, and a user is listed exactly when it is not an Admin |
| `Users.DuplicateRefused` | app/users/actions.ts:43-51 | a second user whose email lower-cases to the same string is refused and no second row appears; the reason is the duplicate unless the first email was cut to fit its column |
| `Users.CreatedUserCanLogIn` | app/users/actions.ts:57-64 | a created user's credentials, under any capitalisation of the stored email, are accepted and give that user's identity; an email of at most 255 characters is stored as typed, lower-cased |
| `Users.CutEmailLocksOut` | app/users/actions.ts:57-64 | a user whose email was cut to fit its column cannot log in with the email they were created with |
| `Users.DeletedUserGone` | app/users/actions.ts:78-82 | after a delete the id is unknown and no login yields it |
| `AuthActions.LandingPage` | app/auth/actions/actions.ts:42-46 | Admins land on "/dashboard/admin", every other role on "/dashboard/fieldworker" |
| `AuthActions.GetSession` | app/auth/actions/actions.ts:55-64 | no cookie or an empty one is no session; otherwise the session is whatever the token parses to |
| `AuthActions.Login` | app/auth/actions/actions.ts:13-47 | a missing or empty field gives "Please enter both email and password", rejected credentials "Invalid email or password"; login redirects exactly when the credentials are accepted and `btoa` accepts the user; only then is the session cookie set, to the user's token, with the redirect to the role's dashboard |
| `AuthActions.Logout` | app/auth/actions/actions.ts:49-53 | the session cookie is removed, the other cookies kept, and the browser sent to "/auth/login" |
| `AuthActions.LoginThenSession` | app/auth/actions/actions.ts:30-39 | after a successful login the next session is the user's own identity, unless the stored name is empty, when there is no session at all |
| `AuthActions.LogoutEndsSession` | app/auth/actions/actions.ts:49-52 | after `logout` there is no session |
| `AuthActions.ForgedAdminSession` | app/auth/actions/actions.ts:55-64 | any cookie holding `btoa` of a JSON object whose role is "Admin" passes every Admin check, whatever the users table holds |
| `Forms.ValidateReport` | components/Forms/ReportForm.tsx:24-36 | the report form passes exactly when the road name has at least 3 and the location at least 5 UTF-16 units and the type and severity are enumeration literals; the values pass unchanged, with the coordinates independent |
| `Forms.DefaultSeverityIsLow` | components/Forms/ReportForm.tsx:61-63 | an untouched severity submits "Low" |
| `Forms.AstralRoadNameAccepted` | components/Forms/ReportForm.tsx:25 | a road name of two characters outside the Basic Multilingual Plane passes the minimum of 3 |
| `Forms.UploadResult` | components/Forms/ReportForm.tsx:85-105 | no file gives no photo URL; a response gives one exactly when it is `ok` with a non-empty URL; a thrown upload always fails; every failure has a message |
| `Forms.ReportInput` | components/Forms/ReportForm.tsx:107-116 | the location becomes `locationDetails`, and an assignee is passed exactly when it is truthy |
| `Forms.SubmitReport` | components/Forms/ReportForm.tsx:79-129 | a failed upload stops the submission with no write; otherwise the result is `createIssue` of the mapped input |
| `Forms.SubmittedReportStored` | components/Forms/ReportForm.tsx:107-116 | a submitted report is stored as "Reported" with the form's road as its column stores it, the location, type, severity, uploaded URL, truthy assignee and non-zero coordinates |
| `Forms.ValidateWorker` | components/Forms/AddFieldWorkerForm.tsx:22-27 | the add-user form passes exactly when the name has at least 2 and the password at least 6 UTF-16 units, the email passes the email check and the role is a role literal |
| `Forms.DefaultRoleIsFieldOfficer` | components/Forms/AddFieldWorkerForm.tsx:46-48 | an untouched role creates a FieldOfficer |
| `Forms.SubmitWorker` | components/Forms/AddFieldWorkerForm.tsx:53-63 | the submission is `createUser` of exactly the validated name, email, password and role; a failure writes nothing; the new row holds the name, the role, the lower-cased email as its column stores it, and the hash of the typed password |
| `Forms.AddedUserLogsIn` | components/Forms/AddFieldWorkerForm.tsx:58-63 | a user added through the form with an email of at most 255 characters logs in with the typed email and password, lands on the role's dashboard, and has a session that is that user |
| `Pages.WorkersPage` | app/dashboard/admin/workers/page.tsx:24-36 | no session redirects to "/auth/login", a non-Admin session to "/dashboard/fieldworker"; only an Admin sees the listing, which is every field worker |
| `Pages.DeleteWorker` | app/dashboard/admin/workers/page.tsx:80-91 | the delete action, whose button is disabled on the caller's own row, does nothing on that row and is `deleteUser` on any other |
| `Pages.SelfDeleteRefused` | app/dashboard/admin/workers/page.tsx:80-85 | an Admin deleting their own row keeps it, although `deleteUser` alone would remove it |
| `Pages.DeleteOtherWorker` | app/dashboard/admin/workers/page.tsx:82-84 | deleting another unreferenced worker removes exactly that user and touches no issue |
| `Pages.CountStatus` | app/dashboard/fieldworker/page.tsx:59-61 | a per-status count is the number of listed issues in that status (the multiplicity of the status among the listed statuses) |
| `Pages.CountsAddUp` | app/dashboard/fieldworker/page.tsx:57-62 | the three per-status counts of a list add up to its length |
| `Pages.MyStatsOf` | app/dashboard/fieldworker/page.tsx:57-62 | `myStats.total` is the number of listed issues, each other field is the number of listed issues in its status, and the three add up to the total |
| `Pages.ListedStatusCount` | app/dashboard/fieldworker/page.tsx:46-62 | counting a status over a listing of exactly the rows of a table gives the number of that table's issues in the status |
| `Pages.FieldworkerPage` | app/dashboard/fieldworker/page.tsx:35-62 | no session redirects to "/auth/login", an Admin to "/dashboard/admin"; otherwise the page lists exactly the caller's issues newest first, and `myStats` holds the number of issues assigned to the caller and, for each status, how many of them are in it |
| `Pages.FieldworkerSeesOwnIssues` | app/dashboard/fieldworker/page.tsx:46-49 | every listed issue is stored and assigned to the caller's id, and every issue assigned to it is listed |

## Left out

- Database I/O, `revalidatePath`, `console.error` and Next.js's `cookies` and `redirect`. Cookies are a map, redirects are returned outcomes, and cookie attributes such as `maxAge` are not modelled.
- Every failure branch reached only through a `catch` on a connection or driver error: "Failed to fetch issues", "Failed to fetch issue", "Failed to update issue", "Failed to fetch stats", "Failed to fetch workers", "Failed to fetch users", and the catch in `validateCredentials` and `getUserById`. The model has no such errors. The failures the tables' constraints cause are modelled.
- Concurrency. Each action runs alone, so the gap between reading and writing an issue in `updateIssueStatus` is not modelled.
- bcrypt `hash` and `compare`, and zod's email check. Each is a function parameter.
- Timestamps. `reportedAt` and `createdAt` are natural numbers supplied by the caller.
- `Issues.CreateIssue`: does not model the serial value a failed insert consumes. A failure leaves the database unchanged, so later ids may be smaller than the real ones by the number of failed inserts.
- Coordinates. They are `real` values whose only question is "zero or not", so NaN and `-0` are not modelled.
- `Text.Lower`: lower-cases ASCII letters only. The full Unicode case mapping of `toLowerCase` is not modelled.
- `Text.LowerLatin1`: states only that a Latin-1 string stays Latin-1. The converse does not hold for `toLowerCase`, which maps U+212A KELVIN SIGN to `k` and U+0178 to `ÿ`, so it is not promised.
- `Users.CreateUser`: does not model the serial value a failed insert consumes. A refused or colliding email leaves the database unchanged, so later ids may be smaller than the real ones.
- `Json.ParseObject`: accepts only flat objects whose values are null, booleans, integers or strings. Nested values, fractions, exponents and lone surrogate escapes are refused although `JSON.parse` accepts them. A hand-written token using them is refused by the model but may be accepted by the application.
- `Json.ParseObject`: numbers are unbounded integers. JavaScript reads every JSON number as a double, so integers beyond 2^53 are rounded; the ids the application writes are `serial` (int4) values, far below that bound.
- `Session.ParseSessionToken`: a JSON text that is not an object gives no session, as in the application. There, reading `id` from `null` throws and the throw is caught; any other non-object value has no `id` property, so the truthiness test fails.
- `Pages.FieldworkerPage`: a session whose `id` is not a number is taken to make the query fail. PostgreSQL may instead coerce a numeric string.
- `createUser`, `createIssue` and the other actions can be called with values their TypeScript types exclude, since the types are erased. The model keeps the declared types.
- Characters PostgreSQL refuses in `text` columns (NUL) are not modelled.
- Both `FieldWorkerForm` and `IssueStatusForm`/`IssueAssignForm` only forward to modelled actions, so they are not modelled.
- Rendering is not modelled: colours, labels, dates and layouts.
- The image upload route (`app/api/issue-image-upload/route.ts`) is storage I/O. Its answer enters the model as the `Forms.Upload` value.
- The other dashboard pages only repeat the role redirect, so they are not modelled.
- `getDashboardStats` is called by the field worker page, but the page never renders its result (`stats`); only `myStats` is shown. So that call is not modelled.
- The seed and admin scripts are not modelled.
- `lib/types.ts` is not part of this model.
