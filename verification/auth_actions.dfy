/** The authentication server actions: `login`, `logout` and `getSession`. The
    request's cookies are a map from cookie name to value, and Next.js's `redirect`
    is returned as an outcome rather than thrown. */
module AuthActions {
  import opened Wrappers
  import opened Text
  import opened Base64
  import opened Json
  import opened Schema
  import opened Session

  type CookieJar = map<string, string>

  /** How a `login` call ends: with an error message for the form, with a
      redirect after the cookie was set, or with the exception `btoa` throws on a
      character above U+00FF. */
  datatype LoginOutcome = LoginError(message: string) | Redirect(location: string) | Threw

  /** The dashboard each role lands on. */
  function LandingPage(role: Role): (path: string)
    ensures role == Admin <==> path == "/dashboard/admin"
    ensures role != Admin <==> path == "/dashboard/fieldworker"
  {
    if role == Admin then "/dashboard/admin" else "/dashboard/fieldworker"
  }

  /** A form field that is absent or empty, which `!value` rejects. */
  predicate Blank(field: Option<string>) {
    field.None? || field.value == ""
  }

  /** `getSession`: no cookie, or an empty one, is no session; otherwise whatever
      the token parses to. */
  function GetSession(jar: CookieJar): (r: Option<Claims>)
    ensures AuthCookieName !in jar ==> r.None?
    ensures AuthCookieName in jar && jar[AuthCookieName] != "" ==> r == ParseSessionToken(jar[AuthCookieName])
    ensures r.Some? ==> AuthCookieName in jar && ParseSessionToken(jar[AuthCookieName]) == r
  {
    if AuthCookieName !in jar || jar[AuthCookieName] == "" then None
    else ParseSessionToken(jar[AuthCookieName])
  }

  /** `login`. `compare` is bcrypt's `compare`. The cookie jar changes only on
      success, and then only in the session cookie. */
  function Login(db: Db, jar: CookieJar, email: Option<string>, password: Option<string>,
                 compare: (string, string) -> bool): (r: (CookieJar, LoginOutcome))
    requires Valid(db)
    ensures Blank(email) || Blank(password) ==> r == (jar, LoginError("Please enter both email and password"))
    ensures !Blank(email) && !Blank(password) && ValidateCredentials(db, email.value, password.value, compare).None?
            ==> r == (jar, LoginError("Invalid email or password"))
    ensures r.1.Redirect? <==>
              && !Blank(email) && !Blank(password)
              && var user := ValidateCredentials(db, email.value, password.value, compare);
                 user.Some? && IsLatin1(user.value.email) && IsLatin1(user.value.name)
    ensures r.1.Redirect? ==>
              var user := ValidateCredentials(db, email.value, password.value, compare).value;
              && r.0 == jar[AuthCookieName := CreateSessionToken(user).value]
              && r.1.location == LandingPage(user.role)
    ensures !r.1.Redirect? ==> r.0 == jar
  {
    if Blank(email) || Blank(password) then
      (jar, LoginError("Please enter both email and password"))
    else
      match ValidateCredentials(db, email.value, password.value, compare)
      case None => (jar, LoginError("Invalid email or password"))
      case Some(user) =>
        match CreateSessionToken(user)
        case None => (jar, Threw)
        case Some(token) => (jar[AuthCookieName := token], Redirect(LandingPage(user.role)))
  }

  /** `logout`: drops the session cookie and sends the browser to the login page. */
  function Logout(jar: CookieJar): (r: (CookieJar, LoginOutcome))
    ensures AuthCookieName !in r.0
    ensures forall name :: name in jar && name != AuthCookieName ==> name in r.0 && r.0[name] == jar[name]
    ensures r.0.Keys <= jar.Keys
    ensures r.1 == Redirect("/auth/login")
  {
    (jar - {AuthCookieName}, Redirect("/auth/login"))
  }

  /** After a successful login the next request's session is the user's own
      identity, with its role as a string, unless the stored name is empty: then the
      login still redirects, but every later `getSession` finds no session. */
  lemma {:induction false} LoginThenSession(db: Db, jar: CookieJar, email: Option<string>, password: Option<string>,
                                            compare: (string, string) -> bool)
    requires Valid(db)
    requires Login(db, jar, email, password, compare).1.Redirect?
    ensures var user := ValidateCredentials(db, email.value, password.value, compare).value;
            GetSession(Login(db, jar, email, password, compare).0)
              == if |user.name| > 0 then Some(ClaimsOf(user)) else None
  {
    var user := ValidateCredentials(db, email.value, password.value, compare).value;
    assert user.id in db.users;
    assert |user.email| == |email.value| > 0;
    SessionRoundTrip(user);
    assert |SerializeUser(user)| > 0;
  }

  /** After `logout` there is no session, whatever cookie was there before. */
  lemma LogoutEndsSession(jar: CookieJar)
    ensures GetSession(Logout(jar).0) == None
  {
  }

  /** The session is not authenticated: any cookie holding `btoa` of a JSON object
      whose `role` is "Admin" passes every Admin check, whatever the users table
      holds. */
  lemma ForgedAdminSession(jar: CookieJar, id: int, email: string, name: string)
    requires id != 0 && |email| > 0 && |name| > 0
    requires IsLatin1(email) && IsLatin1(name)
    ensures var token := Btoa(WriteObject(ClaimMembers(id, email, name, "Admin")));
            && token.Some?
            && var session := GetSession(jar[AuthCookieName := token.value]);
               session.Some? && IsAdmin(session.value) && HasId(session.value, id)
  {
    var role := "Admin";
    assert IsLatin1(role);
    AnyClaimsParse(id, email, name, role);
    assert |WriteObject(ClaimMembers(id, email, name, role))| > 0;
  }
}
