/** The session codec and the identity look-ups: a token is
    `btoa(JSON.stringify(user))`, unsigned, and parsing it fails closed. */
module Session {
  import opened Wrappers
  import opened Text
  import opened Base64
  import opened Json
  import opened Schema

  /** The name of the cookie that carries the token. */
  const AuthCookieName: string := "rmms_session"

  /** The identity a session is made from: the `User` interface, never the
      password. */
  datatype SessionUser = SessionUser(id: int, email: string, name: string, role: Role)

  /** What a parsed token yields: the four properties the rest of the application
      reads, each whatever JSON value the token held. Nothing forces `role` to be a
      role name or `id` to be a number. */
  datatype Claims = Claims(id: Json.Value, email: Json.Value, name: Json.Value, role: Json.Value)

  /** `session.role === "Admin"`. */
  predicate IsAdmin(c: Claims) {
    c.role == JString("Admin")
  }

  /** `n === session.id` for a number `n`. */
  predicate HasId(c: Claims, n: int) {
    c.id == JNumber(n)
  }

  /** The members of a session object whose email, name and role are strings. */
  function ClaimMembers(id: int, email: string, name: string, role: string): seq<Member> {
    [("id", JNumber(id)), ("email", JString(email)), ("name", JString(name)), ("role", JString(role))]
  }

  /** The object `JSON.stringify` is given, members in declaration order. */
  function UserMembers(u: SessionUser): seq<Member> {
    ClaimMembers(u.id, u.email, u.name, u.role.Name())
  }

  /** The claims a faithful decoding of `u`'s token has. */
  function ClaimsOf(u: SessionUser): Claims {
    Claims(JNumber(u.id), JString(u.email), JString(u.name), JString(u.role.Name()))
  }

  /** The JSON text of a session user. */
  function SerializeUser(u: SessionUser): string {
    WriteObject(UserMembers(u))
  }

  /** `createSessionToken`; `None` where `btoa` throws. */
  function CreateSessionToken(u: SessionUser): (r: Option<string>)
    ensures r.Some? <==> IsLatin1(u.email) && IsLatin1(u.name)
  {
    RoleNameLatin1(u.role);
    ClaimTextLatin1(u.id, u.email, u.name, u.role.Name());
    Btoa(SerializeUser(u))
  }

  /** Both role names are Latin-1, so the role never makes `btoa` throw. */
  lemma RoleNameLatin1(role: Role)
    ensures IsLatin1(role.Name())
  {
    var name := role.Name();
    assert forall i :: 0 <= i < |name| ==> name[i] as int <= 0xFF;
  }

  /** `parseSessionToken`: `None` on a base64 or JSON failure, and when any of the
      four properties is missing or falsy; otherwise the four properties as the
      decoded object holds them. */
  function ParseSessionToken(token: string): (r: Option<Claims>)
    ensures r.Some? ==> Truthy(r.value.id) && Truthy(r.value.email) && Truthy(r.value.name) && Truthy(r.value.role)
    ensures Atob(token).None? ==> r.None?
    ensures Atob(token).Some? && ParseObject(Atob(token).value).None? ==> r.None?
    ensures Atob(token).Some? && ParseObject(Atob(token).value).Some? ==>
              var ms := ParseObject(Atob(token).value).value;
              && (r.Some? <==> && Lookup(ms, "id").Some? && Truthy(Lookup(ms, "id").value)
                               && Lookup(ms, "email").Some? && Truthy(Lookup(ms, "email").value)
                               && Lookup(ms, "name").Some? && Truthy(Lookup(ms, "name").value)
                               && Lookup(ms, "role").Some? && Truthy(Lookup(ms, "role").value))
              && (r.Some? ==> r.value == Claims(Lookup(ms, "id").value, Lookup(ms, "email").value,
                                                Lookup(ms, "name").value, Lookup(ms, "role").value))
  {
    match Atob(token)
    case None => None
    case Some(text) =>
      match ParseObject(text)
      case None => None
      case Some(ms) =>
        var id, email, name, role := Lookup(ms, "id"), Lookup(ms, "email"), Lookup(ms, "name"), Lookup(ms, "role");
        if id.Some? && email.Some? && name.Some? && role.Some?
           && Truthy(id.value) && Truthy(email.value) && Truthy(name.value) && Truthy(role.value)
        then Some(Claims(id.value, email.value, name.value, role.value))
        else None
  }

  /** The JSON text of a session object is Latin-1 exactly when its three strings
      are: the number and the property names are ASCII. */
  lemma ClaimTextLatin1(id: int, email: string, name: string, role: string)
    ensures IsLatin1(WriteObject(ClaimMembers(id, email, name, role))) <==> IsLatin1(email) && IsLatin1(name) && IsLatin1(role)
  {
    var ms := ClaimMembers(id, email, name, role);
    ObjectLatin1Text(ms);
    assert MemberLatin1(ms[0]);
    assert MemberLatin1(ms[1]) <==> IsLatin1(email);
    assert MemberLatin1(ms[2]) <==> IsLatin1(name);
    assert MemberLatin1(ms[3]) <==> IsLatin1(role);
  }

  /** Each of the four properties of a session object is found under its name. */
  lemma ClaimLookups(id: int, email: string, name: string, role: string)
    ensures var ms := ClaimMembers(id, email, name, role);
            && Lookup(ms, "id") == Some(JNumber(id))
            && Lookup(ms, "email") == Some(JString(email))
            && Lookup(ms, "name") == Some(JString(name))
            && Lookup(ms, "role") == Some(JString(role))
  {
    var ms := ClaimMembers(id, email, name, role);
    var ms3, ms2, ms1 := ms[..3], ms[..3][..2], ms[..3][..2][..1];
    assert ms3[2] == ("name", JString(name)) && Lookup(ms, "name") == Some(JString(name));
    assert ms2[1] == ("email", JString(email)) && ms3[2].0 != "email";
    assert ms1[0] == ("id", JNumber(id)) && ms2[1].0 != "id" && ms3[2].0 != "id";
  }

  /** A token whose text is an object holding the four properties parses to them
      when all four are truthy, and is refused otherwise. */
  lemma ParseOfObject(token: string, text: string, ms: seq<Member>, c: Claims)
    requires Atob(token) == Some(text) && ParseObject(text) == Some(ms)
    requires Lookup(ms, "id") == Some(c.id) && Lookup(ms, "email") == Some(c.email)
    requires Lookup(ms, "name") == Some(c.name) && Lookup(ms, "role") == Some(c.role)
    ensures ParseSessionToken(token)
            == if Truthy(c.id) && Truthy(c.email) && Truthy(c.name) && Truthy(c.role) then Some(c) else None
  {
  }

  /** Any token written as `btoa` of a session object with Latin-1 strings is
      accepted exactly when the id is non-zero and the three strings are non-empty,
      and then with exactly those claims. The token is not signed, and the role need
      not be a role name. */
  lemma AnyClaimsParse(id: int, email: string, name: string, role: string)
    requires IsLatin1(email) && IsLatin1(name) && IsLatin1(role)
    ensures var token := Btoa(WriteObject(ClaimMembers(id, email, name, role)));
            && token.Some?
            && ParseSessionToken(token.value)
               == if id != 0 && |email| > 0 && |name| > 0 && |role| > 0
                  then Some(Claims(JNumber(id), JString(email), JString(name), JString(role)))
                  else None
  {
    var ms := ClaimMembers(id, email, name, role);
    var token := ClaimToken(id, email, name, role);
    ClaimLookups(id, email, name, role);
    ParseOfClaims(token, WriteObject(ms), ms, id, email, name, role);
  }

  /** `ParseOfObject` for claims written from an id and three strings. */
  lemma ParseOfClaims(token: string, text: string, ms: seq<Member>, id: int, email: string, name: string, role: string)
    requires Atob(token) == Some(text) && ParseObject(text) == Some(ms)
    requires Lookup(ms, "id") == Some(JNumber(id)) && Lookup(ms, "email") == Some(JString(email))
    requires Lookup(ms, "name") == Some(JString(name)) && Lookup(ms, "role") == Some(JString(role))
    ensures ParseSessionToken(token)
            == if id != 0 && |email| > 0 && |name| > 0 && |role| > 0
               then Some(Claims(JNumber(id), JString(email), JString(name), JString(role)))
               else None
  {
    var c := Claims(JNumber(id), JString(email), JString(name), JString(role));
    ParseOfObject(token, text, ms, c);
    if id != 0 && |email| > 0 && |name| > 0 && |role| > 0 {
      assert Truthy(c.id) && Truthy(c.email) && Truthy(c.name) && Truthy(c.role);
    } else {
      assert !(Truthy(c.id) && Truthy(c.email) && Truthy(c.name) && Truthy(c.role));
    }
  }

  /** The token of a session object decodes back to its text, which parses back to
      its members. */
  lemma ClaimToken(id: int, email: string, name: string, role: string) returns (token: string)
    requires IsLatin1(email) && IsLatin1(name) && IsLatin1(role)
    ensures Btoa(WriteObject(ClaimMembers(id, email, name, role))) == Some(token)
    ensures Atob(token) == Some(WriteObject(ClaimMembers(id, email, name, role)))
    ensures ParseObject(WriteObject(ClaimMembers(id, email, name, role))) == Some(ClaimMembers(id, email, name, role))
  {
    var ms := ClaimMembers(id, email, name, role);
    ClaimTextLatin1(id, email, name, role);
    AtobBtoa(WriteObject(ms));
    ObjectRoundTrip(ms);
    token := Btoa(WriteObject(ms)).value;
  }

  /** Session round trip: the token of a user whose strings `btoa` accepts parses
      back to exactly that user's claims, unless the id is zero or the email or name
      is empty, in which case it is refused. */
  lemma SessionRoundTrip(u: SessionUser)
    requires IsLatin1(u.email) && IsLatin1(u.name)
    ensures CreateSessionToken(u).Some?
    ensures ParseSessionToken(CreateSessionToken(u).value)
            == if u.id != 0 && |u.email| > 0 && |u.name| > 0 then Some(ClaimsOf(u)) else None
  {
    assert IsLatin1(u.role.Name());
    AnyClaimsParse(u.id, u.email, u.name, u.role.Name());
  }

  /** The first user row with the given email; emails are unique, so there is at
      most one. */
  function FindByEmail(db: Db, email: string): (r: Option<User>)
    requires Valid(db)
    ensures r.Some? <==> EmailTaken(db, email)
    ensures r.Some? ==> r.value.id in db.users && db.users[r.value.id] == r.value && r.value.email == email
  {
    if EmailTaken(db, email) then
      var k :| k in db.users && db.users[k].email == email;
      Some(db.users[k])
    else None
  }

  /** The identity fields of a row. */
  function Identity(u: User): SessionUser {
    SessionUser(u.id, u.email, u.name, u.role)
  }

  /** `validateCredentials`: looks the user up by the lower-cased email and checks
      the password against the stored hash with `compare` (bcrypt's `compare`,
      kept abstract). */
  function ValidateCredentials(db: Db, email: string, password: string, compare: (string, string) -> bool): (r: Option<SessionUser>)
    requires Valid(db)
    ensures r.Some? <==> exists k :: k in db.users && db.users[k].email == Lower(email) && compare(password, db.users[k].password)
    ensures r.Some? ==> r.value.id in db.users && r.value == Identity(db.users[r.value.id]) && r.value.email == Lower(email)
  {
    match FindByEmail(db, Lower(email))
    case None => None
    case Some(user) => if compare(password, user.password) then Some(Identity(user)) else None
  }

  /** `getUserById`. */
  function GetUserById(db: Db, id: int): (r: Option<SessionUser>)
    ensures r.Some? <==> id in db.users
    ensures r.Some? ==> r.value == Identity(db.users[id])
  {
    if id in db.users then Some(Identity(db.users[id])) else None
  }
}
