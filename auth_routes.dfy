/**
 * The authentication routes: register, login, logout and check.  The
 * password hasher, the token signer, the salt and the current time (in
 * seconds) are inputs; the cookie the response sets or clears is part of
 * each result.
 */
module AuthRoutes {
  import opened Wrappers
  import opened Tables
  import opened Store
  import Bcrypt
  import Jwt
  import PasswordPolicy

  /** `maxAge` of the token cookie: 24 hours, in milliseconds. */
  const COOKIE_MAX_AGE_MS: nat := 24 * 60 * 60 * 1000

  datatype CookieEffect = KeepCookie | SetToken(token: Jwt.Token, maxAgeMs: nat) | ClearToken

  datatype RegisterRequest = RegisterRequest(
    firstName: string, lastName: string, email: string, password: string,
    userType: string, category: Option<string>)

  datatype RegisterResult = WeakPassword | UserExists | Registered(userId: nat)
  {
    function Status(): nat
    {
      if Registered? then 201 else 400
    }

    function Message(): string
    {
      match this
      case WeakPassword => "Password must be at least 8 characters with uppercase, lowercase, number, and special character"
      case UserExists => "User already exists"
      case Registered(_) => "User registered successfully"
    }
  }

  /** `category || null`: a missing or empty category is stored as NULL, any other as given. */
  function StoredCategory(category: Option<string>): (r: Option<string>)
    ensures r == None <==> category == None || category == Some("")
    ensures r != None ==> r == category
  {
    if category == Some("") then None else category
  }

  /** `SELECT * FROM users WHERE email = ?` returns a row. */
  predicate EmailTaken(users: seq<User>, email: string)
  {
    Lookup(users, EmailOf, email).Some?
  }

  /** The row a successful registration inserts. */
  function NewUser(hasher: Bcrypt.Hasher, req: RegisterRequest, salt: Bcrypt.Salt, userId: nat): User
  {
    User(userId, req.firstName, req.lastName, req.email, Bcrypt.Hash(hasher, req.password, salt),
         req.userType, StoredCategory(req.category))
  }

  /**
   * POST /register.  The password policy is checked first, then the email;
   * only then is a row inserted, holding the bcrypt hash and never the
   * password.  The role is stored as sent and no category is demanded of
   * creators.
   */
  method Register(db: Database, hasher: Bcrypt.Hasher, req: RegisterRequest, salt: Bcrypt.Salt)
    returns (r: RegisterResult)
    requires db.Valid()
    modifies db
    ensures db.Valid()
    ensures r.WeakPassword? <==> !PasswordPolicy.Matches(req.password)
    ensures r.UserExists? <==> PasswordPolicy.Matches(req.password) && EmailTaken(old(db.users), req.email)
    ensures r.Registered? ==>
              && r.userId == old(db.nextUserId)
              && db.users == old(db.users) + [NewUser(hasher, req, salt, r.userId)]
              && db.nextUserId == old(db.nextUserId) + 1
    ensures !r.Registered? ==> db.users == old(db.users) && db.nextUserId == old(db.nextUserId)
    ensures db.blogs == old(db.blogs) && db.images == old(db.images)
    ensures db.favorites == old(db.favorites) && db.nextBlogId == old(db.nextBlogId)
  {
    if !PasswordPolicy.Matches(req.password) {
      return WeakPassword;
    }
    if EmailTaken(db.users, req.email) {
      return UserExists;
    }
    var id := db.nextUserId;
    var row := NewUser(hasher, req, salt, id);
    PairwiseAppend(db.users, row, DistinctUsers);
    db.users := db.users + [row];
    db.nextUserId := id + 1;
    r := Registered(id);
  }

  /**
   * After registering, the email finds the new row and the password matches
   * its stored hash, so a login with the same credentials succeeds.
   */
  lemma RegisteredUserCanLogIn(users: seq<User>, hasher: Bcrypt.Hasher, req: RegisterRequest, salt: Bcrypt.Salt, userId: nat)
    requires !EmailTaken(users, req.email)
    ensures Lookup(users + [NewUser(hasher, req, salt, userId)], EmailOf, req.email) == Some(NewUser(hasher, req, salt, userId))
    ensures Bcrypt.Compare(hasher, req.password, NewUser(hasher, req, salt, userId).passwordHash)
  {
    var row := NewUser(hasher, req, salt, userId);
    LookupAppendAbsent(users, EmailOf, row);
    Bcrypt.CompareOwnHash(hasher, req.password, salt);
  }

  /** The user fields the login and check responses return. */
  datatype Profile = Profile(userId: nat, firstName: string, lastName: string, userType: string, category: Option<string>)

  function ProfileOf(u: User): Profile
  {
    Profile(u.userId, u.firstName, u.lastName, u.userType, u.category)
  }

  function ClaimsOf(u: User): Jwt.Claims
  {
    Jwt.Claims(u.userId, u.email, u.userType, u.category)
  }

  datatype LoginResult = InvalidCredentials | LoggedIn(user: Profile, token: Jwt.Token)
  {
    function Status(): nat
    {
      if LoggedIn? then 200 else 400
    }

    function Message(): string
    {
      if LoggedIn? then "Login successful" else "Invalid credentials"
    }

    function Cookie(): CookieEffect
    {
      if LoggedIn? then SetToken(token, COOKIE_MAX_AGE_MS) else KeepCookie
    }
  }

  /**
   * POST /login.  An unknown email and a wrong password produce the same
   * result; otherwise the user's claims are signed with a 24-hour expiry and
   * sent in a 24-hour cookie.
   */
  method Login(db: Database, hasher: Bcrypt.Hasher, signer: Jwt.Signer, email: string, password: string, now: int)
    returns (r: LoginResult)
    requires db.Valid()
    ensures r == InvalidCredentials <==>
              match Lookup(db.users, EmailOf, email)
              case None => true
              case Some(u) => !Bcrypt.Compare(hasher, password, u.passwordHash)
    ensures r.LoggedIn? ==>
              && Lookup(db.users, EmailOf, email).Some?
              && var u := Lookup(db.users, EmailOf, email).value;
              && u in db.users && u.email == email
              && r.user == ProfileOf(u)
              && r.token.claims == ClaimsOf(u)
              && r.token.expiresAt == now + Jwt.EXPIRES_IN_SECONDS
              && r.token == Jwt.Sign(signer, ClaimsOf(u), now)
              && r.Cookie() == SetToken(r.token, COOKIE_MAX_AGE_MS)
  {
    var found := Lookup(db.users, EmailOf, email);
    if found.None? {
      return InvalidCredentials;
    }
    var u := found.value;
    if !Bcrypt.Compare(hasher, password, u.passwordHash) {
      return InvalidCredentials;
    }
    var token := Jwt.Sign(signer, ClaimsOf(u), now);
    r := LoggedIn(ProfileOf(u), token);
  }

  datatype Response = Response(status: nat, message: string, cookie: CookieEffect)

  /** POST /logout: clears the token cookie and succeeds; no server state is involved. */
  function Logout(): (r: Response)
    ensures r.status == 200 && r.cookie == ClearToken
  {
    Response(200, "Logged out successfully", ClearToken)
  }

  /** The `token` cookie as the request carries it: absent or empty, not a JWT at all, or a JWT. */
  datatype TokenCookie = NoToken | Unreadable | Present(token: Jwt.Token)

  datatype CheckResult = Anonymous | Authenticated(user: Profile)

  /**
   * GET /check.  Unauthenticated when there is no token, when it does not
   * verify, or when it names no user row; otherwise the fields come from
   * the user's row, not from the token.
   */
  method Check(db: Database, signer: Jwt.Signer, cookie: TokenCookie, now: int) returns (r: CheckResult)
    requires db.Valid()
    ensures r.Anonymous? <==>
              || !cookie.Present?
              || Jwt.Verify(signer, cookie.token, now).None?
              || FindUser(db.users, Jwt.Verify(signer, cookie.token, now).value.userId).None?
    ensures r.Authenticated? ==>
              && cookie.Present?
              && Jwt.Verify(signer, cookie.token, now).Some?
              && var claims := Jwt.Verify(signer, cookie.token, now).value;
              && FindUser(db.users, claims.userId).Some?
              && var u := FindUser(db.users, claims.userId).value;
              && u in db.users && u.userId == claims.userId
              && r.user == ProfileOf(u)
  {
    if !cookie.Present? {
      return Anonymous;
    }
    var verified := Jwt.Verify(signer, cookie.token, now);
    if verified.None? {
      return Anonymous;
    }
    var found := FindUser(db.users, verified.value.userId);
    if found.None? {
      return Anonymous;
    }
    r := Authenticated(ProfileOf(found.value));
  }
}
