/** The account routes: plain-equality login, registration, token verification and
    password reset. Tokens are the unsigned base64 JSON payloads of the Token module. */
module Auth {
  import opened Wrappers
  import opened Text
  import opened Table
  import opened Models
  import Token
  import Base64
  import Utf8

  /** What a successful login or registration answers: the token (also set as the
      `authToken` cookie) and the account. */
  datatype Session = Session(token: string, user: UserInfo)

  /** The payload of the token issued for an account at clock reading `now`. */
  function Payload(row: Row<User>, now: int): Token.TokenData {
    Token.TokenData(NatToString(row.id), row.rec.email, row.rec.role, now)
  }

  function SessionFor(row: Row<User>, now: int): (s: Session)
    ensures Token.Decode(s.token) == Some(Payload(row, now))
    ensures s.user == UserView(row)
  {
    Token.DecodeEncode(Payload(row, now));
    Session(Token.Encode(Payload(row, now)), UserView(row))
  }

  /** `{ email, password }` as a `findOne` filter: a missing value drops its key. */
  predicate MatchesCredentials(u: User, email: Option<string>, password: Option<string>) {
    (email.None? || u.email == email.value) && (password.None? || u.password == password.value)
  }

  function Credentials(email: Option<string>, password: Option<string>): User -> bool {
    u => MatchesCredentials(u, email, password)
  }

  /** `handleLogin`: the first user with exactly this email and password. */
  function Login(db: Db, email: Option<string>, password: Option<string>, now: int): (r: Reply<Session>)
    ensures r.Err? <==> forall i :: 0 <= i < |db.users| ==> !MatchesCredentials(db.users[i].rec, email, password)
    ensures r.Err? ==> r == Err(401, "Invalid credentials")
    ensures r.Ok? ==> exists k :: 0 <= k < |db.users|
                        && MatchesCredentials(db.users[k].rec, email, password)
                        && (forall j :: 0 <= j < k ==> !MatchesCredentials(db.users[j].rec, email, password))
                        && r.value.user == UserView(db.users[k])
                        && Token.Decode(r.value.token) == Some(Payload(db.users[k], now))
  {
    match FindFirst(db.users, Credentials(email, password))
    case None => Err(401, "Invalid credentials")
    case Some(row) => Ok(SessionFor(row, now))
  }

  /** `User.findOne({ email })`: a missing email matches any user. */
  predicate UserExists(db: Db, email: Option<string>) {
    exists i :: 0 <= i < |db.users| && MatchesCredentials(db.users[i].rec, email, None)
  }

  /** `handleRegister`: refuses a known email, otherwise creates an employee account and
      signs it in. */
  function Register(db: Db, email: Option<string>, password: string, name: string, now: int): (o: Outcome<Session>)
    ensures UserExists(db, email) <==> o.reply.Err?
    ensures o.reply.Err? ==> o.reply == Err(400, "User already exists") && o.db == db
    ensures o.reply.Ok? ==>
              var row := Row(NextId(db.users), User(if email.Some? then email.value else "", password, name, EmployeeRole));
              && o.db == db.(users := db.users + [row])
              && o.reply.value.user == UserView(row)
              && o.reply.value.user.role == EmployeeRole
              && Token.Decode(o.reply.value.token) == Some(Payload(row, now))
    ensures ValidDb(db) ==> ValidDb(o.db)
  {
    if FindFirst(db.users, Credentials(email, None)).Some? then
      Outcome(Err(400, "User already exists"), db)
    else
      var users := Insert(db.users, User(if email.Some? then email.value else "", password, name, EmployeeRole));
      Outcome(Ok(SessionFor(users[|db.users|], now)), db.(users := users))
  }

  // ---------------------------------------------------------------------------
  // Verify

  /** `req.cookies.authToken || req.headers.authorization?.split(" ")[1]` */
  function TokenOf(cookie: Option<string>, authorization: Option<string>): Option<string> {
    if cookie.Some? && cookie.value != "" then cookie
    else if authorization.Some? then SplitPart(authorization.value, ' ', 1)
    else None
  }

  /** `handleVerify`: the account the presented token names. A token that does not decode
      to the payload shape, or whose id is not an id, is "Invalid token". */
  function Verify(db: Db, cookie: Option<string>, authorization: Option<string>): (r: Reply<UserInfo>)
    ensures r.Err? ==> r.status == 401
    ensures r == Err(401, "No token") <==> TokenOf(cookie, authorization) in {None, Some("")}
    ensures r.Ok? <==>
              && TokenOf(cookie, authorization).Some?
              && var d := Token.Decode(TokenOf(cookie, authorization).value);
              && d.Some? && ParseNat(d.value.id).Some?
              && ParseNat(d.value.id).value in Ids(db.users)
    ensures r.Ok? ==>
              var d := Token.Decode(TokenOf(cookie, authorization).value).value;
              && NatToString(r.value.id) == d.id
              && Row(r.value.id, User(r.value.email, Find(db.users, r.value.id).value.password,
                                      r.value.name, r.value.role)) in db.users
  {
    var token := TokenOf(cookie, authorization);
    if token.None? || token.value == "" then Err(401, "No token")
    else
      match Token.Decode(token.value)
      case None => Err(401, "Invalid token")
      case Some(d) =>
        match ParseNat(d.id)
        case None => Err(401, "Invalid token")
        case Some(id) =>
          match Find(db.users, id)
          case None => Err(401, "User not found")
          case Some(u) => Ok(UserView(Row(id, u)))
  }

  /** A token the server issued is never empty and has no space in it, so it survives the
      `Bearer <token>` header form. */
  lemma IssuedTokenShape(d: Token.TokenData)
    ensures Token.Encode(d) != ""
    ensures ' ' !in Token.Encode(d)
  {
    Token.DecodeEncode(d);
    var octets := Base64.Decode("");
    assert octets == Some([]);
    Base64.EncodeAlphabet(Utf8Of(d));
  }

  function Utf8Of(d: Token.TokenData): seq<int> {
    Utf8.Encode(Token.Stringify(d))
  }

  /** A presented token that the server issued for a stored account verifies as that
      account. */
  lemma VerifyIssued(db: Db, row: Row<User>, now: int, cookie: Option<string>, authorization: Option<string>)
    requires UniqueIds(db.users) && row in db.users
    requires TokenOf(cookie, authorization) == Some(Token.Encode(Payload(row, now)))
    ensures Verify(db, cookie, authorization) == Ok(UserView(row))
  {
    IssuedTokenShape(Payload(row, now));
    Token.DecodeEncode(Payload(row, now));
    NatToStringParses(row.id);
    FindUnique(db.users, row.id, row.rec);
  }

  /** The second word of `<scheme> <token>` is the token. */
  lemma BearerToken(scheme: string, token: string)
    requires ' ' !in scheme && ' ' !in token
    ensures TokenOf(None, Some(scheme + " " + token)) == Some(token)
  {
    SplitAfterFirst(scheme, ' ', token);
    SplitWithoutSeparator(token, ' ');
    assert scheme + " " + token == scheme + [' '] + token;
  }

  /** Logging in and then presenting the token, as cookie or as bearer header, gives back
      the account that logged in. */
  lemma LoginThenVerify(db: Db, email: Option<string>, password: Option<string>, now: int, scheme: string)
    requires UniqueIds(db.users)
    requires Login(db, email, password, now).Ok?
    requires ' ' !in scheme
    ensures var s := Login(db, email, password, now).value;
      Verify(db, Some(s.token), None) == Ok(s.user)
      && Verify(db, None, Some(scheme + " " + s.token)) == Ok(s.user)
  {
    var s := Login(db, email, password, now).value;
    var k :| 0 <= k < |db.users| && s.user == UserView(db.users[k])
             && Token.Decode(s.token) == Some(Payload(db.users[k], now));
    var row := db.users[k];
    assert s.token == Token.Encode(Payload(row, now));
    IssuedTokenShape(Payload(row, now));
    VerifyIssued(db, row, now, Some(s.token), None);
    BearerToken(scheme, s.token);
    VerifyIssued(db, row, now, None, Some(scheme + " " + s.token));
  }

  // ---------------------------------------------------------------------------
  // Reset password

  /** Replacing the password, and nothing else. */
  function SetPassword(password: string): User -> User {
    (u: User) => u.(password := password)
  }

  /** `handleResetPassword`: the first user with this email, if the current password is
      exactly the stored one, gets the new password (no length check here). */
  function ResetPassword(db: Db, email: Option<string>, currentPassword: Option<string>, newPassword: string): (o: Outcome<string>)
    ensures o.reply.Err? ==> o.db == db
    ensures o.reply == Err(404, "User not found") <==> !UserExists(db, email)
    ensures o.reply.Ok? <==>
              exists k :: 0 <= k < |db.users| && MatchesCredentials(db.users[k].rec, email, None)
                          && (forall j :: 0 <= j < k ==> !MatchesCredentials(db.users[j].rec, email, None))
                          && currentPassword == Some(db.users[k].rec.password)
                          && o.db == db.(users := Update(db.users, db.users[k].id, SetPassword(newPassword)))
    ensures o.reply.Err? && o.reply.status != 404 ==> o.reply == Err(400, "Current password is incorrect")
    ensures ValidDb(db) ==> ValidDb(o.db)
  {
    match FindFirst(db.users, Credentials(email, None))
    case None => Outcome(Err(404, "User not found"), db)
    case Some(row) =>
      if currentPassword != Some(row.rec.password) then
        Outcome(Err(400, "Current password is incorrect"), db)
      else
        Outcome(Ok("Password reset successfully"), db.(users := Update(db.users, row.id, SetPassword(newPassword))))
  }

  /** After a reset the new password logs in under that email. */
  lemma ResetThenLogin(db: Db, email: string, currentPassword: Option<string>, newPassword: string, now: int)
    requires ResetPassword(db, Some(email), currentPassword, newPassword).reply.Ok?
    ensures Login(ResetPassword(db, Some(email), currentPassword, newPassword).db, Some(email), Some(newPassword), now).Ok?
  {
    var o := ResetPassword(db, Some(email), currentPassword, newPassword);
    var k :| 0 <= k < |db.users| && MatchesCredentials(db.users[k].rec, Some(email), None)
             && (forall j :: 0 <= j < k ==> !MatchesCredentials(db.users[j].rec, Some(email), None))
             && currentPassword == Some(db.users[k].rec.password)
             && o.db == db.(users := Update(db.users, db.users[k].id, SetPassword(newPassword)));
    assert o.db.users[k].rec == SetPassword(newPassword)(db.users[k].rec);
    assert MatchesCredentials(o.db.users[k].rec, Some(email), Some(newPassword));
  }
}
