/** Start-up: the connection-string rewrite that turns TLS on for MongoDB Atlas URIs, the
    connection steps, and the seeding of the default administrator. */
module Bootstrap {
  import opened Wrappers
  import opened Text
  import opened Table
  import opened Models
  import Auth

  // ---------------------------------------------------------------------------
  // Connection string

  /** An Atlas (`mongodb+srv`) URI that names neither `ssl=` nor `tls=`. */
  predicate NeedsTls(uri: string) {
    Includes(uri, "mongodb+srv") && !Includes(uri, "ssl=") && !Includes(uri, "tls=")
  }

  /** Appends `tls=true` to an Atlas URI without a TLS parameter, after `&` when the URI
      already has a query and after `?` otherwise; every other URI is left alone. */
  function RewriteUri(uri: string): (r: string)
    ensures r == uri <==> !NeedsTls(uri)
    ensures StartsWith(r, uri)
    ensures r != uri ==> r[|uri|..] == (if Includes(uri, "?") then "&" else "?") + "tls=true"
  {
    if NeedsTls(uri) then
      var tail := (if Includes(uri, "?") then "&" else "?") + "tls=true";
      var r := uri + tail;
      assert r[..|uri|] == uri && r[|uri|..] == tail;
      r
    else uri
  }

  /** Rewriting twice is rewriting once: the rewritten URI names `tls=`. */
  lemma RewriteIdempotent(uri: string)
    ensures RewriteUri(RewriteUri(uri)) == RewriteUri(uri)
  {
    var r := RewriteUri(uri);
    if r != uri {
      var head := uri + (if Includes(uri, "?") then "&" else "?");
      assert r == head + "tls=true";
      IncludesInSuffix(head, "tls=true", "tls=");
    }
  }

  // ---------------------------------------------------------------------------
  // Seeding

  const AdminEmail: string := "admin@cafe.com"
  const AdminPassword: string := "admin123"
  const AdminName: string := "Admin User"

  function AdminUser(): User {
    User(AdminEmail, AdminPassword, AdminName, AdminRole)
  }

  /** The administrator's profile, paired with the user `userId`, created at `now`. */
  function AdminEmployee(userId: nat, now: int): Employee {
    Employee(AdminEmail, AdminName, userId, AdminRole, true, now, 0)
  }

  function HasAdminEmail(u: User): bool {
    u.email == AdminEmail
  }

  function IsAdminProfile(e: Employee): bool {
    e.email == AdminEmail
  }

  lemma AdminEmployeeValid(userId: nat, now: int)
    ensures ValidEmployee(AdminEmployee(userId, now))
  {
    var e := AdminEmail;
    assert forall i :: 0 <= i < |e| ==> !('A' <= e[i] <= 'Z');
  }

  /** The users after the first seeding step and the id of the administrator account:
      the first user with the administrator's email, created when there is none. */
  function SeedUser(users: Table<User>): (r: (Table<User>, nat))
    ensures FindFirst(users, HasAdminEmail).Some? ==> r.0 == users && r.1 == FindFirst(users, HasAdminEmail).value.id
    ensures FindFirst(users, HasAdminEmail).None? ==> r.0 == users + [Row(r.1, AdminUser())] && r.1 == NextId(users)
    ensures FindFirst(r.0, HasAdminEmail).Some? && FindFirst(r.0, HasAdminEmail).value.id == r.1
    ensures UniqueIds(users) ==> UniqueIds(r.0)
  {
    match FindFirst(users, HasAdminEmail)
    case Some(row) => (users, row.id)
    case None =>
      FindFirstAppend(users, Row(NextId(users), AdminUser()), HasAdminEmail);
      (Insert(users, AdminUser()), NextId(users))
  }

  /** The employees after the second seeding step: the administrator's profile, paired
      with the account `adminId`, is created when no profile has its email. */
  function SeedProfile(employees: Table<Employee>, adminId: nat, now: int): (r: Table<Employee>)
    ensures FindFirst(employees, IsAdminProfile).Some? ==> r == employees
    ensures FindFirst(employees, IsAdminProfile).None? ==>
              r == employees + [Row(NextId(employees), AdminEmployee(adminId, now))]
    ensures exists i :: 0 <= i < |r| && r[i].rec.email == AdminEmail
    ensures UniqueIds(employees) ==> UniqueIds(r)
    ensures (forall i :: 0 <= i < |employees| ==> ValidEmployee(employees[i].rec)) && UniqueEmails(employees)
            ==> (forall i :: 0 <= i < |r| ==> ValidEmployee(r[i].rec)) && UniqueEmails(r)
  {
    match FindFirst(employees, IsAdminProfile)
    case Some(row) => employees
    case None =>
      var r := Insert(employees, AdminEmployee(adminId, now));
      assert r[|employees|].rec.email == AdminEmail;
      AdminEmployeeValid(adminId, now);
      AppendProfileValid(employees, r, NextId(employees), AdminEmployee(adminId, now));
      r
  }

  /** Appending a valid profile whose email is new keeps the profiles valid. */
  lemma AppendProfileValid(t: Table<Employee>, u: Table<Employee>, n: nat, e: Employee)
    requires u == t + [Row(n, e)] && ValidEmployee(e)
    requires forall i :: 0 <= i < |t| ==> t[i].rec.email != e.email
    ensures (forall i :: 0 <= i < |t| ==> ValidEmployee(t[i].rec)) && UniqueEmails(t)
            ==> (forall i :: 0 <= i < |u| ==> ValidEmployee(u[i].rec)) && UniqueEmails(u)
  {
    assert forall i :: 0 <= i < |t| ==> u[i] == t[i];
  }

  /** The seeding in `connectDB` at clock reading `now`: creates the administrator's
      account and profile where they are missing and touches nothing else. */
  function Seed(db: Db, now: int): (r: Db)
    ensures r.documents == db.documents && r.logs == db.logs
    ensures r.users == db.users || (r.users == db.users + [Row(NextId(db.users), AdminUser())])
    ensures r.users != db.users <==> forall i :: 0 <= i < |db.users| ==> db.users[i].rec.email != AdminEmail
    ensures r.employees != db.employees <==>
              forall i :: 0 <= i < |db.employees| ==> db.employees[i].rec.email != AdminEmail
    ensures r.employees != db.employees ==>
              && FindFirst(r.users, HasAdminEmail).Some?
              && r.employees == db.employees
                 + [Row(NextId(db.employees), AdminEmployee(FindFirst(r.users, HasAdminEmail).value.id, now))]
    ensures exists i :: 0 <= i < |r.users| && r.users[i].rec.email == AdminEmail
    ensures exists i :: 0 <= i < |r.employees| && r.employees[i].rec.email == AdminEmail
    ensures ValidDb(db) ==> ValidDb(r)
  {
    var (users, adminId) := SeedUser(db.users);
    var employees := SeedProfile(db.employees, adminId, now);
    db.(users := users, employees := employees)
  }

  /** Seeding a seeded database changes nothing. */
  lemma SeedIdempotent(db: Db, now: int, later: int)
    ensures Seed(Seed(db, now), later) == Seed(db, now)
  {
    var r := Seed(db, now);
    var i :| 0 <= i < |r.users| && r.users[i].rec.email == AdminEmail;
    var j :| 0 <= j < |r.employees| && r.employees[j].rec.email == AdminEmail;
    var r2 := Seed(r, later);
    assert r2.users == r.users;
    assert r2.employees == r.employees;
  }

  /** On a database without the administrator account, seeding makes `admin@cafe.com` /
      `admin123` log in as an administrator. */
  lemma SeededAdminLogin(db: Db, now: int, later: int)
    requires forall i :: 0 <= i < |db.users| ==> db.users[i].rec.email != AdminEmail
    ensures var r := Auth.Login(Seed(db, now), Some(AdminEmail), Some(AdminPassword), later);
      r.Ok? && r.value.user.role == AdminRole && r.value.user.name == AdminName
  {
    var s := Seed(db, now);
    var row := Row(NextId(db.users), AdminUser());
    assert s.users == db.users + [row];
    FindFirstAppend(db.users, row, Auth.Credentials(Some(AdminEmail), Some(AdminPassword)));
  }

  // ---------------------------------------------------------------------------
  // Connecting

  /** How `connectDB` ends. The failures are logged and swallowed. */
  datatype Startup =
    | AlreadyConnected
    | MissingUri
    | Unreachable(uri: string)
    | Connected(uri: string)

  /** `connectDB` with connection state `readyState`, environment value `envUri`, and
      `reachable` telling whether the server accepts the (rewritten) URI. Seeding runs only
      after a fresh, successful connection. */
  function ConnectDb(readyState: int, envUri: Option<string>, reachable: bool, db: Db, now: int): (r: (Startup, Db))
    ensures readyState == 1 ==> r == (AlreadyConnected, db)
    ensures r.0.Connected? <==> readyState != 1 && envUri.Some? && envUri.value != "" && reachable
    ensures r.0 == MissingUri <==> readyState != 1 && (envUri.None? || envUri.value == "")
    ensures !r.0.Connected? ==> r.1 == db
    ensures r.0.Connected? ==> r.0.uri == RewriteUri(envUri.value) && r.1 == Seed(db, now)
  {
    if readyState == 1 then (AlreadyConnected, db)
    else if envUri.None? || envUri.value == "" then (MissingUri, db)
    else
      var uri := RewriteUri(envUri.value);
      if !reachable then (Unreachable(uri), db) else (Connected(uri), Seed(db, now))
  }
}
