/** The employee routes: the list with computed document counts, add, update, delete,
    block and unblock. */
module Employees {
  import opened Wrappers
  import opened Text
  import opened Table
  import opened Sorting
  import opened Models

  /** The sort key of `sort({ createdAt: -1 })`. */
  function CreatedKey(row: Row<Employee>): int {
    row.rec.createdAt
  }

  function InfoCreatedKey(v: EmployeeInfo): int {
    v.createdAt
  }

  /** The documents whose `uploadedBy` is the given user. */
  function UploadedBy(userId: nat): Row<Document> -> bool {
    (row: Row<Document>) => row.rec.uploadedBy == userId
  }

  /** `Document.countDocuments({ uploadedBy: userId })` */
  function DocumentsCount(db: Db, userId: nat): nat {
    Count(db.documents, UploadedBy(userId))
  }

  /** An employee as the list shows it: with the computed count. */
  function CountedView(db: Db, row: Row<Employee>): EmployeeInfo {
    EmployeeView(row, DocumentsCount(db, row.rec.userId))
  }

  /** `handleGetEmployees`: every employee, newest first, each with the number of documents
      its user has uploaded. */
  function GetEmployees(db: Db): (r: seq<EmployeeInfo>)
    ensures |r| == |db.employees|
    ensures SortedDesc(r, InfoCreatedKey)
    ensures forall v :: v in r <==> exists row :: row in db.employees && v == CountedView(db, row)
  {
    var rows := SortDesc(db.employees, CreatedKey);
    var view := row => CountedView(db, row);
    MapPermutation(db.employees, rows, view);
    Map(rows, view)
  }

  // ---------------------------------------------------------------------------
  // Add

  /** The body of `POST /api/employees`. `email` is `None` when missing; a missing name or
      password is "". */
  datatype AddRequest = AddRequest(email: Option<string>, name: string, password: string)

  /** `Employee.findOne({ email })`: the setters normalise the queried email; a missing
      email leaves the filter empty, which any employee matches. */
  predicate EmployeeExists(db: Db, email: Option<string>) {
    match email
    case None => |db.employees| > 0
    case Some(e) => exists i :: 0 <= i < |db.employees| && db.employees[i].rec.email == NormalizeEmail(e)
  }

  /** Whether the Employee record built from the request passes the schema's `required`
      checks. */
  predicate EmployeeFieldsPresent(req: AddRequest) {
    req.email.Some? && NormalizeEmail(req.email.value) != "" && req.name != ""
  }

  function NewUser(req: AddRequest): User {
    User(if req.email.Some? then req.email.value else "", req.password, req.name, EmployeeRole)
  }

  /** `handleAddEmployee` at clock reading `now`. The User is created first; when the
      Employee record then fails validation the reply is 500 and that User stays. */
  function AddEmployee(db: Db, req: AddRequest, now: int): (o: Outcome<EmployeeInfo>)
    ensures Utf16Length(req.password) < 6 ==> o.reply == Err(400, "Password must be at least 6 characters") && o.db == db
    ensures Utf16Length(req.password) >= 6 && EmployeeExists(db, req.email) ==>
              o.reply == Err(400, "Employee already exists") && o.db == db
    ensures o.reply.Ok? <==>
              Utf16Length(req.password) >= 6 && !EmployeeExists(db, req.email) && EmployeeFieldsPresent(req)
    ensures o.reply.Ok? ==>
              var userId := NextId(db.users);
              var emp := Employee(NormalizeEmail(req.email.value), req.name, userId, EmployeeRole,
                                  true, now, 0);
              && o.db.users == db.users + [Row(userId, NewUser(req))]
              && o.db.employees == db.employees + [Row(NextId(db.employees), emp)]
              && o.db.documents == db.documents && o.db.logs == db.logs
              && o.reply.value == EmployeeView(Row(NextId(db.employees), emp), 0)
    ensures o.reply.Err? && o.reply.status == 500 ==>
              o.db == db.(users := db.users + [Row(NextId(db.users), NewUser(req))])
    ensures ValidDb(db) ==> ValidDb(o.db)
  {
    if Utf16Length(req.password) < 6 then
      Outcome(Err(400, "Password must be at least 6 characters"), db)
    else if EmployeeExists(db, req.email) then
      Outcome(Err(400, "Employee already exists"), db)
    else
      var users := Insert(db.users, NewUser(req));
      var userId := NextId(db.users);
      if !EmployeeFieldsPresent(req) then
        Outcome(Err(500, "Failed to add employee"), db.(users := users))
      else
        var emp := Employee(NormalizeEmail(req.email.value), req.name, userId, EmployeeRole,
                            true, now, 0);
        var employees := Insert(db.employees, emp);
        var db' := db.(users := users, employees := employees);
        assert ValidDb(db) ==> ValidDb(db') by {
          if ValidDb(db) {
            AppendEmployeeValid(db.employees, employees, NextId(db.employees), emp);
          }
        }
        Outcome(Ok(EmployeeView(employees[|db.employees|], 0)), db')
  }

  /** Appending an employee whose email is new keeps the collection valid. */
  lemma AppendEmployeeValid(t: Table<Employee>, u: Table<Employee>, n: nat, e: Employee)
    requires u == t + [Row(n, e)] && ValidEmployee(e)
    requires forall i :: 0 <= i < |t| ==> ValidEmployee(t[i].rec)
    requires UniqueEmails(t)
    requires forall i :: 0 <= i < |t| ==> t[i].rec.email != e.email
    ensures forall i :: 0 <= i < |u| ==> ValidEmployee(u[i].rec)
    ensures UniqueEmails(u)
  {
    forall i | 0 <= i < |u| ensures ValidEmployee(u[i].rec) {
      if i < |t| {
        assert u[i] == t[i];
      }
    }
    forall i, j | 0 <= i < j < |u| ensures u[i].rec.email != u[j].rec.email {
      assert u[i] == t[i];
      if j < |t| {
        assert u[j] == t[j];
      }
    }
  }

  /** Adding the same email again is refused, whatever the password and name. */
  lemma AddTwiceRefused(db: Db, req: AddRequest, now: int, again: AddRequest, later: int)
    requires AddEmployee(db, req, now).reply.Ok?
    requires again.email == req.email && Utf16Length(again.password) >= 6
    ensures AddEmployee(AddEmployee(db, req, now).db, again, later).reply == Err(400, "Employee already exists")
  {
    var db' := AddEmployee(db, req, now).db;
    assert db'.employees[|db.employees|].rec.email == NormalizeEmail(req.email.value);
  }

  // ---------------------------------------------------------------------------
  // Update, block, unblock

  /** `{ ...(name && { name }), ...(isActive !== undefined && { isActive }) }` applied to
      an employee. */
  function Change(name: string, isActive: Option<bool>): Employee -> Employee {
    (e: Employee) => e.(name := if name != "" then name else e.name,
            isActive := if isActive.Some? then isActive.value else e.isActive)
  }

  /** Changing name or activity leaves every other field as it was. */
  lemma ChangeFrame(name: string, isActive: Option<bool>, e: Employee)
    ensures var c := Change(name, isActive)(e);
      c.email == e.email && c.userId == e.userId && c.role == e.role
      && c.createdAt == e.createdAt && c.documentsCount == e.documentsCount
      && (name != "" ==> c.name == name) && (name == "" ==> c.name == e.name)
      && (isActive.Some? ==> c.isActive == isActive.value) && (isActive.None? ==> c.isActive == e.isActive)
  {
  }

  /** Updating employees with a change that keeps emails, and keeps valid records valid,
      keeps the database valid. */
  lemma UpdateKeepsValid(db: Db, id: nat, f: Employee -> Employee)
    requires ValidDb(db)
    requires forall e :: f(e).email == e.email && (ValidEmployee(e) ==> ValidEmployee(f(e)))
    ensures ValidDb(db.(employees := Update(db.employees, id, f)))
  {
    var u := Update(db.employees, id, f);
    forall i | 0 <= i < |u| ensures u[i].rec.email == db.employees[i].rec.email {
      if db.employees[i].id == id {
        assert u[i].rec == f(db.employees[i].rec);
      }
    }
  }

  /** `handleUpdateEmployee`. `id` is `None` when the body has none: Mongoose then drops
      the `_id` filter key, so the first employee on record is the one updated. */
  function UpdateEmployee(db: Db, id: Option<nat>, name: string, isActive: Option<bool>): (o: Outcome<Employee>)
    ensures o.reply.Err? <==> if id.Some? then id.value !in Ids(db.employees) else |db.employees| == 0
    ensures o.reply.Err? ==> o.reply == Err(404, "Employee not found") && o.db == db
    ensures o.reply.Ok? && id.Some? ==>
              && o.db == db.(employees := Update(db.employees, id.value, Change(name, isActive)))
              && Find(db.employees, id.value).Some?
              && o.reply.value == Change(name, isActive)(Find(db.employees, id.value).value)
    ensures o.reply.Ok? && id.None? ==>
              && o.db == db.(employees := Update(db.employees, db.employees[0].id, Change(name, isActive)))
              && o.reply.value == Change(name, isActive)(db.employees[0].rec)
    ensures ValidDb(db) ==> ValidDb(o.db)
  {
    if id.Some? then UpdateById(db, id.value, name, isActive)
    else if |db.employees| == 0 then Outcome(Err(404, "Employee not found"), db)
    else
      assert Find(db.employees, db.employees[0].id) == Some(db.employees[0].rec);
      assert db.employees[0].id in Ids(db.employees);
      UpdateById(db, db.employees[0].id, name, isActive)
  }

  /** `findByIdAndUpdate(id, change, { new: true })` and the 404 for an unknown id. */
  function UpdateById(db: Db, id: nat, name: string, isActive: Option<bool>): (o: Outcome<Employee>)
    ensures o.reply.Err? <==> id !in Ids(db.employees)
    ensures o.reply.Err? ==> o.reply == Err(404, "Employee not found") && o.db == db
    ensures o.reply.Ok? ==>
              && o.db == db.(employees := Update(db.employees, id, Change(name, isActive)))
              && Find(db.employees, id).Some?
              && o.reply.value == Change(name, isActive)(Find(db.employees, id).value)
    ensures ValidDb(db) ==> ValidDb(o.db)
  {
    match Find(db.employees, id)
    case None => Outcome(Err(404, "Employee not found"), db)
    case Some(e) =>
      var f := Change(name, isActive);
      assert ValidDb(db) ==> ValidDb(db.(employees := Update(db.employees, id, f))) by {
        if ValidDb(db) {
          UpdateKeepsValid(db, id, f);
        }
      }
      Outcome(Ok(f(e)), db.(employees := Update(db.employees, id, f)))
  }

  /** Setting the activity flag. */
  function SetActive(active: bool): Employee -> Employee {
    (e: Employee) => e.(isActive := active)
  }

  /** `handleBlockEmployee` (`active` false) and `handleUnblockEmployee` (`active` true).
      The reply carries the stored `documentsCount`, not the computed one. */
  function SetEmployeeActive(db: Db, id: nat, active: bool): (o: Outcome<EmployeeInfo>)
    ensures o.reply.Err? <==> id !in Ids(db.employees)
    ensures o.reply.Err? ==> o.reply.status == 404 && o.db == db
    ensures o.reply.Ok? ==>
              && o.db == db.(employees := Update(db.employees, id, SetActive(active)))
              && Find(db.employees, id).Some?
              && o.reply.value.isActive == active
              && o.reply.value.id == id
              && o.reply.value.documentsCount == Find(db.employees, id).value.documentsCount
    ensures o.reply.Ok? ==>
              var e := Find(db.employees, id).value;
              && o.reply.value.email == e.email && o.reply.value.name == e.name
              && o.reply.value.role == e.role && o.reply.value.createdAt == e.createdAt
              && o.reply.value == EmployeeView(Row(id, e.(isActive := active)), e.documentsCount)
    ensures o.reply.Ok? && UniqueIds(db.employees) ==>
              Find(o.db.employees, id) == Some(Find(db.employees, id).value.(isActive := active))
    ensures ValidDb(db) ==> ValidDb(o.db)
  {
    match Find(db.employees, id)
    case None => Outcome(Err(404, "Employee not found"), db)
    case Some(e) =>
      var f := SetActive(active);
      assert ValidDb(db) ==> ValidDb(db.(employees := Update(db.employees, id, f))) by {
        if ValidDb(db) {
          UpdateKeepsValid(db, id, f);
        }
      }
      assert UniqueIds(db.employees) ==> Find(Update(db.employees, id, f), id) == Some(f(e)) by {
        if UniqueIds(db.employees) {
          FindAfterUpdate(db.employees, id, f, id);
        }
      }
      Outcome(Ok(EmployeeView(Row(id, f(e)), e.documentsCount)), db.(employees := Update(db.employees, id, f)))
  }

  /** Blocking (or unblocking) twice is the same as doing it once. */
  lemma SetActiveIdempotent(db: Db, id: nat, active: bool)
    ensures SetEmployeeActive(SetEmployeeActive(db, id, active).db, id, active).db
            == SetEmployeeActive(db, id, active).db
  {
    var o := SetEmployeeActive(db, id, active);
    if o.reply.Ok? {
      var t := Update(db.employees, id, SetActive(active));
      var t2 := Update(t, id, SetActive(active));
      assert Ids(t) == Ids(db.employees);
      assert |t2| == |t|;
      forall i | 0 <= i < |t| ensures t2[i] == t[i] {
        if t[i].id == id {
          assert t2[i].rec == SetActive(active)(t[i].rec);
        }
      }
    }
  }

  /** Only the addressed employee changes: every other row is as it was. */
  lemma SetActiveFrame(db: Db, id: nat, active: bool)
    requires SetEmployeeActive(db, id, active).reply.Ok?
    ensures var t := SetEmployeeActive(db, id, active).db.employees;
      |t| == |db.employees|
      && (forall i :: 0 <= i < |t| && t[i].id != id ==> t[i] == db.employees[i])
      && (forall i :: 0 <= i < |t| && t[i].id == id ==> t[i].rec.isActive == active)
  {
  }

  /** The block reply's count can disagree with the list's: the stored count is never
      updated by uploads. */
  lemma BlockCountMayDisagree()
    ensures var db := Db(
              [Row(0, User("a@b.c", "secret", "A", EmployeeRole))],
              [Row(0, Employee("a@b.c", "A", 0, EmployeeRole, true, 0, 0))],
              [Row(0, Document("f", "t", 1, 0, 0, "A", "general", "/f", None, "T", ""))],
              []);
      SetEmployeeActive(db, 0, false).reply.value.documentsCount == 0
      && GetEmployees(db)[0].documentsCount == 1
  {
    var db := Db(
              [Row(0, User("a@b.c", "secret", "A", EmployeeRole))],
              [Row(0, Employee("a@b.c", "A", 0, EmployeeRole, true, 0, 0))],
              [Row(0, Document("f", "t", 1, 0, 0, "A", "general", "/f", None, "T", ""))],
              []);
    var r := GetEmployees(db);
    assert CountedView(db, db.employees[0]) in r;
    assert DocumentsCount(db, 0) == 1;
  }

  // ---------------------------------------------------------------------------
  // Delete

  /** `handleDeleteEmployee`: removes the employee, then the user it is paired with. */
  function DeleteEmployee(db: Db, id: nat): (o: Outcome<()>)
    ensures o.reply.Err? <==> id !in Ids(db.employees)
    ensures o.reply.Err? ==> o.reply.status == 404 && o.db == db
    ensures o.reply.Ok? ==>
              && Find(db.employees, id).Some?
              && var userId := Find(db.employees, id).value.userId;
              && (forall row :: row in o.db.employees <==> row in db.employees && row.id != id)
              && (forall row :: row in o.db.users <==> row in db.users && row.id != userId)
              && o.db.documents == db.documents && o.db.logs == db.logs
    ensures ValidDb(db) ==> ValidDb(o.db)
  {
    match Find(db.employees, id)
    case None => Outcome(Err(404, "Employee not found"), db)
    case Some(e) =>
      var db' := db.(employees := Remove(db.employees, id), users := Remove(db.users, e.userId));
      assert ValidDb(db) ==> ValidDb(db') by {
        if ValidDb(db) {
          RemoveIds(db.employees, id);
          RemoveIds(db.users, e.userId);
          RemoveKeepsEmployees(db.employees, id);
        }
      }
      Outcome(Ok(()), db')
  }

  lemma {:induction false} RemoveKeepsEmployees(t: Table<Employee>, id: nat)
    requires (forall i :: 0 <= i < |t| ==> ValidEmployee(t[i].rec)) && UniqueEmails(t)
    ensures var u := Remove(t, id);
      (forall i :: 0 <= i < |u| ==> ValidEmployee(u[i].rec)) && UniqueEmails(u)
    decreases |t|
  {
    if |t| > 0 {
      var tail := t[1..];
      RemoveKeepsEmployees(tail, id);
      var rest := Remove(tail, id);
      if t[0].id != id {
        var u := Remove(t, id);
        assert u == [t[0]] + rest;
        forall j | 0 <= j < |rest| ensures rest[j].rec.email != t[0].rec.email {
          assert rest[j] in tail;
          var m :| 0 <= m < |tail| && tail[m] == rest[j];
          assert tail[m] == t[m + 1];
        }
        ConsEmployees(t[0], rest);
      }
    }
  }

  /** An employee ahead of a valid roster that holds no one with its email keeps the
      roster valid. */
  lemma ConsEmployees(x: Row<Employee>, rest: Table<Employee>)
    requires ValidEmployee(x.rec) && (forall i :: 0 <= i < |rest| ==> ValidEmployee(rest[i].rec))
    requires UniqueEmails(rest) && forall j :: 0 <= j < |rest| ==> rest[j].rec.email != x.rec.email
    ensures var u := [x] + rest;
      (forall i :: 0 <= i < |u| ==> ValidEmployee(u[i].rec)) && UniqueEmails(u)
  {
    var u := [x] + rest;
    forall i, j | 0 <= i < j < |u| ensures u[i].rec.email != u[j].rec.email {
      assert u[j] == rest[j - 1];
      if i > 0 {
        assert u[i] == rest[i - 1];
      }
    }
  }

  /** A deleted employee is gone: updating, blocking or deleting it again answers 404. */
  lemma DeleteThenGone(db: Db, id: nat, name: string, isActive: Option<bool>, active: bool)
    requires DeleteEmployee(db, id).reply.Ok?
    ensures var db' := DeleteEmployee(db, id).db;
      && UpdateEmployee(db', Some(id), name, isActive).reply == Err(404, "Employee not found")
      && SetEmployeeActive(db', id, active).reply == Err(404, "Employee not found")
      && DeleteEmployee(db', id).reply == Err(404, "Employee not found")
  {
  }
}
