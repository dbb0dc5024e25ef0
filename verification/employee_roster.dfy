/** The admin dashboard's employee list: the add-employee form, and the local updates it
    makes after the server accepts an add, a block or an unblock. */
module EmployeeRoster {
  import opened Wrappers
  import opened Text
  import opened Table
  import opened Sorting
  import opened Models
  import Employees

  // ---------------------------------------------------------------------------
  // Add form

  /** The checks `handleAddEmployee` makes before sending anything. */
  function AddFormError(email: string, name: string, password: string): (e: Option<string>)
    ensures e.None? <==> email != "" && name != "" && Utf16Length(password) >= 6
    ensures e.Some? && (email == "" || name == "" || password == "") ==>
              e.value == "Please fill all fields (Email, Name, and Password)"
    ensures e.Some? && email != "" && name != "" && password != "" ==>
              e.value == "Password must be at least 6 characters"
  {
    if email == "" || name == "" || password == "" then
      Some("Please fill all fields (Email, Name, and Password)")
    else if Utf16Length(password) < 6 then Some("Password must be at least 6 characters")
    else None
  }

  /** What the form sends. */
  function AddRequestOf(email: string, name: string, password: string): Employees.AddRequest {
    Employees.AddRequest(Some(email), name, password)
  }

  /** The form's check covers the server's password rule, so a request the form lets
      through is refused by the server only as a duplicate or for an email that is blank
      once trimmed. */
  lemma FormCoversPasswordRule(db: Db, email: string, name: string, password: string, now: int)
    requires AddFormError(email, name, password).None?
    ensures var o := Employees.AddEmployee(db, AddRequestOf(email, name, password), now);
      && o.reply != Err(400, "Password must be at least 6 characters")
      && (o.reply.Ok? <==> !Employees.EmployeeExists(db, Some(email)) && NormalizeEmail(email) != "")
  {
  }

  /** `setEmployees([...employees, data.employee])` after an accepted add. */
  function AppendAdded(emps: seq<EmployeeInfo>, reply: Reply<EmployeeInfo>): (r: seq<EmployeeInfo>)
    ensures reply.Err? ==> r == emps
    ensures reply.Ok? ==> |r| == |emps| + 1 && r[..|emps|] == emps && r[|emps|] == reply.value
  {
    if reply.Ok? then emps + [reply.value] else emps
  }

  /** An employee added from the form shows up active, with no documents. */
  lemma AddedShowsActive(db: Db, emps: seq<EmployeeInfo>, email: string, name: string, password: string, now: int)
    requires AddFormError(email, name, password).None?
    requires Employees.AddEmployee(db, AddRequestOf(email, name, password), now).reply.Ok?
    ensures var r := AppendAdded(emps, Employees.AddEmployee(db, AddRequestOf(email, name, password), now).reply);
      && r[|emps|].isActive && r[|emps|].documentsCount == 0 && r[|emps|].role == EmployeeRole
      && r[|emps|].email == NormalizeEmail(email)
  {
  }

  // ---------------------------------------------------------------------------
  // Block and unblock

  /** `employees.map(e => e.id === id ? { ...e, isActive } : e)` */
  function SetActiveLocal(emps: seq<EmployeeInfo>, id: nat, active: bool): (r: seq<EmployeeInfo>)
    ensures |r| == |emps|
    ensures forall k :: 0 <= k < |emps| && emps[k].id != id ==> r[k] == emps[k]
    ensures forall k :: 0 <= k < |emps| && emps[k].id == id ==> r[k] == emps[k].(isActive := active)
  {
    Map(emps, (e: EmployeeInfo) => if e.id == id then e.(isActive := active) else e)
  }

  /** The update after a server reply: only an accepted block or unblock changes the list. */
  function ApplySetActive(emps: seq<EmployeeInfo>, id: nat, active: bool, reply: Reply<EmployeeInfo>): (r: seq<EmployeeInfo>)
    ensures reply.Err? ==> r == emps
    ensures reply.Ok? ==> r == SetActiveLocal(emps, id, active)
  {
    if reply.Ok? then SetActiveLocal(emps, id, active) else emps
  }

  /** Blocking twice is blocking once, and unblocking after blocking is unblocking. */
  lemma SetActiveLocalLastWins(emps: seq<EmployeeInfo>, id: nat, first: bool, second: bool)
    ensures SetActiveLocal(SetActiveLocal(emps, id, first), id, second) == SetActiveLocal(emps, id, second)
  {
  }

  /** An employee as it is after the block, with the count it had before. */
  function WithActive(v: EmployeeInfo, id: nat, active: bool): EmployeeInfo {
    if v.id == id then v.(isActive := active) else v
  }

  /** After an accepted block or unblock, the locally updated list holds exactly the
      employees the server's list now shows. */
  lemma LocalAgreesWithServer(db: Db, id: nat, active: bool)
    ensures var o := Employees.SetEmployeeActive(db, id, active);
      forall v :: v in ApplySetActive(Employees.GetEmployees(db), id, active, o.reply)
                  <==> v in Employees.GetEmployees(o.db)
  {
    var o := Employees.SetEmployeeActive(db, id, active);
    if o.reply.Ok? {
      var t := Update(db.employees, id, Employees.SetActive(active));
      LocalWithinServer(db, id, active, t);
      ServerWithinLocal(db, id, active, t);
    }
  }

  lemma LocalWithinServer(db: Db, id: nat, active: bool, t: Table<Employee>)
    requires t == Update(db.employees, id, Employees.SetActive(active))
    ensures forall v :: v in SetActiveLocal(Employees.GetEmployees(db), id, active) ==>
                        v in Employees.GetEmployees(db.(employees := t))
  {
    var before := Employees.GetEmployees(db);
    var local := SetActiveLocal(before, id, active);
    forall v | v in local ensures v in Employees.GetEmployees(db.(employees := t)) {
      var k :| 0 <= k < |local| && local[k] == v;
      assert before[k] in before;
      var row :| row in db.employees && before[k] == Employees.CountedView(db, row);
      var i :| 0 <= i < |db.employees| && db.employees[i] == row;
      ViewAfterUpdate(db, id, active, i);
      assert v == WithActive(before[k], id, active);
      assert t[i] in t;
    }
  }

  lemma ServerWithinLocal(db: Db, id: nat, active: bool, t: Table<Employee>)
    requires t == Update(db.employees, id, Employees.SetActive(active))
    ensures forall v :: v in Employees.GetEmployees(db.(employees := t)) ==>
                        v in SetActiveLocal(Employees.GetEmployees(db), id, active)
  {
    var before := Employees.GetEmployees(db);
    var local := SetActiveLocal(before, id, active);
    forall v | v in Employees.GetEmployees(db.(employees := t)) ensures v in local {
      var row :| row in t && v == Employees.CountedView(db.(employees := t), row);
      var i :| 0 <= i < |t| && t[i] == row;
      ViewAfterUpdate(db, id, active, i);
      var old_ := Employees.CountedView(db, db.employees[i]);
      assert db.employees[i] in db.employees;
      assert old_ in before;
      var k :| 0 <= k < |before| && before[k] == old_;
      assert local[k] == WithActive(old_, id, active);
    }
  }

  /** One row through the update: its view is the old view with the new flag. */
  lemma ViewAfterUpdate(db: Db, id: nat, active: bool, i: nat)
    requires i < |db.employees|
    ensures var t := Update(db.employees, id, Employees.SetActive(active));
      Employees.CountedView(db.(employees := t), t[i])
        == WithActive(Employees.CountedView(db, db.employees[i]), id, active)
  {
    var t := Update(db.employees, id, Employees.SetActive(active));
    assert Employees.DocumentsCount(db.(employees := t), t[i].rec.userId)
        == Employees.DocumentsCount(db, db.employees[i].rec.userId);
  }
}
