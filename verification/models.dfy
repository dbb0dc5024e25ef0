/** The stored records (the Document, Employee and ActivityLog schemas, and the User
    record as the handlers use it), the database that holds them, and the JSON views the
    handlers answer with. */
module Models {
  import opened Wrappers
  import opened Text
  import opened Table

  const AdminRole: string := "admin"
  const EmployeeRole: string := "employee"

  /** A login account. Ids are the row ids of the `users` collection. */
  datatype User = User(email: string, password: string, name: string, role: string)

  /** An employee profile, paired with its login account through `userId`. */
  datatype Employee = Employee(
    email: string,
    name: string,
    userId: nat,
    role: string,
    isActive: bool,
    createdAt: int,
    documentsCount: int)

  /** A stored document. `size` is in bytes, `uploadDate` in milliseconds, `uploadedBy`
      is a user id, `fileData` is the optional base64 or data-URL payload. */
  datatype Document = Document(
    filename: string,
    fileType: string,
    size: int,
    uploadDate: int,
    uploadedBy: nat,
    uploadedByName: string,
    category: string,
    fileUrl: string,
    fileData: Option<string>,
    title: string,
    description: string)

  /** One entry of the activity log; `timestamp` in milliseconds. */
  datatype ActivityLog = ActivityLog(
    userId: nat,
    userName: string,
    action: string,
    documentId: Option<nat>,
    documentName: Option<string>,
    timestamp: int,
    details: Option<string>)

  /** An email as the Employee schema stores it: no upper-case ASCII letter, no leading or
      trailing whitespace. */
  predicate IsNormalEmail(s: string) {
    (forall i :: 0 <= i < |s| ==> !('A' <= s[i] <= 'Z'))
    && (|s| == 0 || (!IsJsSpace(s[0]) && !IsJsSpace(s[|s| - 1])))
  }

  /** What the Employee schema's `lowercase` and `trim` setters make of an email, on
      stores and on queries alike. */
  function NormalizeEmail(e: string): (r: string)
    ensures |r| <= |e|
    ensures IsNormalEmail(r)
  {
    var t := Trim(e);
    TrimEnds(e);
    LowerKeepsEnds(t);
    Lower(t)
  }

  lemma TrimEnds(e: string)
    ensures var t := Trim(e); |t| == 0 || (!IsJsSpace(t[0]) && !IsJsSpace(t[|t| - 1]))
  {
    var a := TrimStart(e);
    var t := Trim(e);
    if |t| > 0 {
      assert t[0] == a[0];
    }
  }

  lemma LowerKeepsEnds(t: string)
    requires |t| == 0 || (!IsJsSpace(t[0]) && !IsJsSpace(t[|t| - 1]))
    ensures IsNormalEmail(Lower(t))
  {
  }

  /** A stored email is left as it is by the setters, so normalising is idempotent. */
  lemma NormalEmailFixed(s: string)
    requires IsNormalEmail(s)
    ensures NormalizeEmail(s) == s
  {
    TrimmedFixpoint(s);
    assert Lower(s) == s;
  }

  lemma NormalizeEmailIdempotent(e: string)
    ensures NormalizeEmail(NormalizeEmail(e)) == NormalizeEmail(e)
  {
    NormalEmailFixed(NormalizeEmail(e));
  }

  /** A string that neither starts nor ends with whitespace is its own trim. */
  lemma TrimmedFixpoint(l: string)
    requires |l| == 0 || (!IsJsSpace(l[0]) && !IsJsSpace(l[|l| - 1]))
    ensures Trim(l) == l
  {
    var a := TrimStart(l);
    if |l| > 0 {
      assert |a| == |l|;
      assert a == l;
      var r := TrimEnd(a);
      assert |r| == |a|;
    }
  }

  /** The schema's required fields hold: Mongoose's `required` refuses an empty string. */
  predicate ValidDocument(d: Document) {
    d.filename != "" && d.fileType != "" && d.uploadedByName != "" && d.fileUrl != ""
    && d.title != ""
  }

  /** Required fields, the role enumeration and the normalised email. */
  predicate ValidEmployee(e: Employee) {
    e.email != "" && e.name != "" && (e.role == AdminRole || e.role == EmployeeRole)
    && IsNormalEmail(e.email)
  }

  predicate ValidLog(l: ActivityLog) {
    l.userName != "" && l.action != ""
  }

  /** The four collections. */
  datatype Db = Db(
    users: Table<User>,
    employees: Table<Employee>,
    documents: Table<Document>,
    logs: Table<ActivityLog>)

  /** What every handler keeps true: distinct ids in each collection, every stored record
      satisfies its schema, and no two employees share an email (the unique index). */
  predicate ValidDb(db: Db) {
    UniqueIds(db.users) && UniqueIds(db.employees) && UniqueIds(db.documents)
    && UniqueIds(db.logs)
    && (forall i :: 0 <= i < |db.documents| ==> ValidDocument(db.documents[i].rec))
    && (forall i :: 0 <= i < |db.employees| ==> ValidEmployee(db.employees[i].rec))
    && (forall i :: 0 <= i < |db.logs| ==> ValidLog(db.logs[i].rec))
    && UniqueEmails(db.employees)
  }

  predicate UniqueEmails(t: Table<Employee>) {
    forall i, j :: 0 <= i < j < |t| ==> t[i].rec.email != t[j].rec.email
  }

  /** A handler's reply together with the database after it. */
  datatype Outcome<+T> = Outcome(reply: Reply<T>, db: Db)

  // ---------------------------------------------------------------------------
  // Response views

  /** The document fields a response carries (everything but `fileData`). */
  datatype DocumentInfo = DocumentInfo(
    id: nat,
    filename: string,
    fileType: string,
    size: int,
    uploadDate: int,
    uploadedBy: nat,
    uploadedByName: string,
    category: string,
    fileUrl: string,
    title: string,
    description: string)

  function DocumentView(row: Row<Document>): (v: DocumentInfo)
    ensures v.id == row.id && v.uploadDate == row.rec.uploadDate
    ensures v.uploadedBy == row.rec.uploadedBy && v.filename == row.rec.filename
  {
    var d := row.rec;
    DocumentInfo(row.id, d.filename, d.fileType, d.size, d.uploadDate, d.uploadedBy,
                 d.uploadedByName, d.category, d.fileUrl, d.title, d.description)
  }

  datatype EmployeeInfo = EmployeeInfo(
    id: nat,
    email: string,
    name: string,
    role: string,
    isActive: bool,
    createdAt: int,
    documentsCount: int)

  /** An employee as a response shows it, with the given documents count. */
  function EmployeeView(row: Row<Employee>, count: int): (v: EmployeeInfo)
    ensures v.id == row.id && v.isActive == row.rec.isActive && v.documentsCount == count
  {
    var e := row.rec;
    EmployeeInfo(row.id, e.email, e.name, e.role, e.isActive, e.createdAt, count)
  }

  datatype UserInfo = UserInfo(id: nat, email: string, name: string, role: string)

  function UserView(row: Row<User>): (v: UserInfo)
    ensures v.id == row.id && v.email == row.rec.email && v.role == row.rec.role
  {
    UserInfo(row.id, row.rec.email, row.rec.name, row.rec.role)
  }
}
