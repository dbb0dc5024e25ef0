/** Who may stay on which dashboard, and what the employee dashboard lets its user delete.
    The signed-in user is the `user` entry of the browser's storage. */
module PageAccess {
  import opened Wrappers
  import opened Table
  import opened Sorting
  import opened Models
  import Documents
  import DocumentList

  datatype SignedIn = SignedIn(id: nat, email: string, name: string, role: string)

  /** The stored `user` entry: missing, not JSON, or a user. */
  datatype Stored = Missing | Malformed | Parsed(user: SignedIn)

  datatype Dashboard = AdminDashboard | EmployeeDashboard

  /** Where `checkAuth` leaves the browser. */
  datatype Route = Stay | ToLogin | ToAdmin | ToEmployee

  /** The role a dashboard is for. */
  function RoleOf(page: Dashboard): string {
    match page
    case AdminDashboard => AdminRole
    case EmployeeDashboard => EmployeeRole
  }

  /** `checkAuth` of either dashboard: no stored user, or one that does not parse, goes to
      the login page; a user of the other role goes to the other dashboard. */
  function CheckAuth(page: Dashboard, stored: Stored): (r: Route)
    ensures r == Stay <==> stored.Parsed? && stored.user.role == RoleOf(page)
    ensures r == ToLogin <==> !stored.Parsed?
    ensures r == ToAdmin ==> page == EmployeeDashboard
    ensures r == ToEmployee ==> page == AdminDashboard
  {
    match stored
    case Missing => ToLogin
    case Malformed => ToLogin
    case Parsed(u) =>
      if u.role == RoleOf(page) then Stay
      else if page == AdminDashboard then ToEmployee
      else ToAdmin
  }

  /** A user is kept on at most one dashboard. */
  lemma AtMostOneDashboard(stored: Stored)
    ensures !(CheckAuth(AdminDashboard, stored) == Stay && CheckAuth(EmployeeDashboard, stored) == Stay)
  {
  }

  /** A role that is neither "admin" nor "employee" is sent from each dashboard to the
      other, so such a user never settles on one. */
  lemma UnknownRoleBounces(u: SignedIn)
    requires u.role != AdminRole && u.role != EmployeeRole
    ensures CheckAuth(AdminDashboard, Parsed(u)) == ToEmployee
    ensures CheckAuth(EmployeeDashboard, Parsed(u)) == ToAdmin
  {
  }

  /** `canDeleteDocument`: the delete button shows for admins only. */
  predicate CanDelete(user: Option<SignedIn>) {
    user.Some? && user.value.role == AdminRole
  }

  /** The `role` query parameter of the employee dashboard's delete: `${user?.role}`, which
      is the text "undefined" when there is no user. */
  function DeleteRole(user: Option<SignedIn>): (r: string)
    ensures r == AdminRole <==> CanDelete(user)
  {
    if user.Some? then user.value.role else "undefined"
  }

  /** The button and the server agree: a delete sent from the employee dashboard is
      refused as unauthorised exactly when the button is hidden, and then nothing changes. */
  lemma DeleteButtonMatchesServer(db: Db, user: Option<SignedIn>, id: nat)
    ensures var o := Documents.DeleteDocument(db, id, DeleteRole(user));
      && (o.reply == Err(403, "Unauthorized") <==> !CanDelete(user))
      && (!CanDelete(user) ==> o.db == db)
  {
  }

  /** A user the employee dashboard keeps sees no delete button. */
  lemma EmployeeDashboardHidesDelete(u: SignedIn)
    requires CheckAuth(EmployeeDashboard, Parsed(u)) == Stay
    ensures !CanDelete(Some(u))
  {
  }

  /** The documents a list shows for the stored rows, in order. */
  function Views(t: Table<Document>): (r: seq<DocumentInfo>)
    ensures |r| == |t| && forall i :: 0 <= i < |t| ==> r[i] == DocumentView(t[i])
  {
    Map(t, DocumentView)
  }

  /** `setDocuments(documents.filter(d => d.id !== docId))` after an accepted delete. */
  function ApplyDelete(docs: seq<DocumentInfo>, id: nat, reply: Reply<()>): (r: seq<DocumentInfo>)
    ensures reply.Err? ==> r == docs
    ensures reply.Ok? ==> r == DocumentList.RemoveDocument(docs, id)
  {
    if reply.Ok? then DocumentList.RemoveDocument(docs, id) else docs
  }

  /** After an admin's delete, the list updated in place shows exactly the documents that
      are still stored. */
  lemma DeleteKeepsListInStep(db: Db, id: nat)
    ensures var o := Documents.DeleteDocument(db, id, AdminRole);
      forall v :: v in ApplyDelete(Views(db.documents), id, o.reply) <==> v in Views(o.db.documents)
  {
    var o := Documents.DeleteDocument(db, id, AdminRole);
    if o.reply.Ok? {
      RemovedViews(db.documents, o.db.documents, id);
    }
  }

  /** Dropping id `id` from the views matches dropping its rows from the table. */
  lemma RemovedViews(t: Table<Document>, rest: Table<Document>, id: nat)
    requires forall row :: row in rest <==> row in t && row.id != id
    ensures forall v :: v in DocumentList.RemoveDocument(Views(t), id) <==> v in Views(rest)
  {
    var before := Views(t);
    var after := Views(rest);
    var local := DocumentList.RemoveDocument(before, id);
    forall v | v in local ensures v in after {
      var k :| 0 <= k < |before| && before[k] == v;
      assert t[k] in rest;
      var j :| 0 <= j < |rest| && rest[j] == t[k];
      assert after[j] == v;
    }
    forall v | v in after ensures v in local {
      var j :| 0 <= j < |after| && after[j] == v;
      assert rest[j] in t;
      var k :| 0 <= k < |t| && t[k] == rest[j];
      assert before[k] == v;
    }
  }
}
