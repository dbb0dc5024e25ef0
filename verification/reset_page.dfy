/** The reset-password page: it loads the employee list, looks the typed email up in it
    when the field loses focus, checks the form, and sends the reset request. */
module ResetPage {
  import opened Wrappers
  import opened Text
  import opened Table
  import opened Sorting
  import opened Models
  import Auth

  /** What `userDetails` holds: the initial empty array (also after a failed load), the
      loaded employee list, or the employee an email check picked. */
  datatype Details = NotLoaded | Listing(employees: seq<EmployeeInfo>) | Picked(employee: EmployeeInfo)

  datatype PageState = PageState(
    details: Details,
    emailExists: bool,
    currentPassword: string,
    newPassword: string,
    message: string,
    error: string)

  /** The state after the page mounts and the employee list arrives. */
  function Loaded(employees: Option<seq<EmployeeInfo>>): (st: PageState)
    ensures st.emailExists && st.currentPassword == "" && st.newPassword == ""
    ensures st.details.Listing? <==> employees.Some?
  {
    PageState(if employees.Some? then Listing(employees.value) else NotLoaded, true, "", "", "", "")
  }

  function SameEmail(emailValue: string): EmployeeInfo -> bool {
    (e: EmployeeInfo) => EqualsIgnoringCase(e.email, emailValue)
  }

  /** `checkEmailExists`: on a loaded list, picks the first employee whose email equals
      the typed one ignoring case; on anything else the lookup throws, the error is
      caught, and nothing changes. */
  function CheckEmail(st: PageState, emailValue: string): (r: PageState)
    ensures !st.details.Listing? ==> r == st
    ensures st.details.Listing? ==>
              var emps := st.details.employees;
              && (r.emailExists <==> exists k :: 0 <= k < |emps| && EqualsIgnoringCase(emps[k].email, emailValue))
              && (r.emailExists ==> exists k :: 0 <= k < |emps| && r.details == Picked(emps[k])
                                                  && EqualsIgnoringCase(emps[k].email, emailValue)
                                                  && forall j :: 0 <= j < k ==> !EqualsIgnoringCase(emps[j].email, emailValue))
              && (!r.emailExists ==> r.details == st.details)
              && r.(details := st.details, emailExists := st.emailExists) == st
  {
    match st.details
    case Listing(emps) =>
      var matches := Filter(emps, SameEmail(emailValue));
      if |matches| > 0 then
        FirstMatch(emps, emailValue);
        st.(details := Picked(matches[0]), emailExists := true)
      else
        assert forall k :: 0 <= k < |emps| ==> !SameEmail(emailValue)(emps[k]) by {
          forall k | 0 <= k < |emps| ensures !SameEmail(emailValue)(emps[k]) {
            assert emps[k] in emps;
          }
        }
        st.(emailExists := false)
    case _ => st
  }

  /** The first element of the filtered list is the first match of the list. */
  lemma FirstMatch(emps: seq<EmployeeInfo>, emailValue: string)
    requires |Filter(emps, SameEmail(emailValue))| > 0
    ensures exists k :: 0 <= k < |emps| && Filter(emps, SameEmail(emailValue))[0] == emps[k]
                        && EqualsIgnoringCase(emps[k].email, emailValue)
                        && forall j :: 0 <= j < k ==> !EqualsIgnoringCase(emps[j].email, emailValue)
  {
    var same := SameEmail(emailValue);
    FilterFirst(emps, same);
    var k :| 0 <= k < |emps| && Filter(emps, same)[0] == emps[k] && same(emps[k])
             && forall j :: 0 <= j < k ==> !same(emps[j]);
    assert forall j :: 0 <= j < k ==> !EqualsIgnoringCase(emps[j].email, emailValue);
  }

  /** `handleBlur`: an empty field is not looked up. The three-second debounce is left out. */
  function Blur(st: PageState, email: string): (r: PageState)
    ensures email == "" ==> r == st
  {
    if email == "" then st else CheckEmail(st, email)
  }

  /** Once an employee is picked, later lookups change nothing, whatever is typed. */
  lemma PickedIsFinal(st: PageState, email: string)
    requires st.details.Picked?
    ensures Blur(st, email) == st
  {
  }

  // ---------------------------------------------------------------------------
  // Submit

  /** The body of the reset request. `email` is `None` when `userDetails.email` is
      undefined, which `JSON.stringify` leaves out. */
  datatype ResetRequest = ResetRequest(email: Option<string>, currentPassword: string, newPassword: string)

  datatype Submission = Invalid(state: PageState) | Send(request: ResetRequest)

  /** `handleSubmit`: both password fields are needed and the new one must have at least
      six characters; the email sent is the picked employee's, if any. */
  function Submit(st: PageState): (s: Submission)
    ensures s.Send? <==> st.currentPassword != "" && Utf16Length(st.newPassword) >= 6
    ensures s.Invalid? ==> s.state.message == "" && s.state.error != ""
                           && s.state.(message := st.message, error := st.error) == st
    ensures s.Invalid? && (st.currentPassword == "" || st.newPassword == "") ==>
              s.state.error == "All fields are required"
    ensures st.currentPassword != "" && st.newPassword != "" && Utf16Length(st.newPassword) < 6 ==>
              s.Invalid? && s.state.error == "New password must be at least 6 characters"
    ensures s.Send? ==> s.request.currentPassword == st.currentPassword && s.request.newPassword == st.newPassword
    ensures s.Send? ==> (s.request.email.Some? <==> st.details.Picked?)
    ensures s.Send? && st.details.Picked? ==> s.request.email == Some(st.details.employee.email)
  {
    var cleared := st.(message := "", error := "");
    if st.currentPassword == "" || st.newPassword == "" then
      Invalid(cleared.(error := "All fields are required"))
    else if Utf16Length(st.newPassword) < 6 then
      Invalid(cleared.(error := "New password must be at least 6 characters"))
    else
      Send(ResetRequest(if st.details.Picked? then Some(st.details.employee.email) else None,
                        st.currentPassword, st.newPassword))
  }

  /** What the page does with the server's answer. */
  function ApplyReply(st: PageState, reply: Reply<string>): (r: PageState)
    ensures reply.Ok? ==> r.currentPassword == "" && r.newPassword == "" && r.message != "" && r.error == ""
    ensures reply.Err? ==> r.currentPassword == st.currentPassword && r.newPassword == st.newPassword
                           && r.error != "" && r.message == ""
    ensures reply.Err? && reply.message != "" ==> r.error == reply.message
  {
    var cleared := st.(message := "", error := "");
    match reply
    case Ok(m) =>
      cleared.(message := if m == "" then "Password reset successfully" else m, currentPassword := "", newPassword := "")
    case Err(_, m) =>
      cleared.(error := if m == "" then "Failed to reset password" else m)
  }

  /** The whole round: check the form, send it, apply the answer. */
  function SubmitReset(db: Db, st: PageState): (r: (PageState, Db))
    ensures Submit(st).Invalid? ==> r == (Submit(st).state, db)
    ensures Submit(st).Send? ==>
              var req := Submit(st).request;
              var o := Auth.ResetPassword(db, req.email, Some(req.currentPassword), req.newPassword);
              r == (ApplyReply(st, o.reply), o.db)
  {
    match Submit(st)
    case Invalid(s) => (s, db)
    case Send(req) =>
      var o := Auth.ResetPassword(db, req.email, Some(req.currentPassword), req.newPassword);
      (ApplyReply(st, o.reply), o.db)
  }

  /** A successful reset for a picked employee lets that email sign in with the new
      password, and the form is cleared. */
  lemma PickedResetThenLogin(db: Db, st: PageState, now: int)
    requires st.details.Picked? && Submit(st).Send?
    requires Auth.ResetPassword(db, Some(st.details.employee.email), Some(st.currentPassword), st.newPassword).reply.Ok?
    ensures var r := SubmitReset(db, st);
      && Auth.Login(r.1, Some(st.details.employee.email), Some(st.newPassword), now).Ok?
      && r.0.currentPassword == "" && r.0.newPassword == ""
  {
    Auth.ResetThenLogin(db, st.details.employee.email, Some(st.currentPassword), st.newPassword, now);
  }

  /** Without a picked employee no email is sent, the server's lookup matches every user,
      and the reset goes to the first user on record when the current password is theirs. */
  lemma UnpickedResetsFirstUser(db: Db, st: PageState)
    requires !st.details.Picked? && Submit(st).Send?
    requires |db.users| > 0 && db.users[0].rec.password == st.currentPassword
    ensures var r := SubmitReset(db, st);
      && r.0.message == "Password reset successfully"
      && r.1 == db.(users := Update(db.users, db.users[0].id, Auth.SetPassword(st.newPassword)))
  {
    assert Auth.MatchesCredentials(db.users[0].rec, None, None);
  }
}
