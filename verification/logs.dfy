/** The activity-log routes: the validated append, the newest-first bounded listing, and
    the dashboard statistics. */
module Logs {
  import opened Wrappers
  import opened Text
  import opened Table
  import opened Sorting
  import opened Models
  import opened Calendar

  // ---------------------------------------------------------------------------
  // Append

  /** The body of `POST /api/logs`; a missing string field is "". */
  datatype LogRequest = LogRequest(
    userId: Option<nat>,
    userName: string,
    action: string,
    documentId: Option<nat>,
    documentName: Option<string>,
    details: Option<string>)

  predicate LogFieldsPresent(req: LogRequest) {
    req.userId.Some? && req.userName != "" && req.action != ""
  }

  /** `handleLogActivity` at clock reading `now`. */
  function LogActivity(db: Db, req: LogRequest, now: int): (o: Outcome<()>)
    ensures o.reply.Err? <==> !LogFieldsPresent(req)
    ensures o.reply.Err? ==> o.reply == Err(400, "Missing required fields") && o.db == db
    ensures o.reply.Ok? ==>
              && |o.db.logs| == |db.logs| + 1
              && o.db.logs[..|db.logs|] == db.logs
              && o.db.logs[|db.logs|].id !in Ids(db.logs)
              && o.db.logs[|db.logs|].rec
                 == ActivityLog(req.userId.value, req.userName, req.action, req.documentId,
                                req.documentName, now, req.details)
              && o.db == db.(logs := o.db.logs)
    ensures ValidDb(db) ==> ValidDb(o.db)
  {
    if !LogFieldsPresent(req) then Outcome(Err(400, "Missing required fields"), db)
    else
      var entry := ActivityLog(req.userId.value, req.userName, req.action, req.documentId,
                               req.documentName, now, req.details);
      var logs := Insert(db.logs, entry);
      InsertIds(db.logs, entry);
      assert logs[..|db.logs|] == db.logs;
      assert ValidDb(db) ==> ValidDb(db.(logs := logs)) by {
        if ValidDb(db) {
          forall i | 0 <= i < |logs| ensures ValidLog(logs[i].rec) {
            if i < |db.logs| {
              assert logs[i] == db.logs[i];
            }
          }
        }
      }
      Outcome(Ok(()), db.(logs := logs))
  }

  // ---------------------------------------------------------------------------
  // Listing

  function TimestampKey(row: Row<ActivityLog>): int {
    row.rec.timestamp
  }

  /** The limit the query string asks for: `parseInt(String(limit))`, "50" when absent.
      `None` stands for NaN. */
  function RequestedLimit(limit: Option<string>): Option<int> {
    ParseInt(if limit.Some? then limit.value else "50")
  }

  /** How many entries a MongoDB `limit(n)` lets through: all for 0, otherwise `|n|`. */
  function Bound(n: int, size: nat): (k: nat)
    ensures k <= size
    ensures n == 0 ==> k == size
    ensures n != 0 ==> k == if size <= n || size <= -n then size else if n > 0 then n else -n
  {
    var m := if n < 0 then -n else n;
    if n == 0 || size <= m then size else m
  }

  /** `handleGetActivityLogs`: the newest entries first, at most as many as the limit says.
      A limit that is not a number is refused by the database and answers 500. */
  function GetActivityLogs(db: Db, limit: Option<string>): (r: Reply<seq<Row<ActivityLog>>>)
    ensures r.Err? <==> RequestedLimit(limit).None?
    ensures r.Err? ==> r == Err(500, "Failed to fetch activity logs")
    ensures r.Ok? ==>
              && |r.value| == Bound(RequestedLimit(limit).value, |db.logs|)
              && SortedDesc(r.value, TimestampKey)
              && multiset(r.value) <= multiset(db.logs)
              && (forall i, y :: 0 <= i < |r.value| && y in multiset(db.logs) - multiset(r.value)
                    ==> TimestampKey(r.value[i]) >= TimestampKey(y))
  {
    match RequestedLimit(limit)
    case None => Err(500, "Failed to fetch activity logs")
    case Some(n) =>
      var sorted := SortDesc(db.logs, TimestampKey);
      var k := Bound(n, |db.logs|);
      NewestPrefix(sorted, k);
      Ok(sorted[..k])
  }

  /** A prefix of a newest-first sequence is newest-first and at least as new as
      everything left out. */
  lemma NewestPrefix(sorted: seq<Row<ActivityLog>>, k: nat)
    requires SortedDesc(sorted, TimestampKey) && k <= |sorted|
    ensures SortedDesc(sorted[..k], TimestampKey)
    ensures multiset(sorted[..k]) <= multiset(sorted)
    ensures forall i, y :: 0 <= i < k && y in multiset(sorted) - multiset(sorted[..k])
              ==> TimestampKey(sorted[..k][i]) >= TimestampKey(y)
  {
    assert sorted == sorted[..k] + sorted[k..];
    assert multiset(sorted) - multiset(sorted[..k]) == multiset(sorted[k..]);
    PrefixOfSortedIsNewest(sorted, TimestampKey, k);
    forall i, y | 0 <= i < k && y in multiset(sorted) - multiset(sorted[..k])
      ensures TimestampKey(sorted[..k][i]) >= TimestampKey(y)
    {
      assert y in sorted[k..];
      var j :| 0 <= j < |sorted[k..]| && sorted[k..][j] == y;
      assert sorted[k + j] == y;
    }
  }

  lemma FiftyText()
    ensures ParseInt("50") == Some(50)
  {
    assert NatToString(5) == "5";
    assert NatToString(50) == "50";
    ParseIntOfNat(50);
  }

  lemma ZeroText()
    ensures ParseInt("0") == Some(0)
  {
    assert NatToString(0) == "0";
    ParseIntOfNat(0);
  }

  /** With no limit given, the listing is the 50 newest entries. */
  lemma DefaultLimit(db: Db)
    ensures GetActivityLogs(db, None).Ok?
    ensures |GetActivityLogs(db, None).value| == if |db.logs| < 50 then |db.logs| else 50
  {
    FiftyText();
    assert RequestedLimit(None) == Some(50);
  }

  /** A limit of 0 lets everything through. */
  lemma ZeroLimitListsAll(db: Db, limit: Option<string>)
    requires RequestedLimit(limit) == Some(0)
    ensures GetActivityLogs(db, limit).Ok?
    ensures multiset(GetActivityLogs(db, limit).value) == multiset(db.logs)
  {
    var sorted := SortDesc(db.logs, TimestampKey);
    assert Bound(0, |db.logs|) == |sorted|;
    assert sorted[..|sorted|] == sorted;
    assert GetActivityLogs(db, limit) == Ok(sorted);
  }

  lemma ZeroLimitText(db: Db)
    ensures GetActivityLogs(db, Some("0")).Ok?
    ensures multiset(GetActivityLogs(db, Some("0")).value) == multiset(db.logs)
  {
    ZeroText();
    ZeroLimitListsAll(db, Some("0"));
  }

  // ---------------------------------------------------------------------------
  // Dashboard statistics

  datatype Stats = Stats(
    totalUploads: nat,
    todayUploads: nat,
    monthUploads: nat,
    totalSize: int,
    activeEmployees: nat)

  /** `{ action: "upload", timestamp: { $gte: since } }`, the time bound left out for `None`. */
  function UploadSince(since: Option<int>): Row<ActivityLog> -> bool {
    (row: Row<ActivityLog>) => row.rec.action == "upload" && (since.None? || row.rec.timestamp >= since.value)
  }

  /** `documents.reduce((sum, doc) => sum + doc.size, 0)` */
  function TotalSize(docs: Table<Document>): int
    decreases |docs|
  {
    if |docs| == 0 then 0 else TotalSize(docs[..|docs| - 1]) + docs[|docs| - 1].rec.size
  }

  /** The sum over one document is its size. */
  lemma TotalSizeSingle(row: Row<Document>)
    ensures TotalSize([row]) == row.rec.size
  {
    assert [row][..0] == [];
  }

  /** The sum of the concatenation is the sum of the sums. */
  lemma {:induction false} TotalSizeAppend(a: Table<Document>, b: Table<Document>)
    ensures TotalSize(a + b) == TotalSize(a) + TotalSize(b)
    decreases |b|
  {
    if |b| == 0 {
      assert a + b == a;
    } else {
      TotalSizeAppend(a, b[..|b| - 1]);
      assert (a + b)[..|a + b| - 1] == a + b[..|b| - 1];
    }
  }

  function IsActive(row: Row<Employee>): bool {
    row.rec.isActive
  }

  /** `handleGetDashboardStats` at clock reading `now` in the zone `offset` ms ahead of
      UTC: the number of upload log entries (all of them, those since today's local
      midnight, those since the first of the month), the summed document sizes and the
      number of active employees. */
  function DashboardStats(db: Db, now: int, offset: int): (s: Stats)
    ensures s.totalUploads == |set i | 0 <= i < |db.logs| && db.logs[i].rec.action == "upload"|
    ensures s.todayUploads == |set i | 0 <= i < |db.logs| && db.logs[i].rec.action == "upload"
                                && db.logs[i].rec.timestamp >= Today(now, offset)|
    ensures s.monthUploads == |set i | 0 <= i < |db.logs| && db.logs[i].rec.action == "upload"
                                && db.logs[i].rec.timestamp >= MonthStart(now, offset)|
    ensures s.totalSize == TotalSize(db.documents)
    ensures s.activeEmployees == |set i | 0 <= i < |db.employees| && db.employees[i].rec.isActive|
    ensures s.todayUploads <= s.monthUploads <= s.totalUploads <= |db.logs|
    ensures s.totalUploads == 0 <==> forall row :: row in db.logs ==> row.rec.action != "upload"
    ensures s.activeEmployees <= |db.employees|
    ensures s.activeEmployees == |db.employees| <==> forall row :: row in db.employees ==> row.rec.isActive
    ensures |db.documents| == 0 ==> s.totalSize == 0
  {
    var today := Today(now, offset);
    var monthStart := MonthStart(now, offset);
    CountMonotone(db.logs, UploadSince(Some(today)), UploadSince(Some(monthStart)));
    CountMonotone(db.logs, UploadSince(Some(monthStart)), UploadSince(None));
    Stats(UploadCount(db.logs, None),
          UploadCount(db.logs, Some(today)),
          UploadCount(db.logs, Some(monthStart)),
          TotalSize(db.documents),
          ActiveCount(db.employees))
  }

  /** `countDocuments` of the uploads since `since`: the number of upload entries (stamped
      at or after `since` when it is given). */
  function UploadCount(logs: Table<ActivityLog>, since: Option<int>): (n: nat)
    ensures since.None? ==> n == |set i | 0 <= i < |logs| && logs[i].rec.action == "upload"|
    ensures since.Some? ==> n == |set i | 0 <= i < |logs| && logs[i].rec.action == "upload"
                                          && logs[i].rec.timestamp >= since.value|
    ensures n == Count(logs, UploadSince(since))
  {
    CountIsPositions(logs, UploadSince(since));
    if since.None? then
      assert Positions(logs, UploadSince(since))
          == set i | 0 <= i < |logs| && logs[i].rec.action == "upload";
      Count(logs, UploadSince(since))
    else
      assert Positions(logs, UploadSince(since))
          == set i | 0 <= i < |logs| && logs[i].rec.action == "upload" && logs[i].rec.timestamp >= since.value;
      Count(logs, UploadSince(since))
  }

  /** `countDocuments({ isActive: true })`: the number of active employees. */
  function ActiveCount(employees: Table<Employee>): (n: nat)
    ensures n == |set i | 0 <= i < |employees| && employees[i].rec.isActive|
    ensures n == Count(employees, IsActive)
  {
    CountIsPositions(employees, IsActive);
    assert Positions(employees, IsActive) == set i | 0 <= i < |employees| && employees[i].rec.isActive;
    Count(employees, IsActive)
  }

  /** Logging an upload now adds one to each upload count; logging any other action
      changes no statistic. */
  lemma LogThenStats(db: Db, req: LogRequest, now: int, offset: int)
    requires LogFieldsPresent(req)
    ensures var before := DashboardStats(db, now, offset);
      var after := DashboardStats(LogActivity(db, req, now).db, now, offset);
      var d := if req.action == "upload" then 1 else 0;
      && after.totalUploads == before.totalUploads + d
      && after.todayUploads == before.todayUploads + d
      && after.monthUploads == before.monthUploads + d
      && after.totalSize == before.totalSize
      && after.activeEmployees == before.activeEmployees
  {
    var o := LogActivity(db, req, now);
    var row := o.db.logs[|db.logs|];
    assert o.db.logs == db.logs + [row];
    var today := Today(now, offset);
    var monthStart := MonthStart(now, offset);
    CountAppend(db.logs, row, UploadSince(None));
    CountAppend(db.logs, row, UploadSince(Some(today)));
    CountAppend(db.logs, row, UploadSince(Some(monthStart)));
  }
}
