# Café document manager — a Dafny model of its core

The system is an Express/Mongoose server with two React dashboards. Staff of a café
upload documents, mostly images. The documents are kept as base64 data URLs in MongoDB.
An administrator manages the employee accounts and reads the activity statistics.
This project models the decision logic of that system as pure Dafny functions over
immutable data and proves what each handler and helper promises.

- **Collections**: each MongoDB collection is a `Table` (module `Table`). A table is a
  sequence of rows with distinct natural-number ids, kept in insertion order. That order
  is the one an unsorted `find` or a `findOne` meets.
- **Handlers**: a handler is a function from the database (`Models.Db`) and the request
  to an `Outcome`, which holds the reply and the new database. A reply is
  `Ok(value) | Err(status, message)`, and the messages are the ones the server sends.
- **Clock**: the clock is a parameter (`now`, in milliseconds).
- **Server modules**:
  - `Documents`: upload, batch upload, listing, search, delete, view and download.
  - `Employees`: employee list, add, update, delete, block and unblock.
  - `Auth`: login, register, token verification and password reset.
  - `Logs`: activity log and dashboard statistics.
  - `Bootstrap`: connection-string rewrite and admin seeding.
- **Record schemas** (module `Models`): record shapes, the Employee email setters and
  the validity invariants (`ValidDb`).
- **Token codec**: a token is base64 of the UTF-8 of a JSON object. The codec is built
  from three modules:
  - `Base64` (section 4 of RFC 4648);
  - `Utf8` (RFC 3629);
  - `Token` (a JSON writer and reader for the token object).
- **Client modules**:
  - `DocumentList`: filters, order and paging of the dashboards.
  - `PendingUploads`: the queue of files chosen for upload and the submit step.
  - `EmployeeRoster`: the admin's add form and the block/unblock list updates.
  - `PageAccess`: the dashboards' role checks and delete button.
  - `ResetPage`: the reset-password page.
- **Support modules**:
  - `Text`: JavaScript string helpers.
  - `Sorting`: newest-first sort, filter and count.
  - `Calendar`: the dashboard's "today" and "start of month".

## Model

| member | source | states |
|---|---|---|
| Models.NormalizeEmail | server/models/Employee.ts:5-11 | A stored employee email has no upper-case letter and no surrounding whitespace, and is no longer than the input |
| Models.NormalizeEmailIdempotent | server/models/Employee.ts:5-11 | Applying the lowercase/trim setters to an already stored email changes nothing |
| Models.DocumentView | server/routes/documents.ts:216-230 | The JSON view of a document carries its id, upload date, uploader and filename |
| Models.EmployeeView | server/routes/employees.ts:16-25 | The JSON view of an employee carries its id and active flag, plus the given document count |
| Documents.Upload | server/routes/documents.ts:17-80 | 400 "Missing required fields: filename, userId, userName, title" exactly when one of those is missing, and 413 "File too large. Maximum size is 500 MB. Your file is <MB> MB" exactly when they are present and size exceeds 500·1024·1024 (equal is accepted). Otherwise exactly one document is appended under a fresh id: the request's filename, title, size, description, uploader id and name, fileType defaulting to "unknown", category to "general", dated now, with fileUrl `/uploads/<now>-<filename>` and no fileData. An error leaves the store unchanged, and store validity is preserved |
| Documents.UploadThenFind | server/routes/documents.ts:43-72 | The id an upload answers with was not in use before, and it finds the record that was built from the request |
| Documents.MbHundredths | server/routes/documents.ts:35 | The size in MB is rounded to the nearest hundredth, as in the 413 message |
| Documents.SanitizeFilename | server/routes/documents.ts:152 | The fileUrl name contains only `[A-Za-z0-9.-]` and has the same UTF-16 length as the filename |
| Documents.SanitizeBmp | server/routes/documents.ts:152 | For names without astral characters, each character is kept if allowed and becomes '-' otherwise |
| Documents.SanitizeSafe | server/routes/documents.ts:152 | A name made only of allowed characters is left unchanged |
| Documents.FileError | server/routes/documents.ts:127-137 | A batch entry is rejected exactly when filename or title is missing or size exceeds the ceiling |
| Documents.BatchDocument | server/routes/documents.ts:143-156 | An accepted entry becomes a valid document with its filename, title and uploader, and its fileData ("" when missing, which only warns) |
| Documents.RunBatch | server/routes/documents.ts:125-178 | The loop adds one row or one message per entry, so \|new rows\| + \|errors\| = \|entries\|. The old rows stay as a prefix. The new rows hold, in input order, the documents of the entries that pass validation and whose create succeeds. The messages are, in input order, the validation error or `"<filename>: Upload failed"` of every other entry. Ids stay distinct |
| Documents.BatchCounts | server/routes/documents.ts:125-178 | As many documents are stored as entries are stored (pass validation and create successfully), and the number of messages is the rest |
| Documents.EntriesCount | server/routes/documents.ts:125-178 | No more documents are stored than entries pass validation, and exactly as many when no create fails |
| Documents.EntryError | server/routes/documents.ts:127-177 | An entry adds no message exactly when it passes validation and its create succeeds. A failed validation adds that error, and a failed create adds `"<filename>: Upload failed"` |
| Documents.EntriesAppend | server/routes/documents.ts:125-178 | The entries of two requests sent as one are those of the first followed by those of the second, each keeping the fate of its create |
| Documents.BatchAppend | server/routes/documents.ts:125-178 | Entries are processed independently: the documents and the messages for a concatenation are those of the first part followed by those of the second |
| Documents.StoredAppend | server/routes/documents.ts:125-178 | The documents stored for a concatenation of entries are those of the first part followed by those of the second |
| Documents.RejectionsAppend | server/routes/documents.ts:125-178 | The errors for a concatenation of entries are those of the first part followed by those of the second |
| Documents.RejectedIsInert | server/routes/documents.ts:125-178 | An entry that is not stored, whether rejected or failed at create, adds exactly its one message and does not change what any other entry produces |
| Documents.BatchUpload | server/routes/documents.ts:99-200 | A missing or empty list is a 400 "No documents provided", and then a missing userId or userName is a 400 "Missing userId or userName"; neither changes anything. Success holds exactly when the request is valid and some entry is stored. When none is stored, the reply is 400 `"Failed to upload documents: "` followed by every message joined with ", ". On success only the documents collection grows, by the stored documents in input order. The reply lists the views of exactly the new rows: no more than the entries that pass validation, and exactly that many when no create fails. `errors` is present exactly when some entry is not stored, and then lists every message in order. Validity is kept |
| Documents.StoreBatchReply | server/routes/documents.ts:180-192 | A valid batch succeeds exactly when some entry is stored, and otherwise answers 400 with all messages joined |
| Documents.StoreBatchStored | server/routes/documents.ts:159-192 | A successful batch appends the stored records after the existing rows, replies with their views in order, and reports the messages of the other entries exactly when there are some |
| Documents.StoreBatchValid | server/routes/documents.ts:143-156 | Every row a batch adds satisfies the document schema, so store validity is kept |
| Documents.ListDocuments | server/routes/documents.ts:202-241 | The listing is sorted by uploadDate descending. It contains exactly the views of the visible documents: those the user uploaded when the role is "employee", all of them otherwise. Its length is the number of visible documents |
| Documents.ListAllForOthers | server/routes/documents.ts:208-213 | For any role other than "employee", every document is listed |
| Documents.SearchDocuments | server/routes/documents.ts:307-372 | The result is sorted newest first and contains exactly the views of the documents that pass four tests together: the role test; a case-insensitive match of the query on filename, category or title; the exact category; and the inclusive date bounds |
| Documents.SearchWithoutCriteria | server/routes/documents.ts:314-344 | A search with no criteria is the listing |
| Documents.SearchWithinListing | server/routes/documents.ts:314-344 | Search results are always among the listed documents |
| Documents.DeleteDocument | server/routes/documents.ts:279-305 | A role other than "admin" is a 403, before any lookup. Success holds exactly for an admin and a known id. Only that row is removed, other collections are untouched, and every error leaves the store unchanged |
| Documents.DeleteRemovesOne | server/routes/documents.ts:290-297 | A successful delete removes exactly one row and exactly that id |
| Documents.ExtractBase64 | server/routes/documents.ts:386-407 | "No file data" exactly when fileData is missing or blank. "Invalid file data" exactly when it is a non-blank data URL whose second comma-separated piece is missing or blank. Otherwise the payload is that second piece for a data URL, and the whole value for anything else. The payload is never blank |
| Documents.DataUrlText | server/routes/documents.ts:394-407 | A data URL `head,text` or `head,text,more`, with no comma in head or text, yields text, or is refused when text is blank |
| Documents.DataUrlWithoutComma | server/routes/documents.ts:394-407 | A data URL with no comma is refused as invalid file data |
| Documents.ExtractDataUrl | server/routes/documents.ts:394-398 | From a data URL built from a MIME type and bytes, the extracted payload is exactly the base64 of the bytes |
| Documents.ExtractBare | server/routes/documents.ts:394-398 | Bare base64 text is used as it is |
| Documents.DecodeBody | server/routes/documents.ts:410 | The body decodes exactly when the text is canonical base64, and then re-encoding gives the text back |
| Documents.ServeFile | server/routes/documents.ts:374-488 | 404 exactly for an unknown id, otherwise 400 unless the stored payload yields base64 text. On success the body is the decoded payload and the content type is the stored fileType. View adds the cache header, download adds the attachment header |
| Documents.ViewDocument | server/routes/documents.ts:374-426 | 404 exactly for an unknown id, and a success carries the cache header and no attachment header |
| Documents.DownloadDocument | server/routes/documents.ts:428-488 | 404 exactly for an unknown id, and a success names the stored filename in the attachment header |
| Documents.ViewAndDownloadAgree | server/routes/documents.ts:386-418 | View succeeds exactly when download does, with the same body and content type |
| Employees.GetEmployees | server/routes/employees.ts:6-29 | One entry per employee, ordered by createdAt descending, and the entries are exactly the employees' views. Each entry's documentsCount is the number of documents uploaded by that employee's user |
| Employees.AddEmployee | server/routes/employees.ts:43-100 | A missing password, or one shorter than 6 UTF-16 code units (JavaScript's `length`), is a 400 before any lookup, and a known (normalised) email is a 400. Neither writes anything. On success exactly one User (role employee) and one Employee are appended: active, count 0, linked to the new user. The reply shows count 0, and validity and unique emails are preserved |
| Employees.AddTwiceRefused | server/routes/employees.ts:56-60 | Adding the same email again is refused with "Employee already exists" |
| Employees.ChangeFrame | server/routes/employees.ts:110-114 | The update changes name only when the new name is non-empty and isActive only when it is given. Every other field is kept |
| Employees.UpdateEmployee | server/routes/employees.ts:101-130 | The id comes from the body and may be missing. 404 "Employee not found" with no change exactly when the given id is unknown, or when no id is given and there is no employee. A missing id means an empty filter, so the first employee on record receives the change. Otherwise only the row under the id changes, the reply is the updated record, and validity is kept |
| Employees.SetEmployeeActive | server/routes/employees.ts:155-219 | Block and unblock: 404 with no change exactly for an unknown id. Otherwise only that row's isActive is set. The reply is the updated employee (id, email, name, role, createdAt, the new isActive) with the stored documentsCount, and with distinct ids it is the record now stored under the id |
| Employees.SetActiveIdempotent | server/routes/employees.ts:155-219 | Blocking (or unblocking) twice is the same as once |
| Employees.SetActiveFrame | server/routes/employees.ts:159-163 | Block and unblock keep the length and every other row, and set the flag on the addressed row |
| Employees.BlockCountMayDisagree | server/routes/employees.ts:179 | The block reply can show 0 documents for an employee whom the list shows with 1 |
| Employees.DeleteEmployee | server/routes/employees.ts:131-153 | 404 with no change exactly for an unknown id. Otherwise exactly that employee and its paired user are removed, and documents and logs are untouched |
| Auth.SessionFor | server/routes/auth.ts:48-72 | The issued token decodes to {id, email, role, iat} of the account, and the body shows the account |
| Auth.Login | server/routes/auth.ts:30-78 | 401 "Invalid credentials" exactly when no user has this email and password by plain equality. Otherwise the first such user is signed in |
| Auth.Register | server/routes/auth.ts:89-106 | 400 with no change exactly when a user with the email exists. Otherwise one user with role "employee" is appended and signed in |
| Auth.Verify | server/routes/auth.ts:140-175 | The token is the cookie, else the second word of the Authorization header. "No token" exactly when there is none. Success exactly when it decodes to a payload whose id names a stored user, and then the reply shows that user. Every failure is a 401 |
| Auth.VerifyIssued | server/routes/auth.ts:6-16 | A token the server issued for a stored account verifies as that account |
| Auth.IssuedTokenShape | server/routes/auth.ts:6-8 | An issued token is never empty and has no space, so it survives the header form |
| Auth.LoginThenVerify | server/routes/auth.ts:40-72 | The token from a successful login, sent as cookie or as `<scheme> <token>` header, verifies as the user who logged in |
| Auth.ResetPassword | server/routes/auth.ts:237-264 | 404 exactly when no user has the email (a missing email matches the first user). Success holds exactly when the first user matching the email has the current password. Then only that user's password changes, to the new one, with no length check. Otherwise the reply is 400, and neither error changes anything |
| Auth.ResetThenLogin | server/routes/auth.ts:260-263 | After a reset, the new password logs in under that email |
| Token.DecodeEncode | server/routes/auth.ts:6-16 | decodeToken(encodeToken(d)) == d for every token payload |
| Token.ParseStringify | server/routes/auth.ts:7 | The JSON text of a payload parses back to the payload |
| Base64.DecodeEncode | server/routes/auth.ts:7 | Decoding the base64 of some bytes gives the bytes back |
| Base64.EncodeDecode | server/routes/documents.ts:410 | Every text that decodes is the encoding of what it decodes to |
| Base64.DecodeIffEncode | server/routes/documents.ts:469 | Canonical base64 texts and byte strings correspond one to one |
| Utf8.DecodeEncode | server/routes/auth.ts:12 | Decoding the UTF-8 of a string gives the string back |
| Logs.LogActivity | server/routes/logs.ts:17-48 | 400 "Missing required fields" with no change exactly when userId, userName or action is missing. Otherwise exactly one entry is appended, with a fresh id, the request's fields and timestamp now |
| Logs.GetActivityLogs | server/routes/logs.ts:50-65 | The limit defaults to "50". A limit that is not a number is a 500. Otherwise the result has min(\|limit\|, size) entries (all of them for 0), sorted newest first, taken from the log, and no left-out entry is newer than a listed one |
| Logs.DefaultLimit | server/routes/logs.ts:52-55 | With no limit, the 50 newest entries (or all, if fewer) are listed |
| Logs.ZeroLimitText | server/routes/logs.ts:55 | A limit of "0" lists every entry |
| Logs.DashboardStats | server/routes/logs.ts:67-101 | totalUploads, todayUploads and monthUploads are the numbers of log positions whose action is "upload" and, for the last two, whose timestamp is at least today's or the month's local midnight. totalSize is the sum of the document sizes, and activeEmployees is the number of active employees. Also todayUploads ≤ monthUploads ≤ totalUploads ≤ \|log\|, the total is 0 exactly when no entry is an upload, and activeEmployees is the employee count exactly when all are active |
| Logs.UploadCount | server/routes/logs.ts:73-85 | countDocuments with action "upload" and an optional lower bound on timestamp is the number of log positions that match |
| Logs.ActiveCount | server/routes/logs.ts:90 | countDocuments({ isActive: true }) is the number of employee positions that are active |
| Logs.LogThenStats | server/routes/logs.ts:73-90 | Logging an upload now raises total, today and month by one, and any other action changes nothing. Size and active count stay |
| Logs.TotalSizeAppend | server/routes/logs.ts:88 | The size sum of a concatenation is the sum of the sums |
| Logs.TotalSizeSingle | server/routes/logs.ts:88 | The size sum of one document is its size |
| Calendar.Today | server/routes/logs.ts:70 | Local midnight is at most now and less than a day before it |
| Calendar.MonthStart | server/routes/logs.ts:71 | `new Date(y, m, 1)` is a local midnight no later than today's and at most 30 days before it. Its local day is a first of the month, and no later day up to today is a first |
| Calendar.FirstOfMonth | server/routes/logs.ts:71 | Going back from a day by its day of the month less one lands on a first, and no day in between is a first |
| Calendar.DayOfMonthBack | server/routes/logs.ts:71 | Within a month, going back j days lowers the day of the month by j |
| Bootstrap.RewriteUri | server/db.ts:17-23 | The URI changes exactly when it contains "mongodb+srv" and neither "ssl=" nor "tls=". Then "tls=true" is appended after "&" if it has a "?", and after "?" otherwise |
| Bootstrap.RewriteIdempotent | server/db.ts:17-23 | Rewriting twice is rewriting once |
| Bootstrap.SeedUser | server/db.ts:44-55 | An existing admin@cafe.com user is kept and used. Otherwise the admin user is appended, and afterwards the first admin-email user is the one returned |
| Bootstrap.SeedProfile | server/db.ts:57-71 | An existing admin employee is kept. Otherwise the admin profile for the given user is appended. Afterwards an admin-email employee exists, and validity and unique emails are preserved |
| Bootstrap.Seed | server/db.ts:44-71 | Documents and logs are untouched. A user or employee is added exactly when none has the admin email, and the new profile is linked to the admin user. Both now exist |
| Bootstrap.SeedIdempotent | server/db.ts:44-71 | Seeding twice is seeding once |
| Bootstrap.SeededAdminLogin | server/db.ts:44-51 | After seeding a store with no admin user, admin@cafe.com/admin123 logs in as the admin |
| Bootstrap.ConnectDb | server/db.ts:3-87 | With readyState 1 nothing happens. A missing URI stops before seeding. Only a reachable server is connected, under the rewritten URI, and then seeded. Every failure leaves the store as it was |
| DocumentList.FilteredDocuments | client/pages/AdminDashboard.tsx:501-533 | The result is sorted by uploadDate descending and is a permutation of the documents that pass the filters. The filters are: the user fragment, case-insensitively; then the date range if either bound is set, else the single UTC day |
| DocumentList.StepsSelect | client/pages/EmployeeDashboard.tsx:320-351 | The two filter steps as written select exactly the reference selection |
| DocumentList.UnfilteredIsPermutation | client/pages/AdminDashboard.tsx:501-533 | With every filter empty, the result is a permutation of all documents |
| DocumentList.RangeOverridesDay | client/pages/AdminDashboard.tsx:513-527 | Once a range bound is set, the chosen single day has no effect |
| DocumentList.Displayed | client/pages/AdminDashboard.tsx:535-538 | The display is the first five documents, or all of them once "Load More" was pressed |
| DocumentList.FirstPageIsNewest | client/pages/EmployeeDashboard.tsx:347-356 | No document shown on the first page is older than a hidden one |
| DocumentList.RemoveDocument | client/pages/EmployeeDashboard.tsx:373-374 | After a delete, the list keeps exactly the documents with another id |
| PendingUploads.DefaultTitle | client/pages/AdminDashboard.tsx:266 | The title differs from the filename exactly when the name ends in a dot followed by a non-empty run without '.' or '/'. Then it is the name cut at that dot |
| PendingUploads.DefaultTitleExamples | client/pages/EmployeeDashboard.tsx:131 | "a.b.pdf" gives "a.b" and "noext" stays "noext" |
| PendingUploads.SelectFiles | client/pages/AdminDashboard.tsx:257-273 | Intended selection: every chosen file is queued after the existing ones, in order, with its default title and a distinct id |
| PendingUploads.SelectFilesAsWritten | client/pages/AdminDashboard.tsx:261-270 | As written, only the last chosen file is queued behind the old queue |
| PendingUploads.SelectTwoAsWritten | client/pages/EmployeeDashboard.tsx:126-135 | Choosing two files queues one (the second) as written, where the intended selection queues two |
| PendingUploads.UpdatePending | client/pages/AdminDashboard.tsx:336-344 | Only the entries with the given id get the new title or description. Length and all other entries are kept |
| PendingUploads.RemovePending | client/pages/AdminDashboard.tsx:346-348 | Exactly the entries with another id remain, each as many times as before and in the same order. Entries with the id are gone |
| PendingUploads.RemovePendingAppend | client/pages/AdminDashboard.tsx:346-348 | Removing from a concatenation removes from each part, and a single entry stays exactly when its id differs |
| PendingUploads.UpdateThenRemove | client/pages/EmployeeDashboard.tsx:150-162 | Editing an entry and then removing it is the same as removing it |
| PendingUploads.SubmitAll | client/pages/AdminDashboard.tsx:350-394 | Refused exactly when there is no user, no pending file, or a blank title, with "Please select at least one file" for the first two. Otherwise one entry per pending file is sent in order, with the user's id and name and category "general" |
| PendingUploads.SentEntriesHaveTitles | client/pages/EmployeeDashboard.tsx:164-196 | The server accepts a sent entry exactly when its filename is non-empty and its size is within the ceiling, because titles were already checked |
| PendingUploads.ImageRoundTrip | client/pages/AdminDashboard.tsx:366-371 | An image sent in a batch and stored is viewed back with the same bytes and MIME type |
| PendingUploads.NonImageNotViewable | client/pages/AdminDashboard.tsx:368-371 | A non-image is sent without data and is answered "File data not available" when viewed |
| EmployeeRoster.AddFormError | client/pages/AdminDashboard.tsx:177-219 | The add form passes exactly when email and name are non-empty and the password has at least 6 UTF-16 code units, and the two messages are told apart |
| EmployeeRoster.FormCoversPasswordRule | client/pages/AdminDashboard.tsx:177-219 | A request that passes the form never meets the server's password error. It succeeds exactly when the email is new and non-blank after normalisation |
| EmployeeRoster.AddedShowsActive | client/pages/AdminDashboard.tsx:177-219 | A newly added employee appears at the end of the list: active, with 0 documents, role employee and the normalised email |
| EmployeeRoster.SetActiveLocal | client/pages/AdminDashboard.tsx:228-231 | The local block/unblock changes isActive only for the matching id. Length and other entries are kept |
| EmployeeRoster.ApplySetActive | client/pages/AdminDashboard.tsx:221-255 | The list is updated only after a server success |
| EmployeeRoster.SetActiveLocalLastWins | client/pages/AdminDashboard.tsx:246-249 | Block then unblock (or the reverse) leaves the last state |
| EmployeeRoster.LocalAgreesWithServer | client/pages/AdminDashboard.tsx:221-255 | After block or unblock, the locally updated list holds exactly the entries that re-fetching the list would give |
| PageAccess.CheckAuth | client/pages/EmployeeDashboard.tsx:66-90 | Stay exactly when a stored user parsed and has the page's role. Login exactly when nothing parsed. Otherwise the user goes to the other dashboard |
| PageAccess.AtMostOneDashboard | client/pages/AdminDashboard.tsx:105-126 | No stored user can stay on both dashboards |
| PageAccess.UnknownRoleBounces | client/pages/EmployeeDashboard.tsx:78-81 | A user with any other role is sent from each dashboard to the other |
| PageAccess.DeleteRole | client/pages/EmployeeDashboard.tsx:358-365 | The role sent with a delete is "admin" exactly when the delete button is shown |
| PageAccess.DeleteButtonMatchesServer | client/pages/EmployeeDashboard.tsx:358-375 | The server refuses the delete with 403 exactly when the button is hidden, and then changes nothing |
| PageAccess.EmployeeDashboardHidesDelete | client/pages/EmployeeDashboard.tsx:78-81 | Whoever stays on the employee dashboard sees no delete button |
| PageAccess.DeleteKeepsListInStep | client/pages/AdminDashboard.tsx:442-462 | After an admin delete, the local list holds exactly the views of the documents left in the store |
| ResetPage.CheckEmail | client/pages/ResetPassword.tsx:23-41 | emailExists holds exactly when some fetched employee's email equals the typed one, ignoring case. Then the first such employee is picked. Nothing else changes, and a state without a listing is left alone |
| ResetPage.Blur | client/pages/ResetPassword.tsx:44-55 | An empty email does nothing |
| ResetPage.PickedIsFinal | client/pages/ResetPassword.tsx:27-33 | Once an employee is picked there is no listing left, so later checks change nothing |
| ResetPage.Submit | client/pages/ResetPassword.tsx:72-100 | The request is sent exactly when the current password is non-empty and the new one has at least 6 UTF-16 code units. Otherwise an error is shown: "All fields are required" for an empty field, else "New password must be at least 6 characters". The email is sent exactly when an employee was picked |
| ResetPage.ApplyReply | client/pages/ResetPassword.tsx:102-112 | Success clears both password fields and shows a message, and failure shows the server's error (or the default) |
| ResetPage.SubmitReset | client/pages/ResetPassword.tsx:72-118 | A locally valid submit sends exactly one reset with the page's fields, and the page shows its reply |
| ResetPage.PickedResetThenLogin | client/pages/ResetPassword.tsx:95-112 | After a successful reset for the picked employee, the new password logs in and both fields are cleared |
| ResetPage.UnpickedResetsFirstUser | client/pages/ResetPassword.tsx:95-99 | With no employee picked, the email is left out of the request, so the server takes the first user on record. The reset succeeds exactly when the current password is that user's, and only that user's password changes. Otherwise the reply is 400 |
| Sorting.SortDesc | client/pages/AdminDashboard.tsx:529-532 | The result is a permutation of the input, sorted by the key descending |
| Sorting.SortStable | client/pages/AdminDashboard.tsx:529-532 | The sort is stable: the elements of any one key appear in the result in their input order |
| Sorting.InsertStable | client/pages/AdminDashboard.tsx:529-532 | Inserting an element keeps the order within every key, the new element going ahead of those sharing its key |
| Sorting.Filter | client/pages/AdminDashboard.tsx:507-509 | An element is kept exactly when it is in the input and passes the test, and the result is a sub-multiset of the input |
| Sorting.FilterOccurrences | client/pages/AdminDashboard.tsx:507-509 | Each value passing the test occurs in the result as often as in the input, and every other value not at all |
| Sorting.FilterAppend | client/pages/AdminDashboard.tsx:507-509 | Filtering a concatenation filters each part, keeping the input order |
| Sorting.FilterSingle | client/pages/AdminDashboard.tsx:507-509 | A one-element list is kept exactly when its element passes the test |
| Sorting.FilterFirst | client/pages/ResetPassword.tsx:27-33 | The first element kept is the first element of the input that passes the test, as `filter(...)[0]` picks it |
| Sorting.FilterAgree | client/pages/AdminDashboard.tsx:346-348 | Two lists that agree on which positions pass the test filter to the same result |
| Sorting.CountIsPositions | server/routes/logs.ts:73-90 | countDocuments is the number of positions whose entry passes the filter |
| Sorting.MapPermutation | server/routes/employees.ts:6-29 | Mapping a reordering of a list gives exactly the images of the list's elements |
| Text.TrimEmptyIffBlank | client/pages/AdminDashboard.tsx:356 | `trim()` is empty exactly when the string is all JavaScript whitespace |
| Text.JoinSplit | server/routes/documents.ts:397 | Joining the pieces of a split with the separator gives the string back |
| Text.ParseIntOfString | server/routes/logs.ts:55 | parseInt reads back every integer's decimal text |
| Text.Utf16Length | server/routes/employees.ts:47 | JavaScript's `length` counts one unit per character below U+10000 and two for every other, so it lies between the character count and twice that |
| Text.Utf16LengthBmp | server/routes/employees.ts:47 | `length` equals the character count exactly when no character lies outside the Basic Multilingual Plane |
| Table.RemoveIds | server/routes/documents.ts:290 | findByIdAndDelete removes exactly the id, and the others stay distinct |
| Table.Update | server/routes/employees.ts:110-114 | findByIdAndUpdate changes only the row under the id. Ids, order and the other rows are kept |

## Left out

- **Network and plumbing**: Express routing, cookies as an HTTP mechanism, `toObject`
  formatting, `console` output, and the 500s from failed database calls.
- **Failed creates in a batch**: a `Document.create` that throws inside the batch loop is
  a database error the model cannot see. The caller names the failing entries instead:
  `refused[k]` says that entry `k`'s create fails. The entry then adds
  `"<filename>: Upload failed"` and stores nothing (`Documents.EntryError`,
  `Documents.BatchUpload`). One 500 is
  modelled: in `Employees.AddEmployee`, the Employee record can fail validation (a
  missing name, or an email that is blank after normalisation) after the User was
  created. The reply is then 500 and the User stays.
- **The User schema**: server/models/User.ts is not part of this model. The User record
  has the fields the handlers read (email, password, name, role), and no schema-level
  uniqueness or validation is assumed.
- **Ids**: ObjectId generation is modelled as "one more than the largest id in use".
  Cast failures of malformed ids are out of scope: a request id is a natural number or
  is missing.
- **Missing filter keys**: Mongoose drops a filter key whose value is undefined. The
  model keeps that behaviour (`findOne({ email: undefined })` matches the first user)
  and states it in `Auth.ResetPassword` and `ResetPage.UnpickedResetsFirstUser`. The
  same holds for `findByIdAndUpdate(undefined, ...)`: an update without an id changes
  the first employee (`Employees.UpdateEmployee`).
- **Request values**: they are strings, or missing. A missing value and "" are treated
  alike because both are falsy. Numbers sent as strings, arrays in place of strings and
  other JavaScript coercions are not modelled.
- **Search**: MongoDB `$regex` metacharacters are not modelled. The query is a literal
  case-insensitive substring test.
- **Case folding**: `toLowerCase` is modelled on ASCII letters only.
- **Ties in server sorts**: MongoDB's `.sort({ field: -1 })` leaves the order of equal
  keys unspecified. The model uses the same stable sort as the client
  (`Sorting.SortStable`), which is one of the orders the server may return.
- **Number formatting**: floating-point formatting (`toFixed`) is reduced to rounding to
  hundredths, and `Number.MAX_VALUE` becomes "no upper bound".
- Logs.GetActivityLogs: parseInt of a non-numeric limit gives NaN, which is modelled as
  the 500 the handler answers. Integers beyond JavaScript's exact range are not
  modelled.
- **Time**:
  - Time zones are a fixed offset. Daylight-saving changes are left out.
  - JavaScript's parsing of date strings is left out: the date inputs arrive as
    midnight instants, and the single-day filter compares UTC day numbers.
  - A batch upload reads the clock once for all its entries.
- **Base64 and JSON**:
  - Node's `Buffer` accepts malformed base64 leniently. The model decodes canonical
    text only; other text is answered as undecodable (`Documents.DecodeBody`).
  - `decodeToken` is modelled for the token object's own JSON shape. Other JSON
    values decode to "no token data".
  - Utf8.Decode: Node's `toString("utf-8")` replaces each malformed UTF-8 sequence with
    U+FFFD, but the model refuses malformed input. A token whose bytes are not valid
    UTF-8 therefore decodes to "no token data" in the model (`Token.Decode`). Tokens the
    server issues are valid UTF-8 (`Token.DecodeEncode`), so only forged tokens differ.
- **Handlers outside the model**: logout, `handleGetDocument` and `disconnectDB` are
  plain lookups or library calls without decision logic.
- **Client I/O**: camera capture, FileReader, fetch, toasts and the network-error
  branches ("Server error...") are left out. A file's bytes and MIME type are
  parameters.
- **Client timing and storage**: the 3-second debounce of the reset page is left out,
  and a blur checks at once. localStorage parsing is reduced to missing / malformed /
  parsed user.
- **Other pages**: `client/pages/Index.tsx` and `client/pages/Login.tsx` only redirect
  by role, and are not modelled.
- ResetPage.Submit: the picked employee's email is the Employee-normalised one. It may
  differ from the User email the reset looks up, and the model does not relate the two
  collections' emails.
- **Concurrency**: the `Promise.all` fan-out and races between requests are left out.
  Every handler runs alone.
- **Security**: the unsigned token and the plaintext passwords are modelled as they
  are, not as they should be.

## Findings

| source | as written | input that shows it | evidently intended | confidence | as-written member | corrected member |
|---|---|---|---|---|---|---|
| client/pages/AdminDashboard.tsx:1098 | "Load More" shows when more than 4 documents match | exactly 5 matching documents: all are already shown, yet the button appears with the label "0 more" | more than 5, as the employee dashboard has it (EmployeeDashboard.tsx:751) | not executed | DocumentList.AdminLoadMoreAtFive | DocumentList.LoadMoreIffHidden |
| client/pages/AdminDashboard.tsx:261-270 (also EmployeeDashboard.tsx:126-135) | each loop turn calls `setPendingFiles([...pendingFiles, pendingFile])` with the same captured list | choosing two files a and b at once: only b is queued | every chosen file is queued | not executed | PendingUploads.SelectTwoAsWritten | PendingUploads.SelectFiles |
