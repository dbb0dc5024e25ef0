/** The upload queue of both dashboards: files picked in the browser wait as pending
    entries with an editable title and description, then go to the batch-upload route in
    one request. */
module PendingUploads {
  import opened Wrappers
  import opened Bytes
  import opened Text
  import opened Sorting
  import opened Table
  import opened Models
  import Documents
  import Base64

  /** A file picked in the browser: its name, MIME type and contents. */
  datatype LocalFile = LocalFile(name: string, mimeType: string, bytes: seq<byte>)

  datatype PendingFile = PendingFile(id: string, file: LocalFile, title: string, description: string)

  // ---------------------------------------------------------------------------
  // Default title

  /** Where `/\.[^/.]+$/` matches: a dot followed, up to the end, by at least one
      character that is neither a dot nor a slash. */
  predicate StripsAt(s: string, i: int) {
    0 <= i < |s| - 1 && s[i] == '.' && forall j :: i < j < |s| ==> s[j] != '.' && s[j] != '/'
  }

  /** The position of the last dot. */
  function LastDot(s: string): (r: Option<nat>)
    ensures r.Some? ==> r.value < |s| && s[r.value] == '.' && forall j :: r.value < j < |s| ==> s[j] != '.'
    ensures r.None? ==> forall j :: 0 <= j < |s| ==> s[j] != '.'
    decreases |s|
  {
    if |s| == 0 then None
    else if s[|s| - 1] == '.' then Some(|s| - 1)
    else LastDot(s[..|s| - 1])
  }

  /** `file.name.replace(/\.[^/.]+$/, "")`: the name without its last extension. */
  function DefaultTitle(name: string): (r: string)
    ensures r != name <==> exists i :: StripsAt(name, i)
    ensures r != name ==> StripsAt(name, |r|) && r == name[..|r|]
  {
    match LastDot(name)
    case None => name
    case Some(i) =>
      if i + 1 < |name| && '/' !in name[i + 1..] then
        assert StripsAt(name, i) by {
          forall j | i < j < |name| ensures name[j] != '/' {
            assert name[i + 1..][j - i - 1] == name[j];
          }
        }
        name[..i]
      else
        assert !StripsAt(name, i) by {
          if i + 1 < |name| {
            var m :| 0 <= m < |name[i + 1..]| && name[i + 1..][m] == '/';
            assert name[i + 1 + m] == '/';
          }
        }
        assert forall k :: StripsAt(name, k) ==> k == i;
        name
  }

  lemma DefaultTitleExamples()
    ensures DefaultTitle("a.b.pdf") == "a.b"
    ensures DefaultTitle("noext") == "noext"
  {
    assert StripsAt("a.b.pdf", 3);
    var s := "noext";
    assert forall i :: 0 <= i < |s| ==> s[i] != '.';
  }

  // ---------------------------------------------------------------------------
  // The queue

  /** The entry for the `k`-th of the picked files: id `<stamp>-<k>`, the default title
      and no description. */
  function NewEntry(files: seq<LocalFile>, stamp: int, k: nat): (pf: PendingFile)
    requires k < |files|
    ensures pf.file == files[k] && pf.title == DefaultTitle(files[k].name) && pf.description == ""
  {
    PendingFile(IntToString(stamp) + "-" + NatToString(k), files[k], DefaultTitle(files[k].name), "")
  }

  /** What picking `files` at clock reading `stamp` is meant to do: append one entry per
      file, in order, each under its own id. */
  function SelectFiles(pending: seq<PendingFile>, files: seq<LocalFile>, stamp: int): (r: seq<PendingFile>)
    ensures |r| == |pending| + |files|
    ensures r[..|pending|] == pending
    ensures forall k :: 0 <= k < |files| ==> r[|pending| + k].file == files[k]
    ensures forall k :: 0 <= k < |files| ==> r[|pending| + k].title == DefaultTitle(files[k].name)
    ensures forall k, m :: |pending| <= k < m < |r| ==> r[k].id != r[m].id
  {
    var added := seq(|files|, k requires 0 <= k < |files| => NewEntry(files, stamp, k));
    forall k, m | 0 <= k < m < |files| ensures added[k].id != added[m].id {
      DistinctSuffix(IntToString(stamp) + "-", k, m);
    }
    var r := pending + added;
    assert forall k :: |pending| <= k < |r| ==> r[k] == added[k - |pending|];
    r
  }

  /** What `handleFileSelect` does as written: every pass of its loop sets the queue to the
      list captured when the handler started plus that pass's file, so the last setting
      wins and only the last picked file is queued. */
  function SelectFilesAsWritten(pending: seq<PendingFile>, files: seq<LocalFile>, stamp: int): (r: seq<PendingFile>)
    ensures |files| == 0 ==> r == pending
    ensures |files| > 0 ==> r == pending + [NewEntry(files, stamp, |files| - 1)]
  {
    var state := pending;
    StaleSets(pending, files, stamp, 0, state)
  }

  /** The loop of `handleFileSelect` from pass `k` on, `state` being the queue so far. */
  function StaleSets(pending: seq<PendingFile>, files: seq<LocalFile>, stamp: int, k: nat,
                     state: seq<PendingFile>): (r: seq<PendingFile>)
    requires k <= |files|
    ensures k < |files| ==> r == pending + [NewEntry(files, stamp, |files| - 1)]
    ensures k == |files| ==> r == state
    decreases |files| - k
  {
    if k == |files| then state
    else StaleSets(pending, files, stamp, k + 1, pending + [NewEntry(files, stamp, k)])
  }

  /** Picking two files at once queues only the second. */
  lemma SelectTwoAsWritten(pending: seq<PendingFile>, a: LocalFile, b: LocalFile, stamp: int)
    ensures |SelectFilesAsWritten(pending, [a, b], stamp)| == |pending| + 1
    ensures |SelectFiles(pending, [a, b], stamp)| == |pending| + 2
    ensures SelectFilesAsWritten(pending, [a, b], stamp)[|pending|].file == b
  {
  }

  /** Different indexes give different ids. */
  lemma DistinctSuffix(prefix: string, k: nat, m: nat)
    requires k != m
    ensures prefix + NatToString(k) != prefix + NatToString(m)
  {
    assert (prefix + NatToString(k))[|prefix|..] == NatToString(k);
    assert (prefix + NatToString(m))[|prefix|..] == NatToString(m);
    NatToStringParses(k);
    NatToStringParses(m);
  }

  datatype Field = Title | Description

  function SetField(pf: PendingFile, field: Field, value: string): PendingFile {
    match field
    case Title => pf.(title := value)
    case Description => pf.(description := value)
  }

  /** `handlePendingFileUpdate`: edits the entries with this id, leaves the rest. */
  function UpdatePending(pending: seq<PendingFile>, id: string, field: Field, value: string): (r: seq<PendingFile>)
    ensures |r| == |pending|
    ensures forall k :: 0 <= k < |pending| && pending[k].id != id ==> r[k] == pending[k]
    ensures forall k :: 0 <= k < |pending| && pending[k].id == id ==> r[k] == SetField(pending[k], field, value)
  {
    Map(pending, (pf: PendingFile) => if pf.id == id then SetField(pf, field, value) else pf)
  }

  function KeepOthers(id: string): PendingFile -> bool {
    (pf: PendingFile) => pf.id != id
  }

  /** `handleRemovePendingFile`: drops the entries with this id, keeps every other entry
      as often as it occurs; `RemovePendingAppend` gives the order. */
  function RemovePending(pending: seq<PendingFile>, id: string): (r: seq<PendingFile>)
    ensures forall pf :: pf in r <==> pf in pending && pf.id != id
    ensures forall pf :: multiset(r)[pf] == if pf.id != id then multiset(pending)[pf] else 0
    ensures multiset(r) <= multiset(pending)
  {
    FilterOccurrences(pending, KeepOthers(id));
    Filter(pending, KeepOthers(id))
  }

  /** Removing from a concatenation removes from each part and keeps the parts in order;
      a single entry stays exactly when its id differs. */
  lemma RemovePendingAppend(a: seq<PendingFile>, b: seq<PendingFile>, id: string)
    ensures RemovePending(a + b, id) == RemovePending(a, id) + RemovePending(b, id)
    ensures forall pf :: RemovePending([pf], id) == if pf.id != id then [pf] else []
  {
    FilterAppend(a, b, KeepOthers(id));
    forall pf ensures RemovePending([pf], id) == if pf.id != id then [pf] else [] {
      FilterSingle(pf, KeepOthers(id));
    }
  }

  /** Editing an entry and then removing it is removing it. */
  lemma UpdateThenRemove(pending: seq<PendingFile>, id: string, field: Field, value: string)
    ensures RemovePending(UpdatePending(pending, id, field, value), id) == RemovePending(pending, id)
  {
    var u := UpdatePending(pending, id, field, value);
    var keep := KeepOthers(id);
    forall k | 0 <= k < |u| ensures (keep(u[k]) <==> keep(pending[k])) && (keep(u[k]) ==> u[k] == pending[k]) {
      if pending[k].id == id {
        assert u[k].id == id;
      }
    }
    FilterAgree(u, pending, keep);
  }

  // ---------------------------------------------------------------------------
  // Submit

  /** The signed-in user as the dashboards keep it. */
  datatype ClientUser = ClientUser(id: nat, name: string, role: string)

  /** What `handleSubmitAll` does: refuse with a message, or send a batch request. */
  datatype Submission = Refused(message: string) | Send(request: Documents.BatchRequest)

  predicate IsImage(f: LocalFile) {
    StartsWith(f.mimeType, "image/")
  }

  /** The `fileData` sent for a file: the data URL of an image, "" for anything else. */
  function FilePayload(f: LocalFile): string {
    if IsImage(f) then Documents.DataUrl(f.mimeType, f.bytes) else ""
  }

  /** The batch entry for a pending file. */
  function Entry(pf: PendingFile): Documents.BatchFile {
    Documents.BatchFile(pf.file.name, pf.file.mimeType, |pf.file.bytes|, pf.title, pf.description,
                        FilePayload(pf.file))
  }

  /** `handleSubmitAll`: needs a user, a pending file, and a non-blank title on every one. */
  function SubmitAll(user: Option<ClientUser>, pending: seq<PendingFile>): (s: Submission)
    ensures s.Refused? <==> user.None? || |pending| == 0 || exists k :: 0 <= k < |pending| && IsBlank(pending[k].title)
    ensures s.Refused? && (user.None? || |pending| == 0) ==> s.message == "Please select at least one file"
    ensures s.Send? ==>
              && s.request.documents.Some?
              && |s.request.documents.value| == |pending|
              && (forall k :: 0 <= k < |pending| ==> s.request.documents.value[k] == Entry(pending[k]))
              && s.request.userId == Some(user.value.id)
              && s.request.userName == user.value.name
              && s.request.category == "general"
  {
    if user.None? || |pending| == 0 then Refused("Please select at least one file")
    else if exists k :: 0 <= k < |pending| && IsBlank(pending[k].title) then
      Refused("Please add a title for all selected documents")
    else
      Send(Documents.BatchRequest(Some(Map(pending, Entry)), Some(user.value.id), user.value.name, "general"))
  }

  /** A sent entry is never rejected for a missing title: the server refuses it only for
      an empty file name or a size over the limit. */
  lemma SentEntriesHaveTitles(user: Option<ClientUser>, pending: seq<PendingFile>)
    requires SubmitAll(user, pending).Send?
    ensures forall f :: f in SubmitAll(user, pending).request.documents.value ==>
              (Documents.Accepted(f) <==> f.filename != "" && f.size <= Documents.MaxFileSize)
  {
    var files := SubmitAll(user, pending).request.documents.value;
    forall f | f in files ensures f.title != "" {
      var k :| 0 <= k < |files| && files[k] == f;
      assert !IsBlank(pending[k].title);
    }
  }

  /** A sent image, once stored, is viewed as exactly the bytes that were picked. */
  lemma ImageRoundTrip(db: Db, id: nat, pf: PendingFile, ctx: Documents.BatchContext)
    requires IsImage(pf.file) && ',' !in pf.file.mimeType && |pf.file.bytes| > 0
    requires Documents.Accepted(Entry(pf)) && ctx.userName != ""
    requires Find(db.documents, id) == Some(Documents.BatchDocument(Entry(pf), ctx))
    ensures Documents.ViewDocument(db, id).Ok?
    ensures Documents.ViewDocument(db, id).value.body == Documents.Decoded(pf.file.bytes)
    ensures Documents.ViewDocument(db, id).value.contentType == pf.file.mimeType
  {
    var d := Documents.BatchDocument(Entry(pf), ctx);
    Documents.ExtractDataUrl(pf.file.mimeType, pf.file.bytes);
    Base64.DecodeEncode(pf.file.bytes);
    assert Documents.ExtractBase64(d.fileData) == Documents.Base64Text(Base64.Encode(pf.file.bytes));
    assert pf.file.mimeType != "";
  }

  /** A sent file that is not an image is stored without data and cannot be viewed. */
  lemma NonImageNotViewable(db: Db, id: nat, pf: PendingFile, ctx: Documents.BatchContext)
    requires !IsImage(pf.file)
    requires Documents.Accepted(Entry(pf)) && ctx.userName != ""
    requires Find(db.documents, id) == Some(Documents.BatchDocument(Entry(pf), ctx))
    ensures Documents.ViewDocument(db, id) == Err(400, "File data not available")
  {
  }
}
