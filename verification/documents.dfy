/** The document routes: single and batch upload, the role-scoped list and search, the
    admin-only delete, and the payload that view and download send back. */
module Documents {
  import opened Wrappers
  import opened Bytes
  import opened Text
  import opened Table
  import opened Sorting
  import opened Models
  import Base64

  /** The largest accepted file: 500 MiB. A file of exactly this size is accepted. */
  const MaxFileSize: int := 500 * 1024 * 1024

  /** `s || fallback` for a string field. */
  function OrElse(s: string, fallback: string): string {
    if s == "" then fallback else s
  }

  /** The file size in MiB rounded to hundredths, halves up: what `toFixed(2)` rounds
      `size / 1024 / 1024` to. */
  function MbHundredths(size: nat): (h: nat)
    ensures h * 1048576 <= size * 100 + 524288 < (h + 1) * 1048576
  {
    (size * 100 + 524288) / 1048576
  }

  /** `(size / 1024 / 1024).toFixed(2)` */
  function FormatMb(size: nat): (r: string)
    ensures |r| >= 4 && r[|r| - 3] == '.'
  {
    var h := MbHundredths(size);
    NatToString(h / 100) + "." + [DigitChar(h % 100 / 10), DigitChar(h % 10)]
  }

  // ---------------------------------------------------------------------------
  // Single upload

  /** The body of `POST /api/documents/upload`. A missing string is "", a missing size is
      0 (both are falsy, and `size || 0` maps them alike), a missing user id is `None`. */
  datatype UploadRequest = UploadRequest(
    filename: string,
    fileType: string,
    size: int,
    category: string,
    userId: Option<nat>,
    userName: string,
    title: string,
    description: string)

  predicate UploadFieldsPresent(req: UploadRequest) {
    req.filename != "" && req.userId.Some? && req.userName != "" && req.title != ""
  }

  /** The record a valid single upload stores. */
  function UploadedDocument(req: UploadRequest, now: int): (d: Document)
    requires UploadFieldsPresent(req)
    ensures ValidDocument(d)
    ensures d.uploadDate == now && d.uploadedBy == req.userId.value && d.fileData.None?
  {
    Document(
      req.filename,
      OrElse(req.fileType, "unknown"),
      req.size,
      now,
      req.userId.value,
      req.userName,
      OrElse(req.category, "general"),
      "/uploads/" + IntToString(now) + "-" + req.filename,
      None,
      OrElse(req.title, "Untitled"),
      req.description)
  }

  /** `handleUploadDocument` at clock reading `now`. */
  function Upload(db: Db, req: UploadRequest, now: int): (o: Outcome<DocumentInfo>)
    ensures o.reply.Err? ==> o.db == db
    ensures o.reply.Err? && o.reply.status == 400 <==> !UploadFieldsPresent(req)
    ensures o.reply.Err? && o.reply.status == 413
            <==> UploadFieldsPresent(req) && req.size > MaxFileSize
    ensures o.reply.Ok? <==> UploadFieldsPresent(req) && req.size <= MaxFileSize
    ensures !UploadFieldsPresent(req) ==>
              o.reply == Err(400, "Missing required fields: filename, userId, userName, title")
    ensures UploadFieldsPresent(req) && req.size > MaxFileSize ==>
              o.reply == Err(413, "File too large. Maximum size is 500 MB. Your file is "
                                  + FormatMb(req.size) + " MB")
    ensures o.reply.Ok? ==> |o.db.documents| == |db.documents| + 1
    ensures o.reply.Ok? ==>
              var d := o.db.documents[|db.documents|].rec;
              && o.db == db.(documents := Insert(db.documents, d))
              && o.reply.value == DocumentView(o.db.documents[|db.documents|])
              && d.filename == req.filename && d.title == req.title && d.size == req.size
              && d.fileType == (if req.fileType == "" then "unknown" else req.fileType)
              && d.category == (if req.category == "" then "general" else req.category)
              && d.description == req.description
              && d.uploadDate == now && d.uploadedBy == req.userId.value
              && d.uploadedByName == req.userName
              && d.fileUrl == "/uploads/" + IntToString(now) + "-" + req.filename
              && d.fileData.None?
    ensures ValidDb(db) ==> ValidDb(o.db)
  {
    if !UploadFieldsPresent(req) then
      Outcome(Err(400, "Missing required fields: filename, userId, userName, title"), db)
    else if req.size > MaxFileSize then
      Outcome(Err(413, "File too large. Maximum size is 500 MB. Your file is "
                       + FormatMb(req.size) + " MB"), db)
    else
      var d := UploadedDocument(req, now);
      var docs := Insert(db.documents, d);
      var db' := db.(documents := docs);
      assert ValidDb(db) ==> ValidDb(db') by {
        assert forall i :: 0 <= i < |db.documents| ==> docs[i] == db.documents[i];
      }
      Outcome(Ok(DocumentView(docs[|db.documents|])), db')
  }

  /** A stored upload can be looked up under the id the reply carries. */
  lemma UploadThenFind(db: Db, req: UploadRequest, now: int)
    requires ValidDb(db)
    requires Upload(db, req, now).reply.Ok?
    ensures var o := Upload(db, req, now);
      Find(o.db.documents, o.reply.value.id) == Some(UploadedDocument(req, now))
      && o.reply.value.id !in Ids(db.documents)
  {
    var o := Upload(db, req, now);
    var d := UploadedDocument(req, now);
    assert o.db.documents[|db.documents|] == Row(NextId(db.documents), d);
    FindUnique(o.db.documents, NextId(db.documents), d);
    NextIdFresh(db.documents);
  }

  // ---------------------------------------------------------------------------
  // The filename in a batch upload's fileUrl

  /** The characters `/[^a-zA-Z0-9.-]/` does not match. */
  predicate IsUrlSafe(c: char) {
    'a' <= c <= 'z' || 'A' <= c <= 'Z' || '0' <= c <= '9' || c == '.' || c == '-'
  }

  /** `filename.replace(/[^a-zA-Z0-9.-]/g, "-")`. The pattern has no `u` flag, so it works
      on UTF-16 code units: a character outside the Basic Multilingual Plane is two units
      and becomes two dashes. */
  function SanitizeFilename(s: string): (r: string)
    ensures forall i :: 0 <= i < |r| ==> IsUrlSafe(r[i])
    ensures Utf16Length(r) == Utf16Length(s)
    ensures |r| >= |s|
    decreases |s|
  {
    if |s| == 0 then ""
    else
      var head := if IsUrlSafe(s[0]) then [s[0]] else if s[0] as int >= 0x10000 then "--" else "-";
      var tail := SanitizeFilename(s[1..]);
      Utf16Append(head, tail);
      head + tail
  }

  /** On Basic Multilingual Plane text the sanitiser works character by character: safe
      characters stay, every other character becomes one dash. */
  lemma {:induction false} SanitizeBmp(s: string)
    requires forall i :: 0 <= i < |s| ==> s[i] as int < 0x10000
    ensures |SanitizeFilename(s)| == |s|
    ensures forall i :: 0 <= i < |s| ==>
              SanitizeFilename(s)[i] == if IsUrlSafe(s[i]) then s[i] else '-'
    decreases |s|
  {
    if |s| > 0 {
      SanitizeBmp(s[1..]);
      var r := SanitizeFilename(s);
      assert r == [r[0]] + SanitizeFilename(s[1..]);
      forall i | 0 < i < |s| ensures r[i] == if IsUrlSafe(s[i]) then s[i] else '-' {
        assert s[i] == s[1..][i - 1];
      }
    }
  }

  /** A name made of safe characters is left as it is. */
  lemma {:induction false} SanitizeSafe(s: string)
    requires forall i :: 0 <= i < |s| ==> IsUrlSafe(s[i])
    ensures SanitizeFilename(s) == s
    decreases |s|
  {
    if |s| > 0 {
      SanitizeSafe(s[1..]);
      assert s == [s[0]] + s[1..];
    }
  }

  // ---------------------------------------------------------------------------
  // Batch upload

  /** One entry of a batch upload's `documents` array; missing strings are "", a missing
      size is 0. */
  datatype BatchFile = BatchFile(
    filename: string,
    fileType: string,
    size: int,
    title: string,
    description: string,
    fileData: string)

  /** The body of `POST /api/documents/batch-upload`. `documents` is `None` when it is
      missing or not an array. */
  datatype BatchRequest = BatchRequest(
    documents: Option<seq<BatchFile>>,
    userId: Option<nat>,
    userName: string,
    category: string)

  /** What every entry of a batch shares: the uploader, the category and the clock. */
  datatype BatchContext = BatchContext(userId: nat, userName: string, category: string, now: int)

  /** The error an entry is rejected with, if any. */
  function FileError(f: BatchFile): (e: Option<string>)
    ensures e.None? <==> f.filename != "" && f.title != "" && f.size <= MaxFileSize
  {
    if f.filename == "" || f.title == "" then
      Some(OrElse(f.filename, "Unknown") + ": Missing title or filename")
    else if f.size > MaxFileSize then
      Some(f.filename + ": File too large (" + FormatMb(f.size) + " MB)")
    else None
  }

  predicate Accepted(f: BatchFile) {
    FileError(f).None?
  }

  /** The record an accepted entry becomes. */
  function BatchDocument(f: BatchFile, ctx: BatchContext): (d: Document)
    requires Accepted(f) && ctx.userName != ""
    ensures ValidDocument(d)
    ensures d.filename == f.filename && d.title == f.title && d.uploadedBy == ctx.userId
    ensures d.fileData == Some(f.fileData)
  {
    Document(
      f.filename,
      OrElse(f.fileType, "unknown"),
      f.size,
      ctx.now,
      ctx.userId,
      ctx.userName,
      OrElse(ctx.category, "general"),
      "/api/documents/download/" + IntToString(ctx.now) + "-" + SanitizeFilename(f.filename),
      Some(f.fileData),
      f.title,
      f.description)
  }

  // Which creates fail

  /** One entry together with whether its `Document.create` call fails. A failed create is
      a database error, which the model does not see, so the caller names the failing
      entries. */
  datatype BatchEntry = BatchEntry(file: BatchFile, refused: bool)

  /** Whether the create for entry `k` fails: `refused[k]`, every entry past the end of
      `refused` being stored. */
  predicate RefusedAt(refused: seq<bool>, k: nat) {
    k < |refused| && refused[k]
  }

  /** No create fails. */
  predicate NoneRefused(refused: seq<bool>) {
    forall k :: 0 <= k < |refused| ==> !refused[k]
  }

  /** The entries of a batch, each paired with the fate of its create. */
  function Entries(files: seq<BatchFile>, refused: seq<bool>): (es: seq<BatchEntry>)
    ensures |es| == |files|
    ensures forall k :: 0 <= k < |files| ==> es[k] == BatchEntry(files[k], RefusedAt(refused, k))
  {
    seq(|files|, k requires 0 <= k < |files| => BatchEntry(files[k], RefusedAt(refused, k)))
  }

  /** The entries of two batches sent as one, the refusals of the first covering it. */
  lemma EntriesAppend(a: seq<BatchFile>, b: seq<BatchFile>, ra: seq<bool>, rb: seq<bool>)
    requires |ra| == |a|
    ensures Entries(a + b, ra + rb) == Entries(a, ra) + Entries(b, rb)
  {
    var l := Entries(a + b, ra + rb);
    var r := Entries(a, ra) + Entries(b, rb);
    forall k | 0 <= k < |l| ensures l[k] == r[k] {
      if k >= |a| {
        assert (a + b)[k] == b[k - |a|];
        assert RefusedAt(ra + rb, k) == RefusedAt(rb, k - |a|);
      }
    }
  }

  /** The entry ends up stored: it passes validation and its create succeeds. */
  predicate Stored(e: BatchEntry) {
    Accepted(e.file) && !e.refused
  }

  /** Entry `k` of the request ends up stored. */
  predicate StoredAt(files: seq<BatchFile>, refused: seq<bool>, k: nat)
    requires k < |files|
  {
    Accepted(files[k]) && !RefusedAt(refused, k)
  }

  /** The message an entry adds to `errors`, if any: its validation error, or
      `"<filename>: Upload failed"` when it passes validation but its create fails. */
  function EntryError(e: BatchEntry): (m: Option<string>)
    ensures m.None? <==> Stored(e)
    ensures !Accepted(e.file) ==> m == FileError(e.file)
    ensures Accepted(e.file) && e.refused ==> m == Some(e.file.filename + ": Upload failed")
  {
    if !Accepted(e.file) then FileError(e.file)
    else if e.refused then Some(e.file.filename + ": Upload failed")
    else None
  }

  /** Reference definition: the records of the stored entries, in input order. */
  function StoredDocuments(es: seq<BatchEntry>, ctx: BatchContext): (r: seq<Document>)
    requires ctx.userName != ""
    ensures |r| <= |es|
    decreases |es|
  {
    if |es| == 0 then []
    else
      var rest := StoredDocuments(es[1..], ctx);
      if Stored(es[0]) then [BatchDocument(es[0].file, ctx)] + rest else rest
  }

  /** Reference definition: the messages of the entries not stored, in input order. */
  function Rejections(es: seq<BatchEntry>): (r: seq<string>)
    ensures |r| <= |es|
    decreases |es|
  {
    if |es| == 0 then []
    else
      var rest := Rejections(es[1..]);
      match EntryError(es[0])
      case Some(m) => [m] + rest
      case None => rest
  }

  /** One document per stored entry and one message per other entry. */
  lemma {:induction false} BatchCounts(es: seq<BatchEntry>, ctx: BatchContext)
    requires ctx.userName != ""
    ensures |StoredDocuments(es, ctx)| == Count(es, Stored)
    ensures |Rejections(es)| == |es| - Count(es, Stored)
    decreases |es|
  {
    if |es| > 0 {
      assert es == [es[0]] + es[1..];
      BatchCounts(es[1..], ctx);
    }
  }

  /** At most one stored entry per accepted one, exactly one when no create fails. */
  lemma {:induction false} EntriesCount(files: seq<BatchFile>, refused: seq<bool>)
    ensures Count(Entries(files, refused), Stored) <= Count(files, Accepted)
    ensures NoneRefused(refused) ==> Count(Entries(files, refused), Stored) == Count(files, Accepted)
    decreases |files|
  {
    if |files| > 0 {
      var n := |files| - 1;
      var init := files[..n];
      var last := BatchEntry(files[n], RefusedAt(refused, n));
      assert files == init + [files[n]];
      assert Entries(files, refused) == Entries(init, refused) + [last];
      EntriesCount(init, refused);
      CountAppend(init, files[n], Accepted);
      CountAppend(Entries(init, refused), last, Stored);
    }
  }

  /** Some entry of the request is stored exactly when some zipped entry is, and all are
      exactly when all zipped entries are. */
  lemma EntriesStored(files: seq<BatchFile>, refused: seq<bool>)
    ensures (exists e :: e in Entries(files, refused) && Stored(e))
        <==> exists k :: 0 <= k < |files| && StoredAt(files, refused, k)
    ensures (forall e :: e in Entries(files, refused) ==> Stored(e))
        <==> forall k :: 0 <= k < |files| ==> StoredAt(files, refused, k)
  {
    var es := Entries(files, refused);
    if exists e :: e in es && Stored(e) {
      var e :| e in es && Stored(e);
      var k :| 0 <= k < |es| && es[k] == e;
      assert StoredAt(files, refused, k);
    }
    if exists k :: 0 <= k < |files| && StoredAt(files, refused, k) {
      var k :| 0 <= k < |files| && StoredAt(files, refused, k);
      assert es[k] in es && Stored(es[k]);
    }
    if forall k :: 0 <= k < |files| ==> StoredAt(files, refused, k) {
      forall e | e in es ensures Stored(e) {
        var k :| 0 <= k < |es| && es[k] == e;
        assert StoredAt(files, refused, k);
      }
    }
    if forall e :: e in es ==> Stored(e) {
      forall k | 0 <= k < |files| ensures StoredAt(files, refused, k) {
        assert es[k] in es;
      }
    }
  }

  /** What the loop over the entries has produced: the collection and the error messages.
      The created documents it lists are the views of the rows it appended. */
  datatype BatchRun = BatchRun(documents: Table<Document>, errors: seq<string>)

  /** The loop of `handleBatchUploadDocuments`: each entry in turn is either stored, under a
      fresh id, or answered with one message (rejected, or its create failed). */
  function RunBatch(t: Table<Document>, es: seq<BatchEntry>, ctx: BatchContext): (r: BatchRun)
    requires ctx.userName != ""
    ensures |r.documents| - |t| + |r.errors| == |es|
    ensures |r.documents| >= |t| && r.documents[..|t|] == t
    ensures Records(r.documents[|t|..]) == StoredDocuments(es, ctx)
    ensures r.errors == Rejections(es)
    ensures UniqueIds(t) ==> UniqueIds(r.documents)
    decreases |es|
  {
    if |es| == 0 then
      assert Records(t[|t|..]) == [];
      BatchRun(t, [])
    else
      match EntryError(es[0])
      case Some(m) =>
        var r := RunBatch(t, es[1..], ctx);
        BatchRun(r.documents, [m] + r.errors)
      case None =>
        var d := BatchDocument(es[0].file, ctx);
        var t1 := Insert(t, d);
        var r := RunBatch(t1, es[1..], ctx);
        RunBatchStep(t, t1, NextId(t), d, r.documents, StoredDocuments(es[1..], ctx));
        r
  }

  /** Storing one entry ahead of the rest of the loop. */
  lemma RunBatchStep(t: Table<Document>, t1: Table<Document>, id: nat, d: Document,
                     u: Table<Document>, rest: seq<Document>)
    requires t1 == t + [Row(id, d)]
    requires |u| >= |t1| && u[..|t1|] == t1
    requires Records(u[|t1|..]) == rest
    ensures |u| >= |t| && u[..|t|] == t
    ensures Records(u[|t|..]) == [d] + rest
  {
    assert u[..|t|] == u[..|t1|][..|t|];
    assert u[|t|] == u[..|t1|][|t|];
    var a := Records(u[|t|..]);
    var b := [d] + rest;
    forall i | 0 <= i < |a| ensures a[i] == b[i] {
      if i > 0 {
        assert u[|t|..][i] == u[|t1|..][i - 1];
      }
    }
  }

  /** Entries are independent: the documents and errors of a concatenation are those of
      its parts. */
  lemma BatchAppend(a: seq<BatchEntry>, b: seq<BatchEntry>, ctx: BatchContext)
    requires ctx.userName != ""
    ensures StoredDocuments(a + b, ctx) == StoredDocuments(a, ctx) + StoredDocuments(b, ctx)
    ensures Rejections(a + b) == Rejections(a) + Rejections(b)
  {
    StoredAppend(a, b, ctx);
    RejectionsAppend(a, b);
  }

  lemma {:induction false} StoredAppend(a: seq<BatchEntry>, b: seq<BatchEntry>, ctx: BatchContext)
    requires ctx.userName != ""
    ensures StoredDocuments(a + b, ctx) == StoredDocuments(a, ctx) + StoredDocuments(b, ctx)
    decreases |a|
  {
    if |a| == 0 {
      assert a + b == b;
    } else {
      var ab := a + b;
      assert ab[0] == a[0] && ab[1..] == a[1..] + b;
      StoredAppend(a[1..], b, ctx);
      var head := if Stored(a[0]) then [BatchDocument(a[0].file, ctx)] else [];
      assert StoredDocuments(ab, ctx) == head + StoredDocuments(a[1..] + b, ctx);
      assert StoredDocuments(a, ctx) == head + StoredDocuments(a[1..], ctx);
    }
  }

  lemma {:induction false} RejectionsAppend(a: seq<BatchEntry>, b: seq<BatchEntry>)
    ensures Rejections(a + b) == Rejections(a) + Rejections(b)
    decreases |a|
  {
    if |a| == 0 {
      assert a + b == b;
    } else {
      var ab := a + b;
      assert ab[0] == a[0] && ab[1..] == a[1..] + b;
      RejectionsAppend(a[1..], b);
      var head := if Stored(a[0]) then [] else [EntryError(a[0]).value];
      assert Rejections(ab) == head + Rejections(a[1..] + b);
      assert Rejections(a) == head + Rejections(a[1..]);
    }
  }

  /** An entry that is not stored (rejected, or its create failed) adds its one message
      and leaves every other entry's outcome as it would be without it. */
  lemma RejectedIsInert(a: seq<BatchEntry>, e: BatchEntry, b: seq<BatchEntry>, ctx: BatchContext)
    requires ctx.userName != "" && !Stored(e)
    ensures StoredDocuments(a + [e] + b, ctx) == StoredDocuments(a + b, ctx)
    ensures Rejections(a + [e] + b) == Rejections(a) + [EntryError(e).value] + Rejections(b)
  {
    BatchAppend(a + [e], b, ctx);
    BatchAppend(a, [e], ctx);
    BatchAppend(a, b, ctx);
    SingleRejected(e, ctx);
  }

  lemma SingleRejected(e: BatchEntry, ctx: BatchContext)
    requires ctx.userName != "" && !Stored(e)
    ensures StoredDocuments([e], ctx) == [] && Rejections([e]) == [EntryError(e).value]
  {
    assert [e][1..] == [];
  }

  /** `errors.join(", ")` */
  function JoinComma(pieces: seq<string>): string
    decreases |pieces|
  {
    if |pieces| == 0 then ""
    else if |pieces| == 1 then pieces[0]
    else pieces[0] + ", " + JoinComma(pieces[1..])
  }

  /** The success body of a batch upload: the created documents, and the errors only when
      there are some. */
  datatype BatchReply = BatchReply(documents: seq<DocumentInfo>, errors: Option<seq<string>>)

  predicate BatchRequestValid(req: BatchRequest) {
    req.documents.Some? && |req.documents.value| > 0 && req.userId.Some? && req.userName != ""
  }

  function ContextOf(req: BatchRequest, now: int): BatchContext
    requires req.userId.Some?
  {
    BatchContext(req.userId.value, req.userName, req.category, now)
  }

  /** `handleBatchUploadDocuments` at clock reading `now`, the creates named by `refused`
      failing. */
  function BatchUpload(db: Db, req: BatchRequest, now: int, refused: seq<bool>): (o: Outcome<BatchReply>)
    ensures o.reply.Err? ==> o.db == db
    ensures !BatchRequestValid(req) ==> o.reply.Err? && o.reply.status == 400
    ensures req.documents.None? || |req.documents.value| == 0 ==> o.reply == Err(400, "No documents provided")
    ensures req.documents.Some? && |req.documents.value| > 0 && (req.userId.None? || req.userName == "") ==>
              o.reply == Err(400, "Missing userId or userName")
    ensures o.reply.Ok? <==>
              BatchRequestValid(req)
              && exists k :: 0 <= k < |req.documents.value| && StoredAt(req.documents.value, refused, k)
    ensures BatchRequestValid(req)
              && (forall k :: 0 <= k < |req.documents.value| ==> !StoredAt(req.documents.value, refused, k)) ==>
              o.reply == Err(400, "Failed to upload documents: "
                                  + JoinComma(Rejections(Entries(req.documents.value, refused))))
    ensures o.reply.Ok? ==>
              var files := req.documents.value;
              var es := Entries(files, refused);
              var added := o.reply.value.documents;
              && o.db == db.(documents := o.db.documents)
              && |o.db.documents| == |db.documents| + |added|
              && o.db.documents[..|db.documents|] == db.documents
              && Records(o.db.documents[|db.documents|..]) == StoredDocuments(es, ContextOf(req, now))
              && (forall k :: 0 <= k < |added| ==> added[k] == DocumentView(o.db.documents[|db.documents| + k]))
              && |added| <= Count(files, Accepted)
              && (NoneRefused(refused) ==> |added| == Count(files, Accepted))
              && (o.reply.value.errors.None? <==> forall k :: 0 <= k < |files| ==> StoredAt(files, refused, k))
              && (o.reply.value.errors.Some? ==> o.reply.value.errors.value == Rejections(es))
    ensures ValidDb(db) ==> ValidDb(o.db)
  {
    if req.documents.None? || |req.documents.value| == 0 then
      Outcome(Err(400, "No documents provided"), db)
    else if req.userId.None? || req.userName == "" then
      Outcome(Err(400, "Missing userId or userName"), db)
    else
      var ctx := ContextOf(req, now);
      StoreBatchReply(db, req.documents.value, refused, ctx);
      StoreBatchStored(db, req.documents.value, refused, ctx);
      StoreBatchValid(db, req.documents.value, refused, ctx);
      StoreBatch(db, req.documents.value, refused, ctx)
  }

  /** The loop of a valid batch request and the reply built from its outcome: 400 with
      every message when nothing was stored, else the views of the new rows and the
      messages, if any. StoreBatchReply, StoreBatchStored and StoreBatchValid state what
      it promises. */
  function StoreBatch(db: Db, files: seq<BatchFile>, refused: seq<bool>, ctx: BatchContext): (o: Outcome<BatchReply>)
    requires ctx.userName != ""
    ensures o.reply.Err? ==> o.db == db
  {
    var r := RunBatch(db.documents, Entries(files, refused), ctx);
    if |r.documents| == |db.documents| then
      Outcome(Err(400, "Failed to upload documents: " + JoinComma(r.errors)), db)
    else
      var created := Map(r.documents[|db.documents|..], DocumentView);
      var errors := if |r.errors| > 0 then Some(r.errors) else None;
      Outcome(Ok(BatchReply(created, errors)), db.(documents := r.documents))
  }

  /** A batch succeeds exactly when some entry is stored; otherwise the reply is 400 with
      every message joined. */
  lemma StoreBatchReply(db: Db, files: seq<BatchFile>, refused: seq<bool>, ctx: BatchContext)
    requires ctx.userName != ""
    ensures StoreBatch(db, files, refused, ctx).reply.Ok? <==> exists k :: 0 <= k < |files| && StoredAt(files, refused, k)
    ensures (forall k :: 0 <= k < |files| ==> !StoredAt(files, refused, k)) ==>
              StoreBatch(db, files, refused, ctx).reply
                == Err(400, "Failed to upload documents: " + JoinComma(Rejections(Entries(files, refused))))
  {
    var es := Entries(files, refused);
    BatchCounts(es, ctx);
    EntriesStored(files, refused);
  }

  /** A successful batch appends the stored records after the existing rows, replies with
      their views, and lists the messages of the other entries, if any. */
  lemma StoreBatchStored(db: Db, files: seq<BatchFile>, refused: seq<bool>, ctx: BatchContext)
    requires ctx.userName != ""
    ensures var o := StoreBatch(db, files, refused, ctx);
            o.reply.Ok? ==>
              var es := Entries(files, refused);
              var added := o.reply.value.documents;
              && o.db == db.(documents := o.db.documents)
              && |o.db.documents| == |db.documents| + |added|
              && o.db.documents[..|db.documents|] == db.documents
              && Records(o.db.documents[|db.documents|..]) == StoredDocuments(es, ctx)
              && (forall k :: 0 <= k < |added| ==> added[k] == DocumentView(o.db.documents[|db.documents| + k]))
              && |added| <= Count(files, Accepted)
              && (NoneRefused(refused) ==> |added| == Count(files, Accepted))
              && (o.reply.value.errors.None? <==> forall k :: 0 <= k < |files| ==> StoredAt(files, refused, k))
              && (o.reply.value.errors.Some? ==> o.reply.value.errors.value == Rejections(es))
  {
    var es := Entries(files, refused);
    BatchCounts(es, ctx);
    EntriesCount(files, refused);
    EntriesStored(files, refused);
  }

  /** A batch keeps the schema. */
  lemma StoreBatchValid(db: Db, files: seq<BatchFile>, refused: seq<bool>, ctx: BatchContext)
    requires ctx.userName != ""
    ensures ValidDb(db) ==> ValidDb(StoreBatch(db, files, refused, ctx).db)
  {
    var r := RunBatch(db.documents, Entries(files, refused), ctx);
    if ValidDb(db) && |r.documents| != |db.documents| {
      NewDocumentsValid(db.documents, r.documents, Entries(files, refused), ctx);
    }
  }

  /** Every record a batch adds satisfies the schema. */
  lemma NewDocumentsValid(t: Table<Document>, u: Table<Document>, es: seq<BatchEntry>, ctx: BatchContext)
    requires ctx.userName != ""
    requires forall i :: 0 <= i < |t| ==> ValidDocument(t[i].rec)
    requires |u| >= |t| && u[..|t|] == t && Records(u[|t|..]) == StoredDocuments(es, ctx)
    ensures forall i :: 0 <= i < |u| ==> ValidDocument(u[i].rec)
  {
    StoredValid(es, ctx);
    forall i | 0 <= i < |u| ensures ValidDocument(u[i].rec) {
      if i < |t| {
        assert u[i] == u[..|t|][i];
      } else {
        assert u[i].rec == Records(u[|t|..])[i - |t|];
      }
    }
  }

  lemma {:induction false} StoredValid(es: seq<BatchEntry>, ctx: BatchContext)
    requires ctx.userName != ""
    ensures forall k :: 0 <= k < |StoredDocuments(es, ctx)| ==> ValidDocument(StoredDocuments(es, ctx)[k])
    decreases |es|
  {
    if |es| > 0 {
      StoredValid(es[1..], ctx);
    }
  }

  // ---------------------------------------------------------------------------
  // List and search

  /** The sort key of `sort({ uploadDate: -1 })`. */
  function UploadKey(row: Row<Document>): int {
    row.rec.uploadDate
  }

  function InfoKey(v: DocumentInfo): int {
    v.uploadDate
  }

  /** The rows satisfying `p`, newest first, as a response shows them. */
  function Listing(docs: Table<Document>, p: Row<Document> -> bool): (r: seq<DocumentInfo>)
    ensures |r| == Count(docs, p)
    ensures SortedDesc(r, InfoKey)
    ensures forall v :: v in r <==> exists row :: row in docs && p(row) && DocumentView(row) == v
  {
    var rows := SortDesc(Filter(docs, p), UploadKey);
    CountIsFilterLength(docs, p);
    ViewsSorted(rows);
    ViewsMembers(docs, p, rows);
    Map(rows, DocumentView)
  }

  lemma ViewsSorted(rows: seq<Row<Document>>)
    requires SortedDesc(rows, UploadKey)
    ensures SortedDesc(Map(rows, DocumentView), InfoKey)
  {
  }

  lemma ViewsMembers(docs: Table<Document>, p: Row<Document> -> bool, rows: seq<Row<Document>>)
    requires multiset(rows) == multiset(Filter(docs, p))
    ensures forall v :: v in Map(rows, DocumentView) <==>
              exists row :: row in docs && p(row) && DocumentView(row) == v
  {
    var r := Map(rows, DocumentView);
    forall v | v in r ensures exists row :: row in docs && p(row) && DocumentView(row) == v {
      var i :| 0 <= i < |r| && r[i] == v;
      assert rows[i] in multiset(Filter(docs, p));
    }
    forall row | row in docs && p(row) ensures DocumentView(row) in r {
      assert row in multiset(rows);
      var i :| 0 <= i < |rows| && rows[i] == row;
      assert r[i] == DocumentView(row);
    }
  }

  /** The scope of a listing: an employee sees only their own uploads. A request without
      `userId` leaves the `uploadedBy` condition undefined, and Mongoose drops such a key. */
  predicate VisibleTo(row: Row<Document>, userId: Option<nat>, role: string) {
    role == EmployeeRole && userId.Some? ==> row.rec.uploadedBy == userId.value
  }

  function Visible(userId: Option<nat>, role: string): Row<Document> -> bool {
    row => VisibleTo(row, userId, role)
  }

  /** `handleGetDocuments` */
  function ListDocuments(db: Db, userId: Option<nat>, role: string): (r: seq<DocumentInfo>)
    ensures SortedDesc(r, InfoKey)
    ensures forall v :: v in r <==>
              exists row :: row in db.documents && VisibleTo(row, userId, role) && DocumentView(row) == v
    ensures |r| == Count(db.documents, Visible(userId, role))
  {
    Listing(db.documents, Visible(userId, role))
  }

  /** Outside the employee role, nothing is filtered out. */
  lemma ListAllForOthers(db: Db, userId: Option<nat>, role: string)
    requires role != EmployeeRole
    ensures |ListDocuments(db, userId, role)| == |db.documents|
  {
  }

  /** The query string of `GET /api/documents/search`: missing strings are "", dates are
      the instants `new Date(...)` parses them to. */
  datatype SearchRequest = SearchRequest(
    query: string,
    category: string,
    startDate: Option<int>,
    endDate: Option<int>,
    userId: Option<nat>,
    role: string)

  /** The search filter: the role scope, and a case-insensitive match of the query in the
      filename, category or title, and the exact category, and the inclusive date range,
      each only when given. */
  predicate SearchMatches(row: Row<Document>, req: SearchRequest) {
    var d := row.rec;
    && VisibleTo(row, req.userId, req.role)
    && (req.query != "" ==>
          IncludesIgnoringCase(d.filename, req.query) || IncludesIgnoringCase(d.category, req.query)
          || IncludesIgnoringCase(d.title, req.query))
    && (req.category != "" ==> d.category == req.category)
    && (req.startDate.Some? ==> d.uploadDate >= req.startDate.value)
    && (req.endDate.Some? ==> d.uploadDate <= req.endDate.value)
  }

  function SearchFilter(req: SearchRequest): Row<Document> -> bool {
    row => SearchMatches(row, req)
  }

  /** `handleSearchDocuments` */
  function SearchDocuments(db: Db, req: SearchRequest): (r: seq<DocumentInfo>)
    ensures SortedDesc(r, InfoKey)
    ensures forall v :: v in r <==>
              exists row :: row in db.documents && SearchMatches(row, req) && DocumentView(row) == v
    ensures |r| == Count(db.documents, SearchFilter(req))
  {
    Listing(db.documents, SearchFilter(req))
  }

  /** A search without criteria is the listing. */
  lemma SearchWithoutCriteria(db: Db, req: SearchRequest)
    requires req.query == "" && req.category == "" && req.startDate.None? && req.endDate.None?
    ensures SearchDocuments(db, req) == ListDocuments(db, req.userId, req.role)
  {
    FilterCongruent(db.documents, SearchFilter(req), Visible(req.userId, req.role));
  }

  /** Every search result is in the listing for the same user and role. */
  lemma SearchWithinListing(db: Db, req: SearchRequest)
    ensures forall v :: v in SearchDocuments(db, req) ==> v in ListDocuments(db, req.userId, req.role)
  {
  }

  // ---------------------------------------------------------------------------
  // Delete

  /** `handleDeleteDocument`: only the admin role may delete, and that is decided before
      any lookup. */
  function DeleteDocument(db: Db, id: nat, role: string): (o: Outcome<()>)
    ensures o.reply.Err? ==> o.db == db
    ensures o.reply.Err? && o.reply.status == 403 <==> role != AdminRole
    ensures o.reply.Ok? <==> role == AdminRole && id in Ids(db.documents)
    ensures o.reply.Ok? ==>
              && o.db == db.(documents := o.db.documents)
              && (forall row :: row in o.db.documents <==> row in db.documents && row.id != id)
    ensures ValidDb(db) ==> ValidDb(o.db)
  {
    if role != AdminRole then Outcome(Err(403, "Unauthorized"), db)
    else if id !in Ids(db.documents) then Outcome(Err(404, "Document not found"), db)
    else
      var docs := Remove(db.documents, id);
      assert ValidDb(db) ==> ValidDb(db.(documents := docs)) by {
        if ValidDb(db) {
          RemoveIds(db.documents, id);
          forall i | 0 <= i < |docs| ensures ValidDocument(docs[i].rec) {
            assert docs[i] in db.documents;
          }
        }
      }
      Outcome(Ok(()), db.(documents := docs))
  }

  /** A successful delete removes exactly one document: the addressed one. */
  lemma DeleteRemovesOne(db: Db, id: nat)
    requires ValidDb(db) && DeleteDocument(db, id, AdminRole).reply.Ok?
    ensures var docs := DeleteDocument(db, id, AdminRole).db.documents;
      |docs| == |db.documents| - 1 && Ids(docs) == Ids(db.documents) - {id}
  {
    RemoveLength(db.documents, id);
    RemoveIds(db.documents, id);
  }

  // ---------------------------------------------------------------------------
  // View and download

  /** Where the base64 text of a stored payload comes from. */
  datatype Payload = Base64Text(text: string) | NoFileData | InvalidFileData

  /** The payload steps shared by view and download: a missing or blank `fileData` is
      refused, a data URL gives the text after its first comma, and a blank result is
      refused. */
  function ExtractBase64(fileData: Option<string>): (p: Payload)
    ensures p.NoFileData? <==> fileData.None? || IsBlank(fileData.value)
    ensures p.InvalidFileData? <==>
              && fileData.Some? && !IsBlank(fileData.value) && StartsWith(fileData.value, "data:")
              && (SplitPart(fileData.value, ',', 1).None? || IsBlank(SplitPart(fileData.value, ',', 1).value))
    ensures p.Base64Text? ==> !IsBlank(p.text)
    ensures p.Base64Text? && StartsWith(fileData.value, "data:") ==> SplitPart(fileData.value, ',', 1) == Some(p.text)
    ensures fileData.Some? && !IsBlank(fileData.value) && !StartsWith(fileData.value, "data:") ==>
              p == Base64Text(fileData.value)
  {
    if fileData.None? || IsBlank(fileData.value) then NoFileData
    else
      var v := fileData.value;
      var b := if StartsWith(v, "data:") then SplitPart(v, ',', 1) else Some(v);
      if b.None? || IsBlank(b.value) then InvalidFileData else Base64Text(b.value)
  }

  /** The blank test above is `trim() === ""`. */
  lemma BlankIsEmptyTrim(s: string)
    ensures IsBlank(s) <==> Trim(s) == ""
  {
    TrimEmptyIffBlank(s);
  }

  /** `FileReader.readAsDataURL`: the stored form of an image payload. */
  function DataUrl(mime: string, bytes: seq<byte>): string {
    "data:" + mime + ";base64," + Base64.Encode(bytes)
  }

  /** A data URL gives back the base64 text it was built from. */
  lemma ExtractDataUrl(mime: string, bytes: seq<byte>)
    requires ',' !in mime && |bytes| > 0
    ensures ExtractBase64(Some(DataUrl(mime, bytes))) == Base64Text(Base64.Encode(bytes))
  {
    var enc := Base64.Encode(bytes);
    var url := DataUrl(mime, bytes);
    DataUrlParts(mime, enc);
    Base64.EncodeHasNoComma(bytes);
    SplitWithoutSeparator(enc, ',');
    assert SplitPart(url, ',', 1) == Some(enc);
    EncodingNotBlank(bytes);
    assert !IsJsSpace(url[0]);
    ExtractFromDataUrl(url, enc);
  }

  /** A data URL `head,text` or `head,text,...` (no comma in `head` or `text`) yields
      `text`, or is refused when `text` is blank. */
  lemma DataUrlText(head: string, text: string, more: Option<string>)
    requires StartsWith(head, "data:") && ',' !in head && ',' !in text
    ensures var url := head + [','] + text + (if more.Some? then [','] + more.value else "");
      ExtractBase64(Some(url)) == if IsBlank(text) then InvalidFileData else Base64Text(text)
  {
    var tail := text + (if more.Some? then [','] + more.value else "");
    var url := head + [','] + text + (if more.Some? then [','] + more.value else "");
    assert url == head + [','] + tail;
    SplitAfterFirst(head, ',', tail);
    if more.Some? {
      assert tail == text + [','] + more.value;
      SplitAfterFirst(text, ',', more.value);
    } else {
      assert tail == text;
      SplitWithoutSeparator(text, ',');
    }
    assert SplitPart(url, ',', 1) == Some(text);
    assert url[..5] == head[..5];
    assert !IsJsSpace(url[0]);
  }

  /** A data URL without a comma is refused. */
  lemma DataUrlWithoutComma(url: string)
    requires StartsWith(url, "data:") && ',' !in url
    ensures ExtractBase64(Some(url)) == InvalidFileData
  {
    SplitWithoutSeparator(url, ',');
    assert !IsJsSpace(url[0]);
  }

  lemma ExtractFromDataUrl(url: string, text: string)
    requires StartsWith(url, "data:") && !IsBlank(url) && !IsBlank(text)
    requires SplitPart(url, ',', 1) == Some(text)
    ensures ExtractBase64(Some(url)) == Base64Text(text)
  {
  }

  /** The pieces of a data URL split at commas. */
  lemma DataUrlParts(mime: string, enc: string)
    requires ',' !in mime
    ensures var url := "data:" + mime + ";base64," + enc;
      StartsWith(url, "data:") && Split(url, ',') == ["data:" + mime + ";base64"] + Split(enc, ',')
  {
    var head := "data:" + mime + ";base64";
    var url := "data:" + mime + ";base64," + enc;
    assert url == head + [','] + enc;
    assert ',' !in head by {
      assert forall i :: 0 <= i < |mime| ==> head[5 + i] == mime[i];
    }
    SplitAfterFirst(head, ',', enc);
    assert url[..5] == "data:";
  }

  /** A non-empty encoding starts with an alphabet character, so it is not blank, and it
      has no colon, so it is not a data URL. */
  lemma EncodingNotBlank(bytes: seq<byte>)
    requires |bytes| > 0
    ensures !IsBlank(Base64.Encode(bytes))
    ensures !StartsWith(Base64.Encode(bytes), "data:")
  {
    EncodingStartsPlain(bytes);
    EncodingNotDataUrl(bytes);
  }

  lemma EncodingStartsPlain(bytes: seq<byte>)
    requires |bytes| > 0
    ensures !IsBlank(Base64.Encode(bytes))
  {
    var enc := Base64.Encode(bytes);
    assert |enc| >= 4;
    Base64.EncodeAlphabet(bytes);
    EncodingChar(enc[0]);
  }

  lemma EncodingNotDataUrl(bytes: seq<byte>)
    ensures !StartsWith(Base64.Encode(bytes), "data:")
  {
    var enc := Base64.Encode(bytes);
    Base64.EncodeAlphabet(bytes);
    if |enc| > 4 {
      EncodingChar(enc[4]);
    }
  }

  lemma EncodingChar(c: char)
    requires Base64.IsAlphabet(c) || c == '='
    ensures !IsJsSpace(c) && c != ':'
  {
  }

  /** A bare base64 text is taken as it is. */
  lemma ExtractBare(bytes: seq<byte>)
    requires |bytes| > 0
    ensures ExtractBase64(Some(Base64.Encode(bytes))) == Base64Text(Base64.Encode(bytes))
  {
    EncodingNotBlank(bytes);
  }

  /** What `Buffer.from(text, "base64")` yields: the octets of a canonical base64 text.
      Node's lenient decoding of any other text is not modelled: such a text is passed on
      undecoded. */
  datatype FileBody = Decoded(bytes: seq<byte>) | Undecoded(text: string)

  function DecodeBody(text: string): (b: FileBody)
    ensures b.Decoded? <==> Base64.Decode(text).Some?
    ensures b.Decoded? ==> Base64.Encode(b.bytes) == text
  {
    match Base64.Decode(text)
    case Some(bytes) =>
      Base64.EncodeDecode(text);
      Decoded(bytes)
    case None => Undecoded(text)
  }

  /** The headers and body of a file response; `Content-Length` is the body's length. */
  datatype FileResponse = FileResponse(
    contentType: string,
    disposition: Option<string>,
    cacheControl: Option<string>,
    body: FileBody)

  /** `document.fileType || "application/octet-stream"` */
  function ContentType(d: Document): string {
    OrElse(d.fileType, "application/octet-stream")
  }

  /** The shared steps of view and download; `inline` selects the view headers. */
  function ServeFile(db: Db, id: nat, inline: bool, noData: string, invalid: string): (r: Reply<FileResponse>)
    ensures r.Err? ==> r.status == 404 || r.status == 400
    ensures r.Err? && r.status == 404 <==> id !in Ids(db.documents)
    ensures r.Ok? <==> Find(db.documents, id).Some?
                       && ExtractBase64(Find(db.documents, id).value.fileData).Base64Text?
    ensures r.Ok? ==>
              var d := Find(db.documents, id).value;
              && r.value.body == DecodeBody(ExtractBase64(d.fileData).text)
              && r.value.contentType == ContentType(d)
              && (inline ==> r.value.cacheControl == Some(CacheControl) && r.value.disposition.None?)
              && (!inline ==> r.value.disposition == Some(Disposition(d.filename))
                              && r.value.cacheControl.None?)
  {
    match Find(db.documents, id)
    case None => Err(404, "Document not found")
    case Some(d) =>
      match ExtractBase64(d.fileData)
      case NoFileData => Err(400, noData)
      case InvalidFileData => Err(400, invalid)
      case Base64Text(text) =>
        var body := DecodeBody(text);
        if inline then Ok(FileResponse(ContentType(d), None, Some(CacheControl), body))
        else Ok(FileResponse(ContentType(d), Some(Disposition(d.filename)), None, body))
  }

  const CacheControl: string := "public, max-age=3600"

  /** `attachment; filename="<name>"` */
  function Disposition(filename: string): string {
    "attachment; filename=\"" + filename + "\""
  }

  /** `handleViewDocument`: inline display, cacheable for an hour. */
  function ViewDocument(db: Db, id: nat): (r: Reply<FileResponse>)
    ensures r.Err? && r.status == 404 <==> id !in Ids(db.documents)
    ensures r.Ok? ==> r.value.cacheControl == Some(CacheControl) && r.value.disposition.None?
  {
    ServeFile(db, id, true, "File data not available", "Invalid file data")
  }

  /** `handleDownloadDocument`: an attachment named after the stored filename. */
  function DownloadDocument(db: Db, id: nat): (r: Reply<FileResponse>)
    ensures r.Err? && r.status == 404 <==> id !in Ids(db.documents)
    ensures r.Ok? ==>
              r.value.disposition == Some(Disposition(Find(db.documents, id).value.filename))
  {
    ServeFile(db, id, false, DownloadNoData, DownloadInvalid)
  }

  const DownloadNoData: string :=
    "File data not available. This document may have been uploaded before file storage was enabled. Please re-upload the document."
  const DownloadInvalid: string := "Invalid file data. Please re-upload the document."

  /** View and download send the same bytes with the same content type. */
  lemma ViewAndDownloadAgree(db: Db, id: nat)
    ensures ViewDocument(db, id).Ok? <==> DownloadDocument(db, id).Ok?
    ensures ViewDocument(db, id).Ok? ==>
              ViewDocument(db, id).value.body == DownloadDocument(db, id).value.body
              && ViewDocument(db, id).value.contentType == DownloadDocument(db, id).value.contentType
  {
  }
}
