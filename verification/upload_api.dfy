/** The upload endpoint (web/src/app/api/upload/route.ts) over an in-memory
    picture of the two tables it touches.  `POST` accepts a PDF for a
    profile after a chain of checks; `GET` first times out stuck
    extractions and then lists the user's unfinished uploads, newest first.
    The session, the access check, the SHA-256 digest, the clock and the id
    the database assigns are parameters. */
module UploadApi {
  import opened Wrappers
  import opened Text
  import opened Seqs
  import Sorting
  import UploadPage

  type Byte = b: int | 0 <= b < 256

  /** `%PDF-`.  Five bytes decode to the five ASCII characters `%PDF-` only
      when they are exactly these bytes, so the source's string comparison
      is a byte comparison. */
  const PdfMagic: seq<Byte> := [0x25, 0x50, 0x44, 0x46, 0x2D]

  /** Five minutes, the age after which an extraction counts as stuck. */
  const StuckAfterMs := 300000
  const TimeoutMessage := "İşlem zaman aşımına uğradı"

  /** A row of `processed_files` (a confirmed report). */
  datatype ProcessedRow = ProcessedRow(profileId: string, contentHash: string, fileName: string, createdAt: string)

  /** A row of `pending_uploads`; times are milliseconds. */
  datatype PendingRow = PendingRow(
    id: string, userId: string, profileId: string, fileName: string, contentHash: string,
    status: string, errorMessage: Option<string>, createdAt: int, updatedAt: int)

  /** The tables: confirmed reports, unfinished uploads, and profile names. */
  datatype Db = Db(processed: seq<ProcessedRow>, pending: seq<PendingRow>, profiles: map<string, string>)

  /** An uploaded file. */
  datatype FileData = FileData(name: string, mime: string, bytes: seq<Byte>)

  /** The session and the form fields of a POST. */
  datatype PostRequest = PostRequest(
    email: Option<string>, sessionUserId: Option<string>, userIdByEmail: Option<string>,
    file: Option<FileData>, profileId: Option<string>)

  datatype Body =
    | ErrorBody(error: string, message: string)
    | CapBody(reportCount: int, reportCap: int)
    | DuplicateBody(existingFileName: string, existingSampleDate: string)
    | CreatedBody(uploadId: string, fileName: string)
    | ListBody(uploads: seq<ListedUpload>)
    | FailureBody(error: string)

  datatype Response = Response(status: int, body: Body)

  /** A row of the GET listing; the profile name is joined in only when no
      profile is asked for. */
  datatype ListedUpload = ListedUpload(row: PendingRow, profileName: Option<string>)

  predicate Truthy(v: Option<string>) {
    v.Some? && v.value != ""
  }

  /** `COUNT(*)` of the profile's confirmed reports. */
  function ReportCount(rows: seq<ProcessedRow>, profileId: string): (n: nat)
    ensures n <= |rows|
    ensures n == 0 <==> forall r | r in rows :: r.profileId != profileId
  {
    if |rows| == 0 then 0
    else (if rows[0].profileId == profileId then 1 else 0) + ReportCount(rows[1..], profileId)
  }

  /** The profile's confirmed report with the same content, if any. */
  function FindDuplicate(rows: seq<ProcessedRow>, profileId: string, hash: string): (r: Option<ProcessedRow>)
    ensures r.Some? ==> r.value in rows && r.value.profileId == profileId && r.value.contentHash == hash
    ensures r.None? <==> forall x | x in rows :: !(x.profileId == profileId && x.contentHash == hash)
  {
    if |rows| == 0 then None
    else if rows[0].profileId == profileId && rows[0].contentHash == hash then Some(rows[0])
    else FindDuplicate(rows[1..], profileId, hash)
  }

  predicate SameFile(r: PendingRow, profileId: string, hash: string) {
    r.profileId == profileId && r.contentHash == hash
  }

  /** The unfinished uploads with every earlier attempt at the same file for
      the same profile removed. */
  function WithoutSameFile(rows: seq<PendingRow>, profileId: string, hash: string): (r: seq<PendingRow>)
    ensures forall x :: x in r <==> x in rows && !SameFile(x, profileId, hash)
  {
    Filter(rows, (x: PendingRow) => !SameFile(x, profileId, hash))
  }

  predicate IsPdf(bytes: seq<Byte>) {
    |bytes| >= 5 && bytes[..5] == PdfMagic
  }

  /** The file name stored: the upload's own, or `upload-<now>.pdf`. */
  function StoredName(name: string, now: int): (r: string)
    ensures name != "" ==> r == name
    ensures name == "" ==> StartsWith(r, "upload-") && EndsWith(r, ".pdf")
  {
    if name != "" then name else "upload-" + IntToString(now, 10) + ".pdf"
  }

  /** The first `n` checks of `POST` pass, in the source's order: signed
      in (1), a user id (2), a file (3), a profile id (4), the PDF type (5),
      access to the profile (6), under the free cap (7), the PDF signature
      (8), no confirmed duplicate (9). */
  predicate PassesChecks(db: Db, req: PostRequest, hasAccess: (string, string) -> bool,
                         sha256: seq<Byte> -> string, n: nat) {
    && (n >= 1 ==> Truthy(req.email))
    && (n >= 2 ==> UserOf(req).Some?)
    && (n >= 3 ==> req.file.Some?)
    && (n >= 4 ==> Truthy(req.profileId))
    && (n >= 5 ==> req.file.value.mime == "application/pdf")
    && (n >= 6 ==> hasAccess(UserOf(req).value, req.profileId.value))
    && (n >= 7 ==> ReportCount(db.processed, req.profileId.value) < UploadPage.FreeReportCap)
    && (n >= 8 ==> IsPdf(req.file.value.bytes))
    && (n >= 9 ==> FindDuplicate(db.processed, req.profileId.value, sha256(req.file.value.bytes)).None?)
  }

  /** `POST /api/upload`: the response and the tables afterwards.  The checks
      run in the source's order: sign-in, user id, file, profile id, PDF
      type, access, the free cap, the PDF signature, a confirmed duplicate;
      then earlier attempts at the same file are removed and a pending row
      is inserted, and a missing id from the insert is a server error. */
  function Post(db: Db, req: PostRequest, hasAccess: (string, string) -> bool, sha256: seq<Byte> -> string,
                now: int, newId: Option<string>): (r: (Response, Db))
    ensures r.0.status in {201, 400, 401, 403, 409, 500}
    ensures r.0.status != 201 && r.0.status != 500 ==> r.1 == db
    ensures !PassesChecks(db, req, hasAccess, sha256, 1) ==> r.0.status == 401
    ensures PassesChecks(db, req, hasAccess, sha256, 1) && !PassesChecks(db, req, hasAccess, sha256, 2) ==> r.0.status == 401
    ensures PassesChecks(db, req, hasAccess, sha256, 2) && !PassesChecks(db, req, hasAccess, sha256, 5) ==> r.0.status == 400
    ensures PassesChecks(db, req, hasAccess, sha256, 5) ==>
      r == Admit(db, UserOf(req).value, req.file.value, req.profileId.value, hasAccess, sha256, now, newId)
  {
    var userId := UserOf(req);
    if !Truthy(req.email) then (Response(401, ErrorBody("Unauthorized", "Please sign in to upload files")), db)
    else if userId.None? then (Response(401, ErrorBody("Unauthorized", "Could not identify user")), db)
    else if req.file.None? then (Response(400, ErrorBody("Bad Request", "No file provided")), db)
    else if !Truthy(req.profileId) then (Response(400, ErrorBody("Bad Request", "profileId is required")), db)
    else
      var file := req.file.value;
      var profileId := req.profileId.value;
      if file.mime != "application/pdf" then (Response(400, ErrorBody("Bad Request", "Sadece PDF dosyaları kabul edilir")), db)
      else Admit(db, userId.value, file, profileId, hasAccess, sha256, now, newId)
  }

  /** The part of `POST` after the request is well formed: access, the free
      cap, the PDF signature, a confirmed duplicate, then the insert. */
  function Admit(db: Db, userId: string, file: FileData, profileId: string, hasAccess: (string, string) -> bool,
                 sha256: seq<Byte> -> string, now: int, newId: Option<string>): (r: (Response, Db))
    ensures !hasAccess(userId, profileId) ==> r == (Response(403, ErrorBody("Forbidden", "You don't have access to this profile")), db)
    ensures hasAccess(userId, profileId) && ReportCount(db.processed, profileId) >= UploadPage.FreeReportCap
      ==> r == (Response(403, CapBody(ReportCount(db.processed, profileId), UploadPage.FreeReportCap)), db)
    ensures hasAccess(userId, profileId) && ReportCount(db.processed, profileId) < UploadPage.FreeReportCap && !IsPdf(file.bytes)
      ==> r.0.status == 400 && r.1 == db
    ensures hasAccess(userId, profileId) && ReportCount(db.processed, profileId) < UploadPage.FreeReportCap && IsPdf(file.bytes)
      ==> match FindDuplicate(db.processed, profileId, sha256(file.bytes))
          case Some(d) => r == (Response(409, DuplicateBody(d.fileName, d.createdAt)), db)
          case None =>
            var cleaned := db.(pending := WithoutSameFile(db.pending, profileId, sha256(file.bytes)));
            var name := StoredName(file.name, now);
            match newId
            case None => r.0.status == 500 && r.1 == cleaned
            case Some(id) =>
              r == (Response(201, CreatedBody(id, name)),
                    cleaned.(pending := cleaned.pending + [PendingRow(id, userId, profileId, name, sha256(file.bytes), "pending", None, now, now)]))
  {
    if !hasAccess(userId, profileId) then (Response(403, ErrorBody("Forbidden", "You don't have access to this profile")), db)
    else
      var count := ReportCount(db.processed, profileId);
      if count >= UploadPage.FreeReportCap then (Response(403, CapBody(count, UploadPage.FreeReportCap)), db)
      else if !IsPdf(file.bytes) then (Response(400, ErrorBody("Bad Request", "Geçersiz PDF dosyası")), db)
      else
        var hash := sha256(file.bytes);
        match FindDuplicate(db.processed, profileId, hash)
        case Some(d) => (Response(409, DuplicateBody(d.fileName, d.createdAt)), db)
        case None =>
          var cleaned := db.(pending := WithoutSameFile(db.pending, profileId, hash));
          var name := StoredName(file.name, now);
          if newId.None? then (Response(500, FailureBody("Failed to upload file")), cleaned)
          else
            (Response(201, CreatedBody(newId.value, name)),
             cleaned.(pending := cleaned.pending + [PendingRow(newId.value, userId, profileId, name, hash, "pending", None, now, now)]))
  }

  /** The checks after the request is well formed, in the source's order,
      and what a request that passes them all leaves behind. */
  lemma PostChecksInOrder(db: Db, req: PostRequest, hasAccess: (string, string) -> bool, sha256: seq<Byte> -> string,
                          now: int, newId: Option<string>, r: (Response, Db))
    requires r == Post(db, req, hasAccess, sha256, now, newId)
    ensures PassesChecks(db, req, hasAccess, sha256, 5) && !PassesChecks(db, req, hasAccess, sha256, 6)
      ==> r.0 == Response(403, ErrorBody("Forbidden", "You don't have access to this profile"))
    ensures PassesChecks(db, req, hasAccess, sha256, 6) && !PassesChecks(db, req, hasAccess, sha256, 7)
      ==> r.0 == Response(403, CapBody(ReportCount(db.processed, req.profileId.value), UploadPage.FreeReportCap))
    ensures PassesChecks(db, req, hasAccess, sha256, 7) && !PassesChecks(db, req, hasAccess, sha256, 8) ==> r.0.status == 400
    ensures PassesChecks(db, req, hasAccess, sha256, 8) && !PassesChecks(db, req, hasAccess, sha256, 9)
      ==> var d := FindDuplicate(db.processed, req.profileId.value, sha256(req.file.value.bytes)).value;
          r.0 == Response(409, DuplicateBody(d.fileName, d.createdAt))
    ensures PassesChecks(db, req, hasAccess, sha256, 9) && newId.None? ==>
      && r.0.status == 500
      && r.1 == db.(pending := WithoutSameFile(db.pending, req.profileId.value, sha256(req.file.value.bytes)))
    ensures r.0.status == 201 <==> PassesChecks(db, req, hasAccess, sha256, 9) && newId.Some?
    ensures r.0.status == 201 ==>
      && r.0.body == CreatedBody(newId.value, StoredName(req.file.value.name, now))
      && r.1.processed == db.processed
      && r.1.pending == WithoutSameFile(db.pending, req.profileId.value, sha256(req.file.value.bytes))
         + [PendingRow(newId.value, UserOf(req).value, req.profileId.value, StoredName(req.file.value.name, now),
                       sha256(req.file.value.bytes), "pending", None, now, now)]
  {
  }

  /** The user id: the session's, else the one found by e-mail. */
  function UserOf(req: PostRequest): (r: Option<string>)
    ensures Truthy(req.sessionUserId) ==> r == req.sessionUserId
    ensures r.Some? ==> r.value != ""
  {
    if Truthy(req.sessionUserId) then req.sessionUserId
    else if Truthy(req.userIdByEmail) then req.userIdByEmail
    else None
  }

  /** At the cap the answer is the same whatever file is sent: its bytes and
      name are not even looked at. */
  lemma CapIgnoresFile(db: Db, req: PostRequest, bytes: seq<Byte>, name: string,
                       hasAccess: (string, string) -> bool, sha256: seq<Byte> -> string, now: int, newId: Option<string>)
    requires Truthy(req.email) && UserOf(req).Some? && req.file.Some? && Truthy(req.profileId)
    requires req.file.value.mime == "application/pdf" && hasAccess(UserOf(req).value, req.profileId.value)
    requires ReportCount(db.processed, req.profileId.value) >= UploadPage.FreeReportCap
    ensures var other := req.(file := Some(FileData(name, "application/pdf", bytes)));
      Post(db, other, hasAccess, sha256, now, newId) == Post(db, req, hasAccess, sha256, now, newId)
    ensures Post(db, req, hasAccess, sha256, now, newId).0 ==
      Response(403, CapBody(ReportCount(db.processed, req.profileId.value), UploadPage.FreeReportCap))
  {
  }

  /** The upload page turns the cap answer into the message naming the
      limit of five reports. */
  lemma CapMessageNamesLimit(count: int)
    ensures UploadPage.UploadErrorMessage(UploadPage.UploadFailure(403, None, Some(UploadPage.FreeReportCap), None))
      == UploadPage.KeyWith("reportCapDescription", "5")
  {
    assert NatToString(5, 10) == "5";
  }

  /** Uploading a file again before it is confirmed replaces the earlier
      attempt: the profile never holds two unfinished uploads of one file. */
  lemma ReuploadKeepsOnePending(db: Db, req: PostRequest, hasAccess: (string, string) -> bool,
                                sha256: seq<Byte> -> string, now: int, id1: string, later: int, id2: string)
    requires Post(db, req, hasAccess, sha256, now, Some(id1)).0.status == 201
    ensures var db1 := Post(db, req, hasAccess, sha256, now, Some(id1)).1;
      var r2 := Post(db1, req, hasAccess, sha256, later, Some(id2));
      var p := req.profileId.value;
      var h := sha256(req.file.value.bytes);
      r2.0.status == 201 &&
      forall x | x in r2.1.pending && SameFile(x, p, h) :: x.id == id2
  {
    var p := req.profileId.value;
    var h := sha256(req.file.value.bytes);
    var db1 := Post(db, req, hasAccess, sha256, now, Some(id1)).1;
    assert db1.processed == db.processed;
  }

  // -------------------------------------------------------------------- GET

  predicate Stuck(r: PendingRow, userId: string, now: int) {
    r.userId == userId && r.status == "extracting" && r.updatedAt < now - StuckAfterMs
  }

  /** A stuck row put back to pending with the timeout message. */
  function Reset(r: PendingRow, now: int): PendingRow {
    r.(status := "pending", errorMessage := Some(TimeoutMessage), updatedAt := now)
  }

  /** The stuck extractions of the user go back to pending with the timeout
      message; every other row is untouched. */
  function ResetStuck(rows: seq<PendingRow>, userId: string, now: int): (r: seq<PendingRow>)
    ensures |r| == |rows|
    ensures forall i | 0 <= i < |rows| ::
      r[i] == if Stuck(rows[i], userId, now) then Reset(rows[i], now) else rows[i]
  {
    seq(|rows|, i requires 0 <= i < |rows| => if Stuck(rows[i], userId, now) then Reset(rows[i], now) else rows[i])
  }

  /** After the reset no row of the user is stuck, so a second reset at the
      same moment changes nothing. */
  lemma ResetStuckIdempotent(rows: seq<PendingRow>, userId: string, now: int)
    ensures forall x | x in ResetStuck(rows, userId, now) :: !Stuck(x, userId, now)
    ensures ResetStuck(ResetStuck(rows, userId, now), userId, now) == ResetStuck(rows, userId, now)
  {
    var r := ResetStuck(rows, userId, now);
    forall x | x in r ensures !Stuck(x, userId, now) {
      var i :| 0 <= i < |r| && r[i] == x;
    }
  }

  /** Listed: the user's rows, of the profile when one is asked for, that
      are neither confirmed nor rejected; without a profile the join also
      drops rows whose profile no longer exists. */
  predicate Listed(r: PendingRow, db: Db, userId: string, profileId: Option<string>) {
    && r.userId == userId
    && r.status != "confirmed" && r.status != "rejected"
    && (if Truthy(profileId) then r.profileId == profileId.value else r.profileId in db.profiles)
  }

  function NewestFirst(): (PendingRow, PendingRow) -> bool {
    (a: PendingRow, b: PendingRow) => a.createdAt >= b.createdAt
  }

  lemma NewestFirstIsTotalPreorder()
    ensures Sorting.TotalPreorder(NewestFirst())
  {
  }

  function ListedRows(db: Db, userId: string, profileId: Option<string>): (r: seq<PendingRow>)
    ensures multiset(r) == multiset(Filter(db.pending, (x: PendingRow) => Listed(x, db, userId, profileId)))
    ensures forall i, j | 0 <= i < j < |r| :: r[i].createdAt >= r[j].createdAt
  {
    NewestFirstIsTotalPreorder();
    var r := Sorting.Sort(Filter(db.pending, (x: PendingRow) => Listed(x, db, userId, profileId)), NewestFirst());
    assert forall i, j | 0 <= i < j < |r| :: r[i].createdAt >= r[j].createdAt by {
      forall i, j | 0 <= i < j < |r| ensures r[i].createdAt >= r[j].createdAt {
        assert NewestFirst()(r[i], r[j]);
      }
    }
    r
  }

  function ListingOf(db: Db, rows: seq<PendingRow>, profileId: Option<string>): (r: seq<ListedUpload>)
    ensures |r| == |rows|
    ensures forall i | 0 <= i < |rows| :: r[i].row == rows[i]
  {
    seq(|rows|, i requires 0 <= i < |rows| =>
      ListedUpload(rows[i], if Truthy(profileId) then None
        else if rows[i].profileId in db.profiles then Some(db.profiles[rows[i].profileId]) else None))
  }

  /** `GET /api/upload`: 401 without a user; otherwise the stuck extractions
      are reset first (even when the access check then fails with 403),
      and the listing is returned newest first. */
  function Get(db: Db, userId: Option<string>, profileId: Option<string>, hasAccess: (string, string) -> bool, now: int): (r: (Response, Db))
    ensures !Truthy(userId) ==> r == (Response(401, ErrorBody("Unauthorized", "Please sign in")), db)
    ensures Truthy(userId) ==> r.1 == db.(pending := ResetStuck(db.pending, userId.value, now))
    ensures Truthy(userId) && Truthy(profileId) && !hasAccess(userId.value, profileId.value) ==> r.0.status == 403
    ensures r.0.status == 200 ==> (r.0.body.ListBody? &&
      forall i | 0 <= i < |r.0.body.uploads| :: r.0.body.uploads[i].row in r.1.pending)
  {
    if !Truthy(userId) then (Response(401, ErrorBody("Unauthorized", "Please sign in")), db)
    else
      var db1 := db.(pending := ResetStuck(db.pending, userId.value, now));
      if Truthy(profileId) && !hasAccess(userId.value, profileId.value) then
        (Response(403, ErrorBody("Forbidden", "You don't have access to this profile")), db1)
      else
        var rows := ListedRows(db1, userId.value, profileId);
        var listing := ListingOf(db1, rows, profileId);
        assert forall i | 0 <= i < |listing| :: listing[i].row in db1.pending by {
          forall i | 0 <= i < |listing| ensures listing[i].row in db1.pending {
            assert rows[i] in multiset(rows);
          }
        }
        (Response(200, ListBody(listing)), db1)
  }

  /** Every unfinished upload of the user is listed, and only those; none of
      them is left stuck. */
  lemma GetListsExactly(db: Db, userId: string, profileId: Option<string>, hasAccess: (string, string) -> bool, now: int, x: PendingRow)
    requires userId != ""
    requires !Truthy(profileId) || hasAccess(userId, profileId.value)
    ensures var (resp, db1) := Get(db, Some(userId), profileId, hasAccess, now);
      resp.status == 200 && resp.body.ListBody? &&
      ((exists i | 0 <= i < |resp.body.uploads| :: resp.body.uploads[i].row == x) <==>
        x in db1.pending && Listed(x, db1, userId, profileId)) &&
      forall i | 0 <= i < |resp.body.uploads| :: !Stuck(resp.body.uploads[i].row, userId, now)
  {
    var db1 := db.(pending := ResetStuck(db.pending, userId, now));
    var rows := ListedRows(db1, userId, profileId);
    var listing := ListingOf(db1, rows, profileId);
    assert Get(db, Some(userId), profileId, hasAccess, now) == (Response(200, ListBody(listing)), db1);
    ListedRowsHas(db1, userId, profileId, x);
    if x in rows {
      var i :| 0 <= i < |rows| && rows[i] == x;
      assert listing[i].row == x;
    }
    ResetStuckIdempotent(db.pending, userId, now);
    forall i | 0 <= i < |listing| ensures !Stuck(listing[i].row, userId, now) {
      ListedRowsHas(db1, userId, profileId, rows[i]);
    }
  }

  /** The listed rows are the listed pending rows. */
  lemma ListedRowsHas(db: Db, userId: string, profileId: Option<string>, x: PendingRow)
    ensures x in ListedRows(db, userId, profileId) <==> x in db.pending && Listed(x, db, userId, profileId)
  {
    var rows := ListedRows(db, userId, profileId);
    var f := Filter(db.pending, (y: PendingRow) => Listed(y, db, userId, profileId));
    assert x in rows <==> x in multiset(rows);
    assert x in f <==> x in multiset(f);
  }

  /** The upload page resumes the first listed upload, which is the most
      recently created one. */
  lemma FirstListedIsNewest(db: Db, userId: string, profileId: Option<string>, hasAccess: (string, string) -> bool, now: int)
    requires userId != ""
    requires !Truthy(profileId) || hasAccess(userId, profileId.value)
    ensures var ups := Get(db, Some(userId), profileId, hasAccess, now).0.body.uploads;
      forall j | 0 <= j < |ups| :: ups[0].row.createdAt >= ups[j].row.createdAt
  {
  }
}
