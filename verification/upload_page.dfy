/** The report upload page (web/src/app/upload/page.tsx): the upload state
    machine, resuming an unfinished upload, polling the extraction, the
    metric-name aliases applied to extracted metrics and their toggles, the
    review edits, the free-plan cap on the drop zone, confirmation and
    cancellation.  Every `fetch` is replaced by the answer it returned;
    the clock is the elapsed time passed to the poll step. */
module UploadPage {
  import opened Wrappers
  import opened Text
  import opened Seqs
  import opened JsObject
  import ActiveProfile

  /** `FREE_REPORT_CAP` (web/src/lib/constants.ts). */
  const FreeReportCap := 5
  /** `POLL_TIMEOUT_MS`: five minutes. */
  const PollTimeoutMs := 300000

  datatype UploadStatus = Idle | Uploading | Extracting | Review | Confirming | Success | Error

  /** A message shown to the user: a translation key, a key with one
      argument, or text that came from the server. */
  datatype Message = Key(key: string) | KeyWith(key: string, arg: string) | Text(text: string)

  /** A metric as extracted from the report and edited on the review cards. */
  datatype ExtractedMetric = ExtractedMetric(name: string, value: real, unit: Option<string>, refLow: Option<real>, refHigh: Option<real>)

  /** How an alias renamed a metric, and whether the rename is in effect. */
  datatype RenameInfo = RenameInfo(original: string, canonical: string, applied: bool)

  // ---------------------------------------------------------------- aliases

  /** Index of the first alias equal to `name` ignoring case, or
      `|aliases|` when there is none. */
  function FirstAlias(name: string, aliases: Obj<string>): (k: nat)
    ensures k <= |aliases|
    ensures k < |aliases| ==> ToLower(aliases[k].0) == ToLower(name)
    ensures forall j | 0 <= j < k :: ToLower(aliases[j].0) != ToLower(name)
  {
    if |aliases| == 0 then 0
    else if ToLower(name) == ToLower(aliases[0].0) then 0
    else 1 + FirstAlias(name, aliases[1..])
  }

  /** The metric with its name replaced by the canonical name of the first
      matching alias, if any. */
  function Aliased(m: ExtractedMetric, aliases: Obj<string>): (r: ExtractedMetric)
    ensures r == m.(name := r.name)
    ensures FirstAlias(m.name, aliases) == |aliases| ==> r == m
    ensures FirstAlias(m.name, aliases) < |aliases| ==> r.name == aliases[FirstAlias(m.name, aliases)].1
  {
    var k := FirstAlias(m.name, aliases);
    if k < |aliases| then m.(name := aliases[k].1) else m
  }

  /** The metric is renamed by some alias. */
  predicate HasAlias(m: ExtractedMetric, aliases: Obj<string>) {
    FirstAlias(m.name, aliases) < |aliases|
  }

  /** The record `applyAliases` writes for a renamed metric. */
  function RecordOf(m: ExtractedMetric, aliases: Obj<string>): (string, RenameInfo)
    requires HasAlias(m, aliases)
  {
    (ToLower(m.name), RenameInfo(m.name, aliases[FirstAlias(m.name, aliases)].1, true))
  }

  /** The records of the renamed metrics, in metric order: exactly one per
      renamed metric, keyed by its lower-cased original name. */
  function RenameEntries(metrics: seq<ExtractedMetric>, aliases: Obj<string>): (r: seq<(string, RenameInfo)>)
    ensures forall e | e in r :: e.1.applied && e.0 == ToLower(e.1.original)
    ensures forall e | e in r :: exists m | m in metrics && HasAlias(m, aliases) :: e == RecordOf(m, aliases)
    ensures forall m | m in metrics && HasAlias(m, aliases) :: RecordOf(m, aliases) in r
    decreases |metrics|
  {
    if |metrics| == 0 then []
    else
      var p := metrics[..|metrics| - 1];
      var m := metrics[|metrics| - 1];
      assert metrics == p + [m];
      RenameEntries(p, aliases) + (if HasAlias(m, aliases) then [RecordOf(m, aliases)] else [])
  }

  /** `applyAliases`: `None` for the aliases stands for a failed or
      throwing fetch, which leaves the metrics as they are with no renames. */
  function ApplyAliases(metrics: seq<ExtractedMetric>, aliases: Option<Obj<string>>): (r: (seq<ExtractedMetric>, Obj<RenameInfo>))
    ensures aliases.None? ==> r == (metrics, [])
    ensures |r.0| == |metrics|
    ensures aliases.Some? ==> forall i | 0 <= i < |metrics| :: r.0[i] == Aliased(metrics[i], aliases.value)
  {
    match aliases
    case None => (metrics, [])
    case Some(a) =>
      (seq(|metrics|, i requires 0 <= i < |metrics| => Aliased(metrics[i], a)), FromEntries(RenameEntries(metrics, a)))
  }

  /** A metric renamed by an alias has a rename record under its lower-cased
      original name; every record belongs to such a metric. */
  lemma RenamesRecordRenamedMetrics(metrics: seq<ExtractedMetric>, aliases: Obj<string>, key: string)
    ensures (key in Keys(ApplyAliases(metrics, Some(aliases)).1)) <==>
      exists m | m in metrics && HasAlias(m, aliases) :: ToLower(m.name) == key
  {
    var es := RenameEntries(metrics, aliases);
    FromEntriesKeys(es, key);
    if exists m | m in metrics && HasAlias(m, aliases) :: ToLower(m.name) == key {
      var m :| m in metrics && HasAlias(m, aliases) && ToLower(m.name) == key;
      var j :| 0 <= j < |es| && es[j] == RecordOf(m, aliases);
      assert es[j].0 == key;
    }
    if exists j | 0 <= j < |es| :: es[j].0 == key {
      var j :| 0 <= j < |es| && es[j].0 == key;
      assert es[j] in es;
    }
  }

  /** The review cards with the rename records that drive their toggles. */
  datatype ReviewState = ReviewState(metrics: seq<ExtractedMetric>, renames: Obj<RenameInfo>)

  /** `handleAliasToggle`: the card's name becomes the canonical or the
      original name, and the record's `applied` flag follows.  The card's
      rename info always comes from the records, so its key is present. */
  function AliasToggle(st: ReviewState, index: int, checked: bool, info: RenameInfo): (r: ReviewState)
    requires ToLower(info.original) in Keys(st.renames)
    ensures |r.metrics| == |st.metrics|
    ensures forall i | 0 <= i < |st.metrics| ::
      r.metrics[i] == if i == index then st.metrics[i].(name := if checked then info.canonical else info.original) else st.metrics[i]
    ensures Keys(r.renames) == Keys(st.renames)
    ensures WellFormed(st.renames) ==> (WellFormed(r.renames) &&
      Get(r.renames, ToLower(info.original)) == Some(Get(st.renames, ToLower(info.original)).value.(applied := checked)))
    ensures WellFormed(st.renames) ==>
      forall k | k != ToLower(info.original) :: Get(r.renames, k) == Get(st.renames, k)
  {
    var key := ToLower(info.original);
    var newName := if checked then info.canonical else info.original;
    var entry := Get(st.renames, key).value;
    var ms := seq(|st.metrics|, i requires 0 <= i < |st.metrics| =>
      if i == index then st.metrics[i].(name := newName) else st.metrics[i]);
    assert WellFormed(st.renames) ==> (WellFormed(Set(st.renames, key, entry.(applied := checked))) &&
      Get(Set(st.renames, key, entry.(applied := checked)), key) == Some(entry.(applied := checked))) by {
      if WellFormed(st.renames) {
        GetSet(st.renames, key, entry.(applied := checked), key);
      }
    }
    assert WellFormed(st.renames) ==>
      forall k | k != key :: Get(Set(st.renames, key, entry.(applied := checked)), k) == Get(st.renames, k) by {
      if WellFormed(st.renames) {
        forall k | k != key ensures Get(Set(st.renames, key, entry.(applied := checked)), k) == Get(st.renames, k) {
          GetSet(st.renames, key, entry.(applied := checked), k);
        }
      }
    }
    ReviewState(ms, Set(st.renames, key, entry.(applied := checked)))
  }

  /** Switching an applied rename off and on again restores the cards and
      the records exactly. */
  lemma AliasToggleRoundTrip(st: ReviewState, index: int, info: RenameInfo)
    requires 0 <= index < |st.metrics| && st.metrics[index].name == info.canonical
    requires info.applied && Get(st.renames, ToLower(info.original)) == Some(info)
    ensures var off := AliasToggle(st, index, false, info);
      AliasToggle(off, index, true, info) == st
  {
    AliasToggleRenamesBack(st, index, info);
    AliasToggleMetricsBack(st, index, info);
  }

  lemma AliasToggleRenamesBack(st: ReviewState, index: int, info: RenameInfo)
    requires 0 <= index < |st.metrics| && st.metrics[index].name == info.canonical
    requires info.applied && Get(st.renames, ToLower(info.original)) == Some(info)
    ensures AliasToggle(AliasToggle(st, index, false, info), index, true, info).renames == st.renames
  {
    var key := ToLower(info.original);
    var offInfo := info.(applied := false);
    var off := AliasToggle(st, index, false, info);
    assert off.renames == Set(st.renames, key, offInfo);
    OffEntry(st.renames, key, info);
    assert offInfo.(applied := true) == info;
    var on := AliasToggle(off, index, true, info);
    assert on.renames == Set(off.renames, key, info);
    SetSet(st.renames, key, offInfo, info);
    SetCurrent(st.renames, key);
  }

  lemma AliasToggleMetricsBack(st: ReviewState, index: int, info: RenameInfo)
    requires 0 <= index < |st.metrics| && st.metrics[index].name == info.canonical
    requires ToLower(info.original) in Keys(st.renames)
    ensures ToLower(info.original) in Keys(AliasToggle(st, index, false, info).renames)
    ensures AliasToggle(AliasToggle(st, index, false, info), index, true, info).metrics == st.metrics
  {
    var off := AliasToggle(st, index, false, info);
    var on := AliasToggle(off, index, true, info);
    forall i | 0 <= i < |st.metrics| ensures on.metrics[i] == st.metrics[i] {
      if i == index {
        assert on.metrics[i] == off.metrics[i].(name := info.canonical);
      }
    }
  }

  /** Reading back the record just switched off. */
  lemma {:induction false} OffEntry(o: Obj<RenameInfo>, key: string, info: RenameInfo)
    requires Get(o, key) == Some(info)
    ensures Get(Set(o, key, info.(applied := false)), key) == Some(info.(applied := false))
    decreases |o|
  {
    if o[0].0 != key {
      OffEntry(o[1..], key, info);
    }
  }

  /** The name a rename record's card currently shows. */
  function Shown(info: RenameInfo): string {
    if info.applied then info.canonical else info.original
  }

  function ShownEntries(renames: Obj<RenameInfo>): (r: seq<(string, RenameInfo)>)
    ensures |r| == |renames|
    ensures forall i | 0 <= i < |renames| :: r[i] == (Shown(renames[i].1), renames[i].1)
  {
    seq(|renames|, i requires 0 <= i < |renames| => (Shown(renames[i].1), renames[i].1))
  }

  /** `renameInfoMap`: each record under the name its card shows, a later
      record replacing an earlier one with the same shown name. */
  function RenameInfoMap(renames: Obj<RenameInfo>): (r: Obj<RenameInfo>)
    ensures WellFormed(r)
  {
    FromEntriesWellFormed(ShownEntries(renames));
    FromEntries(ShownEntries(renames))
  }

  /** A card finds its rename record exactly when some record shows the
      card's name, and it finds the last such record. */
  lemma RenameInfoMapLookup(renames: Obj<RenameInfo>, name: string)
    ensures (name in Keys(RenameInfoMap(renames))) <==> exists i | 0 <= i < |renames| :: Shown(renames[i].1) == name
    ensures Get(RenameInfoMap(renames), name) == LastValue(ShownEntries(renames), name)
  {
    var es := ShownEntries(renames);
    FromEntriesKeys(es, name);
    FromEntriesGet(es, name);
    if exists i | 0 <= i < |renames| :: Shown(renames[i].1) == name {
      var i :| 0 <= i < |renames| && Shown(renames[i].1) == name;
      assert es[i].0 == name;
    }
  }

  // ---------------------------------------------------------- review edits

  /** A field edit from a review card. */
  datatype MetricEdit =
    | SetName(name: string)
    | SetValue(value: real)
    | SetUnit(unit: Option<string>)
    | SetRefLow(refLow: Option<real>)
    | SetRefHigh(refHigh: Option<real>)

  function ApplyEdit(m: ExtractedMetric, e: MetricEdit): (r: ExtractedMetric)
    ensures e.SetName? ==> r == m.(name := e.name)
    ensures e.SetValue? ==> r == m.(value := e.value)
    ensures e.SetUnit? ==> r == m.(unit := e.unit)
    ensures e.SetRefLow? ==> r == m.(refLow := e.refLow)
    ensures e.SetRefHigh? ==> r == m.(refHigh := e.refHigh)
  {
    match e
    case SetName(n) => m.(name := n)
    case SetValue(v) => m.(value := v)
    case SetUnit(u) => m.(unit := u)
    case SetRefLow(l) => m.(refLow := l)
    case SetRefHigh(h) => m.(refHigh := h)
  }

  /** `handleMetricChange`: only the card at `index` changes. */
  function HandleMetricChange(ms: seq<ExtractedMetric>, index: int, e: MetricEdit): (r: seq<ExtractedMetric>)
    ensures |r| == |ms|
    ensures forall i | 0 <= i < |ms| :: r[i] == if i == index then ApplyEdit(ms[i], e) else ms[i]
  {
    seq(|ms|, i requires 0 <= i < |ms| => if i == index then ApplyEdit(ms[i], e) else ms[i])
  }

  /** `handleRemoveMetric`: every card but the one at `index`. */
  function HandleRemoveMetric(ms: seq<ExtractedMetric>, index: int): (r: seq<ExtractedMetric>)
    ensures 0 <= index < |ms| ==> r == ms[..index] + ms[index + 1..]
    ensures !(0 <= index < |ms|) ==> r == ms
  {
    RemoveAt(ms, index)
  }

  /** Removing a card discards whatever was typed into it. */
  lemma EditThenRemove(ms: seq<ExtractedMetric>, index: int, e: MetricEdit)
    ensures HandleRemoveMetric(HandleMetricChange(ms, index, e), index) == HandleRemoveMetric(ms, index)
  {
    var edited := HandleMetricChange(ms, index, e);
    if 0 <= index < |ms| {
      assert edited[..index] == ms[..index];
      assert edited[index + 1..] == ms[index + 1..];
    } else {
      assert edited == ms;
    }
  }

  // ------------------------------------------------------ cap and drop zone

  /** `isAtCap`: the selected profile reports a count at or above the cap. */
  predicate IsAtCap(profiles: seq<ActiveProfile.Profile>, selectedId: string) {
    var p := ActiveProfile.ActiveProfileOf(profiles, Some(selectedId));
    p.Some? && p.value.reportCount.Some? && p.value.reportCount.value >= FreeReportCap
  }

  /** The drop zone is disabled at the cap and while an upload is under way. */
  predicate DropzoneDisabled(atCap: bool, status: UploadStatus) {
    atCap || (status != Idle && status != Error)
  }

  /** A file can be dropped only below the cap, when idle or after an error. */
  lemma DropzoneEnabledIff(profiles: seq<ActiveProfile.Profile>, selectedId: string, status: UploadStatus)
    ensures !DropzoneDisabled(IsAtCap(profiles, selectedId), status) <==>
      (status == Idle || status == Error) &&
      forall p | p in profiles && p.id == selectedId :: p.reportCount.None? || p.reportCount.value < FreeReportCap ||
        ActiveProfile.ActiveProfileOf(profiles, Some(selectedId)) != Some(p)
  {
  }

  /** A dropped file: its name and MIME type. */
  datatype DroppedFile = DroppedFile(name: string, mime: string)

  /** What `onDrop` does before uploading. */
  datatype DropStart = Ignore | Reject(message: Message) | StartUpload(fileName: string)

  function OnDrop(file: Option<DroppedFile>, selectedId: string): (r: DropStart)
    ensures file.None? <==> r == Ignore
    ensures r.StartUpload? <==> file.Some? && selectedId != "" && file.value.mime == "application/pdf"
    ensures r.StartUpload? ==> r.fileName == file.value.name
    ensures file.Some? && selectedId == "" ==> r == Reject(Key("selectProfile"))
  {
    if file.None? then Ignore
    else if selectedId == "" then Reject(Key("selectProfile"))
    else if file.value.mime != "application/pdf" then Reject(Key("onlyPdf"))
    else StartUpload(file.value.name)
  }

  /** The answer of the upload request when it failed. */
  datatype UploadFailure = UploadFailure(status: int, existingSampleDate: Option<string>, reportCap: Option<int>, message: Option<string>)

  /** The error shown for a failed upload: a duplicate names the earlier
      report's date ("?" when unknown), the cap names its limit, anything
      else shows the server's message or a generic one. */
  function UploadErrorMessage(f: UploadFailure): (r: Message)
    ensures f.status == 409 ==> r.KeyWith? && r.key == "alreadyUploaded"
    ensures f.status == 409 && (f.existingSampleDate.None? || f.existingSampleDate.value == "") ==> r == KeyWith("alreadyUploaded", "?")
    ensures f.status == 403 && f.reportCap.Some? && f.reportCap.value != 0 ==> r == KeyWith("reportCapDescription", IntToString(f.reportCap.value, 10))
    ensures f.status != 409 && !(f.status == 403 && f.reportCap.Some? && f.reportCap.value != 0) ==>
      r == (if f.message.Some? && f.message.value != "" then Text(f.message.value) else Key("uploadFailed"))
  {
    if f.status == 409 then
      KeyWith("alreadyUploaded", if f.existingSampleDate.Some? && f.existingSampleDate.value != "" then f.existingSampleDate.value else "?")
    else if f.status == 403 && f.reportCap.Some? && f.reportCap.value != 0 then
      KeyWith("reportCapDescription", IntToString(f.reportCap.value, 10))
    else if f.message.Some? && f.message.value != "" then Text(f.message.value)
    else Key("uploadFailed")
  }

  // --------------------------------------------------------------- polling

  /** A row of `GET /api/upload`. */
  datatype UploadRow = UploadRow(id: string, fileName: string, profileId: string, status: string, errorMessage: Option<string>, createdAt: string)

  function FindRow(rows: seq<UploadRow>, id: string): (r: Option<UploadRow>)
    ensures r.Some? ==> r.value in rows && r.value.id == id
    ensures r.None? <==> forall u | u in rows :: u.id != id
  {
    if |rows| == 0 then None
    else if rows[0].id == id then Some(rows[0])
    else FindRow(rows[1..], id)
  }

  /** What one tick of the poll does. */
  datatype PollAction = KeepPolling | StopIdle | StopAndLoad | StopWithError(message: Message)

  predicate FailedRow(u: UploadRow) {
    u.status == "error" || (u.status == "pending" && u.errorMessage.Some? && u.errorMessage.value != "")
  }

  /** A tick: after five minutes it gives up; a failed request waits for the
      next tick; a vanished upload returns to idle; a finished one loads its
      data; a failed one shows its message. */
  function PollTick(elapsedMs: int, rows: Option<seq<UploadRow>>, id: string): (r: PollAction)
    ensures elapsedMs > PollTimeoutMs ==> r == StopWithError(Key("timeout"))
    ensures elapsedMs <= PollTimeoutMs && rows.None? ==> r == KeepPolling
    ensures elapsedMs <= PollTimeoutMs && rows.Some? ==>
      (r == StopIdle <==> FindRow(rows.value, id).None?)
    ensures elapsedMs <= PollTimeoutMs && rows.Some? && FindRow(rows.value, id).Some? ==>
      var u := FindRow(rows.value, id).value;
      && (r == StopAndLoad <==> u.status == "review")
      && (r.StopWithError? <==> FailedRow(u))
  {
    if elapsedMs > PollTimeoutMs then StopWithError(Key("timeout"))
    else if rows.None? then KeepPolling
    else
      match FindRow(rows.value, id)
      case None => StopIdle
      case Some(u) =>
        if u.status == "review" then StopAndLoad
        else if FailedRow(u) then
          StopWithError(if u.errorMessage.Some? && u.errorMessage.value != "" then Text(u.errorMessage.value) else Key("extractionFailed"))
        else KeepPolling
  }

  /** An upload still extracting without error keeps the poll going until
      the timeout, and the timeout stops it whatever the server says. */
  lemma PollKeepsExtracting(elapsedMs: int, rows: seq<UploadRow>, u: UploadRow)
    requires FindRow(rows, u.id) == Some(u) && u.status == "extracting"
    ensures elapsedMs <= PollTimeoutMs ==> PollTick(elapsedMs, Some(rows), u.id) == KeepPolling
    ensures elapsedMs > PollTimeoutMs ==> PollTick(elapsedMs, Some(rows), u.id).StopWithError?
  {
  }

  /** What the page does with an unfinished upload on load. */
  datatype Resume = NothingPending | ResumeIdle(row: UploadRow) | ResumePolling(row: UploadRow) | ResumeLoad(row: UploadRow) | ResumeExtraction(row: UploadRow)

  /** `checkPendingUploads`: the upload named in the URL, or else the first
      one listed, resumed according to its status. */
  function CheckPending(urlUploadId: Option<string>, rows: seq<UploadRow>): (r: Resume)
    ensures urlUploadId.Some? && urlUploadId.value != "" ==>
      (r.NothingPending? <==> FindRow(rows, urlUploadId.value).None?)
    ensures !(urlUploadId.Some? && urlUploadId.value != "") ==> (r.NothingPending? <==> |rows| == 0)
    ensures !(urlUploadId.Some? && urlUploadId.value != "") && |rows| > 0 ==> r.row == rows[0]
    ensures !r.NothingPending? ==>
      && (r.ResumePolling? <==> r.row.status == "extracting")
      && (r.ResumeLoad? <==> r.row.status == "review")
      && (r.ResumeExtraction? <==> r.row.status == "pending")
  {
    var pending := if urlUploadId.Some? && urlUploadId.value != "" then FindRow(rows, urlUploadId.value)
      else if |rows| > 0 then Some(rows[0]) else None;
    match pending
    case None => NothingPending
    case Some(u) =>
      if u.status == "extracting" then ResumePolling(u)
      else if u.status == "review" then ResumeLoad(u)
      else if u.status == "pending" then ResumeExtraction(u)
      else ResumeIdle(u)
  }

  /** The sample date shown for review: the extracted one, else the
      upload's, else empty. */
  function ReviewSampleDate(extracted: Option<string>, upload: Option<string>): (r: string)
    ensures extracted.Some? && extracted.value != "" ==> r == extracted.value
    ensures !(extracted.Some? && extracted.value != "") && upload.Some? ==> r == upload.value
    ensures r == "" ==> !(extracted.Some? && extracted.value != "") && (upload.None? || upload.value == "")
  {
    if extracted.Some? && extracted.value != "" then extracted.value
    else if upload.Some? && upload.value != "" then upload.value
    else ""
  }

  // ------------------------------------------------ confirm and cancel

  /** The page's state for the confirm and cancel handlers. */
  datatype PageState = PageState(
    status: UploadStatus,
    uploadId: Option<string>,
    fileName: string,
    review: ReviewState,
    sampleDate: string,
    error: Option<Message>)

  /** The body of the confirm request. */
  datatype ConfirmRequest = ConfirmRequest(uploadId: string, sampleDate: string, metrics: seq<ExtractedMetric>)

  /** `handleConfirm` up to the request: an upload, a sample date and at
      least one metric are needed, else nothing happens. */
  function ConfirmStart(st: PageState): (r: (PageState, Option<ConfirmRequest>))
    ensures r.1.Some? <==> st.uploadId.Some? && st.uploadId.value != "" && st.sampleDate != "" && |st.review.metrics| > 0
    ensures r.1.None? ==> r.0 == st
    ensures r.1.Some? ==> (r.0 == st.(status := Confirming, error := None)
      && r.1.value == ConfirmRequest(st.uploadId.value, st.sampleDate, st.review.metrics))
  {
    if st.uploadId.None? || st.uploadId.value == "" || st.sampleDate == "" || |st.review.metrics| == 0 then (st, None)
    else (st.(status := Confirming, error := None), Some(ConfirmRequest(st.uploadId.value, st.sampleDate, st.review.metrics)))
  }

  /** The end of `handleConfirm`: success, or back to review with the
      server's message or a generic one; the edits are kept. */
  function ConfirmSettled(st: PageState, ok: bool, message: Option<string>): (r: PageState)
    ensures ok ==> r == st.(status := Success)
    ensures !ok ==> r.status == Review && r.review == st.review && r.sampleDate == st.sampleDate && r.error.Some?
  {
    if ok then st.(status := Success)
    else st.(status := Review, error := Some(if message.Some? && message.value != "" then Text(message.value) else Key("confirmFailed")))
  }

  /** The page as first shown. */
  const Initial := PageState(Idle, None, "", ReviewState([], []), "", None)

  /** `handleCancel`: the DELETE request for the current upload, if any, and
      the page back to its initial state whether or not the request
      succeeds. */
  function Cancel(st: PageState): (r: (PageState, Option<string>))
    ensures r.0 == Initial
    ensures r.1.Some? <==> st.uploadId.Some? && st.uploadId.value != ""
    ensures r.1.Some? ==> r.1 == st.uploadId
  {
    (Initial, if st.uploadId.Some? && st.uploadId.value != "" then st.uploadId else None)
  }

  /** After a cancel nothing can be confirmed and a new file can be dropped
      (below the cap), and cancelling again sends nothing. */
  lemma CancelResets(st: PageState)
    ensures ConfirmStart(Cancel(st).0).1.None?
    ensures !DropzoneDisabled(false, Cancel(st).0.status)
    ensures Cancel(Cancel(st).0) == (Initial, None)
  {
  }
}
