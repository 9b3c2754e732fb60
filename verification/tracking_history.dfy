/** The measurement history list (web/src/components/tracking-history.tsx):
    who may edit, the inline edit form, its validation and the request body
    it sends, and how a saved or deleted measurement updates the list.
    `String(number)` is a parameter `show`; the network is the response
    passed to the settle functions. */
module TrackingHistory {
  import opened Wrappers
  import opened Text
  import opened Numbers
  import opened Seqs
  import opened Tracking

  /** Only owners and editors see the edit and delete buttons. */
  predicate CanEdit(accessLevel: Option<string>) {
    accessLevel == Some("owner") || accessLevel == Some("editor")
  }

  /** The text fields of the inline edit form. */
  datatype EditForm = EditForm(weightKg: string, systolic: string, diastolic: string, pulse: string, notes: string)

  function ShowOr(v: Option<real>, show: real -> string): string {
    if v.Some? then show(v.value) else ""
  }

  /** `startEditing`: every field prefilled from the measurement, empty where
      the value is null. */
  function StartEditing(m: Measurement, show: real -> string): (r: EditForm)
    ensures m.weightKg.None? ==> r.weightKg == ""
    ensures m.weightKg.Some? ==> r.weightKg == show(m.weightKg.value)
    ensures m.systolic.None? ==> r.systolic == ""
    ensures m.systolic.Some? ==> r.systolic == show(m.systolic.value)
    ensures m.diastolic.None? ==> r.diastolic == ""
    ensures m.diastolic.Some? ==> r.diastolic == show(m.diastolic.value)
    ensures m.pulse.None? ==> r.pulse == ""
    ensures m.pulse.Some? ==> r.pulse == show(m.pulse.value)
    ensures r.notes == m.notes.GetOr("")
  {
    EditForm(ShowOr(m.weightKg, show), ShowOr(m.systolic, show), ShowOr(m.diastolic, show),
      ShowOr(m.pulse, show), m.notes.GetOr(""))
  }

  /** The toast shown when validation fails. */
  datatype Invalid = ValidWeight | ValidBP | ValidPulse

  /** The JSON body of the PUT request. */
  datatype UpdateBody =
    | WeightBody(notes: Option<string>, weightKg: real)
    | BPBody(notes: Option<string>, systolic: real, diastolic: real, pulse: Option<real>)

  datatype SaveOutcome = Rejected(reason: Invalid) | Send(body: UpdateBody)

  /** A parsed number within `[lo, hi]`; not-a-number fails every comparison. */
  predicate InRange(v: Option<real>, lo: real, hi: real) {
    v.Some? && lo <= v.value <= hi
  }

  /** Systolic within 50–300 and diastolic within 20–200. */
  predicate ValidPressures(form: EditForm) {
    InRange(ParseFloat(form.systolic), 50.0, 300.0) && InRange(ParseFloat(form.diastolic), 20.0, 200.0)
  }

  /** `saveEdit` up to the request: the weight must be non-blank and within
      1–500 kg; systolic within 50–300 and diastolic within 20–200; a
      non-blank pulse within 20–250, a blank one sent as null.  Empty notes
      are sent as null. */
  function SaveEdit(kind: MeasurementType, form: EditForm): (r: SaveOutcome)
    ensures kind == Weight ==>
      (r.Rejected? <==> Trim(form.weightKg) == "" || !InRange(ParseFloat(form.weightKg), 1.0, 500.0))
    ensures kind == BloodPressure && !(InRange(ParseFloat(form.systolic), 50.0, 300.0) && InRange(ParseFloat(form.diastolic), 20.0, 200.0)) ==>
      r == Rejected(ValidBP)
    ensures kind == BloodPressure && ValidPressures(form) ==>
      (r == Rejected(ValidPulse) <==> Trim(form.pulse) != "" && !InRange(ParseFloat(form.pulse), 20.0, 250.0))
    ensures kind == BloodPressure && ValidPressures(form) && (Trim(form.pulse) == "" || InRange(ParseFloat(form.pulse), 20.0, 250.0))
      ==> r.Send?
    ensures kind == BloodPressure && r.Send? ==>
      && r.body.BPBody?
      && Some(r.body.systolic) == ParseFloat(form.systolic) && 50.0 <= r.body.systolic <= 300.0
      && Some(r.body.diastolic) == ParseFloat(form.diastolic) && 20.0 <= r.body.diastolic <= 200.0
      && (r.body.pulse.None? <==> Trim(form.pulse) == "")
      && (r.body.pulse.Some? ==> Some(r.body.pulse.value) == ParseFloat(form.pulse) && 20.0 <= r.body.pulse.value <= 250.0)
    ensures kind == Weight && r.Send? ==>
      r.body.WeightBody? && Some(r.body.weightKg) == ParseFloat(form.weightKg) && 1.0 <= r.body.weightKg <= 500.0
    ensures r.Send? ==> r.body.notes == (if form.notes == "" then None else Some(form.notes))
  {
    var notes := if form.notes == "" then None else Some(form.notes);
    if kind == Weight then
      var v := ParseFloat(form.weightKg);
      if Trim(form.weightKg) == "" || !InRange(v, 1.0, 500.0) then Rejected(ValidWeight)
      else Send(WeightBody(notes, v.value))
    else
      var s := ParseFloat(form.systolic);
      var d := ParseFloat(form.diastolic);
      if !InRange(s, 50.0, 300.0) || !InRange(d, 20.0, 200.0) then Rejected(ValidBP)
      else if Trim(form.pulse) != "" && !InRange(ParseFloat(form.pulse), 20.0, 250.0) then Rejected(ValidPulse)
      else Send(BPBody(notes, s.value, d.value, if Trim(form.pulse) != "" then ParseFloat(form.pulse) else None))
  }

  /** A string `parseFloat` accepts is not blank. */
  lemma ParsedIsNotBlank(s: string)
    requires ParseFloat(s).Some?
    ensures Trim(s) != ""
  {
    var t := TrimStart(s);
    var rest := SplitSign(t).1;
    assert |rest| > 0 && (IsDigit(rest[0]) || rest[0] == '.');
    assert rest == t[|t| - |rest|..];
    var j := |s| - |rest|;
    assert s[j] == rest[0];
    assert !IsJsSpace(s[j]);
  }

  /** Opening the editor on a valid weight and saving without changes sends
      the measurement's own weight and notes back, provided the number's
      text form parses back to it. */
  lemma WeightEditRoundTrip(m: Measurement, show: real -> string)
    requires m.weightKg.Some? && 1.0 <= m.weightKg.value <= 500.0
    requires ParseFloat(show(m.weightKg.value)) == Some(m.weightKg.value)
    ensures SaveEdit(Weight, StartEditing(m, show)) ==
      Send(WeightBody(if m.notes == Some("") then None else m.notes, m.weightKg.value))
  {
    ParsedIsNotBlank(show(m.weightKg.value));
  }

  /** The same round trip for a valid blood-pressure reading, with or without
      a pulse. */
  lemma BPEditRoundTrip(m: Measurement, show: real -> string)
    requires m.systolic.Some? && 50.0 <= m.systolic.value <= 300.0
    requires m.diastolic.Some? && 20.0 <= m.diastolic.value <= 200.0
    requires ParseFloat(show(m.systolic.value)) == m.systolic
    requires ParseFloat(show(m.diastolic.value)) == m.diastolic
    requires m.pulse.Some? ==> 20.0 <= m.pulse.value <= 250.0 && ParseFloat(show(m.pulse.value)) == m.pulse
    ensures SaveEdit(BloodPressure, StartEditing(m, show)) ==
      Send(BPBody(if m.notes == Some("") then None else m.notes, m.systolic.value, m.diastolic.value, m.pulse))
  {
    var form := StartEditing(m, show);
    assert ParseFloat(form.systolic) == m.systolic && ParseFloat(form.diastolic) == m.diastolic;
    if m.pulse.Some? {
      ParsedIsNotBlank(show(m.pulse.value));
      assert Trim(form.pulse) != "" && ParseFloat(form.pulse) == m.pulse;
    } else {
      assert form.pulse == "";
      assert Trim("") == "";
    }
    assert form.notes == m.notes.GetOr("");
  }

  /** The list after a save: the measurement with `id` replaced by the
      server's copy, everything else in place. */
  function ReplaceMeasurement(ms: seq<Measurement>, id: string, updated: Measurement): (r: seq<Measurement>)
    ensures |r| == |ms|
    ensures forall i | 0 <= i < |ms| :: r[i] == if ms[i].id == id then updated else ms[i]
  {
    seq(|ms|, i requires 0 <= i < |ms| => if ms[i].id == id then updated else ms[i])
  }

  /** Applying the same server copy twice changes nothing more. */
  lemma ReplaceIdempotent(ms: seq<Measurement>, id: string, updated: Measurement)
    requires updated.id == id
    ensures ReplaceMeasurement(ReplaceMeasurement(ms, id, updated), id, updated) == ReplaceMeasurement(ms, id, updated)
  {
  }

  /** The list after a delete: every measurement but the one with `id`. */
  function DeleteMeasurement(ms: seq<Measurement>, id: string): (r: seq<Measurement>)
    ensures forall m :: m in r <==> m in ms && m.id != id
    ensures |r| <= |ms|
  {
    Filter(ms, (m: Measurement) => m.id != id)
  }

  /** Deleting a measurement that was just edited leaves the same list as
      deleting it unedited. */
  lemma {:induction false} DeleteAfterReplace(ms: seq<Measurement>, id: string, updated: Measurement)
    requires updated.id == id
    ensures DeleteMeasurement(ReplaceMeasurement(ms, id, updated), id) == DeleteMeasurement(ms, id)
    decreases |ms|
  {
    if |ms| > 0 {
      var rs := ReplaceMeasurement(ms, id, updated);
      DeleteAfterReplace(ms[1..], id, updated);
      assert rs[1..] == ReplaceMeasurement(ms[1..], id, updated);
      assert rs[0].id != id ==> rs[0] == ms[0];
    }
  }

  /** The list and the edit and delete state of the component. */
  datatype HistoryState = HistoryState(measurements: seq<Measurement>, editingId: Option<string>, deletingId: Option<string>)

  /** The end of `saveEdit`: a successful response replaces the row and
      closes the editor; a failed one changes nothing. */
  function SaveSettled(st: HistoryState, id: string, response: Option<Measurement>): (r: HistoryState)
    ensures response.None? ==> r == st
    ensures response.Some? ==> r.measurements == ReplaceMeasurement(st.measurements, id, response.value) && r.editingId.None?
    ensures r.deletingId == st.deletingId
  {
    if response.Some? then st.(measurements := ReplaceMeasurement(st.measurements, id, response.value), editingId := None)
    else st
  }

  /** The end of `confirmDelete`: success removes the row and closes the
      confirmation; failure changes nothing. */
  function DeleteSettled(st: HistoryState, id: string, ok: bool): (r: HistoryState)
    ensures !ok ==> r == st
    ensures ok ==> r.measurements == DeleteMeasurement(st.measurements, id) && r.deletingId.None?
    ensures r.editingId == st.editingId
  {
    if ok then st.(measurements := DeleteMeasurement(st.measurements, id), deletingId := None) else st
  }
}
