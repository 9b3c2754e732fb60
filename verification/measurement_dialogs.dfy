/** The two dialogs that record a new measurement
    (web/src/components/add-weight-dialog.tsx and
    web/src/components/add-blood-pressure-dialog.tsx): what the input
    fields accept, when the save button is enabled, the request body sent,
    the trend against the last weight, the recent list, and the dialog state
    after the server's answer (including the 409 "already recorded today"
    conflict that offers to replace the existing entry). */
module MeasurementDialogs {
  import opened Wrappers
  import opened Text
  import opened Numbers
  import opened Seqs
  import opened Tracking

  // ---------------------------------------------------------------- weight

  predicate IsSeparator(c: char) {
    c == '.' || c == ','
  }

  /** `/^[0-9]*[.,]?[0-9]*$/`: digits, at most one separator, digits. */
  predicate WeightPattern(v: string) {
    var a := DigitRun(v);
    a == |v| || (IsSeparator(v[a]) && AllDigits(v[a + 1..]))
  }

  /** The same language described character by character. */
  predicate WeightChars(v: string) {
    && (forall i | 0 <= i < |v| :: IsDigit(v[i]) || IsSeparator(v[i]))
    && (forall i, j | 0 <= i < j < |v| :: !(IsSeparator(v[i]) && IsSeparator(v[j])))
  }

  /** The pattern accepts exactly the strings of digits with at most one
      separator. */
  lemma WeightPatternIff(v: string)
    ensures WeightPattern(v) <==> WeightChars(v)
  {
    var a := DigitRun(v);
    if WeightPattern(v) && a < |v| {
      forall i | 0 <= i < |v| ensures IsDigit(v[i]) || IsSeparator(v[i]) {
        if i > a {
          assert v[a + 1..][i - a - 1] == v[i];
        }
      }
      forall i, j | 0 <= i < j < |v| ensures !(IsSeparator(v[i]) && IsSeparator(v[j])) {
        if j > a {
          assert v[a + 1..][j - a - 1] == v[j];
        }
      }
    }
    if WeightChars(v) && a < |v| {
      assert IsSeparator(v[a]);
      var tail := v[a + 1..];
      forall k | 0 <= k < |tail| ensures IsDigit(tail[k]) {
        assert tail[k] == v[a + 1 + k];
        assert !IsSeparator(v[a + 1 + k]);
      }
    }
  }

  /** The weight field's `onChange`: the typed text is taken only when it is
      empty or matches the pattern, so the field always matches it. */
  function AcceptWeightInput(current: string, typed: string): (r: string)
    ensures typed == "" || WeightPattern(typed) ==> r == typed
    ensures !(typed == "" || WeightPattern(typed)) ==> r == current
    ensures WeightPattern(current) ==> WeightPattern(r)
  {
    if typed == "" || WeightPattern(typed) then typed else current
  }

  /** `weightNum`: the first comma read as a decimal point. */
  function WeightNum(w: string): Option<real> {
    ParseFloat(ReplaceFirst(w, ',', '.'))
  }

  predicate HasValidWeight(w: string) {
    WeightNum(w).Some? && WeightNum(w).value > 0.0
  }

  /** A decimal comma and a decimal point give the same weight. */
  lemma CommaIsPoint(whole: string, frac: string)
    requires AllDigits(whole) && AllDigits(frac)
    ensures WeightNum(whole + [','] + frac) == WeightNum(whole + ['.'] + frac)
  {
    var c := whole + [','] + frac;
    var p := whole + ['.'] + frac;
    assert CharIndex(c, ',') == |whole| by {
      assert c[|whole|] == ',';
      forall j | 0 <= j < |whole| ensures c[j] != ',' {
        assert c[j] == whole[j];
      }
    }
    assert ReplaceFirst(c, ',', '.') == p;
    assert CharIndex(p, ',') == |p| by {
      forall j | 0 <= j < |p| ensures p[j] != ',' {
        if j < |whole| {
          assert p[j] == whole[j];
        } else if j > |whole| {
          assert p[j] == frac[j - |whole| - 1];
        }
      }
    }
    assert ReplaceFirst(p, ',', '.') == p;
  }

  /** An empty field never enables saving. */
  lemma EmptyWeightInvalid()
    ensures !HasValidWeight("")
  {
    assert ReplaceFirst("", ',', '.') == "";
    assert TrimStart("") == "";
  }

  /** `recent`: the first three measurements of the dialog's kind, in the
      order given. */
  function Recent(ms: seq<Measurement>, kind: MeasurementType): (r: seq<Measurement>)
    ensures |r| <= 3
    ensures forall k | 0 <= k < |r| :: r[k].kind == kind && r[k] in ms
    ensures |r| == if |Filter(ms, OfKind(kind))| < 3 then |Filter(ms, OfKind(kind))| else 3
    ensures r == Filter(ms, OfKind(kind))[..|r|]
  {
    Take(Filter(ms, OfKind(kind)), 3)
  }

  /** The test `m.type === kind` the dialogs filter with. */
  function OfKind(kind: MeasurementType): Measurement -> bool {
    (m: Measurement) => m.kind == kind
  }

  /** A newer measurement of the dialog's kind heads the recent list; one of
      another kind leaves the list as it was. */
  lemma RecentNewest(m: Measurement, ms: seq<Measurement>, kind: MeasurementType)
    ensures m.kind == kind ==> Recent([m] + ms, kind)[0] == m
    ensures m.kind != kind ==> Recent([m] + ms, kind) == Recent(ms, kind)
  {
    assert ([m] + ms)[1..] == ms;
  }

  /** `lastWeight`: the first recent weight, unless it is missing or zero
      (both falsy). */
  function LastWeight(recent: seq<Measurement>): (r: Option<real>)
    ensures r.Some? ==> |recent| > 0 && recent[0].weightKg == r && r.value != 0.0
    ensures r.None? ==> |recent| == 0 || recent[0].weightKg.None? || recent[0].weightKg == Some(0.0)
  {
    if |recent| > 0 && recent[0].weightKg.Some? && recent[0].weightKg.value != 0.0 then recent[0].weightKg
    else None
  }

  /** `diff`: the new weight minus the last one, when both are known. */
  function Diff(w: string, lastWeight: Option<real>): (r: Option<real>)
    ensures r.Some? <==> HasValidWeight(w) && lastWeight.Some?
  {
    if HasValidWeight(w) && lastWeight.Some? then Some(WeightNum(w).value - lastWeight.value) else None
  }

  datatype Trend = Up | Down | Flat

  /** The trend badge shown under the weight field. */
  function TrendOf(diff: Option<real>): Option<Trend> {
    match diff
    case None => None
    case Some(d) => Some(if d > 0.0 then Up else if d < 0.0 then Down else Flat)
  }

  /** The badge points up exactly when the new weight is above the last one,
      down when below. */
  lemma TrendAgreesWithWeights(w: string, recent: seq<Measurement>)
    requires HasValidWeight(w) && LastWeight(recent).Some?
    ensures TrendOf(Diff(w, LastWeight(recent))) == Some(Up) <==> WeightNum(w).value > recent[0].weightKg.value
    ensures TrendOf(Diff(w, LastWeight(recent))) == Some(Down) <==> WeightNum(w).value < recent[0].weightKg.value
  {
  }

  /** `replaceId` is sent only when it is a non-empty string. */
  function ReplaceField(replaceId: Option<string>): (r: Option<string>)
    ensures r.Some? <==> replaceId.Some? && replaceId.value != ""
    ensures r.Some? ==> r == replaceId
  {
    if replaceId.Some? && replaceId.value != "" then replaceId else None
  }

  /** The body of the weight POST. */
  datatype WeightRequest = WeightRequest(profileId: string, weightKg: real, notes: Option<string>, replaceId: Option<string>)

  /** `handleSave` of the weight dialog: nothing is sent without a valid
      weight; the notes are trimmed and blank ones sent as null. */
  function WeightSave(profileId: string, w: string, notes: string, replaceId: Option<string>): (r: Option<WeightRequest>)
    ensures r.Some? <==> HasValidWeight(w)
    ensures r.Some? ==> Some(r.value.weightKg) == WeightNum(w) && r.value.weightKg > 0.0
    ensures r.Some? ==> (r.value.notes.None? <==> Trim(notes) == "")
    ensures r.Some? && r.value.notes.Some? ==> r.value.notes.value == Trim(notes)
    ensures r.Some? ==> r.value.replaceId == ReplaceField(replaceId) && r.value.profileId == profileId
  {
    if !HasValidWeight(w) then None
    else
      var t := Trim(notes);
      Some(WeightRequest(profileId, WeightNum(w).value, if t == "" then None else Some(t), ReplaceField(replaceId)))
  }

  // ------------------------------------------------------- blood pressure

  /** `hasValidInput` of the blood-pressure dialog: both fields parse as
      integers above zero. */
  predicate HasValidBP(systolic: string, diastolic: string) {
    && ParseInt(systolic).Some? && ParseInt(systolic).value > 0
    && ParseInt(diastolic).Some? && ParseInt(diastolic).value > 0
  }

  /** The live status badge: the classification of the parsed reading, or
      none while the input is invalid. */
  function LiveStatus(systolic: string, diastolic: string): (r: Option<BPStatus>)
    ensures r.Some? <==> HasValidBP(systolic, diastolic)
    ensures r.Some? ==> r.value == GetBPStatus(ParseInt(systolic).value as real, ParseInt(diastolic).value as real)
  {
    if HasValidBP(systolic, diastolic) then
      Some(GetBPStatus(ParseInt(systolic).value as real, ParseInt(diastolic).value as real))
    else None
  }

  /** The body of the blood-pressure POST. */
  datatype BPRequest = BPRequest(profileId: string, systolic: int, diastolic: int, pulse: Option<int>, replaceId: Option<string>)

  /** `handleSave` of the blood-pressure dialog: an empty pulse is null, and
      so is one `parseInt` rejects (NaN serialises as null). */
  function BPSave(profileId: string, systolic: string, diastolic: string, pulse: string, replaceId: Option<string>): (r: Option<BPRequest>)
    ensures r.Some? <==> HasValidBP(systolic, diastolic)
    ensures r.Some? ==> Some(r.value.systolic) == ParseInt(systolic) && Some(r.value.diastolic) == ParseInt(diastolic)
    ensures r.Some? ==> r.value.systolic > 0 && r.value.diastolic > 0
    ensures r.Some? && pulse == "" ==> r.value.pulse.None?
    ensures r.Some? && pulse != "" ==> r.value.pulse == ParseInt(pulse)
    ensures r.Some? ==> r.value.replaceId == ReplaceField(replaceId) && r.value.profileId == profileId
  {
    if !HasValidBP(systolic, diastolic) then None
    else Some(BPRequest(profileId, ParseInt(systolic).value, ParseInt(diastolic).value,
      if pulse == "" then None else ParseInt(pulse), ReplaceField(replaceId)))
  }

  /** The dialog's status badge and its request classify the same reading. */
  lemma BadgeMatchesRequest(profileId: string, systolic: string, diastolic: string, pulse: string, replaceId: Option<string>)
    requires HasValidBP(systolic, diastolic)
    ensures var req := BPSave(profileId, systolic, diastolic, pulse, replaceId).value;
      LiveStatus(systolic, diastolic) == Some(GetBPStatus(req.systolic as real, req.diastolic as real))
  {
  }

  /** Once cleared after a save, the form cannot be saved again until new
      values are typed. */
  lemma ClearedBPInvalid()
    ensures !HasValidBP("", "")
  {
    assert TrimStart("") == "";
  }

  // ------------------------------------------------------ dialog lifecycle

  /** The server's answer to a save: 409 with the entry already recorded
      for the day, another failure, or success. */
  datatype Response<E> = Conflict(existing: E) | Failed | Saved

  /** A dialog's form, its pending conflict and whether it is open. */
  datatype DialogState<F, E> = DialogState(form: F, existing: Option<E>, open: bool)

  /** After the answer: a conflict keeps the form and the dialog open and
      offers to replace the existing entry; a failure changes nothing; a
      success clears the form to `blank` and closes the dialog. */
  function Settle<F, E>(st: DialogState<F, E>, resp: Response<E>, blank: F): (r: DialogState<F, E>)
    ensures resp.Conflict? ==> r.form == st.form && r.open == st.open && r.existing == Some(resp.existing)
    ensures resp.Failed? ==> r == st
    ensures resp.Saved? ==> r == DialogState(blank, None, false)
  {
    match resp
    case Conflict(e) => st.(existing := Some(e))
    case Failed => st
    case Saved => DialogState(blank, None, false)
  }

  /** `onOpenChange`: closing the dialog forgets the pending conflict. */
  function OpenChange<F, E>(st: DialogState<F, E>, v: bool): (r: DialogState<F, E>)
    ensures r.open == v && r.form == st.form
    ensures !v ==> r.existing.None?
    ensures v ==> r.existing == st.existing
  {
    if v then st.(open := true) else st.(open := false, existing := None)
  }

  /** The weight form and the entry a conflict reports. */
  datatype WeightForm = WeightForm(weight: string, notes: string)
  datatype ExistingEntry = ExistingEntry(id: string, measuredAt: string)

  /** After a conflict, confirming the replacement sends the same weight and
      notes again, now naming the existing entry. */
  lemma ConflictThenReplace(st: DialogState<WeightForm, ExistingEntry>, e: ExistingEntry, profileId: string)
    requires HasValidWeight(st.form.weight) && e.id != ""
    ensures var next := Settle(st, Conflict(e), WeightForm("", ""));
      var first := WeightSave(profileId, st.form.weight, st.form.notes, None).value;
      var again := WeightSave(profileId, next.form.weight, next.form.notes, Some(next.existing.value.id)).value;
      again == first.(replaceId := Some(e.id))
  {
  }

  /** After a successful save the cleared weight form is invalid. */
  lemma SavedWeightFormInvalid(st: DialogState<WeightForm, ExistingEntry>)
    ensures !HasValidWeight(Settle(st, Saved, WeightForm("", "")).form.weight)
    ensures Settle(st, Saved, WeightForm("", "")).existing.None?
  {
    EmptyWeightInvalid();
  }
}
