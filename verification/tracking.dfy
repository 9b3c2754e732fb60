/** Blood-pressure classification and the relative-time label of tracking
    measurements (web/src/lib/tracking.ts).  Readings are JavaScript
    numbers, idealised as reals. */
module Tracking {
  import Text
  import opened Wrappers

  datatype MeasurementType = BloodPressure | Weight

  /** A row of `tracking_measurements`; nullable numbers are `Option`s. */
  datatype Measurement = Measurement(
    id: string,
    profileId: string,
    kind: MeasurementType,
    measuredAt: string,
    systolic: Option<real>,
    diastolic: Option<real>,
    pulse: Option<real>,
    weightKg: Option<real>,
    notes: Option<string>,
    createdAt: string)

  datatype BPStatusKey = Low | High | HighNormal | Normal

  /** Tone of the status styling: red, amber or green. */
  datatype Tone = Critical | Warning | Good

  datatype BPStatus = BPStatus(key: BPStatusKey, color: string, bg: string, borderColor: string)

  function ToneName(t: Tone): string {
    match t
    case Critical => "critical"
    case Warning => "warning"
    case Good => "normal"
  }

  /** The class names of one tone. */
  function Styled(key: BPStatusKey, t: Tone): BPStatus {
    var n := ToneName(t);
    BPStatus(key, "text-status-" + n, "bg-status-" + n + "/10", "border-l-status-" + n)
  }

  /** The bucket a reading falls in, checked in the order low, high,
      high-normal, which is the simplified 2024 AHA/ESC scheme. */
  function GetBPStatus(systolic: real, diastolic: real): (r: BPStatus)
    ensures r.key == Low <==> systolic < 90.0 || diastolic < 60.0
    ensures r.key == High <==> !(systolic < 90.0 || diastolic < 60.0) && (systolic >= 140.0 || diastolic >= 90.0)
    ensures r.key == HighNormal <==>
      && 90.0 <= systolic < 140.0 && 60.0 <= diastolic < 90.0
      && (systolic >= 120.0 || diastolic >= 80.0)
    ensures r.key == Normal <==> 90.0 <= systolic < 120.0 && 60.0 <= diastolic < 80.0
    ensures r == Styled(r.key, ToneOf(r.key))
  {
    if systolic < 90.0 || diastolic < 60.0 then Styled(Low, Critical)
    else if systolic >= 140.0 || diastolic >= 90.0 then Styled(High, Critical)
    else if systolic >= 120.0 || diastolic >= 80.0 then Styled(HighNormal, Warning)
    else Styled(Normal, Good)
  }

  /** The tone each bucket is drawn in: both extremes are critical. */
  function ToneOf(k: BPStatusKey): Tone {
    match k
    case Low => Critical
    case High => Critical
    case HighNormal => Warning
    case Normal => Good
  }

  /** A low reading wins over a high one: hypotension is reported even when
      the other value is hypertensive. */
  lemma LowDominates(systolic: real, diastolic: real)
    requires systolic < 90.0 || diastolic < 60.0
    ensures GetBPStatus(systolic, diastolic).key == Low
    ensures GetBPStatus(systolic, diastolic).color == "text-status-critical"
  {
  }

  /** Critical styling marks exactly the readings outside the
      systolic 90..140 and diastolic 60..90 band. */
  lemma CriticalIffExtreme(systolic: real, diastolic: real)
    ensures GetBPStatus(systolic, diastolic).color == "text-status-critical"
        <==> !(90.0 <= systolic < 140.0 && 60.0 <= diastolic < 90.0)
  {
    var r := GetBPStatus(systolic, diastolic);
    var critical := "text-status-critical";
    assert Styled(HighNormal, Warning).color != critical by {
      assert Styled(HighNormal, Warning).color[12] == 'w';
      assert critical[12] == 'c';
    }
    assert Styled(Normal, Good).color != critical by {
      assert Styled(Normal, Good).color[12] == 'n';
      assert critical[12] == 'c';
    }
  }

  /** The label of `formatRelativeDate`. */
  datatype RelativeDate = JustNow | Yesterday | DateText(value: string)

  const MsPerHour: nat := 1000 * 60 * 60

  /** `formatRelativeDate`, with the elapsed milliseconds (now minus the
      measurement time) and the locale's formatted day as inputs. */
  function FormatRelativeDate(elapsedMs: int, locale: string, formattedDay: string): (r: RelativeDate)
    ensures r == JustNow <==> elapsedMs < MsPerHour
    ensures r == Yesterday <==> 24 * MsPerHour <= elapsedMs < 48 * MsPerHour
    ensures MsPerHour <= elapsedMs < 24 * MsPerHour ==>
      exists h: nat :: 1 <= h < 24 && h * MsPerHour <= elapsedMs < (h + 1) * MsPerHour
        && r == DateText(HoursAgo(h, locale))
    ensures 48 * MsPerHour <= elapsedMs ==> r == DateText(formattedDay)
  {
    if elapsedMs < MsPerHour then JustNow
    else if elapsedMs < 24 * MsPerHour then
      HourBounds(elapsedMs);
      var hours: nat := elapsedMs / MsPerHour;
      DateText(HoursAgo(hours, locale))
    else if elapsedMs < 48 * MsPerHour then Yesterday
    else DateText(formattedDay)
  }

  /** The whole hours elapsed in the first day after the first hour. */
  lemma HourBounds(elapsedMs: int)
    requires MsPerHour <= elapsedMs < 24 * MsPerHour
    ensures var h := elapsedMs / MsPerHour; 1 <= h < 24 && h * MsPerHour <= elapsedMs < (h + 1) * MsPerHour
  {
  }

  /** "N saat önce" in Turkish, "Nh ago" otherwise. */
  function HoursAgo(hours: nat, locale: string): string {
    if locale == "tr" then Text.NatToString(hours, 10) + " saat önce"
    else Text.NatToString(hours, 10) + "h ago"
  }
}
