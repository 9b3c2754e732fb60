/** The list transforms behind the dashboard (web/src/app/dashboard/page.tsx):
    reference-range test, Turkish-insensitive name normalisation, metric
    de-duplication, the display order, the latest value per metric, the
    selection toggles, send-to-top and the grid-height clamps. */
module Dashboard {
  import opened Wrappers
  import opened Text
  import opened Seqs
  import opened Lab
  import Sorting
  import Dates
  import Metrics

  // ---------------------------------------------------------------------
  // Reference range

  /** `isValueInRange`: a missing value is never in range; a missing bound
      imposes nothing; bounds are inclusive. */
  function IsValueInRange(value: Option<real>, refMin: Option<real>, refMax: Option<real>): (r: bool)
    ensures value.None? ==> !r
    ensures refMin.None? && refMax.None? ==> (r <==> value.Some?)
    ensures r ==> (refMin.Some? ==> refMin.value <= value.value) && (refMax.Some? ==> value.value <= refMax.value)
  {
    if value.None? then false
    else
      var aboveMin := refMin.None? || value.value >= refMin.value;
      var belowMax := refMax.None? || value.value <= refMax.value;
      aboveMin && belowMax
  }

  function AsScalar(b: Option<real>): Option<Metrics.Scalar> {
    if b.None? then None else Some(Metrics.NumV(b.value))
  }

  /** For a present value, being in range is exactly not being flagged by
      the review form's out-of-range check. */
  lemma InRangeIffNotOutOfRange(v: real, refMin: Option<real>, refMax: Option<real>)
    ensures IsValueInRange(Some(v), refMin, refMax)
        <==> !Metrics.CheckOutOfRange(Some(Metrics.NumV(v)), AsScalar(refMin), AsScalar(refMax))
  {
  }

  // ---------------------------------------------------------------------
  // Turkish-insensitive names

  /** The Turkish letters folded to their ASCII base letter. */
  function FoldTurkish(c: char): char {
    if c == 'ğ' then 'g'
    else if c == 'ü' then 'u'
    else if c == 'ş' then 's'
    else if c == 'ı' then 'i'
    else if c == 'ö' then 'o'
    else if c == 'ç' then 'c'
    else c
  }

  /** What `normalizeTurkish` does to one character. */
  function NormChar(c: char): char {
    FoldTurkish(LowerChar(if c == 'İ' then 'i' else c))
  }

  /** `normalizeTurkish`: dotted capital I to `i`, lower-casing, then the
      six Turkish letters to ASCII, each pass over the whole string. */
  function NormalizeTurkish(s: string): (r: string)
    ensures |r| == |s|
    ensures forall i | 0 <= i < |s| :: r[i] == NormChar(s[i])
    ensures forall i | 0 <= i < |r| :: r[i] !in "İğüşıöç"
  {
    var a := ReplaceAll(s, 'İ', 'i');
    var b := ToLower(a);
    var c := ReplaceAll(ReplaceAll(ReplaceAll(b, 'ğ', 'g'), 'ü', 'u'), 'ş', 's');
    ReplaceAll(ReplaceAll(ReplaceAll(c, 'ı', 'i'), 'ö', 'o'), 'ç', 'c')
  }

  lemma NormalizeTurkishIdempotent(s: string)
    ensures NormalizeTurkish(NormalizeTurkish(s)) == NormalizeTurkish(s)
  {
    var r := NormalizeTurkish(s);
    assert forall i | 0 <= i < |r| :: NormChar(r[i]) == r[i];
  }

  /** Case and Turkish letters do not distinguish names. */
  lemma NormalizeTurkishMergesSpellings()
    ensures NormalizeTurkish("HEMOGLOBİN") == NormalizeTurkish("hemoglobin")
    ensures NormalizeTurkish("Şeker") == NormalizeTurkish("seker")
  {
    NormalizeSame("HEMOGLOBİN", "hemoglobin");
    NormalizeSame("Şeker", "seker");
  }

  /** Names whose characters fold alike normalise alike. */
  lemma NormalizeSame(a: string, b: string)
    requires |a| == |b| && forall i | 0 <= i < |a| :: NormChar(a[i]) == NormChar(b[i])
    ensures NormalizeTurkish(a) == NormalizeTurkish(b)
  {
    var ra, rb := NormalizeTurkish(a), NormalizeTurkish(b);
    assert forall i | 0 <= i < |ra| :: ra[i] == rb[i];
  }

  // ---------------------------------------------------------------------
  // De-duplication

  /** The key metrics are de-duplicated by. */
  function Key(m: Metric): string {
    NormalizeTurkish(m.name)
  }

  /** Position of the first metric whose `key` is `n`, or `|ms|`. */
  function FirstWithKey(ms: seq<Metric>, key: Metric -> string, n: string): (i: nat)
    ensures i <= |ms|
    ensures i < |ms| ==> key(ms[i]) == n
    ensures forall j | 0 <= j < i :: key(ms[j]) != n
  {
    if |ms| == 0 then 0 else if key(ms[0]) == n then 0 else 1 + FirstWithKey(ms[1..], key, n)
  }

  lemma {:induction false} FirstWithKeyAppend(p: seq<Metric>, m: Metric, key: Metric -> string, n: string)
    ensures FirstWithKey(p + [m], key, n)
         == if FirstWithKey(p, key, n) < |p| then FirstWithKey(p, key, n) else if key(m) == n then |p| else |p| + 1
    decreases |p|
  {
    if |p| > 0 && key(p[0]) != n {
      assert (p + [m])[1..] == p[1..] + [m];
      FirstWithKeyAppend(p[1..], m, key, n);
    }
  }

  /** The two maps `deduplicateMetrics` builds: the kept metrics (the values
      of its name-keyed map, in insertion order) and the id remapping. */
  datatype Dedup = Dedup(kept: seq<Metric>, mapping: map<string, string>)

  function Ids(ms: seq<Metric>): set<string> {
    set m | m in ms :: m.id
  }

  /** One iteration: a metric whose name is new is kept and maps to itself;
      otherwise its id maps to the kept metric of that name. */
  function DedupStep(prev: Dedup, m: Metric, key: Metric -> string): Dedup {
    var k := FirstWithKey(prev.kept, key, key(m));
    if k < |prev.kept| then Dedup(prev.kept, prev.mapping[m.id := prev.kept[k].id])
    else Dedup(prev.kept + [m], prev.mapping[m.id := m.id])
  }

  /** The loop of `deduplicateMetrics` over `ms`. */
  function DedupLoop(ms: seq<Metric>, key: Metric -> string): (d: Dedup)
    ensures d.mapping.Keys == Ids(ms)
    decreases |ms|
  {
    if |ms| == 0 then Dedup([], map[])
    else
      var p := ms[..|ms| - 1];
      assert ms == p + [ms[|ms| - 1]];
      assert Ids(ms) == Ids(p) + {ms[|ms| - 1].id};
      DedupStep(DedupLoop(p, key), ms[|ms| - 1], key)
  }

  lemma DedupLoopAppend(p: seq<Metric>, m: Metric, key: Metric -> string)
    ensures DedupLoop(p + [m], key) == DedupStep(DedupLoop(p, key), m, key)
  {
    assert (p + [m])[..|p|] == p;
  }

  /** No two kept metrics share a normalised name. */
  predicate KeysDistinct(kept: seq<Metric>, key: Metric -> string) {
    forall a, b | 0 <= a < b < |kept| :: key(kept[a]) != key(kept[b])
  }

  /** Each kept metric is the first input metric of its name. */
  predicate KeptAreFirsts(ms: seq<Metric>, kept: seq<Metric>, key: Metric -> string) {
    forall k | 0 <= k < |kept| ::
      FirstWithKey(ms, key, key(kept[k])) < |ms| && kept[k] == ms[FirstWithKey(ms, key, key(kept[k]))]
  }

  /** The kept metrics appear in input order. */
  predicate KeptInOrder(ms: seq<Metric>, kept: seq<Metric>, key: Metric -> string) {
    forall a, b | 0 <= a < b < |kept| :: FirstWithKey(ms, key, key(kept[a])) < FirstWithKey(ms, key, key(kept[b]))
  }

  /** Every name of the input is represented among the kept metrics. */
  predicate CoversNames(ms: seq<Metric>, kept: seq<Metric>, key: Metric -> string) {
    forall i | 0 <= i < |ms| :: FirstWithKey(kept, key, key(ms[i])) < |kept|
  }

  /** The name of a new metric is new to the input seen so far. */
  lemma NewNameIsFirst(p: seq<Metric>, kept: seq<Metric>, m: Metric, key: Metric -> string)
    requires CoversNames(p, kept, key)
    requires FirstWithKey(kept, key, key(m)) == |kept|
    ensures FirstWithKey(p, key, key(m)) == |p|
  {
  }

  lemma StepKeepsDistinct(prev: Dedup, m: Metric, key: Metric -> string)
    requires KeysDistinct(prev.kept, key)
    ensures KeysDistinct(DedupStep(prev, m, key).kept, key)
  {
  }

  lemma StepKeepsFirsts(p: seq<Metric>, prev: Dedup, m: Metric, key: Metric -> string)
    requires KeptAreFirsts(p, prev.kept, key) && CoversNames(p, prev.kept, key)
    ensures KeptAreFirsts(p + [m], DedupStep(prev, m, key).kept, key)
  {
    var kept := DedupStep(prev, m, key).kept;
    forall k | 0 <= k < |kept|
      ensures FirstWithKey(p + [m], key, key(kept[k])) < |p + [m]|
           && kept[k] == (p + [m])[FirstWithKey(p + [m], key, key(kept[k]))]
    {
      FirstWithKeyAppend(p, m, key, key(kept[k]));
      if k == |prev.kept| {
        NewNameIsFirst(p, prev.kept, m, key);
      }
    }
  }

  lemma StepKeepsOrder(p: seq<Metric>, prev: Dedup, m: Metric, key: Metric -> string)
    requires KeptAreFirsts(p, prev.kept, key) && KeptInOrder(p, prev.kept, key) && CoversNames(p, prev.kept, key)
    ensures KeptInOrder(p + [m], DedupStep(prev, m, key).kept, key)
  {
    var kept := DedupStep(prev, m, key).kept;
    forall a, b | 0 <= a < b < |kept|
      ensures FirstWithKey(p + [m], key, key(kept[a])) < FirstWithKey(p + [m], key, key(kept[b]))
    {
      StepKeepsPairOrder(p, prev, m, key, a, b);
    }
  }

  lemma StepKeepsPairOrder(p: seq<Metric>, prev: Dedup, m: Metric, key: Metric -> string, a: nat, b: nat)
    requires KeptAreFirsts(p, prev.kept, key) && KeptInOrder(p, prev.kept, key) && CoversNames(p, prev.kept, key)
    requires a < b < |DedupStep(prev, m, key).kept|
    ensures var kept := DedupStep(prev, m, key).kept;
      FirstWithKey(p + [m], key, key(kept[a])) < FirstWithKey(p + [m], key, key(kept[b]))
  {
    var kept := DedupStep(prev, m, key).kept;
    assert a < |prev.kept| && kept[a] == prev.kept[a];
    FirstWithKeyAppend(p, m, key, key(kept[a]));
    FirstWithKeyAppend(p, m, key, key(kept[b]));
    assert FirstWithKey(p, key, key(kept[a])) < |p|;
    if b < |prev.kept| {
      assert kept[b] == prev.kept[b];
    } else {
      assert FirstWithKey(prev.kept, key, key(m)) == |prev.kept| && kept[b] == m;
      NewNameIsFirst(p, prev.kept, m, key);
    }
  }

  lemma StepKeepsCover(p: seq<Metric>, prev: Dedup, m: Metric, key: Metric -> string)
    requires CoversNames(p, prev.kept, key)
    ensures CoversNames(p + [m], DedupStep(prev, m, key).kept, key)
  {
    var kept := DedupStep(prev, m, key).kept;
    forall i | 0 <= i < |p + [m]| ensures FirstWithKey(kept, key, key((p + [m])[i])) < |kept| {
      if kept != prev.kept {
        FirstWithKeyAppend(prev.kept, m, key, key((p + [m])[i]));
      }
    }
  }

  lemma {:induction false} DedupKeepsFirstOfEachName(ms: seq<Metric>, key: Metric -> string)
    ensures var d := DedupLoop(ms, key);
      KeysDistinct(d.kept, key) && KeptAreFirsts(ms, d.kept, key) && KeptInOrder(ms, d.kept, key) && CoversNames(ms, d.kept, key)
    decreases |ms|
  {
    if |ms| > 0 {
      var p, m := ms[..|ms| - 1], ms[|ms| - 1];
      assert ms == p + [m];
      DedupKeepsFirstOfEachName(p, key);
      DedupLoopAppend(p, m, key);
      var prev := DedupLoop(p, key);
      StepKeepsDistinct(prev, m, key);
      StepKeepsFirsts(p, prev, m, key);
      StepKeepsOrder(p, prev, m, key);
      StepKeepsCover(p, prev, m, key);
    }
  }

  /** Every id is sent to the id of a kept metric. */
  predicate MapsToKept(mapping: map<string, string>, kept: seq<Metric>) {
    forall id | id in mapping :: exists k | 0 <= k < |kept| :: kept[k].id == mapping[id]
  }

  /** No metric after position `i` carries the id of `ms[i]`. */
  predicate LastWithId(ms: seq<Metric>, i: int) {
    0 <= i < |ms| && forall j | i < j < |ms| :: ms[j].id != ms[i].id
  }

  /** The last metric carrying an id decides where the id is sent: to the
      first metric sharing that metric's name. */
  predicate LastOccurrenceDecides(ms: seq<Metric>, mapping: map<string, string>, key: Metric -> string) {
    forall i | 0 <= i < |ms| && LastWithId(ms, i) :: SentToFirst(ms, mapping, key, i)
  }

  /** The id of metric `i` is sent to the first metric sharing its name. */
  predicate SentToFirst(ms: seq<Metric>, mapping: map<string, string>, key: Metric -> string, i: nat)
    requires i < |ms|
  {
    ms[i].id in mapping && FirstWithKey(ms, key, key(ms[i])) < |ms| && mapping[ms[i].id] == ms[FirstWithKey(ms, key, key(ms[i]))].id
  }

  lemma StepMapsToKept(prev: Dedup, m: Metric, key: Metric -> string)
    requires MapsToKept(prev.mapping, prev.kept)
    ensures MapsToKept(DedupStep(prev, m, key).mapping, DedupStep(prev, m, key).kept)
  {
    var d := DedupStep(prev, m, key);
    forall id | id in d.mapping ensures exists j | 0 <= j < |d.kept| :: d.kept[j].id == d.mapping[id] {
      if id != m.id {
        var j :| 0 <= j < |prev.kept| && prev.kept[j].id == prev.mapping[id];
        assert d.kept[j].id == d.mapping[id];
      } else {
        var k := FirstWithKey(prev.kept, key, key(m));
        assert d.kept[k].id == d.mapping[id];
      }
    }
  }

  /** An id last seen before `m` keeps its target. */
  lemma StepKeepsEarlierTarget(p: seq<Metric>, prev: Dedup, m: Metric, key: Metric -> string, i: nat)
    requires LastOccurrenceDecides(p, prev.mapping, key)
    requires LastWithId(p + [m], i) && i < |p|
    ensures SentToFirst(p + [m], DedupStep(prev, m, key).mapping, key, i)
  {
    var ms := p + [m];
    assert ms[i] == p[i] && ms[|p|] == m;
    assert LastWithId(p, i) by {
      forall j | i < j < |p| ensures p[j].id != p[i].id {
        assert p[j] == ms[j];
      }
    }
    FirstWithKeyAppend(p, m, key, key(p[i]));
    assert FirstWithKey(p, key, key(p[i])) <= i;
    assert (p + [m])[FirstWithKey(p, key, key(p[i]))] == p[FirstWithKey(p, key, key(p[i]))];
  }

  /** The id of `m` is sent to the first metric of its name. */
  lemma StepTargetOfNew(p: seq<Metric>, prev: Dedup, m: Metric, key: Metric -> string)
    requires KeptAreFirsts(p, prev.kept, key) && CoversNames(p, prev.kept, key)
    ensures SentToFirst(p + [m], DedupStep(prev, m, key).mapping, key, |p|)
  {
    var ms := p + [m];
    assert ms[|p|] == m;
    FirstWithKeyAppend(p, m, key, key(m));
    var k := FirstWithKey(prev.kept, key, key(m));
    if k < |prev.kept| {
      var f := FirstWithKey(p, key, key(prev.kept[k]));
      assert prev.kept[k] == p[f];
      assert ms[f] == p[f];
    } else {
      NewNameIsFirst(p, prev.kept, m, key);
      assert ms[|p|] == m;
    }
  }

  lemma StepLastOccurrenceDecides(p: seq<Metric>, prev: Dedup, m: Metric, key: Metric -> string)
    requires LastOccurrenceDecides(p, prev.mapping, key)
    requires KeptAreFirsts(p, prev.kept, key) && CoversNames(p, prev.kept, key)
    ensures LastOccurrenceDecides(p + [m], DedupStep(prev, m, key).mapping, key)
  {
    var ms := p + [m];
    var d := DedupStep(prev, m, key);
    forall i | 0 <= i < |ms| && LastWithId(ms, i) ensures SentToFirst(ms, d.mapping, key, i) {
      if i < |p| {
        StepKeepsEarlierTarget(p, prev, m, key, i);
      } else {
        StepTargetOfNew(p, prev, m, key);
      }
    }
  }

  lemma {:induction false} DedupMapsToCanonical(ms: seq<Metric>, key: Metric -> string)
    ensures var d := DedupLoop(ms, key);
      MapsToKept(d.mapping, d.kept) && LastOccurrenceDecides(ms, d.mapping, key)
    decreases |ms|
  {
    if |ms| > 0 {
      var p, m := ms[..|ms| - 1], ms[|ms| - 1];
      assert ms == p + [m];
      DedupMapsToCanonical(p, key);
      DedupKeepsFirstOfEachName(p, key);
      DedupLoopAppend(p, m, key);
      var prev := DedupLoop(p, key);
      StepMapsToKept(prev, m, key);
      StepLastOccurrenceDecides(p, prev, m, key);
    }
  }

  /** `metricIdMapping.get(id) || id`: known ids are rewritten, except to an
      empty id, which is falsy. */
  function RemapId(mapping: map<string, string>, id: string): string {
    if id in mapping && mapping[id] != "" then mapping[id] else id
  }

  datatype ApiData = ApiData(metrics: seq<Metric>, values: seq<MetricValue>)

  /** Every value with its metric id passed through the id remapping. */
  function RemapValues(values: seq<MetricValue>, mapping: map<string, string>): (r: seq<MetricValue>)
    ensures |r| == |values|
    ensures forall i | 0 <= i < |r| :: r[i].date == values[i].date && r[i].value == values[i].value
    ensures forall i | 0 <= i < |r| :: values[i].metricId !in mapping ==> r[i].metricId == values[i].metricId
    ensures forall i | 0 <= i < |r| :: values[i].metricId in mapping ==>
      r[i].metricId == (if mapping[values[i].metricId] == "" then values[i].metricId else mapping[values[i].metricId])
  {
    seq(|values|, i requires 0 <= i < |values| => values[i].(metricId := RemapId(mapping, values[i].metricId)))
  }

  /** The metric a metric id ends up displayed under: the first metric
      sharing the name of the last metric that carries the id. */
  predicate CanonicalFor(ms: seq<Metric>, id: string, canonical: string) {
    exists j | 0 <= j < |ms| && LastWithId(ms, j) ::
      ms[j].id == id && FirstWithKey(ms, Key, Key(ms[j])) < |ms| && ms[FirstWithKey(ms, Key, Key(ms[j]))].id == canonical
  }

  /** `deduplicateMetrics`: the first metric of each normalised name, in
      input order, and every value re-pointed at its metric's survivor. */
  function DeduplicateMetrics(data: ApiData): (r: ApiData)
    ensures KeysDistinct(r.metrics, Key)
    ensures KeptAreFirsts(data.metrics, r.metrics, Key) && KeptInOrder(data.metrics, r.metrics, Key)
    ensures CoversNames(data.metrics, r.metrics, Key)
    ensures |r.values| == |data.values|
    ensures forall i | 0 <= i < |r.values| ::
      && r.values[i].date == data.values[i].date
      && r.values[i].value == data.values[i].value
      && (data.values[i].metricId !in Ids(data.metrics) ==> r.values[i].metricId == data.values[i].metricId)
  {
    var d := DedupLoop(data.metrics, Key);
    DedupKeepsFirstOfEachName(data.metrics, Key);
    ApiData(d.kept, RemapValues(data.values, d.mapping))
  }

  /** Each value of a known metric is re-pointed at the id of the first
      metric sharing the name of the (last) metric carrying its id. */
  lemma DedupRemapsToCanonical(data: ApiData)
    ensures var r := DeduplicateMetrics(data);
      forall i, c | 0 <= i < |r.values| && CanonicalFor(data.metrics, data.values[i].metricId, c) && c != "" ::
        r.values[i].metricId == c
  {
    var d := DedupLoop(data.metrics, Key);
    DedupMapsToCanonical(data.metrics, Key);
    var r := DeduplicateMetrics(data);
    forall i, c | 0 <= i < |r.values| && CanonicalFor(data.metrics, data.values[i].metricId, c) && c != ""
      ensures r.values[i].metricId == c
    {
      CanonicalTarget(data.metrics, d.mapping, data.values[i].metricId, c);
    }
  }

  /** After de-duplication every value of a known metric points at a
      displayed metric (or keeps its id, when that id is empty). */
  lemma DedupValuesPointAtKept(data: ApiData)
    ensures var r := DeduplicateMetrics(data);
      forall i | 0 <= i < |r.values| && data.values[i].metricId in Ids(data.metrics) ::
        r.values[i].metricId == data.values[i].metricId || exists k | 0 <= k < |r.metrics| :: r.metrics[k].id == r.values[i].metricId
  {
    KnownIdsPointAtKept(data.metrics, data.values);
  }

  /** After remapping, a value of a known metric points at a kept metric. */
  lemma KnownIdsPointAtKept(ms: seq<Metric>, values: seq<MetricValue>)
    ensures var d := DedupLoop(ms, Key);
      var r := RemapValues(values, d.mapping);
      forall i | 0 <= i < |r| && values[i].metricId in Ids(ms) ::
        r[i].metricId == values[i].metricId || exists k | 0 <= k < |d.kept| :: d.kept[k].id == r[i].metricId
  {
    var d := DedupLoop(ms, Key);
    DedupMapsToCanonical(ms, Key);
    var r := RemapValues(values, d.mapping);
    forall i | 0 <= i < |r| && values[i].metricId in Ids(ms)
      ensures r[i].metricId == values[i].metricId || exists k | 0 <= k < |d.kept| :: d.kept[k].id == r[i].metricId
    {
      var id := values[i].metricId;
      assert id in d.mapping;
      if d.mapping[id] != "" {
        var k :| 0 <= k < |d.kept| && d.kept[k].id == d.mapping[id];
        assert d.kept[k].id == r[i].metricId;
      }
    }
  }

  /** The id remapping sends an id to its canonical metric's id. */
  lemma CanonicalTarget(ms: seq<Metric>, mapping: map<string, string>, id: string, c: string)
    requires LastOccurrenceDecides(ms, mapping, Key)
    requires CanonicalFor(ms, id, c)
    ensures id in mapping && mapping[id] == c
  {
  }

  // ---------------------------------------------------------------------
  // Display order

  const TrackingPrefix := "__tracking_"

  /** The synthetic weight and blood-pressure metrics carry this id prefix. */
  predicate IsTracking(m: Metric) {
    StartsWith(m.id, TrackingPrefix)
  }

  /** Where a metric belongs in the display order: tracking metrics first,
      then the saved order, then metrics the saved order does not know. */
  function Rank(order: seq<string>, m: Metric): int {
    if IsTracking(m) then -1
    else
      var i := IndexOf(order, m.id);
      if i == -1 then |order| else i
  }

  /** The comparator of the display sort. */
  function CompareForDisplay(order: seq<string>, a: Metric, b: Metric): (r: int)
    ensures r < 0 <==> Rank(order, a) < Rank(order, b)
    ensures r == 0 <==> Rank(order, a) == Rank(order, b)
  {
    var aIsTracking := IsTracking(a);
    var bIsTracking := IsTracking(b);
    if aIsTracking && !bIsTracking then -1
    else if !aIsTracking && bIsTracking then 1
    else if aIsTracking && bIsTracking then 0
    else
      var indexA := IndexOf(order, a.id);
      var indexB := IndexOf(order, b.id);
      if indexA == -1 && indexB == -1 then 0
      else if indexA == -1 then 1
      else if indexB == -1 then -1
      else indexA - indexB
  }

  function DisplayLe(order: seq<string>): (Metric, Metric) -> bool {
    (a: Metric, b: Metric) => CompareForDisplay(order, a, b) <= 0
  }

  lemma DisplayLeIsTotalPreorder(order: seq<string>)
    ensures Sorting.TotalPreorder(DisplayLe(order))
  {
  }

  /** The displayed metrics: re-sorted (stably) only once a saved order exists. */
  function DisplayOrder(metrics: seq<Metric>, order: seq<string>): (r: seq<Metric>)
    ensures |order| == 0 ==> r == metrics
    ensures multiset(r) == multiset(metrics)
    ensures |order| > 0 ==> forall i, j | 0 <= i < j < |r| :: Rank(order, r[i]) <= Rank(order, r[j])
  {
    if |order| == 0 then metrics
    else
      DisplayLeIsTotalPreorder(order);
      var r := Sorting.Sort(metrics, DisplayLe(order));
      assert forall i, j | 0 <= i < j < |r| :: DisplayLe(order)(r[i], r[j]);
      r
  }

  /** In the display order tracking metrics come first, metrics of the
      saved order follow by their position in it, and unknown metrics come
      last. */
  lemma DisplayOrderGroups(metrics: seq<Metric>, order: seq<string>, i: int, j: int)
    requires |order| > 0
    requires 0 <= i < j < |metrics|
    ensures var r := DisplayOrder(metrics, order);
      && (IsTracking(r[j]) ==> IsTracking(r[i]))
      && (!IsTracking(r[i]) && r[i].id !in order ==> !IsTracking(r[j]) && r[j].id !in order)
      && (!IsTracking(r[i]) && !IsTracking(r[j]) && r[i].id in order && r[j].id in order ==>
            IndexOf(order, r[i].id) <= IndexOf(order, r[j].id))
  {
    var r := DisplayOrder(metrics, order);
    assert |r| == |metrics| by {
      assert |multiset(r)| == |multiset(metrics)|;
    }
    assert Rank(order, r[i]) <= Rank(order, r[j]);
  }

  /** Metrics the saved order ranks equally (all tracking metrics, or all
      unknown ones) keep their relative order. */
  lemma DisplayOrderStable(metrics: seq<Metric>, order: seq<string>, k: Metric)
    requires |order| > 0
    ensures Sorting.EquivalentTo(DisplayOrder(metrics, order), DisplayLe(order), k)
         == Sorting.EquivalentTo(metrics, DisplayLe(order), k)
  {
    DisplayLeIsTotalPreorder(order);
    Sorting.SortStable(metrics, DisplayLe(order), k);
  }

  // ---------------------------------------------------------------------
  // Latest value per metric

  /** A value of one metric with its date normalised. */
  datatype Entry = Entry(date: string, value: real)

  /** What a metric card shows: the latest date, the latest value or the
      average, and how many values that covers. */
  datatype Summary = Summary(date: string, value: real, count: nat)

  /** The values of metric `id`, in input order, with dates normalised. */
  function EntriesOf(values: seq<MetricValue>, id: string): (r: seq<Entry>)
    ensures |r| == |ValuesFor(values, id)|
    ensures (exists v | v in values :: v.metricId == id) ==> |r| > 0
  {
    var vs := ValuesFor(values, id);
    seq(|vs|, i requires 0 <= i < |vs| => Entry(Dates.Normalize(vs[i].date), vs[i].value))
  }

  /** Ascending date order of entries. */
  function EntryLe(): (Entry, Entry) -> bool {
    (a: Entry, b: Entry) => Dates.CompareDateAsc(a.date, b.date) <= 0
  }

  lemma EntryLeIsTotalPreorder()
    ensures Sorting.TotalPreorder(EntryLe())
  {
    var le := EntryLe();
    forall a: Entry, b: Entry ensures le(a, b) || le(b, a) {
      Dates.CompareDateAntisymmetric(a.date, b.date);
    }
    forall a: Entry, b: Entry, c: Entry | le(a, b) && le(b, c) ensures le(a, c) {
      Dates.CompareDateTransitive(a.date, b.date, c.date);
    }
  }

  function Sum(es: seq<Entry>): real {
    if |es| == 0 then 0.0 else Sum(es[..|es| - 1]) + es[|es| - 1].value
  }

  /** `values.sort(compareDateAsc).pop()`: the entry the card treats as latest. */
  function LatestEntry(es: seq<Entry>): (e: Entry)
    requires |es| > 0
    ensures forall x | x in es :: Dates.CompareDateAsc(x.date, e.date) <= 0
    ensures exists i | 0 <= i < |es| :: es[i] == e && forall j | i < j < |es| :: Dates.CompareDateAsc(e.date, es[j].date) > 0
  {
    EntryLeIsTotalPreorder();
    Sorting.SortLastGreatest(es, EntryLe());
    Sorting.SortLastIsLastGreatest(es, EntryLe());
    Sorting.Sort(es, EntryLe())[|es| - 1]
  }

  /** One card's summary as written: the latest entry, and with averaging
      on, the mean over every value of the metric; the count is read after
      `pop()` has removed the latest entry, so it is one short. */
  function Summarize(es: seq<Entry>, showAverage: bool): (r: Summary)
    requires |es| > 0
    ensures r.date == LatestEntry(es).date
    ensures showAverage ==> r.value == Sum(es) / (|es| as real) && r.count == |es| - 1
    ensures !showAverage ==> r.value == LatestEntry(es).value && r.count == 1
  {
    var latest := LatestEntry(es);
    if showAverage then SummarizeAverageAsWritten(es)
    else Summary(latest.date, latest.value, 1)
  }

  /** The averaging branch as written: the mean of all the values, with the
      count taken from the array after `pop()`. */
  function SummarizeAverageAsWritten(es: seq<Entry>): (r: Summary)
    requires |es| > 0
    ensures r.count == |es| - 1
    ensures r.value == Sum(es) / (|es| as real)
  {
    var latest := LatestEntry(es);
    Summary(latest.date, Sum(es) / (|es| as real), |es| - 1)
  }

  /** The corrected summary: with averaging on, the count is the number of
      values averaged. */
  function SummarizeCorrected(es: seq<Entry>, showAverage: bool): (r: Summary)
    requires |es| > 0
    ensures r.date == LatestEntry(es).date
    ensures showAverage ==> r.value == Sum(es) / (|es| as real) && r.count == |es|
    ensures !showAverage ==> r.value == LatestEntry(es).value && r.count == 1
  {
    var latest := LatestEntry(es);
    if showAverage then Summary(latest.date, Sum(es) / (|es| as real), |es|)
    else Summary(latest.date, latest.value, 1)
  }

  /** The written and the corrected summary agree on the date and the value,
      and differ exactly in the averaged count, by one. */
  lemma SummarizeCorrectedOnlyCount(es: seq<Entry>, showAverage: bool)
    requires |es| > 0
    ensures Summarize(es, showAverage).date == SummarizeCorrected(es, showAverage).date
    ensures Summarize(es, showAverage).value == SummarizeCorrected(es, showAverage).value
    ensures Summarize(es, showAverage).count + (if showAverage then 1 else 0)
         == SummarizeCorrected(es, showAverage).count
  {
  }

  /** Two averaged values are reported as one, so the card shows a date
      instead of "2 values". */
  lemma AverageCountOffByOne(a: Entry, b: Entry)
    ensures Summarize([a, b], true).count == 1
    ensures SummarizeCorrected([a, b], true).count == 2
  {
  }

  function MetricIdsOf(values: seq<MetricValue>): set<string> {
    set v | v in values :: v.metricId
  }

  /** `valuesByMetric`: one summary per metric id that has a value. */
  function ValuesByMetric(values: seq<MetricValue>, showAverage: bool): (r: map<string, Summary>)
    ensures r.Keys == MetricIdsOf(values)
    ensures forall id | id in r :: |EntriesOf(values, id)| > 0 && r[id] == Summarize(EntriesOf(values, id), showAverage)
  {
    map id | id in MetricIdsOf(values) :: MetricSummary(values, id, showAverage)
  }

  /** The card of one metric id that has a value. */
  function MetricSummary(values: seq<MetricValue>, id: string, showAverage: bool): (r: Summary)
    requires id in MetricIdsOf(values)
    ensures |EntriesOf(values, id)| > 0 && r == Summarize(EntriesOf(values, id), showAverage)
  {
    IdHasEntries(values, id);
    Summarize(EntriesOf(values, id), showAverage)
  }

  /** A metric id with a value has entries to summarise. */
  lemma IdHasEntries(values: seq<MetricValue>, id: string)
    requires id in MetricIdsOf(values)
    ensures |EntriesOf(values, id)| > 0
  {
    var v :| v in values && v.metricId == id;
  }

  // ---------------------------------------------------------------------
  // Selection

  /** `toggleMetric`: deselect every occurrence, or append. */
  function ToggleMetric(selected: seq<string>, id: string): (r: seq<string>)
    ensures id in r <==> id !in selected
    ensures forall x | x != id :: x in r <==> x in selected
  {
    if id in selected then Filter(selected, (x: string) => x != id) else selected + [id]
  }

  /** `removeMetric`: every occurrence of `id` goes, the rest stay in order. */
  function RemoveMetric(selected: seq<string>, id: string): (r: seq<string>)
    ensures id !in r
    ensures forall x | x != id :: x in r <==> x in selected
  {
    Filter(selected, (x: string) => x != id)
  }

  lemma ToggleTwiceRestoresMembership(selected: seq<string>, id: string, x: string)
    ensures x in ToggleMetric(ToggleMetric(selected, id), id) <==> x in selected
  {
  }

  /** Toggling an unselected metric on and off gives back the selection. */
  lemma {:induction false} ToggleTwiceRestores(selected: seq<string>, id: string)
    requires id !in selected
    ensures ToggleMetric(ToggleMetric(selected, id), id) == selected
  {
    FilterAppend(selected, [id], (x: string) => x != id);
    FilterKeepsAll(selected, (x: string) => x != id);
  }

  // ---------------------------------------------------------------------
  // Send to top

  /** `sendToTop`: the metric moves to the front of the saved order; when
      saving the new order fails the old one is restored. */
  function SendToTop(order: seq<string>, id: string, saved: bool): (r: seq<string>)
    ensures IndexOf(order, id) <= 0 || !saved ==> r == order
    ensures IndexOf(order, id) > 0 && saved ==>
      r == [id] + RemoveAt(order, IndexOf(order, id)) && multiset(r) == multiset(order)
  {
    var index := IndexOf(order, id);
    if index == -1 || index == 0 then order
    else
      var newOrder := [id] + RemoveAt(order, index);
      assert order == order[..index] + [id] + order[index + 1..];
      if saved then newOrder else order
  }

  /** Once on top the metric stays there: sending it again changes nothing. */
  lemma SendToTopIdempotent(order: seq<string>, id: string)
    requires id in order
    ensures var once := SendToTop(order, id, true);
      once[0] == id && SendToTop(once, id, true) == once
  {
  }

  /** In an order without repeated ids, a saved send to top puts the metric
      first and keeps every other metric in its relative order: what is left
      after the metric is the order with the metric removed. */
  lemma SendToTopMovesOne(order: seq<string>, id: string)
    requires id in order && Distinct(order)
    ensures SendToTop(order, id, true) == [id] + RemoveMetric(order, id)
  {
    var i := IndexOf(order, id);
    var before, after := order[..i], order[i + 1..];
    assert RemoveAt(order, i) == before + after;
    assert order == (before + [id]) + after;
    DistinctAround(order, i);
    FilterDropsOne(before, id, after, (x: string) => x != id);
  }

  // ---------------------------------------------------------------------
  // Grid height

  const DefaultGridHeight: int := 192
  const MinGridHeight: int := 96
  const KeyboardStep: int := 48

  /** Dragging the handle by `delta` from `start`, limited by the content height. */
  function DragHeight(start: int, delta: int, maxHeight: int): (h: int)
    ensures h >= MinGridHeight
    ensures MinGridHeight <= maxHeight ==> h <= maxHeight
    ensures MinGridHeight <= start + delta <= maxHeight ==> h == start + delta
  {
    var capped := if start + delta < maxHeight then start + delta else maxHeight;
    if capped > MinGridHeight then capped else MinGridHeight
  }

  /** Arrow Down grows by one step, up to the content height. */
  function ArrowDownHeight(h: int, maxHeight: int): (r: int)
    ensures r <= maxHeight && r <= h + KeyboardStep
    ensures h + KeyboardStep <= maxHeight ==> r == h + KeyboardStep
  {
    if h + KeyboardStep < maxHeight then h + KeyboardStep else maxHeight
  }

  /** Arrow Up shrinks by one step, down to the minimum. */
  function ArrowUpHeight(h: int): (r: int)
    ensures r >= MinGridHeight && r >= h - KeyboardStep
    ensures h - KeyboardStep >= MinGridHeight ==> r == h - KeyboardStep
  {
    if h - KeyboardStep > MinGridHeight then h - KeyboardStep else MinGridHeight
  }

  /** While the content is at least the minimum height, every resize keeps
      the grid between the minimum and the content height. */
  lemma ResizeKeepsBounds(h: int, start: int, delta: int, maxHeight: int)
    requires MinGridHeight <= h <= maxHeight
    ensures MinGridHeight <= DragHeight(start, delta, maxHeight) <= maxHeight
    ensures MinGridHeight <= ArrowDownHeight(h, maxHeight) <= maxHeight
    ensures MinGridHeight <= ArrowUpHeight(h) <= maxHeight
  {
  }
}
