/** The data behind one metric chart (web/src/components/metric-chart.tsx):
    the points plotted, the y-axis domain, and the latest-value badge. */
module Chart {
  import opened Wrappers
  import opened Seqs
  import opened Lab
  import Sorting
  import Dates
  import Dashboard

  /** A plotted point: normalised date and value. */
  datatype Point = Point(date: string, value: real)

  /** Ascending date order of metric values. */
  function ValueLe(): (MetricValue, MetricValue) -> bool {
    (a: MetricValue, b: MetricValue) => Dates.CompareDateAsc(a.date, b.date) <= 0
  }

  lemma ValueLeIsTotalPreorder()
    ensures Sorting.TotalPreorder(ValueLe())
  {
    var le := ValueLe();
    forall a: MetricValue, b: MetricValue ensures le(a, b) || le(b, a) {
      Dates.CompareDateAntisymmetric(a.date, b.date);
    }
    forall a: MetricValue, b: MetricValue, c: MetricValue | le(a, b) && le(b, c) ensures le(a, c) {
      Dates.CompareDateTransitive(a.date, b.date, c.date);
    }
  }

  function ToPoint(v: MetricValue): Point {
    Point(Dates.Normalize(v.date), v.value)
  }

  /** The metric's values sorted by date (stably), before normalisation. */
  function SortedValues(values: seq<MetricValue>, id: string): (r: seq<MetricValue>)
    ensures multiset(r) == multiset(ValuesFor(values, id))
    ensures Sorting.SortedBy(r, ValueLe())
  {
    ValueLeIsTotalPreorder();
    Sorting.Sort(ValuesFor(values, id), ValueLe())
  }

  /** `chartData`: this metric's values, sorted by date, dates normalised. */
  function ChartData(values: seq<MetricValue>, id: string): (r: seq<Point>)
    ensures |r| == |ValuesFor(values, id)|
    ensures forall i | 0 <= i < |r| :: r[i] == ToPoint(SortedValues(values, id)[i])
  {
    var s := SortedValues(values, id);
    assert |s| == |ValuesFor(values, id)| by {
      assert |multiset(s)| == |multiset(ValuesFor(values, id))|;
    }
    PointsOf(s)
  }

  /** Every plotted point is a value of this metric. */
  lemma ChartDataOnlyMetric(values: seq<MetricValue>, id: string)
    ensures var r := ChartData(values, id);
      forall i | 0 <= i < |r| :: exists v | v in values :: v.metricId == id && r[i] == ToPoint(v)
  {
    var r := ChartData(values, id);
    var s := SortedValues(values, id);
    forall i | 0 <= i < |r| ensures exists v | v in values :: v.metricId == id && r[i] == ToPoint(v) {
      assert s[i] in multiset(s);
    }
  }

  /** Every value of this metric is plotted. */
  lemma ChartDataComplete(values: seq<MetricValue>, id: string)
    ensures forall v | v in values && v.metricId == id :: ToPoint(v) in ChartData(values, id)
  {
    var r := ChartData(values, id);
    var s := SortedValues(values, id);
    forall v | v in values && v.metricId == id ensures ToPoint(v) in r {
      assert v in multiset(s);
      var k :| 0 <= k < |s| && s[k] == v;
      assert r[k] == ToPoint(v);
    }
  }

  /** The points run in ascending date order. */
  lemma ChartDataSorted(values: seq<MetricValue>, id: string)
    ensures var r := ChartData(values, id);
      forall i, j | 0 <= i < j < |r| :: Dates.CompareDateAsc(r[i].date, r[j].date) <= 0
  {
    var r := ChartData(values, id);
    var s := SortedValues(values, id);
    forall i, j | 0 <= i < j < |r| ensures Dates.CompareDateAsc(r[i].date, r[j].date) <= 0 {
      assert ValueLe()(s[i], s[j]);
      Dates.CompareNormalized(s[i].date, s[j].date);
    }
  }

  /** The chart is empty exactly when the metric has no value at all. */
  lemma ChartDataEmptyIff(values: seq<MetricValue>, id: string)
    ensures |ChartData(values, id)| == 0 <==> forall v | v in values :: v.metricId != id
  {
    var f := ValuesFor(values, id);
    if |f| > 0 {
      assert f[0] in f;
    }
  }

  function PointsOf(s: seq<MetricValue>): (r: seq<Point>)
    ensures |r| == |s| && forall i | 0 <= i < |s| :: r[i] == ToPoint(s[i])
  {
    seq(|s|, i requires 0 <= i < |s| => ToPoint(s[i]))
  }

  function MinOf(xs: seq<real>): (m: real)
    requires |xs| > 0
    ensures m in xs && forall x | x in xs :: m <= x
  {
    if |xs| == 1 then xs[0]
    else
      var t := MinOf(xs[1..]);
      assert forall x | x in xs[1..] :: x in xs;
      assert xs == [xs[0]] + xs[1..];
      if xs[0] <= t then xs[0] else t
  }

  function MaxOf(xs: seq<real>): (m: real)
    requires |xs| > 0
    ensures m in xs && forall x | x in xs :: x <= m
  {
    if |xs| == 1 then xs[0]
    else
      var t := MaxOf(xs[1..]);
      assert forall x | x in xs[1..] :: x in xs;
      assert xs == [xs[0]] + xs[1..];
      if xs[0] >= t then xs[0] else t
  }

  function Min(a: real, b: real): real { if a <= b then a else b }
  function Max(a: real, b: real): real { if a >= b then a else b }

  /** The span the axis must show: the data together with whichever
      reference bounds the metric has. */
  function RangeMin(xs: seq<real>, refMin: Option<real>): real
    requires |xs| > 0
  {
    Min(MinOf(xs), refMin.GetOr(MinOf(xs)))
  }

  function RangeMax(xs: seq<real>, refMax: Option<real>): real
    requires |xs| > 0
  {
    Max(MaxOf(xs), refMax.GetOr(MaxOf(xs)))
  }

  /** The y-axis domain as written: 10% headroom on both sides, and the
      lower end clamped to 0 unconditionally. */
  function YDomainAsWritten(xs: seq<real>, refMin: Option<real>, refMax: Option<real>): (d: (real, real))
    requires |xs| > 0
    ensures d.0 >= 0.0
    ensures forall x | x in xs :: x <= d.1
    ensures refMax.Some? ==> refMax.value <= d.1
  {
    var rangeMin := RangeMin(xs, refMin);
    var rangeMax := RangeMax(xs, refMax);
    var padding := (rangeMax - rangeMin) * 0.1;
    (Max(0.0, rangeMin - padding), rangeMax + padding)
  }

  /** With a non-negative top of range the written domain is well formed. */
  lemma YDomainAsWrittenOrdered(xs: seq<real>, refMin: Option<real>, refMax: Option<real>)
    requires |xs| > 0
    requires RangeMax(xs, refMax) >= 0.0
    ensures YDomainAsWritten(xs, refMin, refMax).0 <= YDomainAsWritten(xs, refMin, refMax).1
  {
  }

  /** A metric whose values are all negative (a base excess of -5, say)
      gets the inverted domain [0, -5]. */
  lemma YDomainAsWrittenInverted()
    ensures YDomainAsWritten([-5.0], None, None) == (0.0, -5.0)
  {
    assert MinOf([-5.0]) == -5.0 && MaxOf([-5.0]) == -5.0;
  }

  /** The y-axis domain with the clamp applied only when the range is
      non-negative, which is when the metric cannot be negative. */
  function YDomain(xs: seq<real>, refMin: Option<real>, refMax: Option<real>): (d: (real, real))
    requires |xs| > 0
    ensures d.0 <= d.1
    ensures forall x | x in xs :: d.0 <= x <= d.1
    ensures refMin.Some? ==> d.0 <= refMin.value
    ensures refMax.Some? ==> refMax.value <= d.1
    ensures RangeMin(xs, refMin) >= 0.0 ==> d.0 >= 0.0
  {
    var rangeMin := RangeMin(xs, refMin);
    var rangeMax := RangeMax(xs, refMax);
    var padding := (rangeMax - rangeMin) * 0.1;
    var low := if rangeMin >= 0.0 then Max(0.0, rangeMin - padding) else rangeMin - padding;
    (low, rangeMax + padding)
  }

  /** The correction only changes charts whose range dips below zero. */
  lemma YDomainAgreesWhenNonNegative(xs: seq<real>, refMin: Option<real>, refMax: Option<real>)
    requires |xs| > 0
    requires RangeMin(xs, refMin) >= 0.0
    ensures YDomain(xs, refMin, refMax) == YDomainAsWritten(xs, refMin, refMax)
  {
  }

  /** What the component renders. */
  datatype ChartView =
    | NoData
    | Plot(points: seq<Point>, yMin: real, yMax: real, latest: real, inRange: bool)

  function ValuesOf(ps: seq<Point>): (r: seq<real>)
    ensures |r| == |ps| && forall i | 0 <= i < |ps| :: r[i] == ps[i].value
  {
    seq(|ps|, i requires 0 <= i < |ps| => ps[i].value)
  }

  /** `MetricChart`: the no-data card when the metric has no values, else
      the plot with the domain as written and the badge of the last point. */
  function ChartOf(metric: Metric, values: seq<MetricValue>): (r: ChartView)
    ensures r.NoData? <==> forall v | v in values :: v.metricId != metric.id
    ensures r.Plot? ==> r.points == ChartData(values, metric.id) && |r.points| > 0
    ensures r.Plot? ==> r.latest == r.points[|r.points| - 1].value
    ensures r.Plot? ==> r.inRange == Dashboard.IsValueInRange(Some(r.latest), metric.refMin, metric.refMax)
    ensures r.Plot? ==> r.yMin >= 0.0 && forall p | p in r.points :: p.value <= r.yMax
  {
    var points := ChartData(values, metric.id);
    ChartDataEmptyIff(values, metric.id);
    if |points| == 0 then NoData
    else
      var (yMin, yMax) := YDomainAsWritten(ValuesOf(points), metric.refMin, metric.refMax);
      var latest := points[|points| - 1].value;
      ValuesOfHas(points);
      Plot(points, yMin, yMax, latest, Dashboard.IsValueInRange(Some(latest), metric.refMin, metric.refMax))
  }

  /** Every plotted value is among the values the domain is computed from. */
  lemma ValuesOfHas(points: seq<Point>)
    ensures forall p | p in points :: p.value in ValuesOf(points)
  {
    forall p | p in points ensures p.value in ValuesOf(points) {
      var k :| 0 <= k < |points| && points[k] == p;
      assert ValuesOf(points)[k] == p.value;
    }
  }

  /** The chart with the corrected domain: the same card, points and badge,
      with the lower end of the axis clamped only for a non-negative range. */
  function ChartOfCorrected(metric: Metric, values: seq<MetricValue>): (r: ChartView)
    ensures r.NoData? <==> ChartOf(metric, values).NoData?
    ensures r.Plot? ==> r == ChartOf(metric, values).(yMin := r.yMin, yMax := r.yMax)
  {
    var c := ChartOf(metric, values);
    if c.NoData? then c
    else
      var (yMin, yMax) := YDomain(ValuesOf(c.points), metric.refMin, metric.refMax);
      c.(yMin := yMin, yMax := yMax)
  }

  /** With the corrected domain the axis is well formed and shows every
      point and both reference lines. */
  lemma ChartDomainCoversPoints(metric: Metric, values: seq<MetricValue>)
    requires ChartOfCorrected(metric, values).Plot?
    ensures var c := ChartOfCorrected(metric, values);
      && c.yMin <= c.yMax
      && (forall p | p in c.points :: c.yMin <= p.value <= c.yMax)
      && (metric.refMin.Some? ==> c.yMin <= metric.refMin.value)
      && (metric.refMax.Some? ==> metric.refMax.value <= c.yMax)
  {
    var c := ChartOfCorrected(metric, values);
    var xs := ValuesOf(c.points);
    var d := YDomain(xs, metric.refMin, metric.refMax);
    assert c.yMin == d.0 && c.yMax == d.1;
    ValuesOfHas(c.points);
  }

  /** The chart as written and the corrected chart are the same whenever
      no plotted value and no reference bound is negative. */
  lemma ChartAgreesWhenNonNegative(metric: Metric, values: seq<MetricValue>)
    requires ChartOf(metric, values).Plot?
    requires forall p | p in ChartOf(metric, values).points :: p.value >= 0.0
    requires metric.refMin.Some? ==> metric.refMin.value >= 0.0
    ensures ChartOfCorrected(metric, values) == ChartOf(metric, values)
  {
    var c := ChartOf(metric, values);
    var xs := ValuesOf(c.points);
    forall x | x in xs ensures x >= 0.0 {
      var k :| 0 <= k < |xs| && xs[k] == x;
      assert c.points[k] in c.points;
    }
    assert RangeMin(xs, metric.refMin) >= 0.0;
    YDomainAgreesWhenNonNegative(xs, metric.refMin, metric.refMax);
  }

  /** The badge value is the value of the last metric value in date order. */
  lemma BadgeIsLastSorted(metric: Metric, values: seq<MetricValue>)
    requires ChartOf(metric, values).Plot?
    ensures var s := SortedValues(values, metric.id);
      |s| > 0 && ChartOf(metric, values).latest == s[|s| - 1].value
  {
    var s := SortedValues(values, metric.id);
    var r := ChartData(values, metric.id);
    assert |s| == |r| by {
      assert |multiset(s)| == |multiset(ValuesFor(values, metric.id))|;
    }
    assert r[|r| - 1] == ToPoint(s[|s| - 1]);
  }

  /** `f[i]` has the latest date in `f`, and every later element of `f` is
      strictly earlier. */
  predicate LastOfLatest(f: seq<MetricValue>, i: int) {
    && 0 <= i < |f|
    && (forall v | v in f :: ValueLe()(v, f[i]))
    && (forall j | i < j < |f| :: !ValueLe()(f[i], f[j]))
  }

  /** The badge shows the value the dashboard card shows for the metric
      (without averaging): of the latest-dated values, the one that comes
      last in the input. */
  lemma BadgeIsLatest(metric: Metric, values: seq<MetricValue>) returns (i: nat)
    requires ChartOf(metric, values).Plot?
    ensures LastOfLatest(ValuesFor(values, metric.id), i)
    ensures ChartOf(metric, values).latest == ValuesFor(values, metric.id)[i].value
  {
    BadgeIsLastSorted(metric, values);
    i := LastSortedIsLastOfLatest(values, metric.id);
  }

  /** The last of the date-sorted values of a metric is the last of its
      latest-dated values. */
  lemma LastSortedIsLastOfLatest(values: seq<MetricValue>, id: string) returns (i: nat)
    requires |SortedValues(values, id)| > 0
    ensures var s := SortedValues(values, id);
      LastOfLatest(ValuesFor(values, id), i) && ValuesFor(values, id)[i] == s[|s| - 1]
  {
    var f := ValuesFor(values, id);
    var s := SortedValues(values, id);
    ValueLeIsTotalPreorder();
    assert s == Sorting.Sort(f, ValueLe());
    i := LastOfSortIsLastOfLatest(f);
  }

  lemma LastOfSortIsLastOfLatest(f: seq<MetricValue>) returns (i: nat)
    requires |f| > 0
    ensures Sorting.TotalPreorder(ValueLe())
    ensures LastOfLatest(f, i) && f[i] == Sorting.Sort(f, ValueLe())[|f| - 1]
  {
    ValueLeIsTotalPreorder();
    i := Sorting.SortLastIndex(f, ValueLe());
  }
}
