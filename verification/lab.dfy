/** The lab-result records the dashboard and the charts display.  They are
    declared in web/src/lib/sheets, which is not part of this model; the
    fields below are the ones the modelled code reads. */
module Lab {
  import opened Wrappers
  import Seqs

  datatype Metric = Metric(id: string, name: string, unit: string, refMin: Option<real>, refMax: Option<real>)

  /** One measured value of a metric on a date (ISO or US form). */
  datatype MetricValue = MetricValue(metricId: string, date: string, value: real)

  /** The values of metric `id`, in input order. */
  function ValuesFor(values: seq<MetricValue>, id: string): (r: seq<MetricValue>)
    ensures |r| <= |values|
    ensures forall v :: v in r <==> v in values && v.metricId == id
  {
    Seqs.Filter(values, (v: MetricValue) => v.metricId == id)
  }
}
