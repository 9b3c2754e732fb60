/** The extraction evaluation scripts: merging the per-page answers of the
    vision model into one flat list of metrics, scoring a list against the
    expected one, the run totals, the command-line options and the 32-bit
    prompt hash. */
module Evals {
  import opened Wrappers
  import opened Text
  import opened Seqs
  import opened JsObject

  // ---------------------------------------------------------------------
  // Values read from JSON
  // ---------------------------------------------------------------------

  /** A JavaScript value as read from a JSON file. Objects and arrays are
      `Compound`: `===` compares them by identity, and two values parsed
      separately are never the same object. */
  datatype Value = Undefined | Null | Bool(b: bool) | Num(x: real) | Str(s: string) | Compound

  /** `a === b`. */
  predicate StrictEquals(a: Value, b: Value) {
    a == b && !a.Compound?
  }

  /** JavaScript truthiness (JSON holds no `NaN`). */
  predicate Truthy(v: Value) {
    match v
    case Undefined => false
    case Null => false
    case Bool(b) => b
    case Num(x) => x != 0.0
    case Str(s) => s != ""
    case Compound => true
  }

  /** `v ?? null`. */
  function OrNull(v: Value): (r: Value)
    ensures r.Null? <==> v.Null? || v.Undefined?
    ensures !r.Null? ==> r == v
  {
    if v.Null? || v.Undefined? then Null else v
  }

  // ---------------------------------------------------------------------
  // Scoring (score-run.mjs and run-eval.mjs carry the same `score`)
  // ---------------------------------------------------------------------

  datatype Metric = Metric(name: string, value: Value, unit: Value, refLow: Value, refHigh: Value)

  /** An extraction: the sample date and the metrics. */
  datatype Extraction = Extraction(sampleDate: Value, metrics: seq<Metric>)

  datatype ValueError = ValueError(name: string, expected: Value, actual: Value)

  /** The score of one case. `accuracy` is the percentage before it is
      printed with one decimal, `None` for "N/A". */
  datatype Score = Score(
    dateExpected: Value, dateActual: Value, dateMatch: bool,
    expected: nat, extracted: nat, matched: nat, missed: seq<string>, hallucinated: seq<string>,
    correct: nat, wrong: nat, accuracy: Option<real>, errors: seq<ValueError>)

  /** The entries `m.name -> m` in list order. */
  function Entries(metrics: seq<Metric>): (r: seq<(string, Metric)>)
    ensures |r| == |metrics| && forall i | 0 <= i < |metrics| :: r[i] == (metrics[i].name, metrics[i])
  {
    seq(|metrics|, i requires 0 <= i < |metrics| => (metrics[i].name, metrics[i]))
  }

  /** `for (const m of metrics) map[m.name] = m`. */
  function ByName(metrics: seq<Metric>): Obj<Metric> {
    FromEntries(Entries(metrics))
  }

  /** The last metric called `name`. */
  function LastNamed(metrics: seq<Metric>, name: string): (r: Option<Metric>)
    ensures r.Some? ==> r.value in metrics && r.value.name == name
    ensures r.None? <==> forall i | 0 <= i < |metrics| :: metrics[i].name != name
  {
    if |metrics| == 0 then None
    else if metrics[|metrics| - 1].name == name then Some(metrics[|metrics| - 1])
    else LastNamed(metrics[..|metrics| - 1], name)
  }

  /** A later metric with the same name overrides earlier ones. */
  lemma {:induction false} ByNameGet(metrics: seq<Metric>, name: string)
    ensures WellFormed(ByName(metrics))
    ensures Get(ByName(metrics), name) == LastNamed(metrics, name)
    decreases |metrics|
  {
    FromEntriesWellFormed(Entries(metrics));
    FromEntriesGet(Entries(metrics), name);
    LastValueNamed(metrics, name);
  }

  lemma {:induction false} LastValueNamed(metrics: seq<Metric>, name: string)
    ensures LastValue(Entries(metrics), name) == LastNamed(metrics, name)
    decreases |metrics|
  {
    if |metrics| > 0 {
      var p := metrics[..|metrics| - 1];
      assert Entries(metrics)[..|metrics| - 1] == Entries(p);
      LastValueNamed(p, name);
    }
  }

  /** The distinct names, in order of first appearance. */
  function Names(metrics: seq<Metric>): seq<string> {
    Keys(ByName(metrics))
  }

  /** The names are distinct and are the names of the list. */
  lemma NamesExact(metrics: seq<Metric>, name: string)
    ensures Distinct(Names(metrics))
    ensures name in Names(metrics) <==> exists i | 0 <= i < |metrics| :: metrics[i].name == name
  {
    FromEntriesWellFormed(Entries(metrics));
    var o := ByName(metrics);
    forall i, j | 0 <= i < j < |o| ensures Names(metrics)[i] != Names(metrics)[j] {
    }
    FromEntriesKeys(Entries(metrics), name);
    if exists i | 0 <= i < |metrics| :: metrics[i].name == name {
      var i :| 0 <= i < |metrics| && metrics[i].name == name;
      assert Entries(metrics)[i].0 == name;
    }
  }

  /** `matched`: the expected names the extraction also has. */
  function Matched(actual: Extraction, expected: Extraction): seq<string> {
    var act := Names(actual.metrics);
    Filter(Names(expected.metrics), n => n in act)
  }

  /** `missed`: the expected names the extraction lacks. */
  function Missed(actual: Extraction, expected: Extraction): seq<string> {
    var act := Names(actual.metrics);
    Filter(Names(expected.metrics), n => n !in act)
  }

  /** `hallucinated`: the extracted names nobody expected. */
  function Hallucinated(actual: Extraction, expected: Extraction): seq<string> {
    var exp := Names(expected.metrics);
    Filter(Names(actual.metrics), n => n !in exp)
  }

  /** `map[name].value`; the scorer only reads names present in the map. */
  function ValueOf(o: Obj<Metric>, name: string): Value {
    match Get(o, name)
    case Some(m) => m.value
    case None => Undefined
  }

  /** `n => map[n].value` for the metrics of an extraction. */
  function ValuesOf(x: Extraction): string -> Value {
    var o := ByName(x.metrics);
    n => ValueOf(o, n)
  }

  /** The value comparison over the matched names: the counts of equal and
      different values, and one error per difference; `expOf` and `actOf`
      read a name's expected and extracted value. */
  function Tally(names: seq<string>, expOf: string -> Value, actOf: string -> Value): (r: (nat, nat, seq<ValueError>))
    ensures r.0 + r.1 == |names| && |r.2| == r.1
    decreases |names|
  {
    if |names| == 0 then (0, 0, [])
    else
      var rest := Tally(names[1..], expOf, actOf);
      var n := names[0];
      var e := expOf(n);
      var a := actOf(n);
      if StrictEquals(a, e) then (rest.0 + 1, rest.1, rest.2)
      else (rest.0, rest.1 + 1, [ValueError(n, e, a)] + rest.2)
  }

  /** Each recorded error names one of the names, with the two values,
      which differ. */
  lemma {:induction false} TallyErrors(names: seq<string>, expOf: string -> Value, actOf: string -> Value, k: nat)
    requires k < |Tally(names, expOf, actOf).2|
    ensures var e := Tally(names, expOf, actOf).2[k];
      && e.name in names && e.expected == expOf(e.name) && e.actual == actOf(e.name)
      && !StrictEquals(e.actual, e.expected)
    decreases |names|
  {
    var n := names[0];
    if StrictEquals(actOf(n), expOf(n)) {
      TallyErrors(names[1..], expOf, actOf, k);
    } else if k > 0 {
      TallyErrors(names[1..], expOf, actOf, k - 1);
    }
  }

  /** Each name whose two values differ has its error recorded; `k` is its
      position. */
  lemma {:induction false} TallyComplete(names: seq<string>, expOf: string -> Value, actOf: string -> Value, n: string)
    returns (k: nat)
    requires n in names && !StrictEquals(actOf(n), expOf(n))
    ensures k < |Tally(names, expOf, actOf).2| && Tally(names, expOf, actOf).2[k].name == n
    decreases |names|
  {
    var m := names[0];
    var differs := !StrictEquals(actOf(m), expOf(m));
    if m == n {
      k := 0;
    } else {
      assert n in names[1..];
      var j := TallyComplete(names[1..], expOf, actOf, n);
      k := if differs then j + 1 else j;
    }
  }

  /** `score(actual, expected)`: `None` when there is nothing to compare
      against. */
  function ScoreCase(actual: Extraction, expected: Option<Extraction>): (r: Option<Score>)
    ensures r.None? <==> expected.None?
    ensures r.Some? ==> (
      && r.value.dateMatch == StrictEquals(actual.sampleDate, expected.value.sampleDate)
      && r.value.correct + r.value.wrong == r.value.matched && |r.value.errors| == r.value.wrong
      && (r.value.accuracy.None? <==> r.value.matched == 0)
      && (r.value.accuracy.Some? ==> 0.0 <= r.value.accuracy.value <= 100.0))
  {
    if expected.None? then None
    else
      var exp := expected.value;
      var matched := Matched(actual, exp);
      var tally := Tally(matched, ValuesOf(exp), ValuesOf(actual));
      var accuracy := Accuracy(tally.0, |matched|);
      Some(Score(
        exp.sampleDate, actual.sampleDate, StrictEquals(actual.sampleDate, exp.sampleDate),
        |Names(exp.metrics)|, |Names(actual.metrics)|, |matched|,
        Missed(actual, exp), Hallucinated(actual, exp),
        tally.0, tally.1, accuracy, tally.2))
  }

  /** The share of correct values in percent, `None` ("N/A") when nothing
      matched. */
  function Accuracy(correct: nat, matched: nat): (r: Option<real>)
    requires correct <= matched
    ensures r.None? <==> matched == 0
    ensures r.Some? ==> 0.0 <= r.value <= 100.0
    ensures r.Some? ==> (r.value == 100.0 <==> correct == matched)
  {
    if matched > 0 then
      var share := correct as real / matched as real;
      assert share * matched as real == correct as real;
      Some(share * 100.0)
    else None
  }

  /** Every matched name is a key of both maps. */
  lemma MatchedInBoth(actual: Extraction, expected: Extraction)
    ensures forall n | n in Matched(actual, expected) ::
      Get(ByName(expected.metrics), n).Some? && Get(ByName(actual.metrics), n).Some?
  {
  }

  /** Keeping and dropping by the same test split a list in two. */
  lemma {:induction false} FilterSplits<T(!new)>(s: seq<T>, p: T -> bool, q: T -> bool)
    requires forall x | x in s :: q(x) == !p(x)
    ensures |Filter(s, p)| + |Filter(s, q)| == |s|
    decreases |s|
  {
    if |s| > 0 {
      FilterSplits(s[1..], p, q);
    }
  }

  /** `matched` and `missed` partition the expected names: each expected
      name is in exactly one, and their sizes add up. */
  lemma ScorePartition(actual: Extraction, expected: Extraction, n: string)
    ensures n in Matched(actual, expected) <==> n in Names(expected.metrics) && n in Names(actual.metrics)
    ensures n in Missed(actual, expected) <==> n in Names(expected.metrics) && n !in Names(actual.metrics)
    ensures |Matched(actual, expected)| + |Missed(actual, expected)| == |Names(expected.metrics)|
  {
    var act := Names(actual.metrics);
    FilterSplits(Names(expected.metrics), n => n in act, n => n !in act);
  }

  /** `hallucinated` is the extracted names not expected, so together with
      `matched` it covers exactly the extracted names. */
  lemma ScoreHallucinated(actual: Extraction, expected: Extraction, n: string)
    ensures n in Hallucinated(actual, expected) <==> n in Names(actual.metrics) && n !in Names(expected.metrics)
    ensures (n in Matched(actual, expected) || n in Hallucinated(actual, expected)) <==> n in Names(actual.metrics)
    ensures !(n in Matched(actual, expected) && n in Hallucinated(actual, expected))
  {
  }

  /** The value errors of a score name matched metrics whose last values
      differ, and the counts are those of the matched names. */
  lemma ScoreValues(actual: Extraction, expected: Extraction, k: nat)
    requires k < |ScoreCase(actual, Some(expected)).value.errors|
    ensures var s := ScoreCase(actual, Some(expected)).value;
      var e := s.errors[k];
      && e.name in Matched(actual, expected)
      && LastNamed(expected.metrics, e.name).Some? && e.expected == LastNamed(expected.metrics, e.name).value.value
      && LastNamed(actual.metrics, e.name).Some? && e.actual == LastNamed(actual.metrics, e.name).value.value
      && !StrictEquals(e.actual, e.expected)
      && s.matched == |Matched(actual, expected)|
  {
    var e := ScoreCase(actual, Some(expected)).value.errors[k];
    TallyErrors(Matched(actual, expected), ValuesOf(expected), ValuesOf(actual), k);
    MatchedInBoth(actual, expected);
    ByNameGet(expected.metrics, e.name);
    ByNameGet(actual.metrics, e.name);
  }

  /** Conversely, every matched name whose last values differ has an error
      in the score; `k` is its position. */
  lemma ScoreErrorsComplete(actual: Extraction, expected: Extraction, n: string) returns (k: nat)
    requires n in Matched(actual, expected)
    requires LastNamed(expected.metrics, n).Some? && LastNamed(actual.metrics, n).Some?
    requires !StrictEquals(LastNamed(actual.metrics, n).value.value, LastNamed(expected.metrics, n).value.value)
    ensures k < |ScoreCase(actual, Some(expected)).value.errors| && ScoreCase(actual, Some(expected)).value.errors[k].name == n
  {
    ByNameGet(expected.metrics, n);
    ByNameGet(actual.metrics, n);
    k := TallyComplete(Matched(actual, expected), ValuesOf(expected), ValuesOf(actual), n);
  }

  // ---------------------------------------------------------------------
  // Run totals (score-run.mjs)
  // ---------------------------------------------------------------------

  datatype CaseResult = CaseResult(name: string, output: Extraction)

  datatype Totals = Totals(expected: nat, matched: nat, correct: nat, wrong: nat, missed: nat, hallucinated: nat)

  /** Adds one case's score to the totals. */
  function AddScore(t: Totals, s: Score): Totals {
    Totals(t.expected + s.expected, t.matched + s.matched, t.correct + s.correct, t.wrong + s.wrong,
      t.missed + |s.missed|, t.hallucinated + |s.hallucinated|)
  }

  /** The totals over the results; `expectedOf(c)` is the case's
      `expected.json`, `None` when the file does not exist, and such cases
      are skipped. */
  function RunTotals(results: seq<CaseResult>, expectedOf: string -> Option<Extraction>): Totals
    decreases |results|
  {
    if |results| == 0 then Totals(0, 0, 0, 0, 0, 0)
    else
      var t := RunTotals(results[..|results| - 1], expectedOf);
      var c := results[|results| - 1];
      match ScoreCase(c.output, expectedOf(c.name))
      case None => t
      case Some(s) => AddScore(t, s)
  }

  /** The totals balance: matched and missed make up the expected names,
      correct and wrong make up the matched ones. */
  lemma {:induction false} TotalsBalance(results: seq<CaseResult>, expectedOf: string -> Option<Extraction>)
    ensures var t := RunTotals(results, expectedOf);
      t.matched + t.missed == t.expected && t.correct + t.wrong == t.matched
    decreases |results|
  {
    if |results| > 0 {
      TotalsBalance(results[..|results| - 1], expectedOf);
      var c := results[|results| - 1];
      var e := expectedOf(c.name);
      if e.Some? {
        ScorePartition(c.output, e.value, "");
      }
    }
  }

  /** A case without `expected.json` leaves the totals as they were. */
  lemma TotalsSkipUnscored(results: seq<CaseResult>, c: CaseResult, expectedOf: string -> Option<Extraction>)
    requires expectedOf(c.name).None?
    ensures RunTotals(results + [c], expectedOf) == RunTotals(results, expectedOf)
  {
    assert (results + [c])[..|results|] == results;
  }

  // ---------------------------------------------------------------------
  // Merging the pages (run-eval.mjs, extractFromImages)
  // ---------------------------------------------------------------------

  /** One test as the model reports it. */
  datatype Test = Test(value: Value, unit: Value, refLow: Value, refHigh: Value)

  /** The parsed answer for one page; `tests` is `None` when the answer has
      no (or a falsy) `tests` field. */
  datatype Page = Page(sampleDate: Value, tests: Option<Obj<Test>>)

  /** The API's reply for one page: an error (with its message, if any), a
      reply without content, or content. */
  datatype Reply = ApiError(message: Option<string>) | NoContent | Content(page: Page)

  datatype Merged = Merged(sampleDate: Value, tests: Obj<Test>)

  /** An extraction, or the error that stopped it. */
  datatype Outcome = Extracted(extraction: Extraction) | Failed(error: string)

  /** The text of the error thrown for a failed reply. */
  function ErrorText(message: Option<string>): (r: string)
    ensures message.Some? && message.value != "" ==> r == "OpenAI error: " + message.value
    ensures !(message.Some? && message.value != "") ==> r == "OpenAI error: Unknown"
  {
    "OpenAI error: " + if message.Some? && message.value != "" then message.value else "Unknown"
  }

  /** Folds the replies into `m`: each page's tests are assigned over the
      tests so far, and the first truthy page date is kept. */
  function MergeFrom(m: Merged, replies: seq<Reply>): (r: Result)
    decreases |replies|
  {
    if |replies| == 0 then Ok(m)
    else match replies[0]
      case ApiError(message) => Err(ErrorText(message))
      case NoContent => MergeFrom(m, replies[1..])
      case Content(page) =>
        var tests := if page.tests.Some? then Assign(m.tests, page.tests.value) else m.tests;
        var date := if !Truthy(m.sampleDate) && Truthy(page.sampleDate) then page.sampleDate else m.sampleDate;
        MergeFrom(Merged(date, tests), replies[1..])
  }

  datatype Result = Ok(merged: Merged) | Err(message: string)

  /** The message of the first failed reply, if any. */
  function FirstError(replies: seq<Reply>): (r: Option<string>)
    ensures r.Some? <==> exists i | 0 <= i < |replies| :: replies[i].ApiError?
    decreases |replies|
  {
    if |replies| == 0 then None
    else if replies[0].ApiError? then Some(ErrorText(replies[0].message))
    else FirstError(replies[1..])
  }

  /** The first truthy page date, if any. */
  function FirstDate(replies: seq<Reply>): (r: Option<Value>)
    ensures r.Some? ==> Truthy(r.value)
    decreases |replies|
  {
    if |replies| == 0 then None
    else if replies[0].Content? && Truthy(replies[0].page.sampleDate) then Some(replies[0].page.sampleDate)
    else FirstDate(replies[1..])
  }

  /** The test a name has after all replies: the one from the last page
      defining it. */
  function LastTest(replies: seq<Reply>, name: string): Option<Test>
    decreases |replies|
  {
    if |replies| == 0 then None
    else
      var later := LastTest(replies[1..], name);
      if later.Some? then later
      else if replies[0].Content? && replies[0].page.tests.Some? then LastValue(replies[0].page.tests.value, name)
      else None
  }

  /** The last value assigned to a key, read from the front. */
  lemma {:induction false} LastValueCons<V>(x: (string, V), rest: seq<(string, V)>, k: string)
    ensures LastValue([x] + rest, k) == if LastValue(rest, k).Some? then LastValue(rest, k) else if x.0 == k then Some(x.1) else None
    decreases |rest|
  {
    var s := [x] + rest;
    if |rest| > 0 {
      assert s[..|s| - 1] == [x] + rest[..|rest| - 1];
      LastValueCons(x, rest[..|rest| - 1], k);
    } else {
      assert s[..|s| - 1] == [];
    }
  }

  /** `Object.assign`: a key holds the value of its last assignment in the
      source, or its old value when the source does not assign it. */
  lemma {:induction false} GetAssign<V>(o: Obj<V>, src: Obj<V>, k: string)
    ensures Get(Assign(o, src), k) == if LastValue(src, k).Some? then LastValue(src, k) else Get(o, k)
    decreases |src|
  {
    if |src| > 0 {
      var x, rest := src[0], src[1..];
      var o' := Set(o, x.0, x.1);
      assert Assign(o, src) == Assign(o', rest);
      GetAssign(o', rest, k);
      GetSetAny(o, x.0, x.1, k);
      assert src == [x] + rest;
      LastValueCons(x, rest, k);
    }
  }

  /** Merging: it fails exactly when some reply failed, with the first
      failure's message; otherwise each test comes from the last page that
      reported it, and the date is the first truthy page date. */
  lemma {:induction false} MergeFromSpec(m: Merged, replies: seq<Reply>, name: string)
    ensures MergeFrom(m, replies).Err? <==> FirstError(replies).Some?
    ensures MergeFrom(m, replies).Err? ==> MergeFrom(m, replies).message == FirstError(replies).value
    ensures MergeFrom(m, replies).Ok? ==>
      Get(MergeFrom(m, replies).merged.tests, name) == (if LastTest(replies, name).Some? then LastTest(replies, name) else Get(m.tests, name))
    ensures MergeFrom(m, replies).Ok? ==>
      MergeFrom(m, replies).merged.sampleDate == (if Truthy(m.sampleDate) then m.sampleDate else FirstDate(replies).GetOr(m.sampleDate))
    decreases |replies|
  {
    if |replies| > 0 {
      match replies[0]
      case ApiError(_) =>
      case NoContent =>
        MergeFromSpec(m, replies[1..], name);
      case Content(page) =>
        var tests := if page.tests.Some? then Assign(m.tests, page.tests.value) else m.tests;
        var date := if !Truthy(m.sampleDate) && Truthy(page.sampleDate) then page.sampleDate else m.sampleDate;
        MergeFromSpec(Merged(date, tests), replies[1..], name);
        if page.tests.Some? {
          GetAssign(m.tests, page.tests.value, name);
        }
    }
  }

  /** `Object.entries(tests).map(...)`: one metric per test name; a falsy
      unit becomes null, missing reference bounds become null. */
  function Flatten(tests: Obj<Test>): (r: seq<Metric>)
    ensures |r| == |tests|
    ensures forall i | 0 <= i < |tests| :: r[i].name == tests[i].0 && r[i].value == tests[i].1.value
  {
    seq(|tests|, i requires 0 <= i < |tests| =>
      var t := tests[i].1;
      Metric(tests[i].0, t.value, if Truthy(t.unit) then t.unit else Null, OrNull(t.refLow), OrNull(t.refHigh)))
  }

  /** Flattening keeps a test's unit exactly when it is truthy and its
      bounds exactly when they are neither null nor missing, so a bound of
      0 survives; names stay unique. */
  lemma FlattenFields(tests: Obj<Test>, i: nat)
    requires i < |tests|
    ensures Flatten(tests)[i].unit == (if Truthy(tests[i].1.unit) then tests[i].1.unit else Null)
    ensures tests[i].1.refLow == Num(0.0) ==> Flatten(tests)[i].refLow == Num(0.0)
    ensures Flatten(tests)[i].refLow.Null? <==> tests[i].1.refLow.Null? || tests[i].1.refLow.Undefined?
    ensures Flatten(tests)[i].refHigh.Null? <==> tests[i].1.refHigh.Null? || tests[i].1.refHigh.Undefined?
  {
  }

  /** `extractFromImages`: merge the replies from an empty start, then
      flatten. */
  function ExtractFromPages(replies: seq<Reply>): (r: Outcome)
    ensures r.Failed? <==> exists i | 0 <= i < |replies| :: replies[i].ApiError?
  {
    MergeFromSpec(Merged(Null, []), replies, "");
    match MergeFrom(Merged(Null, []), replies)
    case Err(message) => Failed(message)
    case Ok(m) => Extracted(Extraction(m.sampleDate, Flatten(m.tests)))
  }

  /** The extraction's date is the first truthy page date, null when there
      is none. */
  lemma ExtractFromPagesDate(replies: seq<Reply>)
    requires ExtractFromPages(replies).Extracted?
    ensures ExtractFromPages(replies).extraction.sampleDate == FirstDate(replies).GetOr(Null)
  {
    MergeFromSpec(Merged(Null, []), replies, "");
  }

  /** A test name yields a metric exactly when some page reported it, with
      the value from the last such page. */
  lemma ExtractFromPagesTests(replies: seq<Reply>, name: string)
    requires ExtractFromPages(replies).Extracted?
    ensures var x := ExtractFromPages(replies).extraction;
      && ((exists i | 0 <= i < |x.metrics| :: x.metrics[i].name == name) <==> LastTest(replies, name).Some?)
      && (forall i | 0 <= i < |x.metrics| && x.metrics[i].name == name :: x.metrics[i].value == LastTest(replies, name).value.value)
  {
    var start := Merged(Null, []);
    MergeFromSpec(start, replies, name);
    MergedWellFormed(start, replies);
    var tests := MergeFrom(start, replies).merged.tests;
    assert ExtractFromPages(replies).extraction.metrics == Flatten(tests);
    FlattenNames(tests, name);
  }

  /** In the flat list of a well-formed object, the metric called `name`
      carries the object's value for `name`. */
  lemma FlattenNames(tests: Obj<Test>, name: string)
    requires WellFormed(tests)
    ensures (exists i | 0 <= i < |tests| :: Flatten(tests)[i].name == name) <==> Get(tests, name).Some?
    ensures forall i | 0 <= i < |tests| && Flatten(tests)[i].name == name :: Get(tests, name) == Some(tests[i].1)
  {
    FlattenHasName(tests, name);
    forall i | 0 <= i < |tests| && Flatten(tests)[i].name == name ensures Get(tests, name) == Some(tests[i].1) {
      GetAt(tests, i);
    }
  }

  lemma FlattenHasName(tests: Obj<Test>, name: string)
    ensures (exists i | 0 <= i < |tests| :: Flatten(tests)[i].name == name) <==> Get(tests, name).Some?
  {
    var x := Flatten(tests);
    if exists i | 0 <= i < |tests| :: x[i].name == name {
      var i :| 0 <= i < |tests| && x[i].name == name;
      assert Keys(tests)[i] == name;
    }
    if Get(tests, name).Some? {
      var k := IndexOf(Keys(tests), name);
      assert x[k].name == name;
    }
  }

  /** Merging keeps every test name unique. */
  lemma {:induction false} MergedWellFormed(m: Merged, replies: seq<Reply>)
    requires WellFormed(m.tests)
    ensures MergeFrom(m, replies).Ok? ==> WellFormed(MergeFrom(m, replies).merged.tests)
    decreases |replies|
  {
    if |replies| > 0 {
      match replies[0]
      case ApiError(_) =>
      case NoContent =>
        MergedWellFormed(m, replies[1..]);
      case Content(page) =>
        var tests := if page.tests.Some? then Assign(m.tests, page.tests.value) else m.tests;
        var date := if !Truthy(m.sampleDate) && Truthy(page.sampleDate) then page.sampleDate else m.sampleDate;
        if page.tests.Some? {
          AssignWellFormed(m.tests, page.tests.value);
        }
        MergedWellFormed(Merged(date, tests), replies[1..]);
    }
  }

  lemma {:induction false} AssignWellFormed<V>(o: Obj<V>, src: Obj<V>)
    requires WellFormed(o)
    ensures WellFormed(Assign(o, src))
    decreases |src|
  {
    if |src| > 0 {
      SetWellFormed(o, src[0].0, src[0].1);
      AssignWellFormed(Set(o, src[0].0, src[0].1), src[1..]);
    }
  }

  // ---------------------------------------------------------------------
  // Command-line options (run-eval.mjs, main)
  // ---------------------------------------------------------------------

  /** `args.includes(flag) ? args[args.indexOf(flag) + 1] : null`: the word
      after the first `flag`, `Undefined` when `flag` is the last word. */
  function FlagValue(args: seq<string>, flag: string): (r: Value)
    ensures flag !in args ==> r == Null
    ensures flag in args && IndexOf(args, flag) + 1 < |args| ==> r == Str(args[IndexOf(args, flag) + 1])
    ensures flag in args && IndexOf(args, flag) + 1 == |args| ==> r == Undefined
  {
    if flag in args then
      var i := IndexOf(args, flag) + 1;
      if i < |args| then Str(args[i]) else Undefined
    else Null
  }

  /** The model name: the word after `--model`, "gpt-4o" without one. */
  function ModelName(args: seq<string>): (r: Value)
    ensures "--model" !in args ==> r == Str("gpt-4o")
    ensures "--model" in args ==> r == FlagValue(args, "--model")
  {
    if "--model" in args then FlagValue(args, "--model") else Str("gpt-4o")
  }

  /** The test cases to run: those whose name contains the `--case` word,
      or all of them when it is absent or falsy. */
  function SelectCases(cases: seq<string>, args: seq<string>): (r: seq<string>) {
    var filter := FlagValue(args, "--case");
    if Truthy(filter) then Filter(cases, c => Contains(c, filter.s)) else cases
  }

  /** Every string contains the empty string. */
  lemma ContainsEmpty(s: string)
    ensures Contains(s, "")
  {
    assert StartsWith(s, "");
  }

  /** The selection keeps the order of the cases, and a case is selected
      exactly when it contains the word after `--case` (any case when there
      is no such word). */
  lemma SelectCasesExact(cases: seq<string>, args: seq<string>, c: string)
    ensures |SelectCases(cases, args)| <= |cases|
    ensures var filter := FlagValue(args, "--case");
      c in SelectCases(cases, args) <==> c in cases && (filter.Str? ==> Contains(c, filter.s))
  {
    var filter := FlagValue(args, "--case");
    if filter.Str? && filter.s == "" {
      ContainsEmpty(c);
    }
  }

  // ---------------------------------------------------------------------
  // The prompt hash (run-eval.mjs, simpleHash)
  // ---------------------------------------------------------------------

  const TwoTo31: int := 0x8000_0000
  const TwoTo32: int := 0x1_0000_0000

  /** ToInt32: `x | 0` for an integer `x`. */
  function Wrap32(x: int): (r: int)
    ensures -TwoTo31 <= r < TwoTo31
    ensures (r - x) % TwoTo32 == 0
  {
    (x + TwoTo31) % TwoTo32 - TwoTo31
  }

  /** Two integers with the same remainder wrap to the same int32. */
  lemma Wrap32Congruent(x: int, y: int)
    requires (x - y) % TwoTo32 == 0
    ensures Wrap32(x) == Wrap32(y)
  {
    var q := (x - y) / TwoTo32;
    assert x == y + q * TwoTo32;
    assert (x + TwoTo31) % TwoTo32 == (y + TwoTo31 + q * TwoTo32) % TwoTo32;
    ModShift(y + TwoTo31, q);
  }

  lemma ModShift(a: int, q: int)
    ensures (a + q * TwoTo32) % TwoTo32 == a % TwoTo32
  {
  }

  /** The UTF-16 code units of a string, as `charCodeAt` reads them:
      characters beyond the basic plane take a surrogate pair. */
  function CodeUnits(s: string): (r: seq<int>)
    ensures forall k | 0 <= k < |r| :: 0 <= r[k] < 0x1_0000
    ensures |r| >= |s|
  {
    if |s| == 0 then []
    else
      var c := s[0] as int;
      var head := if c < 0x1_0000 then [c] else [0xD800 + (c - 0x1_0000) / 0x400, 0xDC00 + (c - 0x1_0000) % 0x400];
      head + CodeUnits(s[1..])
  }

  /** One step of the loop: `((hash << 5) - hash + code) | 0`, where the
      shift itself works on int32. */
  function HashStep(hash: int, code: int): int {
    Wrap32(Wrap32(hash * 32) - hash + code)
  }

  /** The hash after the given code units, starting from 0. */
  function HashUnits(units: seq<int>): int
    decreases |units|
  {
    if |units| == 0 then 0 else HashStep(HashUnits(units[..|units| - 1]), units[|units| - 1])
  }

  /** `simpleHash(str)`: the hash written in base 16, with a minus sign when
      negative. */
  function SimpleHash(str: string): (r: string)
    ensures |r| >= 1 && ((r[0] == '-') <==> HashUnits(CodeUnits(str)) < 0)
  {
    IntToString(HashUnits(CodeUnits(str)), 16)
  }

  /** The polynomial the hash computes before wrapping: each code unit
      weighted by 31 to the number of units after it. */
  function Poly(units: seq<int>): int
    decreases |units|
  {
    if |units| == 0 then 0 else Poly(units[..|units| - 1]) * 31 + units[|units| - 1]
  }

  /** A loop step is `hash * 31 + code` wrapped to int32. */
  lemma HashStepIsTimes31(hash: int, code: int)
    ensures HashStep(hash, code) == Wrap32(hash * 31 + code)
  {
    Wrap32Congruent(Wrap32(hash * 32) - hash + code, hash * 31 + code);
  }

  /** The wrapping fold equals the polynomial hash reduced to int32: the
      loop loses nothing but the bits above 32. */
  lemma {:induction false} HashIsPolynomial(units: seq<int>)
    ensures HashUnits(units) == Wrap32(Poly(units))
    decreases |units|
  {
    if |units| > 0 {
      var p := units[..|units| - 1];
      var c := units[|units| - 1];
      HashIsPolynomial(p);
      HashStepIsTimes31(HashUnits(p), c);
      var h := HashUnits(p);
      assert (h - Poly(p)) % TwoTo32 == 0;
      MultipleTimes31(h - Poly(p));
      assert (h * 31 + c) - (Poly(p) * 31 + c) == (h - Poly(p)) * 31;
      Wrap32Congruent(h * 31 + c, Poly(p) * 31 + c);
    }
  }

  lemma MultipleTimes31(d: int)
    requires d % TwoTo32 == 0
    ensures (d * 31) % TwoTo32 == 0
  {
    var q := d / TwoTo32;
    assert d == q * TwoTo32;
    assert d * 31 == (q * 31) * TwoTo32;
  }

  /** The empty string hashes to "0". */
  lemma SimpleHashEmpty()
    ensures SimpleHash("") == "0"
  {
    assert CodeUnits("") == [];
    assert NatToString(0, 16) == "0";
  }

  /** The value of one digit of "0123456789abcdef". */
  function DigitValue(c: char): nat {
    if '0' <= c <= '9' then c as nat - '0' as nat
    else if 'a' <= c <= 'f' then c as nat - 'a' as nat + 10
    else 0
  }

  /** The number a string of digits denotes in the given radix. */
  function RadixValue(digits: string, radix: nat): nat
    decreases |digits|
  {
    if |digits| == 0 then 0
    else RadixValue(digits[..|digits| - 1], radix) * radix + DigitValue(digits[|digits| - 1])
  }

  /** Reading the digits back gives the number written: `toString(16)`
      loses nothing. */
  lemma {:induction false} NatToStringValue(n: nat, radix: nat)
    requires radix == 10 || radix == 16
    ensures RadixValue(NatToString(n, radix), radix) == n
    decreases n
  {
    var s := NatToString(n, radix);
    if n < radix {
      assert s == [DigitChar(n)];
      assert s[..0] == [];
      DigitValueChar(n);
    } else {
      NatToStringValue(n / radix, radix);
      assert s[..|s| - 1] == NatToString(n / radix, radix);
      DigitValueChar(n % radix);
    }
  }

  /** Each digit character reads back as its value. */
  lemma DigitValueChar(d: nat)
    requires d < 16
    ensures DigitValue(DigitChar(d)) == d
  {
    var t := "0123456789abcdef";
    if d < 10 {
      assert t[..10] == "0123456789";
      assert t[d] == "0123456789"[d];
    } else {
      assert t[10..] == "abcdef";
      assert t[d] == "abcdef"[d - 10];
    }
  }
}
