/** The extraction progress indicator: a status message that cycles every
    three seconds and a row of five dots lit in proportion to the message
    index. */
module ExtractionLoading {

  /** The translation keys of the cycling status messages, in order. */
  const MessageKeys: seq<string> := ["readingPdf", "scanningPages", "findingValues", "checkingRanges", "normalizingNames", "structuringData"]

  /** The progress dots, `[0, 1, 2, 3, 4]`. */
  const StepCount: nat := 5

  /** One tick of the interval: `(prev + 1) % MESSAGE_KEYS.length`. */
  function NextIndex(prev: nat): (r: nat)
    ensures r < |MessageKeys|
    ensures prev + 1 < |MessageKeys| ==> r == prev + 1
    ensures prev + 1 == |MessageKeys| ==> r == 0
  {
    (prev + 1) % |MessageKeys|
  }

  /** The index after `ticks` ticks from the initial 0. */
  function IndexAfter(ticks: nat): (r: nat)
    ensures r < |MessageKeys|
  {
    if ticks == 0 then 0 else NextIndex(IndexAfter(ticks - 1))
  }

  /** The message index after `ticks` ticks is `ticks` modulo the number of
      messages, so every message is shown in turn. */
  lemma {:induction false} IndexAfterIsModulo(ticks: nat)
    ensures IndexAfter(ticks) == ticks % |MessageKeys|
  {
    if ticks > 0 {
      IndexAfterIsModulo(ticks - 1);
    }
  }

  /** `step <= Math.floor(messageIndex * 0.8)`: the dot is lit. The
      products `messageIndex * 0.8` for indices below 6 round to doubles
      whose floors are those of the exact products. */
  predicate Lit(step: nat, index: nat) {
    step as real <= (index as real * 0.8).Floor as real
  }

  /** The lighting rule over integers: step `s` is lit at index `i`
      exactly when 5s <= 4i. */
  lemma LitIff(step: nat, index: nat)
    ensures Lit(step, index) <==> 5 * step <= 4 * index
  {
    FloorOfProduct(index);
    var q := 4 * index / 5;
    if 5 * step <= 4 * index {
      assert step <= q;
    } else {
      assert step > q;
    }
  }

  /** `floor(i * 0.8)` is the integer quotient of 4i by 5. */
  lemma FloorOfProduct(index: nat)
    ensures (index as real * 0.8).Floor == 4 * index / 5
  {
    var q, r := 4 * index / 5, 4 * index % 5;
    assert 4 * index == 5 * q + r && 0 <= r < 5;
    var x := index as real * 0.8;
    assert x == (4 * index) as real / 5.0;
    assert x == q as real + r as real / 5.0;
    assert q as real <= x < q as real + 1.0;
  }

  /** As the index grows within a cycle, lit dots stay lit. */
  lemma LitGrows(step: nat, index: nat, later: nat)
    requires Lit(step, index) && index <= later
    ensures Lit(step, later)
  {
    LitIff(step, index);
    LitIff(step, later);
  }

  /** The lit dots at each index: the first dot always, only it at index 0,
      and all five at the last index. */
  lemma LitAtEnds(step: nat)
    requires step < StepCount
    ensures Lit(0, step)
    ensures Lit(step, 0) <==> step == 0
    ensures Lit(step, |MessageKeys| - 1)
  {
    LitIff(0, step);
    LitIff(step, 0);
    LitIff(step, |MessageKeys| - 1);
  }

  /** The number of lit dots at an index. */
  function LitCount(index: nat): (r: nat)
    requires index < |MessageKeys|
    ensures 1 <= r <= StepCount
    ensures forall s: nat | s < StepCount :: Lit(s, index) <==> s < r
  {
    LitCountAt(index);
    4 * index / 5 + 1
  }

  lemma LitCountAt(index: nat)
    requires index < |MessageKeys|
    ensures forall s: nat | s < StepCount :: Lit(s, index) <==> s < 4 * index / 5 + 1
  {
    forall s: nat | s < StepCount ensures Lit(s, index) <==> s < 4 * index / 5 + 1 {
      LitIff(s, index);
    }
  }
}
