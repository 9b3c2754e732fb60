/** Date-string utilities (web/src/lib/date.ts): recognition of ISO
    `YYYY-MM-DD` dates, normalisation of US `MM/DD/YYYY` dates to ISO, and
    the ascending comparator every chart and list sorts with.  Month and
    day ranges are deliberately not validated, exactly as in the source. */
module Dates {
  import opened Wrappers
  import opened Text
  import Sorting

  /** `/^\d{4}-\d{2}-\d{2}$/`. */
  predicate IsValidISODate(s: string) {
    && |s| == 10
    && IsDigit(s[0]) && IsDigit(s[1]) && IsDigit(s[2]) && IsDigit(s[3])
    && s[4] == '-'
    && IsDigit(s[5]) && IsDigit(s[6])
    && s[7] == '-'
    && IsDigit(s[8]) && IsDigit(s[9])
  }

  /** `/^(\d{2})\/(\d{2})\/(\d{4})$/`. */
  predicate IsUSDate(s: string) {
    && |s| == 10
    && IsDigit(s[0]) && IsDigit(s[1])
    && s[2] == '/'
    && IsDigit(s[3]) && IsDigit(s[4])
    && s[5] == '/'
    && IsDigit(s[6]) && IsDigit(s[7]) && IsDigit(s[8]) && IsDigit(s[9])
  }

  /** `parseToISO`: ISO input unchanged, US input reordered to
      year-month-day, anything else null. */
  function ParseToISO(s: string): (r: Option<string>)
    ensures IsValidISODate(s) ==> r == Some(s)
    ensures !IsValidISODate(s) && IsUSDate(s) ==> r == Some(s[6..10] + "-" + s[0..2] + "-" + s[3..5])
    ensures r.None? <==> !IsValidISODate(s) && !IsUSDate(s)
    ensures r.Some? ==> IsValidISODate(r.value)
  {
    if IsValidISODate(s) then Some(s)
    else if IsUSDate(s) then Some(s[6..10] + "-" + s[0..2] + "-" + s[3..5])
    else None
  }

  /** Re-parsing a parsed date gives it back unchanged. */
  lemma ParseToISOIdempotent(s: string)
    requires ParseToISO(s).Some?
    ensures ParseToISO(ParseToISO(s).value) == ParseToISO(s)
  {
  }

  /** The form a date takes before comparison: parsed if possible, else as given. */
  function Normalize(s: string): string {
    ParseToISO(s).GetOr(s)
  }

  lemma NormalizeIdempotent(s: string)
    ensures Normalize(Normalize(s)) == Normalize(s)
  {
  }

  /** `compareDateAsc`. */
  function CompareDateAsc(a: string, b: string): (r: int)
    ensures r == -1 || r == 0 || r == 1
    ensures r == 0 <==> Normalize(a) == Normalize(b)
    ensures r == -1 <==> LexLess(Normalize(a), Normalize(b))
  {
    var isoA := Normalize(a);
    var isoB := Normalize(b);
    LexLessIrreflexive(isoA);
    LexLessAsymmetric(isoA, isoB);
    if isoA == isoB then 0 else if LexLess(isoA, isoB) then -1 else 1
  }

  /** Comparing normalised dates is comparing the dates. */
  lemma CompareNormalized(a: string, b: string)
    ensures CompareDateAsc(Normalize(a), Normalize(b)) == CompareDateAsc(a, b)
  {
    NormalizeIdempotent(a);
    NormalizeIdempotent(b);
  }

  lemma CompareDateAntisymmetric(a: string, b: string)
    ensures CompareDateAsc(a, b) == -CompareDateAsc(b, a)
  {
    LexLessTotal(Normalize(a), Normalize(b));
    LexLessAsymmetric(Normalize(a), Normalize(b));
  }

  lemma CompareDateTransitive(a: string, b: string, c: string)
    requires CompareDateAsc(a, b) <= 0 && CompareDateAsc(b, c) <= 0
    ensures CompareDateAsc(a, c) <= 0
  {
    var x, y, z := Normalize(a), Normalize(b), Normalize(c);
    if x != y && y != z {
      LexLessTransitive(x, y, z);
    }
  }

  /** The comparator is consistent, so sorting by it is well defined. */
  lemma DateOrderIsTotalPreorder()
    ensures Sorting.TotalPreorder((a: string, b: string) => CompareDateAsc(a, b) <= 0)
  {
    var le := (a: string, b: string) => CompareDateAsc(a, b) <= 0;
    forall a: string, b: string ensures le(a, b) || le(b, a) {
      CompareDateAntisymmetric(a, b);
    }
    forall a: string, b: string, c: string | le(a, b) && le(b, c) ensures le(a, c) {
      CompareDateTransitive(a, b, c);
    }
  }
}
