/** JavaScript's `parseFloat`, `parseInt` (radix 10) and `Number(string)` as
    partial parsers: `None` stands for `NaN`.  JavaScript numbers are
    idealised as exact `real`s (no rounding, no overflow); exponent
    notation, `Infinity` and hexadecimal literals are not modelled. */
module Numbers {
  import opened Wrappers
  import opened Text

  /** Length of the run of decimal digits at the start of `s`. */
  function DigitRun(s: string): (k: nat)
    ensures k <= |s|
    ensures forall i | 0 <= i < k :: IsDigit(s[i])
    ensures k < |s| ==> !IsDigit(s[k])
  {
    if |s| > 0 && IsDigit(s[0]) then 1 + DigitRun(s[1..]) else 0
  }

  predicate AllDigits(d: string) {
    forall i | 0 <= i < |d| :: IsDigit(d[i])
  }

  /** The value of a string of decimal digits, most significant first. */
  function DigitsValue(d: string): nat
    requires AllDigits(d)
  {
    if |d| == 0 then 0 else DigitsValue(d[..|d| - 1]) * 10 + (d[|d| - 1] as int - '0' as int)
  }

  function Pow10(n: nat): (p: nat)
    ensures p >= 1
  {
    if n == 0 then 1 else 10 * Pow10(n - 1)
  }

  /** The value of the digits after a decimal point. */
  function Fraction(d: string): (r: real)
    requires AllDigits(d)
  {
    DigitsValue(d) as real / Pow10(|d|) as real
  }

  /** The longest prefix of `s` of the form `digits [. digits]` holding at
      least one digit, as its value and its length. */
  function DecimalPrefix(s: string): (r: Option<(real, nat)>)
    ensures r.Some? ==> 0 < r.value.1 <= |s|
    ensures r.Some? <==> (|s| > 0 && IsDigit(s[0])) || (|s| > 1 && s[0] == '.' && IsDigit(s[1]))
  {
    var a := DigitRun(s);
    if a < |s| && s[a] == '.' then
      var f := DigitRun(s[a + 1..]);
      if a + f == 0 then None
      else Some((DigitsValue(s[..a]) as real + Fraction(s[a + 1..a + 1 + f]), a + 1 + f))
    else if a == 0 then None
    else Some((DigitsValue(s[..a]) as real, a))
  }

  /** Splits an optional leading sign off `t`: (is negative, rest). */
  function SplitSign(t: string): (bool, string) {
    if |t| > 0 && (t[0] == '-' || t[0] == '+') then (t[0] == '-', t[1..]) else (false, t)
  }

  /** `parseFloat(s)`: leading whitespace and an optional sign, then the
      longest decimal prefix; trailing text is ignored. */
  function ParseFloat(s: string): (r: Option<real>)
    ensures r.Some? <==> DecimalPrefix(SplitSign(TrimStart(s)).1).Some?
  {
    var (neg, rest) := SplitSign(TrimStart(s));
    match DecimalPrefix(rest)
    case None => None
    case Some((v, _)) => Some(if neg then -v else v)
  }

  /** `parseInt(s)` (radix 10): leading whitespace and an optional sign, then
      the longest run of digits; trailing text is ignored. */
  function ParseInt(s: string): (r: Option<int>)
    ensures r.Some? <==> DigitRun(SplitSign(TrimStart(s)).1) > 0
  {
    var (neg, rest) := SplitSign(TrimStart(s));
    var k := DigitRun(rest);
    if k == 0 then None
    else
      var v: int := DigitsValue(rest[..k]);
      Some(if neg then -v else v)
  }

  /** `Number(s)` for a string: the whole trimmed string must be a decimal
      literal, and the empty (or all-blank) string is 0. */
  function NumberOf(s: string): (r: Option<real>)
    ensures Trim(s) == "" ==> r == Some(0.0)
  {
    var t := Trim(s);
    if t == "" then Some(0.0)
    else
      var (neg, rest) := SplitSign(t);
      match DecimalPrefix(rest)
      case Some((v, n)) => if n == |rest| then Some(if neg then -v else v) else None
      case None => None
  }

  /** A digit string has a positive value exactly when it holds a non-zero digit. */
  lemma {:induction false} DigitsValuePositive(d: string)
    requires AllDigits(d)
    ensures DigitsValue(d) > 0 <==> exists i :: 0 <= i < |d| && d[i] != '0'
  {
    if |d| > 0 {
      var p := d[..|d| - 1];
      DigitsValuePositive(p);
      if DigitsValue(p) > 0 {
        var i :| 0 <= i < |p| && p[i] != '0';
        assert d[i] != '0';
      }
      if exists i :: 0 <= i < |d| && d[i] != '0' {
        var i :| 0 <= i < |d| && d[i] != '0';
        if i < |d| - 1 {
          assert p[i] != '0';
        }
      }
    }
  }
}
