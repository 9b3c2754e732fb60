/** JavaScript string primitives the application relies on, over `string`
    (a sequence of Unicode characters).  Case mapping is idealised to a
    per-character map covering ASCII, Latin-1 and the Turkish letters the
    application handles. */
module Text {

  /** The characters removed by `String.prototype.trim` and matched by the
      regular-expression class `\s`: WhiteSpace and LineTerminator. */
  predicate IsJsSpace(c: char) {
    || c == ' ' || c == '\t' || c == '\n' || c == '\r'
    || c == '\U{B}' || c == '\U{C}' || c == '\U{A0}' || c == '\U{1680}'
    || ('\U{2000}' <= c <= '\U{200A}')
    || c == '\U{2028}' || c == '\U{2029}' || c == '\U{202F}' || c == '\U{205F}'
    || c == '\U{3000}' || c == '\U{FEFF}'
  }

  /** The characters a JavaScript regular expression's `.` does not match. */
  predicate IsLineTerminator(c: char) {
    c == '\n' || c == '\r' || c == '\U{2028}' || c == '\U{2029}'
  }

  predicate IsDigit(c: char) {
    '0' <= c <= '9'
  }

  /** `s` has no whitespace at either end. */
  predicate IsTrimmed(s: string) {
    |s| > 0 ==> !IsJsSpace(s[0]) && !IsJsSpace(s[|s| - 1])
  }

  /** `t` occurs in `s` as a contiguous block. */
  ghost predicate IsInfix(t: string, s: string) {
    exists i, j :: 0 <= i <= j <= |s| && t == s[i..j]
  }

  /** Number of leading whitespace characters. */
  function LeadingSpaces(s: string): (k: nat)
    ensures k <= |s|
    ensures forall i | 0 <= i < k :: IsJsSpace(s[i])
    ensures k < |s| ==> !IsJsSpace(s[k])
  {
    if |s| > 0 && IsJsSpace(s[0]) then 1 + LeadingSpaces(s[1..]) else 0
  }

  /** Length of `s` once trailing whitespace is removed. */
  function EndWithoutSpaces(s: string): (k: nat)
    ensures k <= |s|
    ensures forall i | k <= i < |s| :: IsJsSpace(s[i])
    ensures k > 0 ==> !IsJsSpace(s[k - 1])
  {
    if |s| > 0 && IsJsSpace(s[|s| - 1]) then EndWithoutSpaces(s[..|s| - 1]) else |s|
  }

  /** `String.prototype.trimStart`. */
  function TrimStart(s: string): (r: string)
    ensures |r| <= |s| && r == s[|s| - |r|..]
    ensures |r| > 0 ==> !IsJsSpace(r[0])
    ensures forall i | 0 <= i < |s| - |r| :: IsJsSpace(s[i])
  {
    s[LeadingSpaces(s)..]
  }

  /** `String.prototype.trim`: the block of `s` between its leading and its
      trailing whitespace. */
  function Trim(s: string): (r: string)
    ensures IsTrimmed(r)
    ensures IsInfix(r, s)
    ensures |r| <= |s|
    ensures r == "" <==> forall i | 0 <= i < |s| :: IsJsSpace(s[i])
  {
    var a := LeadingSpaces(s);
    var t := s[a..];
    var b := EndWithoutSpaces(t);
    assert t[..b] == s[a..a + b];
    assert b == 0 ==> a == |s|;
    assert b > 0 ==> !IsJsSpace(s[a]) by {
      if b > 0 {
        assert t[0] == s[a];
      }
    }
    t[..b]
  }

  /** Trimming a trimmed string changes nothing. */
  lemma TrimmedFixpoint(s: string)
    requires IsTrimmed(s)
    ensures Trim(s) == s
  {
    assert LeadingSpaces(s) == 0;
    assert EndWithoutSpaces(s) == |s|;
  }

  lemma TrimIdempotent(s: string)
    ensures Trim(Trim(s)) == Trim(s)
  {
    TrimmedFixpoint(Trim(s));
  }

  /** `s.startsWith(p)`. */
  predicate StartsWith(s: string, p: string) {
    |p| <= |s| && s[..|p|] == p
  }

  /** `s.endsWith(p)`. */
  predicate EndsWith(s: string, p: string) {
    |p| <= |s| && s[|s| - |p|..] == p
  }

  /** `s.includes(sub)`: `sub` occurs somewhere in `s`. */
  predicate Contains(s: string, sub: string)
    decreases |s|
  {
    StartsWith(s, sub) || (|s| > 0 && Contains(s[1..], sub))
  }

  /** Position of the first `c` in `s`, or `|s|` when there is none. */
  function CharIndex(s: string, c: char): (i: nat)
    ensures i <= |s|
    ensures i < |s| ==> s[i] == c
    ensures forall j | 0 <= j < i :: s[j] != c
  {
    if |s| == 0 then 0 else if s[0] == c then 0 else 1 + CharIndex(s[1..], c)
  }

  /** `s.split(sep)` for a one-character separator. */
  function Split(s: string, sep: char): (parts: seq<string>)
    ensures |parts| >= 1
    ensures forall k | 0 <= k < |parts| :: sep !in parts[k]
    ensures Join(parts, sep) == s
    decreases |s|
  {
    var i := CharIndex(s, sep);
    if i == |s| then
      assert s == s[..i];
      [s]
    else
      var rest := Split(s[i + 1..], sep);
      assert s == s[..i] + [sep] + s[i + 1..];
      [s[..i]] + rest
  }

  /** `parts.join(sep)` for a one-character separator. */
  function Join(parts: seq<string>, sep: char): string
    decreases |parts|
  {
    if |parts| == 0 then ""
    else if |parts| == 1 then parts[0]
    else parts[0] + [sep] + Join(parts[1..], sep)
  }

  /** Splitting the join of separator-free pieces recovers the pieces. */
  lemma {:induction false} SplitJoin(parts: seq<string>, sep: char)
    requires |parts| >= 1
    requires forall k | 0 <= k < |parts| :: sep !in parts[k]
    ensures Split(Join(parts, sep), sep) == parts
    decreases |parts|
  {
    var s := Join(parts, sep);
    if |parts| == 1 {
      assert CharIndex(s, sep) == |s|;
    } else {
      var tail := Join(parts[1..], sep);
      assert s == parts[0] + [sep] + tail;
      var i := CharIndex(s, sep);
      assert s[|parts[0]|] == sep;
      assert forall j | 0 <= j < |parts[0]| :: s[j] == parts[0][j];
      assert i == |parts[0]|;
      assert s[..i] == parts[0];
      assert s[i + 1..] == tail;
      SplitJoin(parts[1..], sep);
    }
  }

  /** `String.prototype.toLowerCase` on one character. */
  function LowerChar(c: char): char {
    if 'A' <= c <= 'Z' then (c as int + 32) as char
    else if '\U{C0}' <= c <= '\U{DE}' && c != '\U{D7}' then (c as int + 32) as char
    else if c == 'Ğ' then 'ğ'
    else if c == 'Ş' then 'ş'
    else c
  }

  /** `String.prototype.toUpperCase` on one character. */
  function UpperChar(c: char): char {
    if 'a' <= c <= 'z' then (c as int - 32) as char
    else if '\U{E0}' <= c <= '\U{FE}' && c != '\U{F7}' then (c as int - 32) as char
    else if c == 'ğ' then 'Ğ'
    else if c == 'ş' then 'Ş'
    else if c == 'ı' then 'I'
    else c
  }

  function ToLower(s: string): (r: string)
    ensures |r| == |s| && forall i | 0 <= i < |s| :: r[i] == LowerChar(s[i])
  {
    seq(|s|, i requires 0 <= i < |s| => LowerChar(s[i]))
  }

  function ToUpper(s: string): (r: string)
    ensures |r| == |s| && forall i | 0 <= i < |s| :: r[i] == UpperChar(s[i])
  {
    seq(|s|, i requires 0 <= i < |s| => UpperChar(s[i]))
  }

  /** Every character of `s` is left alone by `toUpperCase`. */
  predicate IsUpper(s: string) {
    forall i | 0 <= i < |s| :: UpperChar(s[i]) == s[i]
  }

  lemma UpperCharIdempotent(c: char)
    ensures UpperChar(UpperChar(c)) == UpperChar(c)
  {
  }

  /** `s.replace(a, b)` with one-character strings: only the first `a` is replaced. */
  function ReplaceFirst(s: string, a: char, b: char): (r: string)
    ensures |r| == |s|
    ensures var i := CharIndex(s, a);
            (forall j | 0 <= j < |s| && j != i :: r[j] == s[j]) && (i < |s| ==> r[i] == b)
  {
    var i := CharIndex(s, a);
    if i == |s| then s else s[..i] + [b] + s[i + 1..]
  }

  /** `s.replace(/a/g, b)` with one-character strings. */
  function ReplaceAll(s: string, a: char, b: char): (r: string)
    ensures |r| == |s| && forall i | 0 <= i < |s| :: r[i] == (if s[i] == a then b else s[i])
  {
    seq(|s|, i requires 0 <= i < |s| => if s[i] == a then b else s[i])
  }

  function DigitChar(d: nat): char
    requires d < 16
  {
    "0123456789abcdef"[d]
  }

  /** `n.toString(radix)` for a natural number (radix 10 or 16). */
  function NatToString(n: nat, radix: nat): (r: string)
    requires radix == 10 || radix == 16
    ensures |r| >= 1
    ensures forall i | 0 <= i < |r| :: r[i] in "0123456789abcdef"
    decreases n
  {
    if n < radix then [DigitChar(n)] else NatToString(n / radix, radix) + [DigitChar(n % radix)]
  }

  /** `n.toString(radix)` for an integer: a minus sign before the magnitude. */
  function IntToString(n: int, radix: nat): (r: string)
    requires radix == 10 || radix == 16
    ensures |r| >= 1
    ensures (r[0] == '-') <==> n < 0
  {
    if n < 0 then "-" + NatToString(-n, radix) else NatToString(n, radix)
  }

  /** JavaScript's `a < b` on strings: lexicographic order on characters. */
  predicate LexLess(a: string, b: string)
    decreases |a|
  {
    if |a| == 0 then |b| > 0
    else if |b| == 0 then false
    else if a[0] == b[0] then LexLess(a[1..], b[1..])
    else a[0] < b[0]
  }

  lemma {:induction false} LexLessIrreflexive(a: string)
    ensures !LexLess(a, a)
    decreases |a|
  {
    if |a| > 0 {
      LexLessIrreflexive(a[1..]);
    }
  }

  lemma {:induction false} LexLessAsymmetric(a: string, b: string)
    ensures !(LexLess(a, b) && LexLess(b, a))
    decreases |a|
  {
    if |a| > 0 && |b| > 0 && a[0] == b[0] {
      LexLessAsymmetric(a[1..], b[1..]);
    }
  }

  lemma {:induction false} LexLessTotal(a: string, b: string)
    ensures a == b || LexLess(a, b) || LexLess(b, a)
    decreases |a|
  {
    if |a| > 0 && |b| > 0 && a[0] == b[0] {
      LexLessTotal(a[1..], b[1..]);
      if a[1..] == b[1..] {
        assert a == [a[0]] + a[1..] && b == [b[0]] + b[1..];
      }
    }
  }

  lemma {:induction false} LexLessTransitive(a: string, b: string, c: string)
    requires LexLess(a, b) && LexLess(b, c)
    ensures LexLess(a, c)
    decreases |a|
  {
    if |a| > 0 && a[0] == b[0] && b[0] == c[0] {
      LexLessTransitive(a[1..], b[1..], c[1..]);
    }
  }
}
