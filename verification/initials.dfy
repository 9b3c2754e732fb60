/** The avatar initials of the header (web/src/components/header.tsx) and of
    the access page (web/src/app/settings/access/page.tsx): the first
    letter of each space-separated word, upper-cased, at most two. */
module Initials {
  import opened Wrappers
  import opened Text
  import opened Seqs

  /** `words.map(w => w[0]).join("")`: an empty word contributes nothing,
      because `undefined` joins as the empty string. */
  function FirstChars(words: seq<string>): (r: string)
    ensures |r| <= |words|
    ensures (forall k | 0 <= k < |words| :: |words[k]| > 0) ==>
      |r| == |words| && forall k | 0 <= k < |words| :: r[k] == words[k][0]
  {
    if |words| == 0 then ""
    else (if |words[0]| > 0 then [words[0][0]] else "") + FirstChars(words[1..])
  }

  /** The initials of a non-empty name. */
  function NameInitials(name: string): (r: string)
    ensures |r| <= 2
    ensures IsUpper(r)
  {
    var r := Take(ToUpper(FirstChars(Split(name, ' '))), 2);
    assert IsUpper(r) by {
      forall i | 0 <= i < |r| ensures UpperChar(r[i]) == r[i] {
        UpperCharIdempotent(FirstChars(Split(name, ' '))[i]);
      }
    }
    r
  }

  /** The header's `getInitials`: "?" without a name. */
  function HeaderInitials(name: Option<string>): (r: string)
    ensures name.None? || name.value == "" ==> r == "?"
    ensures name.Some? && name.value != "" ==> r == NameInitials(name.value)
    ensures |r| <= 2
  {
    if name.None? || name.value == "" then "?" else NameInitials(name.value)
  }

  /** For a name made of non-empty words separated by single spaces, the
      initials are the first letters of the first two words, upper-cased. */
  lemma InitialsOfWords(words: seq<string>)
    requires |words| >= 1
    requires forall k | 0 <= k < |words| :: |words[k]| > 0 && ' ' !in words[k]
    ensures var r := HeaderInitials(Some(Join(words, ' ')));
      && |r| == (if |words| >= 2 then 2 else 1)
      && forall k | 0 <= k < |r| :: r[k] == UpperChar(words[k][0])
  {
    SplitJoin(words, ' ');
    var name := Join(words, ' ');
    assert name != "" by {
      if |words| == 1 {
        assert name == words[0];
      } else {
        assert name == words[0] + [' '] + Join(words[1..], ' ');
      }
    }
  }

  /** The access page's `getInitials`: without a name, the first character of
      the e-mail address upper-cased; an empty address has no first
      character and the call throws, which is `None` here. */
  function AccessInitials(name: Option<string>, email: string): (r: Option<string>)
    ensures r.None? <==> (name.None? || name.value == "") && email == ""
    ensures (name.None? || name.value == "") && email != "" ==> r == Some([UpperChar(email[0])])
  {
    if name.Some? && name.value != "" then Some(NameInitials(name.value))
    else if email == "" then None
    else Some([UpperChar(email[0])])
  }

  /** With a name, the access page and the header show the same initials. */
  lemma AccessAgreesWithHeader(name: string, email: string)
    requires name != ""
    ensures AccessInitials(Some(name), email) == Some(HeaderInitials(Some(name)))
  {
  }
}
