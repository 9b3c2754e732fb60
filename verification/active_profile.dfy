/** The active-profile hook (web/src/hooks/use-active-profile.ts): reading
    the active profile id from `document.cookie`, resolving which profile is
    active once the profiles are fetched, switching profiles, and the
    onboarding flag.  The cookie string and the server's answers are
    parameters. */
module ActiveProfile {
  import opened Wrappers
  import opened Text

  const ActiveProfileCookie := "viziai_active_profile"

  /** A profile the user can access; `reportCount` may be absent. */
  datatype Profile = Profile(id: string, displayName: string, accessLevel: string, reportCount: Option<int>)

  /** Index of the first cookie whose trimmed text starts with `prefix`, or
      `|parts|` when there is none. */
  function FindCookie(parts: seq<string>, prefix: string): (k: nat)
    ensures k <= |parts|
    ensures k < |parts| ==> StartsWith(Trim(parts[k]), prefix)
    ensures forall j | 0 <= j < k :: !StartsWith(Trim(parts[j]), prefix)
  {
    if |parts| == 0 then 0
    else if StartsWith(Trim(parts[0]), prefix) then 0
    else 1 + FindCookie(parts[1..], prefix)
  }

  /** A character absent from a string is absent from each of its blocks. */
  lemma InfixExcludes(t: string, s: string, c: char)
    requires IsInfix(t, s) && c !in s
    ensures c !in t
  {
    var i, j :| 0 <= i <= j <= |s| && t == s[i..j];
    forall x | 0 <= x < |t| ensures t[x] != c {
      assert t[x] == s[i + x];
    }
  }

  /** A string holding `c` splits on it into at least two pieces. */
  lemma SplitAtPresent(s: string, c: char)
    requires c in s
    ensures |Split(s, c)| >= 2
  {
    var i :| 0 <= i < |s| && s[i] == c;
    assert CharIndex(s, c) <= i;
  }

  /** A cookie entry whose trimmed text starts with `name=` holds an `=`. */
  lemma MatchedCookieHasEquals(part: string, name: string)
    requires StartsWith(Trim(part), name + "=")
    ensures |Split(part, '=')| >= 2
  {
    var t := Trim(part);
    assert t[|name|] == '=';
    if '=' !in part {
      InfixExcludes(t, part, '=');
    }
    SplitAtPresent(part, '=');
  }

  /** The second piece of a split lies inside the split string. */
  lemma SecondPieceInside(s: string, c: char, d: char)
    requires |Split(s, c)| >= 2 && d !in s
    ensures d !in Split(s, c)[1]
  {
    var pieces := Split(s, c);
    var rest := Join(pieces[1..], c);
    assert s == pieces[0] + [c] + rest;
    if |pieces[1..]| >= 2 {
      assert rest == pieces[1] + [c] + Join(pieces[2..], c);
    } else {
      assert rest == pieces[1];
    }
    forall x | 0 <= x < |pieces[1]| ensures pieces[1][x] != d {
      assert pieces[1][x] == rest[x];
      assert pieces[1][x] == s[|pieces[0]| + 1 + x];
    }
  }

  /** The cookie lookup of the hook (and of the upload page):
      `document.cookie.split(";")`, the first entry whose trimmed text starts
      with `name=`, then the text between its first and second `=`,
      trimmed. */
  function CookieValue(doc: string, name: string): (r: Option<string>)
    ensures r.Some? ==> IsTrimmed(r.value) && '=' !in r.value && ';' !in r.value
    ensures r.None? <==> FindCookie(Split(doc, ';'), name + "=") == |Split(doc, ';')|
  {
    var parts := Split(doc, ';');
    var k := FindCookie(parts, name + "=");
    if k == |parts| then None
    else
      MatchedCookieHasEquals(parts[k], name);
      SecondPieceInside(parts[k], '=', ';');
      var piece := Split(parts[k], '=')[1];
      var v := Trim(piece);
      InfixExcludes(v, piece, '=');
      InfixExcludes(v, piece, ';');
      Some(v)
  }

  /** The entry `name=value` of a well-formed cookie: already trimmed, free
      of `;`, starting with `name=` and splitting on `=` into its two
      halves. */
  lemma CookieEntry(name: string, value: string)
    requires name != "" && value != ""
    requires IsTrimmed(name) && IsTrimmed(value)
    requires ';' !in name && '=' !in name && ';' !in value && '=' !in value
    ensures var c := name + "=" + value;
      && ';' !in c && Trim(c) == c && StartsWith(c, name + "=") && Split(c, '=') == [name, value]
  {
    var c := name + "=" + value;
    forall x | 0 <= x < |c| ensures c[x] != ';' {
      if x < |name| { assert c[x] == name[x]; }
      else if x > |name| { assert c[x] == value[x - |name| - 1]; }
    }
    assert IsTrimmed(c);
    TrimmedFixpoint(c);
    assert c[..|name + "="|] == name + "=";
    SplitJoin([name, value], '=');
    assert Join([name, value], '=') == c;
  }

  /** Entries free of `;` stay free of it when one more is put between them. */
  lemma EntriesFree(before: seq<string>, c: string, after: seq<string>)
    requires ';' !in c
    requires forall k | 0 <= k < |before| :: ';' !in before[k]
    requires forall k | 0 <= k < |after| :: ';' !in after[k]
    ensures var parts := before + [c] + after;
      forall k | 0 <= k < |parts| :: ';' !in parts[k]
  {
    var parts := before + [c] + after;
    forall k | 0 <= k < |parts| ensures ';' !in parts[k] {
      if k < |before| {
        assert parts[k] == before[k];
      } else if k > |before| {
        assert parts[k] == after[k - |before| - 1];
      }
    }
  }

  /** A cookie written as `name=value` is read back as `value` whatever the
      other cookies are, as long as none before it has the same name. */
  lemma CookieRoundTrip(before: seq<string>, name: string, value: string, after: seq<string>)
    requires name != "" && value != ""
    requires IsTrimmed(name) && IsTrimmed(value)
    requires ';' !in name && '=' !in name && ';' !in value && '=' !in value
    requires forall k | 0 <= k < |before| :: ';' !in before[k] && !StartsWith(Trim(before[k]), name + "=")
    requires forall k | 0 <= k < |after| :: ';' !in after[k]
    ensures CookieValue(Join(before + [name + "=" + value] + after, ';'), name) == Some(value)
  {
    var c := name + "=" + value;
    var parts := before + [c] + after;
    CookieEntry(name, value);
    EntriesFree(before, c, after);
    CookieFoundAfter(before, c, after, name + "=");
    CookieValueAt(parts, name, value, |before|);
  }

  /** The entry `c` is the first match when no entry before it matches. */
  lemma CookieFoundAfter(before: seq<string>, c: string, after: seq<string>, prefix: string)
    requires StartsWith(Trim(c), prefix)
    requires forall k | 0 <= k < |before| :: !StartsWith(Trim(before[k]), prefix)
    ensures FindCookie(before + [c] + after, prefix) == |before|
  {
    var parts := before + [c] + after;
    assert parts[|before|] == c;
    forall j | 0 <= j < |before| ensures !StartsWith(Trim(parts[j]), prefix) {
      assert parts[j] == before[j];
    }
    FindCookieFirst(parts, prefix, |before|);
  }

  /** The lookup reads the value of the first matching entry. */
  lemma CookieValueAt(parts: seq<string>, name: string, value: string, k: nat)
    requires forall j | 0 <= j < |parts| :: ';' !in parts[j]
    requires k < |parts| && FindCookie(parts, name + "=") == k
    requires Split(parts[k], '=') == [name, value] && IsTrimmed(value)
    ensures CookieValue(Join(parts, ';'), name) == Some(value)
  {
    SplitJoin(parts, ';');
    TrimmedFixpoint(value);
  }

  /** The first match is the index of a match with no match before it. */
  lemma {:induction false} FindCookieFirst(parts: seq<string>, prefix: string, k: nat)
    requires k < |parts| && StartsWith(Trim(parts[k]), prefix)
    requires forall j | 0 <= j < k :: !StartsWith(Trim(parts[j]), prefix)
    ensures FindCookie(parts, prefix) == k
    decreases k
  {
    if k > 0 {
      FindCookieFirst(parts[1..], prefix, k - 1);
    }
  }

  /** A cookie value is present when it is a non-empty string. */
  predicate Truthy(v: Option<string>) {
    v.Some? && v.value != ""
  }

  predicate IsMember(profiles: seq<Profile>, id: string) {
    exists p | p in profiles :: p.id == id
  }

  /** What the hook does once the profiles arrive: the active id, whether the
      onboarding cookie is set (true) or cleared (false), and the profile it
      asks the server to select, if any. */
  datatype Resolution = Resolution(activeId: Option<string>, needsOnboardingCookie: bool, select: Option<string>)

  /** No profiles: no active profile and the onboarding cookie is set.
      Otherwise the cookie's profile when it is one of them, else the first;
      the server is told to select it unless the cookie already named it. */
  function Resolve(profiles: seq<Profile>, cookieId: Option<string>): (r: Resolution)
    ensures r.needsOnboardingCookie <==> |profiles| == 0
    ensures r.activeId.None? <==> |profiles| == 0
    ensures r.activeId.Some? ==> IsMember(profiles, r.activeId.value)
    ensures Truthy(cookieId) && IsMember(profiles, cookieId.value) ==> r.activeId == cookieId && r.select.None?
    ensures |profiles| > 0 && !(Truthy(cookieId) && IsMember(profiles, cookieId.value)) ==>
      r.activeId == Some(profiles[0].id) && r.select == r.activeId
    ensures r.select.Some? ==> r.activeId == r.select
  {
    if |profiles| == 0 then Resolution(None, true, None)
    else
      var valid := if Truthy(cookieId) && IsMember(profiles, cookieId.value) then cookieId.value else profiles[0].id;
      Resolution(Some(valid), false, if !Truthy(cookieId) || cookieId.value != valid then Some(valid) else None)
  }

  /** Once the selection has been stored in the cookie, resolving again picks
      the same profile and selects nothing. */
  lemma ResolveStable(profiles: seq<Profile>, cookieId: Option<string>)
    requires forall p | p in profiles :: p.id != ""
    ensures var first := Resolve(profiles, cookieId);
      var again := Resolve(profiles, first.activeId);
      again.activeId == first.activeId && again.select.None?
  {
    if |profiles| > 0 {
      assert profiles[0] in profiles;
    }
  }

  /** The upload page resolves its selected profile from the same cookie the
      same way, keeping its current choice when there are no profiles. */
  function UploadSelection(profiles: seq<Profile>, cookieId: Option<string>, current: string): (r: string)
    ensures |profiles| == 0 && !(Truthy(cookieId) && IsMember(profiles, cookieId.value)) ==> r == current
  {
    if Truthy(cookieId) && IsMember(profiles, cookieId.value) then cookieId.value
    else if |profiles| > 0 then profiles[0].id
    else current
  }

  /** With profiles present, the upload page and the hook pick the same one. */
  lemma UploadSelectionAgrees(profiles: seq<Profile>, cookieId: Option<string>, current: string)
    requires |profiles| > 0
    ensures Resolve(profiles, cookieId).activeId == Some(UploadSelection(profiles, cookieId, current))
  {
  }

  /** `switchProfile`: the new active id, the selection request sent, and
      the value returned.  Switching to the active profile sends nothing. */
  datatype Switch = Switch(activeId: Option<string>, request: Option<string>, result: bool)

  function SwitchProfile(activeId: Option<string>, target: string, selectOk: bool): (r: Switch)
    ensures activeId == Some(target) ==> r == Switch(activeId, None, true)
    ensures activeId != Some(target) ==> r.request == Some(target) && r.result == selectOk
    ensures activeId != Some(target) && selectOk ==> r.activeId == Some(target)
    ensures activeId != Some(target) && !selectOk ==> r.activeId == activeId
  {
    if activeId == Some(target) then Switch(activeId, None, true)
    else Switch(if selectOk then Some(target) else activeId, Some(target), selectOk)
  }

  /** Switching twice to the same profile sends one request. */
  lemma SwitchTwice(activeId: Option<string>, target: string)
    ensures var first := SwitchProfile(activeId, target, true);
      SwitchProfile(first.activeId, target, true) == Switch(Some(target), None, true)
  {
  }

  /** `activeProfile`: the first profile with the active id, or null. */
  function ActiveProfileOf(profiles: seq<Profile>, activeId: Option<string>): (r: Option<Profile>)
    ensures r.Some? ==> r.value in profiles && Some(r.value.id) == activeId
    ensures r.None? <==> activeId.None? || !IsMember(profiles, activeId.value)
  {
    if |profiles| == 0 || activeId.None? then None
    else if profiles[0].id == activeId.value then Some(profiles[0])
    else ActiveProfileOf(profiles[1..], activeId)
  }

  /** The resolved id always names a profile. */
  lemma ResolvedProfileExists(profiles: seq<Profile>, cookieId: Option<string>)
    requires |profiles| > 0
    ensures ActiveProfileOf(profiles, Resolve(profiles, cookieId).activeId).Some?
  {
  }

  /** `needsOnboarding`: no profiles once loading is over. */
  predicate NeedsOnboarding(profiles: seq<Profile>, loading: bool) {
    |profiles| == 0 && !loading
  }

  /** How the profile request of the hook's first load ends: the session is
      not authenticated (no request), the server answers 401, the request
      fails or answers another error, or the profiles arrive. */
  datatype ProfilesFetch = NotSignedIn | Unauthorized | Failed | Fetched(profiles: seq<Profile>)

  /** The hook's state once loading is over, and the onboarding cookie it
      wrote: `Some(true)` set, `Some(false)` cleared, `None` untouched. */
  datatype Loaded = Loaded(profiles: seq<Profile>, activeId: Option<string>, onboardingCookie: Option<bool>,
                           select: Option<string>, failed: bool)

  /** The profile effect from the initial state (no profiles, no active id):
      only a successful fetch stores profiles and writes the onboarding
      cookie; every other exit just ends loading, and a failure records the
      error. */
  function LoadProfiles(fetch: ProfilesFetch, cookieId: Option<string>): (r: Loaded)
    ensures fetch.Fetched? ==>
      var res := Resolve(fetch.profiles, cookieId);
      && r.profiles == fetch.profiles && r.activeId == res.activeId && r.select == res.select
      && r.onboardingCookie == Some(|fetch.profiles| == 0)
    ensures !fetch.Fetched? ==> r.profiles == [] && r.activeId.None? && r.onboardingCookie.None? && r.select.None?
    ensures r.failed <==> fetch.Failed?
  {
    match fetch
    case Fetched(profiles) =>
      var res := Resolve(profiles, cookieId);
      Loaded(profiles, res.activeId, Some(res.needsOnboardingCookie), res.select, false)
    case Failed => Loaded([], None, None, None, true)
    case _ => Loaded([], None, None, None, false)
  }

  /** After a successful fetch the onboarding flag and the onboarding cookie
      agree. */
  lemma OnboardingAgrees(fetch: ProfilesFetch, cookieId: Option<string>)
    requires fetch.Fetched?
    ensures var r := LoadProfiles(fetch, cookieId);
      NeedsOnboarding(r.profiles, false) <==> r.onboardingCookie == Some(true)
  {
  }

  /** On every other exit the flag asks for onboarding although no cookie
      was written, so the middleware's onboarding redirect does not fire. */
  lemma OnboardingWithoutCookie(fetch: ProfilesFetch, cookieId: Option<string>)
    requires !fetch.Fetched?
    ensures var r := LoadProfiles(fetch, cookieId);
      NeedsOnboarding(r.profiles, false) && r.onboardingCookie.None?
  {
  }
}
