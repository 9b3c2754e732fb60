/** The access-management page (web/src/app/settings/access/page.tsx): the
    per-profile access data assembled from one request per profile, the
    split into owned and shared profiles, and the list of people already
    known from other profiles that the invite dialog offers. */
module Access {
  import opened Wrappers
  import opened Seqs
  import ActiveProfile

  datatype Member = Member(userId: string, email: string, name: Option<string>, accessLevel: string, grantedAt: string)
  datatype PendingInvite = PendingInvite(id: string, email: string, accessLevel: string, status: string)
  datatype AllowedEmail = AllowedEmail(id: string, email: string)

  /** The body of `GET /api/profiles/{id}/access`; every field may be missing. */
  datatype AccessResponse = AccessResponse(
    accessLevel: Option<string>, members: Option<seq<Member>>,
    invites: Option<seq<PendingInvite>>, allowedEmails: Option<seq<AllowedEmail>>)

  /** How one profile's request ended. */
  datatype Fetched = Threw | NotOk | Ok(data: AccessResponse)

  /** One profile's card. */
  datatype ProfileAccess = ProfileAccess(
    profileId: string, profileName: string, accessLevel: string,
    members: seq<Member>, invites: seq<PendingInvite>, allowedEmails: seq<AllowedEmail>)

  /** The card built from a successful answer: a missing or empty access
      level falls back to the profile's own, missing lists are empty. */
  function CardOf(p: ActiveProfile.Profile, d: AccessResponse): (r: ProfileAccess)
    ensures r.profileId == p.id && r.profileName == p.displayName
    ensures d.accessLevel.Some? && d.accessLevel.value != "" ==> r.accessLevel == d.accessLevel.value
    ensures !(d.accessLevel.Some? && d.accessLevel.value != "") ==> r.accessLevel == p.accessLevel
    ensures r.members == d.members.GetOr([])
  {
    ProfileAccess(p.id, p.displayName,
      if d.accessLevel.Some? && d.accessLevel.value != "" then d.accessLevel.value else p.accessLevel,
      d.members.GetOr([]), d.invites.GetOr([]), d.allowedEmails.GetOr([]))
  }

  /** Some request threw, which makes `Promise.all` reject. */
  predicate AnyThrew(profiles: seq<ActiveProfile.Profile>, fetch: string -> Fetched) {
    exists p | p in profiles :: fetch(p.id) == Threw
  }

  /** The cards of the profiles whose request succeeded, in profile order. */
  function Cards(profiles: seq<ActiveProfile.Profile>, fetch: string -> Fetched): (r: seq<ProfileAccess>)
    ensures |r| <= |profiles|
    ensures forall c | c in r :: exists p | p in profiles :: fetch(p.id).Ok? && c == CardOf(p, fetch(p.id).data)
    ensures forall p | p in profiles && fetch(p.id).Ok? :: CardOf(p, fetch(p.id).data) in r
  {
    CardsOfMembers(profiles, fetch);
    CardsOf(profiles, fetch)
  }

  /** The card a profile contributes: one when its request succeeded. */
  function CardFor(p: ActiveProfile.Profile, fetch: string -> Fetched): seq<ProfileAccess> {
    if fetch(p.id).Ok? then [CardOf(p, fetch(p.id).data)] else []
  }

  /** The `map` over the `Promise.all` answers followed by the filter of the
      failed ones. */
  function CardsOf(profiles: seq<ActiveProfile.Profile>, fetch: string -> Fetched): seq<ProfileAccess>
    decreases |profiles|
  {
    if |profiles| == 0 then [] else CardFor(profiles[0], fetch) + CardsOf(profiles[1..], fetch)
  }

  /** Exactly the cards of the profiles whose request succeeded. */
  lemma {:induction false} CardsOfMembers(profiles: seq<ActiveProfile.Profile>, fetch: string -> Fetched)
    ensures |CardsOf(profiles, fetch)| <= |profiles|
    ensures forall c | c in CardsOf(profiles, fetch) ::
      exists p | p in profiles :: fetch(p.id).Ok? && c == CardOf(p, fetch(p.id).data)
    ensures forall p | p in profiles && fetch(p.id).Ok? :: CardOf(p, fetch(p.id).data) in CardsOf(profiles, fetch)
    decreases |profiles|
  {
    if |profiles| > 0 {
      var p := profiles[0];
      CardsOfMembers(profiles[1..], fetch);
      assert profiles == [p] + profiles[1..];
    }
  }

  /** The cards follow profile order: those of a list of profiles followed
      by another are the first list's cards followed by the second's. */
  lemma CardsAppend(a: seq<ActiveProfile.Profile>, b: seq<ActiveProfile.Profile>, fetch: string -> Fetched)
    ensures Cards(a + b, fetch) == Cards(a, fetch) + Cards(b, fetch)
  {
    CardsOfAppend(a, b, fetch);
  }

  lemma {:induction false} CardsOfAppend(a: seq<ActiveProfile.Profile>, b: seq<ActiveProfile.Profile>, fetch: string -> Fetched)
    ensures CardsOf(a + b, fetch) == CardsOf(a, fetch) + CardsOf(b, fetch)
    decreases |a|
  {
    if |a| > 0 {
      assert (a + b)[0] == a[0] && (a + b)[1..] == a[1..] + b;
      CardsOfAppend(a[1..], b, fetch);
    } else {
      assert a + b == b;
    }
  }

  /** One profile gives its card when its request succeeded, nothing
      otherwise. */
  lemma CardsOne(p: ActiveProfile.Profile, fetch: string -> Fetched)
    ensures Cards([p], fetch) == if fetch(p.id).Ok? then [CardOf(p, fetch(p.id).data)] else []
  {
    assert [p][1..] == [];
    assert CardsOf([p], fetch) == CardFor(p, fetch) + CardsOf([], fetch);
  }

  /** `fetchAccessData`: the new access data, or `None` when it is left as it
      was (no profiles, or a request threw). */
  function FetchAccessData(profiles: seq<ActiveProfile.Profile>, fetch: string -> Fetched): (r: Option<seq<ProfileAccess>>)
    ensures r.None? <==> |profiles| == 0 || AnyThrew(profiles, fetch)
    ensures r.Some? ==> r.value == Cards(profiles, fetch)
  {
    if |profiles| == 0 || AnyThrew(profiles, fetch) then None else Some(Cards(profiles, fetch))
  }

  predicate IsOwned(p: ProfileAccess) {
    p.accessLevel == "owner"
  }

  /** The profiles the user owns, with full controls. */
  function Owned(data: seq<ProfileAccess>): (r: seq<ProfileAccess>)
    ensures forall p :: p in r <==> p in data && IsOwned(p)
  {
    Filter(data, IsOwned)
  }

  /** The profiles shared with the user, read-only. */
  function Shared(data: seq<ProfileAccess>): (r: seq<ProfileAccess>)
    ensures forall p :: p in r <==> p in data && !IsOwned(p)
  {
    Filter(data, (p: ProfileAccess) => !IsOwned(p))
  }

  /** Every card is shown exactly once: as owned or as shared. */
  lemma {:induction false} OwnedSharedPartition(data: seq<ProfileAccess>)
    ensures multiset(Owned(data)) + multiset(Shared(data)) == multiset(data)
    decreases |data|
  {
    if |data| > 0 {
      var rest := data[1..];
      OwnedSharedPartition(rest);
      assert data == [data[0]] + rest;
      FilterAppend([data[0]], rest, IsOwned);
      FilterAppend([data[0]], rest, (p: ProfileAccess) => !IsOwned(p));
      assert [data[0]][1..] == [];
    }
  }

  /** A person the invite dialog can pick. */
  datatype KnownUser = KnownUser(email: string, name: Option<string>)

  /** All members of all cards, card by card. */
  function Flatten(data: seq<ProfileAccess>): (r: seq<Member>)
    decreases |data|
  {
    if |data| == 0 then [] else Flatten(data[..|data| - 1]) + data[|data| - 1].members
  }

  /** The e-mails of the members of the profile being invited to (the first
      card with that id), or none when there is no such card. */
  function TargetEmails(data: seq<ProfileAccess>, targetId: string): (r: set<string>)
    ensures |data| > 0 && data[0].profileId == targetId ==> r == set m | m in data[0].members :: m.email
  {
    if |data| == 0 then {}
    else if data[0].profileId == targetId then set m | m in data[0].members :: m.email
    else TargetEmails(data[1..], targetId)
  }

  function Emails(users: seq<KnownUser>): set<string> {
    set u | u in users :: u.email
  }

  /** Position of the first member with e-mail `e`, or `|ms|`. */
  function FirstWithEmail(ms: seq<Member>, e: string): (k: nat)
    ensures k <= |ms|
    ensures k < |ms| ==> ms[k].email == e
    ensures forall j | 0 <= j < k :: ms[j].email != e
  {
    if |ms| == 0 then 0 else if ms[0].email == e then 0 else 1 + FirstWithEmail(ms[1..], e)
  }

  lemma FirstWithEmailAppend(a: seq<Member>, m: Member, e: string)
    ensures FirstWithEmail(a, e) < |a| ==> FirstWithEmail(a + [m], e) == FirstWithEmail(a, e)
    ensures FirstWithEmail(a, e) == |a| && m.email == e ==> FirstWithEmail(a + [m], e) == |a|
  {
    var k := FirstWithEmail(a + [m], e);
    if FirstWithEmail(a, e) < |a| {
      assert (a + [m])[FirstWithEmail(a, e)] == a[FirstWithEmail(a, e)];
    }
    assert forall j | 0 <= j < |a| :: (a + [m])[j] == a[j];
    if FirstWithEmail(a, e) == |a| && m.email == e {
      assert (a + [m])[|a|] == m;
    }
  }

  lemma EmailsAppend(users: seq<KnownUser>, u: KnownUser)
    ensures Emails(users + [u]) == Emails(users) + {u.email}
  {
    assert forall v | v in users + [u] :: v in users || v == u;
  }

  /** The known users drawn from `ms`: one per e-mail outside `target`, with
      the name of that e-mail's first member, in order of first
      appearance. */
  function Known(ms: seq<Member>, target: set<string>): (r: seq<KnownUser>)
    ensures forall i, j | 0 <= i < j < |r| :: r[i].email != r[j].email
    ensures forall u | u in r :: u.email !in target
    decreases |ms|
  {
    if |ms| == 0 then []
    else
      var m := ms[|ms| - 1];
      var prev := Known(ms[..|ms| - 1], target);
      if m.email in target || m.email in Emails(prev) then prev
      else prev + [KnownUser(m.email, m.name)]
  }

  /** Each known user carries the name of the first member with its
      e-mail. */
  lemma {:induction false} KnownNames(ms: seq<Member>, target: set<string>)
    ensures forall u | u in Known(ms, target) :: FirstWithEmail(ms, u.email) < |ms| && u.name == ms[FirstWithEmail(ms, u.email)].name
    decreases |ms|
  {
    if |ms| > 0 {
      var a := ms[..|ms| - 1];
      var m := ms[|ms| - 1];
      assert ms == a + [m];
      KnownNames(a, target);
      var prev := Known(a, target);
      forall u | u in prev ensures FirstWithEmail(ms, u.email) == FirstWithEmail(a, u.email) {
        FirstWithEmailAppend(a, m, u.email);
      }
      if !(m.email in target || m.email in Emails(prev)) {
        KnownComplete(a, target);
        FirstWithEmailAppend(a, m, m.email);
        assert ms[|a|] == m;
        assert Known(ms, target) == prev + [KnownUser(m.email, m.name)];
      }
    }
  }

  /** Every member whose e-mail is outside `target` is known. */
  lemma {:induction false} KnownComplete(ms: seq<Member>, target: set<string>)
    ensures forall m | m in ms && m.email !in target :: m.email in Emails(Known(ms, target))
    decreases |ms|
  {
    if |ms| > 0 {
      var a := ms[..|ms| - 1];
      var m := ms[|ms| - 1];
      assert ms == a + [m];
      KnownComplete(a, target);
      var prev := Known(a, target);
      if !(m.email in target || m.email in Emails(prev)) {
        EmailsAppend(prev, KnownUser(m.email, m.name));
      }
    }
  }

  /** One more member either adds its e-mail or leaves the list alone. */
  lemma KnownSnoc(before: seq<Member>, m: Member, target: set<string>)
    ensures Known(before + [m], target)
         == if m.email in target || m.email in Emails(Known(before, target)) then Known(before, target)
            else Known(before, target) + [KnownUser(m.email, m.name)]
  {
    assert (before + [m])[..|before|] == before;
  }

  lemma FlattenSnoc(data: seq<ProfileAccess>, i: nat)
    requires i < |data|
    ensures Flatten(data[..i + 1]) == Flatten(data[..i]) + data[i].members
  {
    assert data[..i + 1][..i] == data[..i];
  }

  /** One pass of the inner loop body: `if (!targetEmails.has(m.email) &&
      !seen.has(m.email))` add the member. */
  method AddMember(before: seq<Member>, m: Member, target: set<string>, users0: seq<KnownUser>, seen0: set<string>)
    returns (users: seq<KnownUser>, seen: set<string>)
    requires users0 == Known(before, target) && seen0 == Emails(users0)
    ensures users == Known(before + [m], target) && seen == Emails(users)
  {
    KnownSnoc(before, m, target);
    users, seen := users0, seen0;
    if m.email !in target && m.email !in seen {
      EmailsAppend(users, KnownUser(m.email, m.name));
      seen := seen + {m.email};
      users := users + [KnownUser(m.email, m.name)];
    }
  }

  /** The inner loop: the members of one card added to the list so far. */
  method AddMembers(prefix: seq<Member>, ms: seq<Member>, target: set<string>, users0: seq<KnownUser>, seen0: set<string>)
    returns (users: seq<KnownUser>, seen: set<string>)
    requires users0 == Known(prefix, target) && seen0 == Emails(users0)
    ensures users == Known(prefix + ms, target) && seen == Emails(users)
  {
    users, seen := users0, seen0;
    var j := 0;
    assert prefix + ms[..0] == prefix;
    while j < |ms|
      invariant 0 <= j <= |ms|
      invariant users == Known(prefix + ms[..j], target)
      invariant seen == Emails(users)
    {
      assert prefix + ms[..j + 1] == (prefix + ms[..j]) + [ms[j]];
      users, seen := AddMember(prefix + ms[..j], ms[j], target, users, seen);
      j := j + 1;
    }
    assert ms[..j] == ms;
  }

  /** The `knownUsers` list handed to the invite dialog, built with the
      source's nested loops and its `seen` set. */
  method KnownUsers(data: seq<ProfileAccess>, targetId: string) returns (users: seq<KnownUser>)
    ensures users == Known(Flatten(data), TargetEmails(data, targetId))
  {
    var target := TargetEmails(data, targetId);
    var seen: set<string> := {};
    users := [];
    var i := 0;
    while i < |data|
      invariant 0 <= i <= |data|
      invariant users == Known(Flatten(data[..i]), target)
      invariant seen == Emails(users)
    {
      users, seen := AddMembers(Flatten(data[..i]), data[i].members, target, users, seen);
      FlattenSnoc(data, i);
      i := i + 1;
    }
    assert data[..i] == data;
  }

  /** The dialog never offers someone already in the profile, offers every
      other member of the user's profiles, and offers each e-mail once. */
  lemma KnownUsersOffersOthers(data: seq<ProfileAccess>, targetId: string, m: Member)
    requires m in Flatten(data)
    ensures var users := Known(Flatten(data), TargetEmails(data, targetId));
      && (m.email in TargetEmails(data, targetId) ==> m.email !in Emails(users))
      && (m.email !in TargetEmails(data, targetId) ==> exists u | u in users :: u.email == m.email)
  {
    var users := Known(Flatten(data), TargetEmails(data, targetId));
    KnownComplete(Flatten(data), TargetEmails(data, targetId));
    if m.email !in TargetEmails(data, targetId) {
      assert m.email in Emails(users);
    }
  }
}
