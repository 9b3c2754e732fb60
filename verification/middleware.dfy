/** The request middleware (web/src/middleware.ts): locale-cookie sync for
    the localized public pages, the login wall in front of the app pages,
    the post-login redirect, the 401 for API routes, and the onboarding
    redirect driven by a client-set cookie. */
module Middleware {
  import opened Wrappers
  import opened Text

  const Locales: seq<string> := ["tr", "en", "es", "de", "fr"]
  const DefaultDestination := "/dashboard"
  const WorkerSuffix := "/extract/worker"
  /** One year, the `maxAge` of the locale cookie, in seconds. */
  const LocaleCookieMaxAge := 60 * 60 * 24 * 365

  /** What the middleware sees of a request: the path, the two cookies it
      reads, whether a session token decodes, and the `redirect` query
      parameter. */
  datatype Request = Request(
    pathname: string, localeCookie: Option<string>, onboardingCookie: Option<string>,
    authenticated: bool, redirectParam: Option<string>)

  datatype Outcome =
    | Next
    | SetLocale(locale: string)          // continue, setting the `locale` cookie
    | ToLogin(from: string)              // redirect to /login?redirect=from
    | RedirectTo(destination: string)
    | Unauthorized                       // 401 JSON body

  /** `pathname.split("/")[1]`, `None` when there is no second piece. */
  function FirstSegment(pathname: string): (r: Option<string>)
    ensures r.Some? ==> '/' !in r.value
  {
    var parts := Split(pathname, '/');
    if |parts| > 1 then Some(parts[1]) else None
  }

  /** `route` itself or anything below it. */
  predicate MatchesRoute(pathname: string, route: string) {
    pathname == route || StartsWith(pathname, route + "/")
  }

  /** The app pages that need a session. */
  predicate IsProtectedRoute(p: string) {
    MatchesRoute(p, "/dashboard") || MatchesRoute(p, "/upload") || MatchesRoute(p, "/onboarding")
  }

  /** The login page. */
  predicate IsAuthRoute(p: string) {
    MatchesRoute(p, "/login")
  }

  /** The API routes that answer 401 without a session. */
  predicate IsProtectedApiRoute(p: string) {
    MatchesRoute(p, "/api/metrics") || MatchesRoute(p, "/api/metric-order") || MatchesRoute(p, "/api/profiles")
    || MatchesRoute(p, "/api/upload") || MatchesRoute(p, "/api/onboarding") || MatchesRoute(p, "/api/settings")
  }

  /** The paths that must stay reachable while onboarding is pending. */
  predicate IsOnboardingPath(p: string) {
    MatchesRoute(p, "/onboarding") || MatchesRoute(p, "/api/profiles") || MatchesRoute(p, "/api/onboarding")
  }

  predicate IsLocalePage(pathname: string) {
    var seg := FirstSegment(pathname);
    seg.Some? && seg.value != "" && seg.value in Locales
  }

  /** The WHATWG URL parser drops tabs and newlines anywhere in the input
      and reads `\` as `/` in http(s) URLs. */
  function UrlNormalize(s: string): (r: string)
    ensures |r| <= |s|
    ensures '\\' !in r
  {
    if |s| == 0 then ""
    else if s[0] in {'\t', '\n', '\r'} then UrlNormalize(s[1..])
    else [if s[0] == '\\' then '/' else s[0]] + UrlNormalize(s[1..])
  }

  /** Resolving `dest` against the request URL leaves the site: after
      normalisation it is a scheme-relative `//host...` reference. */
  predicate LeavesOrigin(dest: string) {
    StartsWith(UrlNormalize(dest), "//")
  }

  predicate Truthy(s: Option<string>) {
    s.Some? && s.value != ""
  }

  /** The post-login destination check as the source writes it. */
  function LoginDestinationAsWritten(redirectTo: Option<string>): (r: string)
    ensures StartsWith(r, "/") && !StartsWith(r, "//")
    ensures Truthy(redirectTo) && StartsWith(redirectTo.value, "/") && !StartsWith(redirectTo.value, "//") ==> r == redirectTo.value
    ensures r != DefaultDestination ==> Some(r) == redirectTo
  {
    OnSite(DefaultDestination);
    if Truthy(redirectTo) && StartsWith(redirectTo.value, "/") && !StartsWith(redirectTo.value, "//")
    then redirectTo.value else DefaultDestination
  }


  /** A URL character the parser keeps as it is. */
  predicate PlainUrlChar(c: char) {
    c !in {'\t', '\n', '\r', '\\'}
  }

  lemma {:induction false} UrlNormalizeAppend(a: string, b: string)
    ensures UrlNormalize(a + b) == UrlNormalize(a) + UrlNormalize(b)
    decreases |a|
  {
    if |a| > 0 {
      assert (a + b)[1..] == a[1..] + b;
      UrlNormalizeAppend(a[1..], b);
    } else {
      assert a + b == b;
    }
  }

  /** A path whose second character is plain and not a slash stays on the
      site. */
  lemma OnSite(s: string)
    requires |s| >= 2 && s[0] == '/' && PlainUrlChar(s[1]) && s[1] != '/'
    ensures StartsWith(s, "/") && !StartsWith(s, "//") && !LeavesOrigin(s)
  {
    assert s == s[..2] + s[2..];
    UrlNormalizeAppend(s[..2], s[2..]);
    assert s[..2][1..] == [s[1]];
    assert UrlNormalize(s[..2]) == ['/', s[1]];
  }

  /** A backslash gets past the written check and sends the user to another
      host: `/\evil.example`, and every other target starting `/\`. */
  lemma AsWrittenGuardLeaks(host: string)
    ensures LoginDestinationAsWritten(Some("/\\" + host)) == "/\\" + host
    ensures LeavesOrigin("/\\" + host)
  {
    var s := "/\\" + host;
    assert s[..1] == "/" && s[..2] == "/\\";
    UrlNormalizeAppend("/\\", host);
    assert "/\\"[1..] == "\\";
    assert UrlNormalize("/\\") == "//";
    assert UrlNormalize(s)[..2] == "//";
  }

  /** The check as intended: only paths on this site are honoured. */
  function LoginDestination(redirectTo: Option<string>): (r: string)
    ensures StartsWith(r, "/") && !LeavesOrigin(r)
    ensures Truthy(redirectTo) && StartsWith(redirectTo.value, "/") && !LeavesOrigin(redirectTo.value) ==> r == redirectTo.value
    ensures r != DefaultDestination ==> Some(r) == redirectTo
  {
    assert !LeavesOrigin(DefaultDestination) by { OnSite(DefaultDestination); }
    if Truthy(redirectTo) && StartsWith(redirectTo.value, "/") && !LeavesOrigin(redirectTo.value)
    then redirectTo.value else DefaultDestination
  }

  /** The corrected check honours no more than the written one. */
  lemma CorrectedGuardStricter(redirectTo: Option<string>)
    ensures LoginDestination(redirectTo) != DefaultDestination
        ==> LoginDestination(redirectTo) == LoginDestinationAsWritten(redirectTo)
  {
    var d := LoginDestination(redirectTo);
    if d != DefaultDestination {
      DoubleSlashLeaves(redirectTo.value);
    }
  }

  /** What the written check rejects leaves the site. */
  lemma DoubleSlashLeaves(v: string)
    ensures StartsWith(v, "//") ==> LeavesOrigin(v)
  {
    if StartsWith(v, "//") {
      assert v == "//" + v[2..];
      UrlNormalizeAppend("//", v[2..]);
      assert "//"[1..] == "/";
      assert UrlNormalize("//") == "//";
    }
  }

  /** The request reaches the post-login redirect: no locale-cookie sync
      and no login wall came first, and a signed-in user is on the login
      page. */
  predicate LoginBranch(req: Request) {
    var p := req.pathname;
    && !(IsLocalePage(p) && req.localeCookie != FirstSegment(p))
    && !(IsProtectedRoute(p) && !req.authenticated)
    && IsAuthRoute(p) && req.authenticated
  }

  /** The middleware's decision for one request, with the post-login check
      as written. */
  function Decide(req: Request): (r: Outcome)
    ensures r.SetLocale? ==> r.locale in Locales
    ensures r.RedirectTo? ==> StartsWith(r.destination, "/") && !StartsWith(r.destination, "//")
    ensures LoginBranch(req) ==> r == RedirectTo(LoginDestinationAsWritten(req.redirectParam))
    ensures r.RedirectTo? && !LoginBranch(req) ==> r.destination == "/onboarding"
    ensures r.ToLogin? ==> r.from == req.pathname && !req.authenticated
  {
    var p := req.pathname;
    OnSite("/onboarding");
    if IsLocalePage(p) && req.localeCookie != FirstSegment(p) then SetLocale(FirstSegment(p).value)
    else if IsProtectedRoute(p) && !req.authenticated then ToLogin(p)
    else if IsAuthRoute(p) && req.authenticated then RedirectTo(LoginDestinationAsWritten(req.redirectParam))
    else if IsProtectedApiRoute(p) && !req.authenticated && !EndsWith(p, WorkerSuffix) then Unauthorized
    else if req.authenticated && IsProtectedRoute(p) && !IsOnboardingPath(p)
         && req.onboardingCookie == Some("true") then RedirectTo("/onboarding")
    else Next
  }

  /** The middleware with the corrected post-login check: every redirect
      stays on this site, and every other decision is the written one. */
  function DecideCorrected(req: Request): (r: Outcome)
    ensures r.RedirectTo? ==> StartsWith(r.destination, "/") && !LeavesOrigin(r.destination)
    ensures LoginBranch(req) ==> r == RedirectTo(LoginDestination(req.redirectParam))
    ensures !LoginBranch(req) ==> r == Decide(req)
  {
    assert !LeavesOrigin("/onboarding") by { OnSite("/onboarding"); }
    if LoginBranch(req) then RedirectTo(LoginDestination(req.redirectParam)) else Decide(req)
  }

  /** As written, a signed-in visit to `/login?redirect=/\evil.example`
      redirects to another host. */
  lemma DecideAsWrittenLeaks(host: string, cookie: Option<string>, onboarding: Option<string>)
    ensures Decide(Request("/login", cookie, onboarding, true, Some("/\\" + host))) == RedirectTo("/\\" + host)
    ensures LeavesOrigin("/\\" + host)
  {
    assert IsAuthRoute("/login");
    LocalePagesArePublic("/login");
    RouteKindsDisjoint("/login");
    AsWrittenGuardLeaks(host);
  }

  /** The first separator comes after a separator-free prefix. */
  lemma CharIndexPastPrefix(s: string, k: nat, c: char)
    requires k <= |s|
    requires forall j | 0 <= j < k :: s[j] != c
    ensures CharIndex(s, c) >= k
  {
  }

  /** The first segment of a path below `/name` starts with `name`. */
  lemma FirstSegmentBelow(p: string, dir: string)
    requires |dir| >= 2 && dir[0] == '/' && '/' !in dir[1..]
    requires StartsWith(p, dir)
    ensures FirstSegment(p).Some? && |FirstSegment(p).value| >= |dir| - 1
  {
    assert p[0] == dir[0];
    var rest := p[1..];
    assert forall j | 0 <= j < |dir| - 1 :: rest[j] == p[..|dir|][j + 1] == dir[1..][j];
    CharIndexPastPrefix(rest, |dir| - 1, '/');
    assert CharIndex(p, '/') == 0;
    assert Split(p, '/') == [p[..0]] + Split(rest, '/');
    var k := CharIndex(rest, '/');
    if k < |rest| {
      assert Split(rest, '/')[0] == rest[..k];
    }
  }

  /** What matching a route says about the path's first characters. */
  lemma RouteHead(p: string, route: string, k: nat)
    requires MatchesRoute(p, route) && k <= |route|
    ensures StartsWith(p, route[..k])
  {
    if p != route {
      assert p[..k] == (route + "/")[..k] == route[..k];
    }
  }

  /** Nothing below a directory with a name longer than a locale code is a
      locale page. */
  lemma BelowDirNotLocale(p: string, dir: string)
    requires |dir| >= 4 && dir[0] == '/' && '/' !in dir[1..]
    requires StartsWith(p, dir)
    ensures !IsLocalePage(p)
  {
    FirstSegmentBelow(p, dir);
  }

  /** Locale pages are public: the cookie shortcut, which returns before the
      session is looked at, never skips a login or 401 check. */
  lemma LocalePagesArePublic(p: string)
    ensures IsProtectedRoute(p) || IsAuthRoute(p) || IsProtectedApiRoute(p) ==> !IsLocalePage(p)
  {
    if MatchesRoute(p, "/dashboard") {
      RouteHead(p, "/dashboard", 10); BelowDirNotLocale(p, "/dashboard");
    } else if MatchesRoute(p, "/upload") {
      RouteHead(p, "/upload", 7); BelowDirNotLocale(p, "/upload");
    } else if MatchesRoute(p, "/onboarding") {
      RouteHead(p, "/onboarding", 11); BelowDirNotLocale(p, "/onboarding");
    } else if MatchesRoute(p, "/login") {
      RouteHead(p, "/login", 6); BelowDirNotLocale(p, "/login");
    } else if IsProtectedApiRoute(p) {
      ApiHead(p); BelowDirNotLocale(p, "/api");
    }
  }

  lemma ApiHead(p: string)
    requires IsProtectedApiRoute(p)
    ensures StartsWith(p, "/api")
    ensures |p| >= 2 && p[1] == 'a'
  {
    if MatchesRoute(p, "/api/metrics") { RouteHead(p, "/api/metrics", 4); }
    if MatchesRoute(p, "/api/metric-order") { RouteHead(p, "/api/metric-order", 4); }
    if MatchesRoute(p, "/api/profiles") { RouteHead(p, "/api/profiles", 4); }
    if MatchesRoute(p, "/api/upload") { RouteHead(p, "/api/upload", 4); }
    if MatchesRoute(p, "/api/onboarding") { RouteHead(p, "/api/onboarding", 4); }
    if MatchesRoute(p, "/api/settings") { RouteHead(p, "/api/settings", 4); }
    assert p[..4][1] == 'a';
  }

  /** The second character of the login page: `l`. */
  lemma AuthHead(p: string)
    requires IsAuthRoute(p)
    ensures |p| >= 2 && p[1] == 'l'
  {
    RouteHead(p, "/login", 2);
    assert p[..2][1] == 'l';
  }

  /** The second character of an app page: `d`, `u` or `o`. */
  lemma AppPageHead(p: string)
    requires IsProtectedRoute(p)
    ensures |p| >= 2 && p[0] == '/' && p[1] in {'d', 'u', 'o'}
  {
    if MatchesRoute(p, "/dashboard") { RouteHead(p, "/dashboard", 2); }
    if MatchesRoute(p, "/upload") { RouteHead(p, "/upload", 2); }
    if MatchesRoute(p, "/onboarding") { RouteHead(p, "/onboarding", 2); }
  }

  /** App pages, the login page and API routes are disjoint. */
  lemma RouteKindsDisjoint(p: string)
    ensures IsProtectedRoute(p) ==> !IsAuthRoute(p) && !IsProtectedApiRoute(p)
    ensures IsAuthRoute(p) ==> !IsProtectedApiRoute(p)
  {
    if IsProtectedRoute(p) {
      AppPageHead(p);
    }
    if IsAuthRoute(p) {
      AuthHead(p);
    }
    if IsProtectedApiRoute(p) {
      ApiHead(p);
    }
  }

  /** The locale cookie is (re)set exactly when a localized page is visited
      with a different cookie value. */
  lemma LocaleSync(req: Request)
    ensures Decide(req).SetLocale? <==> IsLocalePage(req.pathname) && req.localeCookie != FirstSegment(req.pathname)
    ensures Decide(req).SetLocale? ==> Some(Decide(req).locale) == FirstSegment(req.pathname)
  {
  }

  /** A signed-out visit to an app page goes to the login page, which
      remembers the page; signing in then lands the user back on it. */
  lemma LoginRoundTrip(p: string, cookie: Option<string>, onboarding: Option<string>)
    requires IsProtectedRoute(p)
    ensures Decide(Request(p, cookie, onboarding, false, None)) == ToLogin(p)
    ensures Decide(Request("/login", cookie, onboarding, true, Some(p))) == RedirectTo(p)
  {
    LocalePagesArePublic(p);
    AppPageHead(p);
    OnSite(p);
    LoginPageHonours(p, cookie, onboarding);
  }

  /** A signed-in visit to the login page with a target that starts with
      one slash and not two redirects to the target. */
  lemma LoginPageHonours(p: string, cookie: Option<string>, onboarding: Option<string>)
    requires StartsWith(p, "/") && !StartsWith(p, "//")
    ensures Decide(Request("/login", cookie, onboarding, true, Some(p))) == RedirectTo(p)
  {
    assert IsAuthRoute("/login");
    LocalePagesArePublic("/login");
  }

  /** API routes answer 401 to signed-out callers, except the internal
      extraction worker. */
  lemma ApiUnauthorizedIff(req: Request)
    ensures Decide(req).Unauthorized? <==>
      (IsProtectedApiRoute(req.pathname) && !req.authenticated && !EndsWith(req.pathname, WorkerSuffix))
  {
    LocalePagesArePublic(req.pathname);
    RouteKindsDisjoint(req.pathname);
  }

  /** Signed-in users with the needs-onboarding cookie are sent to
      onboarding from every app page outside onboarding itself; a signed-out
      user never is. */
  lemma OnboardingRedirect(req: Request)
    ensures (req.authenticated && IsProtectedRoute(req.pathname) && !IsOnboardingPath(req.pathname)
             && req.onboardingCookie == Some("true")) ==> Decide(req) == RedirectTo("/onboarding")
    ensures !req.authenticated ==> Decide(req) != RedirectTo("/onboarding")
    ensures IsOnboardingPath(req.pathname) ==> Decide(req) != RedirectTo("/onboarding")
  {
    LocalePagesArePublic(req.pathname);
    RouteKindsDisjoint(req.pathname);
  }

  /** Matching is by whole path segments: a page that merely shares a
      prefix with an app page is public. */
  lemma SegmentBoundary()
    ensures IsProtectedRoute("/dashboard") && IsProtectedRoute("/dashboard/x")
    ensures !IsProtectedRoute("/dashboardx")
  {
    assert "/dashboard/x"[..11] == "/dashboard/";
    assert "/dashboardx"[..11][10] != "/dashboard/"[10];
    assert "/dashboardx"[..8][1] != "/upload/"[1];
    assert "/dashboardx"[2] != "/onboarding/"[2];
  }
}
