/** The two session guards of the leadership hub as pure functions from a
    request path and the session cookie's value to a decision:
    `middleware` (leadership-hub/src/middleware.ts) guards every non-public
    path, `authMiddleware` (leadership-hub/src/lib/auth/middleware.ts) only
    `/api…`, `/(hub)…` and `/`. */
module RouteGuard {
  import opened Wrappers
  import opened Strings

  datatype Decision = Pass | Unauthorized401 | RedirectSignIn

  const PublicPaths: seq<string> := ["/sign-in", "/sign-up", "/api/auth/sign-in", "/api/auth/sign-up"]

  /** `PUBLIC_PATHS.some(p => pathname.startsWith(p))`: matching is by prefix. */
  predicate IsPublic(path: string) {
    exists k :: 0 <= k < |PublicPaths| && StartsWith(path, PublicPaths[k])
  }

  /** `sessionCookie?.value` is truthy: the cookie is present and non-empty.
      Its content is never inspected. */
  predicate HasSession(cookie: Option<string>) {
    cookie.Some? && cookie.value != []
  }

  predicate IsApi(path: string) {
    StartsWith(path, "/api")
  }

  /** Static assets: `/_next…` and `/favicon…`. */
  predicate IsStatic(path: string) {
    StartsWith(path, "/_next") || StartsWith(path, "/favicon")
  }

  /** The app-wide guard: static and public paths pass, then any session
      passes; otherwise API paths get a 401 and pages a redirect. */
  function Middleware(path: string, cookie: Option<string>): (d: Decision)
    ensures d == Pass <==> IsStatic(path) || IsPublic(path) || HasSession(cookie)
    ensures d == Unauthorized401 <==>
              !IsStatic(path) && !IsPublic(path) && !HasSession(cookie) && IsApi(path)
    ensures d == RedirectSignIn <==>
              !IsStatic(path) && !IsPublic(path) && !HasSession(cookie) && !IsApi(path)
  {
    if IsStatic(path) || IsPublic(path) then Pass
    else if !HasSession(cookie) then
      if IsApi(path) then Unauthorized401 else RedirectSignIn
    else Pass
  }

  /** The paths `authMiddleware` protects: `/api…`, `/(hub)…` and exactly `/`. */
  predicate IsGuarded(path: string) {
    IsApi(path) || StartsWith(path, "/(hub)") || path == "/"
  }

  /** The narrower guard: public paths pass, unguarded paths pass without a
      session, guarded paths need one. */
  function AuthMiddleware(path: string, cookie: Option<string>): (d: Decision)
    ensures d == Pass <==> IsPublic(path) || !IsGuarded(path) || HasSession(cookie)
    ensures d == Unauthorized401 <==>
              !IsPublic(path) && IsGuarded(path) && !HasSession(cookie) && IsApi(path)
    ensures d == RedirectSignIn <==>
              !IsPublic(path) && IsGuarded(path) && !HasSession(cookie) && !IsApi(path)
  {
    if IsPublic(path) then Pass
    else if IsGuarded(path) && !HasSession(cookie) then
      if IsApi(path) then Unauthorized401 else RedirectSignIn
    else Pass
  }

  /** A path extending a public path is public: `/sign-upXYZ` passes both
      guards without a session. */
  lemma PublicByPrefix(k: nat, rest: string, cookie: Option<string>)
    requires k < |PublicPaths|
    ensures Middleware(PublicPaths[k] + rest, cookie) == Pass
    ensures AuthMiddleware(PublicPaths[k] + rest, cookie) == Pass
  {
    var p := PublicPaths[k] + rest;
    assert StartsWith(p, PublicPaths[k]) by {
      assert p[..|PublicPaths[k]|] == PublicPaths[k];
    }
  }

  /** The cookie's content is not validated: any two non-empty values get the
      same decision from both guards. */
  lemma AnySessionValue(path: string, v1: string, v2: string)
    requires v1 != [] && v2 != []
    ensures Middleware(path, Some(v1)) == Middleware(path, Some(v2)) == Pass
    ensures AuthMiddleware(path, Some(v1)) == AuthMiddleware(path, Some(v2)) == Pass
  {
  }

  /** A missing cookie and an empty one are treated alike. */
  lemma EmptyCookieIsNoCookie(path: string)
    ensures Middleware(path, Some([])) == Middleware(path, None)
    ensures AuthMiddleware(path, Some([])) == AuthMiddleware(path, None)
  {
  }

  lemma StaticNotGuarded(path: string)
    requires IsStatic(path)
    ensures !IsGuarded(path)
  {
    assert |path| > 1 && (path[1] == '_' || path[1] == 'f') by {
      if StartsWith(path, "/_next") {
        assert path[..6][1] == path[1];
      } else {
        assert path[..8][1] == path[1];
      }
    }
    NotStartsWithAt(path, "/api", 1);
    NotStartsWithAt(path, "/(hub)", 1);
  }

  /** Whatever `authMiddleware` stops, `middleware` stops the same way: the
      app-wide guard is at least as strict. */
  lemma AppGuardAtLeastAsStrict(path: string, cookie: Option<string>)
    requires AuthMiddleware(path, cookie) != Pass
    ensures Middleware(path, cookie) == AuthMiddleware(path, cookie)
  {
    if IsStatic(path) {
      StaticNotGuarded(path);
    }
  }

  /** A page outside the guarded set, visited without a session, passes
      `authMiddleware` but is redirected by `middleware`. */
  lemma UnguardedPageDiffers(rest: string)
    requires rest != [] && rest[0] != '(' && rest[0] != '_' && rest[0] != 'a'
    requires rest[0] != 'f' && rest[0] != 's'
    ensures AuthMiddleware("/" + rest, None) == Pass
    ensures Middleware("/" + rest, None) == RedirectSignIn
  {
    var p := "/" + rest;
    assert p[1] == rest[0];
    forall k | 0 <= k < |PublicPaths| ensures !StartsWith(p, PublicPaths[k]) {
      assert PublicPaths[k][1] == 's' || PublicPaths[k][1] == 'a';
      NotStartsWithAt(p, PublicPaths[k], 1);
    }
    NotStartsWithAt(p, "/_next", 1);
    NotStartsWithAt(p, "/favicon", 1);
    NotStartsWithAt(p, "/api", 1);
    NotStartsWithAt(p, "/(hub)", 1);
  }
}
