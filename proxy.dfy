/**
 * The route guard the front end runs before every page (`proxy`): the login and register pages
 * are for visitors, every other page for signed-in users. Whether the `token` cookie is still
 * accepted is asked of the back end; that round trip is the oracle `verify`, which answers false
 * when the request fails.
 */
module Proxy {
  import opened Wrappers

  /** `PUBLIC_ROUTES`. */
  const PublicRoutes: seq<string> := ["/auth/login", "/auth/register"]
  const HomePath: string := "/"
  const LoginPath: string := "/auth/login"

  /** `s.startsWith(prefix)`. */
  predicate StartsWith(s: string, prefix: string) {
    |prefix| <= |s| && s[..|prefix|] == prefix
  }

  /** `routes.some((route) => path.startsWith(route))`, scanning from the first route. */
  function AnyPrefix(path: string, routes: seq<string>): (r: bool)
    ensures r <==> exists i :: 0 <= i < |routes| && StartsWith(path, routes[i])
  {
    if routes == [] then false
    else
      assert forall i :: 0 < i < |routes| ==> routes[i] == routes[1..][i - 1];
      StartsWith(path, routes[0]) || AnyPrefix(path, routes[1..])
  }

  predicate IsPublic(path: string) {
    AnyPrefix(path, PublicRoutes)
  }

  /** What the guard answers: let the request through, or send the browser elsewhere. */
  datatype Decision = Next | Redirect(to: string)

  /** `token && ...`: a missing cookie and an empty one are both no token. */
  predicate HasToken(token: Option<string>) {
    token.Some? && token.value != ""
  }

  /** Signed in: a token is present and the back end accepts it. `verify` is asked only then. */
  predicate SignedIn(token: Option<string>, verify: string -> bool) {
    HasToken(token) && verify(token.value)
  }

  /** `proxy`'s decision for a request to `path` carrying `token`. */
  function Decide(path: string, token: Option<string>, verify: string -> bool): (r: Decision)
    ensures IsPublic(path) ==> (r == Redirect(HomePath) <==> SignedIn(token, verify))
    ensures !IsPublic(path) ==> (r == Redirect(LoginPath) <==> !SignedIn(token, verify))
    ensures r == Next || r == Redirect(HomePath) || r == Redirect(LoginPath)
    ensures r == Next <==> (IsPublic(path) <==> !SignedIn(token, verify))
  {
    if IsPublic(path) then
      if HasToken(token) && verify(token.value) then Redirect(HomePath) else Next
    else if !HasToken(token) || !verify(token.value) then Redirect(LoginPath)
    else Next
  }

  /** A path is public exactly when it starts with one of the two auth routes. */
  lemma PublicIff(path: string)
    ensures IsPublic(path) <==> StartsWith(path, "/auth/login") || StartsWith(path, "/auth/register")
  {
    assert PublicRoutes[0] == "/auth/login" && PublicRoutes[1] == "/auth/register";
  }

  /**
   * The test is on prefixes, not on path segments: pages under the auth routes, and paths that
   * merely begin with their letters, are public too.
   */
  lemma PrefixesArePublic()
    ensures IsPublic("/auth/login/x")
    ensures IsPublic("/auth/registered")
    ensures !IsPublic(HomePath)
    ensures !IsPublic("/auth")
  {
    PublicIff("/auth/login/x");
    PublicIff("/auth/registered");
    PublicIff(HomePath);
    PublicIff("/auth");
    assert "/auth/login/x"[..11] == "/auth/login";
    assert "/auth/registered"[..14] == "/auth/register";
  }

  /** Without a token the answer does not depend on the back end: `verify` is not consulted. */
  lemma NoTokenNoVerify(path: string, token: Option<string>, v1: string -> bool, v2: string -> bool)
    requires !HasToken(token)
    ensures Decide(path, token, v1) == Decide(path, token, v2)
    ensures Decide(path, token, v1) == if IsPublic(path) then Next else Redirect(LoginPath)
  {
  }

  /**
   * A redirect never leads to another one: the page it sends the browser to, asked with the same
   * cookie and the same answer from the back end, is let through.
   */
  lemma RedirectSettles(path: string, token: Option<string>, verify: string -> bool)
    requires Decide(path, token, verify).Redirect?
    ensures Decide(Decide(path, token, verify).to, token, verify) == Next
  {
    PrefixesArePublic();
    PublicIff(LoginPath);
    assert StartsWith(LoginPath, "/auth/login");
  }
}
