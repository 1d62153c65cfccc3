/**
 * The navigation guard of the root layout: from the session's `user` and
 * `token` and the first route segment it decides whether to replace the
 * route with the sign-in group "/(auth)", with the tab group "/(tabs)", or
 * not at all.
 */
module RootLayout {
  import opened Common
  import AuthStore

  /** The two destinations of `router.replace`. */
  datatype Route = AuthGroup | TabsGroup

  function Path(r: Route): string
  {
    match r
    case AuthGroup => "/(auth)"
    case TabsGroup => "/(tabs)"
  }

  /** The segments `useSegments` reports once the router is on `r`. */
  function SegmentsOf(r: Route): seq<string>
  {
    match r
    case AuthGroup => ["(auth)"]
    case TabsGroup => ["(tabs)"]
  }

  /** `user && token`: a user object and a non-empty token. */
  predicate SignedIn(user: Option<UserJson>, token: Option<string>)
  {
    user.Some? && Truthy(token)
  }

  /** `segments[0] === "(auth)"`; an empty list has no first segment. */
  predicate InAuthGroup(segments: seq<string>)
  {
    |segments| > 0 && segments[0] == "(auth)"
  }

  /** The route the effect replaces the current one with; None when it navigates nowhere or has no segments yet. */
  function Redirect(user: Option<UserJson>, token: Option<string>, segments: Option<seq<string>>): Option<Route>
  {
    if segments.None? then None
    else
      var inAuthScreen := InAuthGroup(segments.value);
      var isSignedIn := SignedIn(user, token);
      if !isSignedIn && !inAuthScreen then Some(AuthGroup)
      else if isSignedIn && inAuthScreen then Some(TabsGroup)
      else None
  }

  /** Signed out outside "(auth)" goes to "/(auth)", signed in inside "(auth)" goes to "/(tabs)", and nothing else moves. */
  lemma RedirectCases(user: Option<UserJson>, token: Option<string>, segments: Option<seq<string>>)
    ensures segments.None? ==> Redirect(user, token, segments).None?
    ensures Redirect(user, token, segments) == Some(AuthGroup) <==>
      segments.Some? && !SignedIn(user, token) && !InAuthGroup(segments.value)
    ensures Redirect(user, token, segments) == Some(TabsGroup) <==>
      segments.Some? && SignedIn(user, token) && InAuthGroup(segments.value)
  {
  }

  /** An empty token counts as signed out, even with a user present. */
  lemma EmptyTokenIsSignedOut(user: Option<UserJson>, segments: seq<string>)
    requires !InAuthGroup(segments)
    ensures Redirect(user, Some(""), Some(segments)) == Some(AuthGroup)
  {
  }

  /** After a redirect, the guard evaluated on the destination does not redirect again. */
  lemma {:induction false} RedirectSettles(user: Option<UserJson>, token: Option<string>, segments: seq<string>)
    requires Redirect(user, token, Some(segments)).Some?
    ensures var target := Redirect(user, token, Some(segments)).value;
      Redirect(user, token, Some(SegmentsOf(target))) == None &&
      Path(target) == "/" + SegmentsOf(target)[0]
  {
  }

  /** A login that completes with a non-empty token takes the sign-in screen to the tabs. */
  lemma LoginLeavesAuthGroup(s: AuthStore.Session, jwt: string, u: UserJson)
    requires jwt != ""
    ensures var t := AuthStore.SignIn(s, AuthStore.LoggingIn, AuthStore.Ok(jwt, u), AuthStore.NoFault).0;
      Redirect(t.user, t.token, Some(SegmentsOf(AuthGroup))) == Some(TabsGroup)
  {
  }

  /** After logout, every screen outside "(auth)" is taken to the sign-in group. */
  lemma LogoutReturnsToAuthGroup(s: AuthStore.Session, segments: seq<string>)
    requires !InAuthGroup(segments)
    ensures var t := AuthStore.LoggedOut(s, AuthStore.NoRemoveFault);
      Redirect(t.user, t.token, Some(segments)) == Some(AuthGroup)
  {
  }

  /** A logout whose removal throws leaves the guard's decision as it was. */
  lemma FailedLogoutKeepsRoute(s: AuthStore.Session, fault: AuthStore.RemoveFault, segments: Option<seq<string>>)
    requires !fault.NoRemoveFault?
    ensures var t := AuthStore.LoggedOut(s, fault);
      Redirect(t.user, t.token, segments) == Redirect(s.user, s.token, segments)
  {
    AuthStore.FailedLogoutKeepsFields(s, fault);
  }
}
