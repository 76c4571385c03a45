/** The landing page of the OAuth sign-in: it reads `token` and `error`
    from the query string, signs in when a token came back, and replaces the
    history entry with the calendar or the login page. */
module OAuthRedirect {
  import opened JsValue

  /** `navigate(path, { replace })` */
  datatype Navigation = Navigation(path: string, replace: bool)

  /** What the effect does: the token handed to `login`, if it calls it, and
      where it navigates. */
  datatype Outcome = Outcome(login: Option<string>, navigation: Navigation)

  /** The effect for the query parameters `token` and `error` (`None` where
      `params.get` gives null). `encode` is encodeURIComponent. */
  function Redirect(token: Option<string>, error: Option<string>, encode: string -> string): (r: Outcome)
    ensures r.navigation.replace
    ensures r.login.Some? <==> token.Some? && token.value != ""
    ensures r.login.Some? ==> r.login == token && r.navigation.path == "/calendar"
    ensures r.login.None? ==>
      r.navigation.path == (if error.Some? && error.value != "" then "/login?error=" + encode(error.value) else "/login")
  {
    if token.Some? && token.value != "" then
      Outcome(Some(token.value), Navigation("/calendar", true))
    else
      var loginPath := if error.Some? && error.value != "" then "/login?error=" + encode(error.value) else "/login";
      Outcome(None, Navigation(loginPath, true))
  }

  /** The page signs in exactly when it goes to the calendar; every other
      outcome lands on the login page. */
  lemma SignInIffCalendar(token: Option<string>, error: Option<string>, encode: string -> string)
    ensures var r := Redirect(token, error, encode);
      (r.login.Some? <==> r.navigation.path == "/calendar") &&
      (r.login.None? ==> r.navigation.path[..6] == "/login")
  {
    var r := Redirect(token, error, encode);
    if r.login.None? {
      assert r.navigation.path[..6] == "/login";
    }
  }

  /** A token wins over any error sent beside it. */
  lemma TokenOverridesError(token: string, e1: Option<string>, e2: Option<string>, encode: string -> string)
    requires token != ""
    ensures Redirect(Some(token), e1, encode) == Redirect(Some(token), e2, encode)
  {
  }

  /** Distinct error texts reach the login page as distinct paths when the
      encoding keeps them apart. */
  lemma ErrorReachesLogin(e1: string, e2: string, encode: string -> string)
    requires e1 != "" && e2 != "" && encode(e1) != encode(e2)
    ensures Redirect(None, Some(e1), encode).navigation.path != Redirect(None, Some(e2), encode).navigation.path
  {
    var p1, p2 := Redirect(None, Some(e1), encode).navigation.path, Redirect(None, Some(e2), encode).navigation.path;
    assert p1[13..] == encode(e1) && p2[13..] == encode(e2);
  }
}
