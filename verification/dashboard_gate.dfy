/** The dashboard's authentication gate: from the session's loading flag,
    its user and the current path it decides what to render and whether to
    send the browser to the login page. */
module Gate {
  import opened Wrappers
  import opened Text
  import opened UserRecords
  import Session

  /** Paths that render without a session, matched as prefixes. */
  const ExcludedRoutes: seq<string> := ["/login", "/password-reset"]

  /** The path starts with at least one of `routes`. */
  function AnyPrefix(path: string, routes: seq<string>): (r: bool)
    ensures r <==> exists i :: 0 <= i < |routes| && StartsWith(path, routes[i])
  {
    if |routes| == 0 then false
    else StartsWith(path, routes[0]) || AnyPrefix(path, routes[1..])
  }

  /** `isExcluded`: the path starts with one of the excluded routes. */
  function IsExcluded(path: string): (r: bool)
    ensures r <==> StartsWith(path, "/login") || StartsWith(path, "/password-reset")
  {
    assert ExcludedRoutes[0] == "/login" && ExcludedRoutes[1] == "/password-reset";
    AnyPrefix(path, ExcludedRoutes)
  }

  /** Prefix matching excludes more than the two pages themselves. */
  lemma ExcludedExamples()
    ensures IsExcluded("/login")
    ensures IsExcluded("/login-x")
    ensures IsExcluded("/password-reset/confirm")
    ensures !IsExcluded("/users")
    ensures !IsExcluded("/")
    ensures !IsExcluded("/Login")
  {
    assert "/login-x"[..6] == "/login";
    assert "/password-reset/confirm"[..15] == "/password-reset";
    assert "/users"[..6] != "/login" by { assert "/users"[1] != "/login"[1]; }
    assert "/Login"[..6] != "/login" by { assert "/Login"[1] != "/login"[1]; }
    assert "/users"[1] != "/password-reset"[1];
  }

  /** What `DashboardContent` renders. */
  datatype View =
    | Spinner    // loading indicator
    | Plain      // the page alone, without sidebar and header
    | Blank      // nothing, while the redirect happens
    | Dashboard  // sidebar, header and page

  datatype Decision = Decision(view: View, redirectToLogin: bool)

  /** The redirect effect and the ordered render chain: loading first, then
      excluded routes, then the missing user. */
  function Decide(isLoading: bool, user: Option<UserRecord>, path: string): (d: Decision)
    ensures d.redirectToLogin <==> !isLoading && user.None? && !IsExcluded(path)
    ensures isLoading ==> d.view == Spinner
    ensures !isLoading && IsExcluded(path) ==> d.view == Plain
    ensures !isLoading && !IsExcluded(path) && user.None? ==> d.view == Blank
    ensures d.view == Dashboard <==> !isLoading && !IsExcluded(path) && user.Some?
  {
    var excluded := IsExcluded(path);
    var redirect := !isLoading && user.None? && !excluded;
    if isLoading then Decision(Spinner, redirect)
    else if excluded then Decision(Plain, redirect)
    else if user.None? then Decision(Blank, redirect)
    else Decision(Dashboard, redirect)
  }

  /** The redirect and the protected content never go together, and a
      redirect always comes with an empty screen. */
  lemma RedirectExcludesDashboard(isLoading: bool, user: Option<UserRecord>, path: string)
    ensures !(Decide(isLoading, user, path).redirectToLogin &&
              Decide(isLoading, user, path).view == Dashboard)
    ensures Decide(isLoading, user, path).redirectToLogin ==>
              Decide(isLoading, user, path).view == Blank
  {
  }

  /** The gate applied to a session state. */
  function DecideFor(s: Session.AuthState, path: string): Decision
  {
    Decide(s.isLoading, s.user, path)
  }

  /** Before the restore, every route shows the spinner and nobody is
      redirected. */
  lemma MountShowsSpinner(stored: Option<Session.Stored>, path: string)
    ensures DecideFor(Session.Mount(stored), path) == Decision(Spinner, false)
  {
  }

  /** After a restore that finds no saved user, protected routes redirect
      to login and excluded ones render plainly. */
  lemma RestoreWithoutUser(stored: Option<Session.Stored>, path: string)
    requires stored.None? || stored.value.Corrupt?
    ensures var d := DecideFor(Session.Restore(Session.Mount(stored)), path);
            (d.redirectToLogin <==> !IsExcluded(path)) &&
            (d.view == if IsExcluded(path) then Plain else Blank)
  {
  }

  /** A successful login opens the dashboard on every protected route. */
  lemma LoginOpensDashboard(s: Session.AuthState, users: seq<UserRecord>, email: string, path: string)
    requires !s.isLoading && !IsExcluded(path)
    requires Session.Login(s, users, email).success
    ensures DecideFor(Session.Login(s, users, email).state, path) == Decision(Dashboard, false)
  {
  }

  /** After a logout, a protected route redirects to login and shows
      nothing once loading is over. */
  lemma LogoutRedirects(s: Session.AuthState, path: string)
    requires !s.isLoading && !IsExcluded(path)
    ensures DecideFor(Session.Logout(s), path) == Decision(Blank, true)
  {
  }
}
