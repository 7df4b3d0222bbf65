/**
 * The route table and session gate of `src/App.jsx`. A location is given as
 * its path segments (`/employees/edit/42` is `["employees", "edit", "42"]`,
 * `/` is `[]`, and a trailing slash adds a final empty segment:
 * `/employees/` is `["employees", ""]`); the outcome is the page rendered, a
 * redirect, or no match. As in react-router without `caseSensitive`, literal
 * segments match regardless of letter case and trailing slashes are ignored.
 */
module App {
  import opened Wrappers
  import Text

  datatype Page = LoginView | DashboardView | EmployeeListView | EmployeeFormView

  /** A pattern segment: literal text, or a dynamic `:name` segment. */
  datatype Segment = Literal(text: string) | Param(name: string)

  /** A route: its full pattern, its page, and whether it sits under `ProtectedRoute`. */
  datatype Route = Route(pattern: seq<Segment>, page: Page, gated: bool)

  datatype Outcome = Render(page: Page, id: Option<string>) | Redirect(to: string) | NoMatch

  /**
   * The declared routes: `/login` on its own; `/` wrapped in `ProtectedRoute`
   * with the dashboard as its index and three nested employee routes. Every
   * page but the login page sits behind the gate.
   */
  function RouteTable(): (t: seq<Route>)
    ensures |t| == 5
    ensures forall j :: 0 <= j < |t| ==> (t[j].gated <==> t[j].page != LoginView)
  {
    [
      Route([Literal("login")], LoginView, false),
      Route([], DashboardView, true),
      Route([Literal("employees")], EmployeeListView, true),
      Route([Literal("employees"), Literal("add")], EmployeeFormView, true),
      Route([Literal("employees"), Literal("edit"), Param("id")], EmployeeFormView, true)
    ]
  }

  /** `localStorage.getItem('isAuthenticated') === 'true'`. */
  predicate IsAuthenticated(flag: Option<string>)
    ensures flag.None? ==> !IsAuthenticated(flag)
    ensures IsAuthenticated(flag) ==> flag.value == "true"
  {
    flag == Some("true")
  }

  /** `ProtectedRoute`: its children when authenticated, otherwise a redirect to /login. */
  function ProtectedRoute(flag: Option<string>, children: Outcome): (r: Outcome)
    ensures IsAuthenticated(flag) ==> r == children
    ensures !IsAuthenticated(flag) ==> r == Redirect("/login")
  {
    if IsAuthenticated(flag) then children else Redirect("/login")
  }

  /**
   * One segment test: a literal matches its text in any letter case, a
   * dynamic segment matches any non-empty segment.
   */
  predicate SegmentMatches(s: Segment, seg: string)
  {
    match s
    case Literal(t) => Text.ToLower(seg) == Text.ToLower(t)
    case Param(_) => seg != ""
  }

  /** `i` is the first dynamic segment of `pattern`. */
  predicate FirstParamAt(pattern: seq<Segment>, i: int)
  {
    0 <= i < |pattern| && pattern[i].Param? && forall j :: 0 <= j < i ==> pattern[j].Literal?
  }

  /** The location without its trailing empty segments, that is, without trailing slashes. */
  function Normalize(path: seq<string>): (r: seq<string>)
    ensures r <= path
    ensures r == [] || r[|r| - 1] != ""
    ensures forall i :: |r| <= i < |path| ==> path[i] == ""
  {
    if path != [] && path[|path| - 1] == "" then Normalize(path[..|path| - 1]) else path
  }

  /**
   * Match a path against a pattern; on success, the value of its dynamic
   * segment (`None` when the pattern has none).
   */
  function MatchPattern(pattern: seq<Segment>, path: seq<string>): (r: Option<Option<string>>)
    ensures r.Some? <==>
      |pattern| == |path| && forall i :: 0 <= i < |path| ==> SegmentMatches(pattern[i], path[i])
    ensures r.Some? && r.value.Some? ==>
      exists i :: 0 <= i < |path| && pattern[i].Param? && path[i] == r.value.value
    ensures r.Some? && (forall i :: 0 <= i < |pattern| ==> pattern[i].Literal?) ==> r.value.None?
    // the value is the segment at the first dynamic position
    ensures r.Some? ==> forall i :: FirstParamAt(pattern, i) ==> r.value == Some(path[i])
  {
    if |pattern| != |path| then None
    else if pattern == [] then Some(None)
    else
      match MatchPattern(pattern[1..], path[1..])
      case None => None
      case Some(rest) =>
        if !SegmentMatches(pattern[0], path[0]) then None
        else if pattern[0].Param? then Some(Some(path[0]))
        else
          assert rest.Some? ==> exists i :: 1 <= i < |path| && pattern[i].Param? && path[i] == rest.value;
          Some(rest)
  }

  /** The outcome of the first route in `routes` whose pattern matches `path`. */
  function ResolveIn(routes: seq<Route>, path: seq<string>, flag: Option<string>): (r: Outcome)
    ensures r.NoMatch? <==> forall j :: 0 <= j < |routes| ==> MatchPattern(routes[j].pattern, path).None?
    ensures r.Redirect? ==> r.to == "/login" && !IsAuthenticated(flag)
  {
    if routes == [] then NoMatch
    else
      match MatchPattern(routes[0].pattern, path)
      case Some(id) =>
        var element := Render(routes[0].page, id);
        if routes[0].gated then ProtectedRoute(flag, element) else element
      case None => ResolveIn(routes[1..], path, flag)
  }

  /**
   * What the router shows for `path` given the stored session flag: nothing
   * exactly when no declared pattern matches (there is no catch-all), and a
   * redirect only to /login and only for a session that is not authenticated.
   */
  function Resolve(path: seq<string>, flag: Option<string>): (r: Outcome)
    ensures r.NoMatch? <==>
      forall j :: 0 <= j < |RouteTable()| ==> MatchPattern(RouteTable()[j].pattern, Normalize(path)).None?
    ensures r.Redirect? ==> r.to == "/login" && !IsAuthenticated(flag)
  {
    ResolveIn(RouteTable(), Normalize(path), flag)
  }

  /** The outcome a route produces once its pattern has matched with parameter `id`. */
  function RouteOutcome(r: Route, id: Option<string>, flag: Option<string>): Outcome
  {
    if r.gated then ProtectedRoute(flag, Render(r.page, id)) else Render(r.page, id)
  }

  /** The first matching route decides the outcome. */
  lemma {:induction false} ResolveInFirstMatch(routes: seq<Route>, path: seq<string>, flag: Option<string>, k: nat)
    requires k < |routes| && MatchPattern(routes[k].pattern, path).Some?
    requires forall j :: 0 <= j < k ==> MatchPattern(routes[j].pattern, path).None?
    ensures ResolveIn(routes, path, flag) ==
      RouteOutcome(routes[k], MatchPattern(routes[k].pattern, path).value, flag)
  {
    if k > 0 {
      ResolveInFirstMatch(routes[1..], path, flag, k - 1);
    }
  }

  /** /login renders the login page whatever the flag holds. */
  lemma LoginAlwaysReachable(flag: Option<string>)
    ensures Resolve(["login"], flag) == Render(LoginView, None)
  {
    assert Normalize(["login"]) == ["login"];
    ResolveInFirstMatch(RouteTable(), ["login"], flag, 0);
  }

  /** `/` renders the dashboard exactly when the session is authenticated. */
  lemma GatedIndex(flag: Option<string>)
    ensures Resolve([], flag) ==
      if IsAuthenticated(flag) then Render(DashboardView, None) else Redirect("/login")
  {
    ResolveInFirstMatch(RouteTable(), [], flag, 1);
  }

  /** `/employees` renders the list exactly when the session is authenticated. */
  lemma GatedList(flag: Option<string>)
    ensures Resolve(["employees"], flag) ==
      if IsAuthenticated(flag) then Render(EmployeeListView, None) else Redirect("/login")
  {
    assert Normalize(["employees"]) == ["employees"];
    ResolveInFirstMatch(RouteTable(), ["employees"], flag, 2);
  }

  /** `/employees/add` renders the form, with no id, exactly when the session is authenticated. */
  lemma GatedAdd(flag: Option<string>)
    ensures Resolve(["employees", "add"], flag) ==
      if IsAuthenticated(flag) then Render(EmployeeFormView, None) else Redirect("/login")
  {
    var add := ["employees", "add"];
    assert Normalize(add) == add;
    var table := RouteTable();
    assert SegmentMatches(table[3].pattern[1], add[1]);
    ResolveInFirstMatch(table, add, flag, 3);
  }

  /** `/employees/edit/<id>` renders the form with that id exactly when the session is authenticated. */
  lemma GatedEdit(flag: Option<string>, id: string)
    requires id != ""
    ensures Resolve(["employees", "edit", id], flag) ==
      if IsAuthenticated(flag) then Render(EmployeeFormView, Some(id)) else Redirect("/login")
  {
    var edit := ["employees", "edit", id];
    assert Normalize(edit) == edit;
    var table := RouteTable();
    var pat := table[4].pattern;
    assert pat[1..][1..] == [Param("id")] && edit[1..][1..] == [id];
    assert MatchPattern(pat[1..][1..], edit[1..][1..]) == Some(Some(id));
    assert MatchPattern(pat[1..], edit[1..]) == Some(Some(id));
    assert MatchPattern(pat, edit) == Some(Some(id));
    ResolveInFirstMatch(table, edit, flag, 4);
  }

  /** The four gated locations render their page exactly when the session is authenticated. */
  lemma GatedRoutes(flag: Option<string>, id: string)
    requires id != ""
    ensures Resolve([], flag) ==
      if IsAuthenticated(flag) then Render(DashboardView, None) else Redirect("/login")
    ensures Resolve(["employees"], flag) ==
      if IsAuthenticated(flag) then Render(EmployeeListView, None) else Redirect("/login")
    ensures Resolve(["employees", "add"], flag) ==
      if IsAuthenticated(flag) then Render(EmployeeFormView, None) else Redirect("/login")
    ensures Resolve(["employees", "edit", id], flag) ==
      if IsAuthenticated(flag) then Render(EmployeeFormView, Some(id)) else Redirect("/login")
  {
    GatedIndex(flag);
    GatedList(flag);
    GatedAdd(flag);
    GatedEdit(flag, id);
  }

  /** Trailing slashes never change what a location shows. */
  lemma TrailingSlashIgnored(path: seq<string>, flag: Option<string>)
    ensures Resolve(path + [""], flag) == Resolve(path, flag)
  {
    assert (path + [""])[..|path|] == path;
  }

  /** `/Employees` is the list route: literal segments match in any letter case. */
  lemma UpperCaseListPath(flag: Option<string>)
    ensures Resolve(["Employees"], flag) ==
      if IsAuthenticated(flag) then Render(EmployeeListView, None) else Redirect("/login")
  {
    var p := ["Employees"];
    assert Normalize(p) == p;
    assert Text.ToLower(p[0]) == Text.ToLower("employees");
    ResolveInFirstMatch(RouteTable(), p, flag, 2);
  }

  /** `/LOGIN` renders the login page whatever the flag holds. */
  lemma UpperCaseLoginPath(flag: Option<string>)
    ensures Resolve(["LOGIN"], flag) == Render(LoginView, None)
  {
    var p := ["LOGIN"];
    assert Normalize(p) == p;
    assert Text.ToLower(p[0]) == Text.ToLower("login");
    ResolveInFirstMatch(RouteTable(), p, flag, 0);
  }

  /** Without an authenticated session, no location other than /login renders a page. */
  lemma {:induction false} UnauthenticatedSeesOnlyLogin(routes: seq<Route>, path: seq<string>, flag: Option<string>)
    requires !IsAuthenticated(flag)
    requires forall j :: 0 <= j < |routes| && !routes[j].gated ==> routes[j].page == LoginView
    ensures ResolveIn(routes, path, flag).Render? ==> ResolveIn(routes, path, flag).page == LoginView
    decreases |routes|
  {
    if routes != [] && MatchPattern(routes[0].pattern, path).None? {
      UnauthenticatedSeesOnlyLogin(routes[1..], path, flag);
    }
  }

  /** In the declared table only /login is ungated, so it is all an anonymous session sees. */
  lemma OnlyLoginUngated(flag: Option<string>, path: seq<string>)
    requires !IsAuthenticated(flag)
    ensures Resolve(path, flag).Render? ==> Resolve(path, flag).page == LoginView
  {
    UnauthenticatedSeesOnlyLogin(RouteTable(), Normalize(path), flag);
  }

  /** An unknown location, such as `/settings`, is not sent to `/`. */
  lemma UnknownPathNotRedirected(flag: Option<string>)
    ensures Resolve(["settings"], flag) == NoMatch
  {
    assert Normalize(["settings"]) == ["settings"];
  }
}
