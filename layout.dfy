/** The logout action of the shell in `src/components/Layout.jsx`. */
module Layout {
  import opened Wrappers
  import opened Browser
  import App

  /** `logout`: remove the `isAuthenticated` key, then go to /login. */
  method Logout(ls: LocalStorage) returns (navigateTo: string)
    modifies ls
    ensures ls.isAuthenticated == None && !App.IsAuthenticated(ls.isAuthenticated)
    ensures ls.employeeData == old(ls.employeeData)
    ensures old(ls.isAuthenticated) == None ==> ls.isAuthenticated == old(ls.isAuthenticated)
    ensures navigateTo == "/login"
  {
    ls.isAuthenticated := None;
    navigateTo := "/login";
  }

  /**
   * After logout every gated location redirects to /login, and /login itself
   * (the place logout goes to) renders the login page.
   */
  lemma LoggedOutIsGated(path: seq<string>)
    ensures App.Resolve(path, None).Render? ==> App.Resolve(path, None).page == App.LoginView
    ensures App.Resolve(["login"], None) == App.Render(App.LoginView, None)
    ensures App.Resolve(["employees"], None) == App.Redirect("/login")
  {
    App.OnlyLoginUngated(None, path);
    App.LoginAlwaysReachable(None);
    App.GatedRoutes(None, "0");
  }
}
