/**
 * The login page of `src/pages/Login.jsx`: two inputs, an error message, and a
 * mock credential check that writes the session flag.
 */
module Login {
  import opened Wrappers
  import opened Browser
  import App

  const AdminEmail: string := "admin@admin.com"
  const AdminPassword: string := "admin"
  const LoginHint: string := "Invalid email or password. Try admin@admin.com / admin"

  /** The one accepted pair, compared exactly: no trimming and no case folding. */
  predicate CredentialsAccepted(email: string, password: string)
    ensures CredentialsAccepted(email, password) ==> email == "admin@admin.com" && password == "admin"
    ensures email == "admin@admin.com" && password == "admin" ==> CredentialsAccepted(email, password)
  {
    email == AdminEmail && password == AdminPassword
  }

  /** The comparison is exact: stored values that differ in case or by a space are refused. */
  lemma NearMissesRefused()
    ensures !CredentialsAccepted("Admin@admin.com", "admin")
    ensures !CredentialsAccepted(" admin@admin.com", "admin")
    ensures !CredentialsAccepted("admin@admin.com", "admin ")
    ensures CredentialsAccepted("admin@admin.com", "admin")
  {
    assert "Admin@admin.com"[0] != AdminEmail[0];
    assert |" admin@admin.com"| != |AdminEmail|;
    assert |"admin "| != |AdminPassword|;
  }

  /**
   * The session gate end to end: /employees redirects to /login while no flag
   * is stored, and renders the list once a successful login stored 'true'.
   */
  lemma SessionGateScenario()
    ensures App.Resolve(["employees"], None) == App.Redirect("/login")
    ensures App.Resolve(["employees"], Some("true")) == App.Render(App.EmployeeListView, None)
  {
    App.GatedRoutes(None, "0");
    App.GatedRoutes(Some("true"), "0");
  }

  class LoginPage {
    var email: string
    var password: string
    var error: string

    constructor ()
      ensures email == "" && password == "" && error == ""
    {
      email, password, error := "", "", "";
    }

    /** The email input's `onChange`: take the value and clear the error. */
    method SetEmail(value: string)
      modifies this
      ensures email == value && password == old(password) && error == ""
    {
      email := value;
      error := "";
    }

    /** The password input's `onChange`: take the value and clear the error. */
    method SetPassword(value: string)
      modifies this
      ensures password == value && email == old(email) && error == ""
    {
      password := value;
      error := "";
    }

    /**
     * `handleLogin`: clear the error, then either store the flag 'true' and go
     * to '/', or leave the flag alone and show the hint.
     */
    method HandleLogin(ls: LocalStorage) returns (navigateTo: Option<string>)
      modifies this, ls
      ensures email == old(email) && password == old(password)
      ensures CredentialsAccepted(email, password) ==>
        ls.isAuthenticated == Some("true") && App.IsAuthenticated(ls.isAuthenticated) &&
        navigateTo == Some("/") && error == ""
      ensures !CredentialsAccepted(email, password) ==>
        ls.isAuthenticated == old(ls.isAuthenticated) && navigateTo == None && error == LoginHint
      ensures ls.employeeData == old(ls.employeeData)
    {
      error := "";
      if email == AdminEmail && password == AdminPassword {
        ls.isAuthenticated := Some("true");
        navigateTo := Some("/");
      } else {
        error := LoginHint;
        navigateTo := None;
      }
    }
  }
}
