/** `gui/login.py`: the fixed administrator credentials. */
module Login {
  import opened Text

  const AdminUsername: string := "admin"
  const AdminPassword: string := "admin123"

  datatype LoginOutcome = DashboardOpened | AccessDenied

  /** A user name that is `admin` with nothing but white space around it. */
  ghost predicate PaddedAdmin(userText: string)
  {
    exists w1, w2 :: AllSpace(w1) && AllSpace(w2) && userText == w1 + AdminUsername + w2
  }

  /** `handle_login`: the user name is stripped, the password is compared as typed, so
      the dashboard opens exactly for a padded `admin` and the exact password. */
  function HandleLogin(userText: string, password: string): (r: LoginOutcome)
    ensures r == DashboardOpened <==> PaddedAdmin(userText) && password == AdminPassword
  {
    StripIsAdmin(userText);
    if Strip(userText) == AdminUsername && password == AdminPassword then DashboardOpened else AccessDenied
  }

  /** Stripping gives `admin` exactly for `admin` padded with white space. */
  lemma StripIsAdmin(userText: string)
    ensures Strip(userText) == AdminUsername <==> PaddedAdmin(userText)
  {
    if Strip(userText) == AdminUsername {
      var w1, w2 := StripParts(userText);
      assert AllSpace(w1) && AllSpace(w2) && userText == w1 + AdminUsername + w2;
    }
    if PaddedAdmin(userText) {
      var w1, w2 :| AllSpace(w1) && AllSpace(w2) && userText == w1 + AdminUsername + w2;
      StripSurroundingSpace(w1, AdminUsername, w2);
    }
  }

  /** The dashboard opens exactly for the administrator's name, with any white space
      around it, and the exact password; every other attempt is refused. */
  lemma LoginAccepts(w1: string, w2: string)
    requires AllSpace(w1) && AllSpace(w2)
    ensures HandleLogin(w1 + AdminUsername + w2, AdminPassword) == DashboardOpened
  {
    StripSurroundingSpace(w1, AdminUsername, w2);
  }

  /** Accepted names are those that strip to `admin`: a name with anything but white
      space added is refused. */
  lemma LoginNeedsAdminName(userText: string, password: string)
    ensures HandleLogin(userText, password) == DashboardOpened ==>
      Contains(userText, AdminUsername) && password == AdminPassword
  {
    if HandleLogin(userText, password) == DashboardOpened {
      StripInside(userText);
    }
  }

  /** White space around the password is not forgiven. */
  lemma PaddedPasswordRefused(userText: string, w1: string, w2: string)
    requires |w1| + |w2| > 0
    ensures HandleLogin(userText, w1 + AdminPassword + w2) == AccessDenied
  {
    assert |w1 + AdminPassword + w2| != |AdminPassword|;
  }
}
