/** The route guard wrapped around the login screen and the tab layout
    (components/AuthGuard.tsx): given whether the session is still loading,
    whether the wrapped screen requires a signed-in user, and whether one is
    signed in, what it renders and where, if anywhere, it redirects. */
module AuthGuard {
  import opened Wrappers

  const LoginRoute: string := "/login"
  const TabsRoute: string := "/(tabs)"

  /** What the guard renders in place of its children. */
  datatype View = Spinner | Children | Nothing

  /** The guard's response: the route its effect replaces the current one
      with, if any, and what it renders meanwhile. */
  datatype Guard = Guard(redirect: Option<string>, view: View)

  /** The effect: nothing while loading; a screen that needs a user sends
      a signed-out visitor to the login page; a public screen sends a
      signed-in user to the tabs. */
  function Redirect(loading: bool, requireAuth: bool, signedIn: bool): Option<string> {
    if loading then None
    else if requireAuth && !signedIn then Some(LoginRoute)
    else if !requireAuth && signedIn then Some(TabsRoute)
    else None
  }

  /** The render: a spinner while loading, the children when the screen is
      public or a user is signed in, nothing otherwise. */
  function Render(loading: bool, requireAuth: bool, signedIn: bool): View {
    if loading then Spinner
    else if !requireAuth || signedIn then Children
    else Nothing
  }

  /** The guard as mounted; `requireAuth` defaults to false when omitted. */
  function Decide(loading: bool, requireAuth: Option<bool>, signedIn: bool): (g: Guard)
    ensures loading ==> g == Guard(None, Spinner)
    ensures !loading && requireAuth.GetOr(false) && !signedIn ==> g == Guard(Some(LoginRoute), Nothing)
    ensures !loading && requireAuth.GetOr(false) && signedIn ==> g == Guard(None, Children)
    ensures !loading && !requireAuth.GetOr(false) && signedIn ==> g == Guard(Some(TabsRoute), Children)
    ensures !loading && !requireAuth.GetOr(false) && !signedIn ==> g == Guard(None, Children)
  {
    var req := requireAuth.GetOr(false);
    Guard(Redirect(loading, req, signedIn), Render(loading, req, signedIn))
  }

  // ---- properties -----------------------------------------------------------

  /** The guard renders nothing exactly when it is sending the visitor to
      the login page. */
  lemma NothingMeansLoginRedirect(loading: bool, requireAuth: Option<bool>, signedIn: bool)
    ensures Decide(loading, requireAuth, signedIn).view == Nothing <==>
      Decide(loading, requireAuth, signedIn).redirect == Some(LoginRoute)
  {
  }

  /** The children appear exactly when loading is over and the screen is
      public or a user is signed in. */
  lemma ChildrenWhenAllowed(loading: bool, requireAuth: Option<bool>, signedIn: bool)
    ensures Decide(loading, requireAuth, signedIn).view == Children <==>
      !loading && (!requireAuth.GetOr(false) || signedIn)
  {
  }

  /** Omitting `requireAuth` is the same as passing false. */
  lemma DefaultIsPublic(loading: bool, signedIn: bool)
    ensures Decide(loading, None, signedIn) == Decide(loading, Some(false), signedIn)
  {
  }

  /** Redirects go one way for each session state: a signed-in user is never
      sent to the login page, and a signed-out visitor never to the tabs. */
  lemma RedirectsFollowSession(loading: bool, requireAuth: Option<bool>, signedIn: bool)
    ensures signedIn ==> Decide(loading, requireAuth, signedIn).redirect != Some(LoginRoute)
    ensures !signedIn ==> Decide(loading, requireAuth, signedIn).redirect != Some(TabsRoute)
  {
  }

  /** A public screen (the login page and the tab layout both pass false)
      is never withheld once loading ends, whatever the session. */
  lemma PublicScreensAlwaysRender(signedIn: bool)
    ensures Decide(false, Some(false), signedIn).view == Children
  {
  }
}
