/** The two screens together: dismissing the login screen skips it on the
    next start-up. */
module Startup {
  import opened Wrappers
  import opened Storage
  import opened Loading
  import opened LoginScreen

  /** Close the login screen, then start the app again without a user. */
  method CloseThenRestart(form: LoginForm, store: Store, screen: Option<string>) returns (d: Destination)
    modifies store
    ensures d == AppDrawer
  {
    var routes := form.HandleClose(store, screen);
    d := Navigate(false, store.items);
    StoredFlagSkipsLogin(old(store.items), false);
  }
}
