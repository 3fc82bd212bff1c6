/** The start-up screen's routing decision: go to the login screen only when
    nobody is logged in and the login screen has not been dismissed before. */
module Loading {
  import opened Wrappers
  import opened Storage

  /** The two destinations of the start-up screen. */
  datatype Destination = Login | AppDrawer

  /** JavaScript truthiness of a value read from storage: a missing value
      (`null`) and the empty string are both false. */
  predicate Truthy(v: Option<string>) {
    v.Some? && v.value != ""
  }

  /** `!user && !hideLogin ? 'Login' : 'AppDrawer'` */
  function StartDestination(hasUser: bool, hideLogin: Option<string>): Destination {
    if !hasUser && !Truthy(hideLogin) then Login else AppDrawer
  }

  /** `navigate`: reads the stored flag and picks the destination. */
  function Navigate(hasUser: bool, items: map<string, string>): Destination {
    StartDestination(hasUser, Lookup(items, HideLoginKey))
  }

  /** The login screen is chosen exactly when there is no user and the
      stored flag is missing or empty; otherwise the app drawer is. */
  lemma NavigateLoginIff(hasUser: bool, items: map<string, string>)
    ensures Navigate(hasUser, items) == Login <==>
      !hasUser && (HideLoginKey !in items || items[HideLoginKey] == "")
    ensures Navigate(hasUser, items) == AppDrawer <==>
      hasUser || (HideLoginKey in items && items[HideLoginKey] != "")
  {
  }

  /** A logged-in user always reaches the app drawer, whatever is stored. */
  lemma LoggedInUserSkipsLogin(items: map<string, string>)
    ensures Navigate(true, items) == AppDrawer
  {
  }

  /** Once the flag `"1"` is stored (what closing the login screen writes),
      a start without a user goes to the app drawer, whatever else is stored. */
  lemma StoredFlagSkipsLogin(items: map<string, string>, hasUser: bool)
    ensures Navigate(hasUser, items[HideLoginKey := "1"]) == AppDrawer
  {
  }
}
