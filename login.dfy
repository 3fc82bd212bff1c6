/** The login screen: an e-mail/password form that switches between signing
    in and signing up, keeps a validity flag that gates submission, shows a
    spinner while a request is out, and can be dismissed for good. */
module LoginScreen {
  import opened Wrappers
  import opened Storage
  import opened EmailGrammar

  /** JavaScript's `length` of a string: the number of UTF-16 code units, one
      for each character up to U+FFFF and two (a surrogate pair) above it. */
  function Utf16Length(s: string): (n: nat)
    ensures |s| <= n <= 2 * |s|
  {
    if s == [] then 0
    else (if s[0] as int > 0xFFFF then 2 else 1) + Utf16Length(s[1..])
  }

  /** The password rule of each mode: signing in needs a non-empty password,
      signing up a `length` of six or more. */
  predicate PasswordOk(password: string, signin: bool) {
    if signin then password != "" else Utf16Length(password) >= 6
  }

  /** What `setFormValid` computes: the address matches the grammar and the
      password passes the rule of the current mode. */
  predicate FormValid(email: string, password: string, signin: bool) {
    IsEmail(email) && PasswordOk(password, signin)
  }

  /** The request `signIn` or `signUp` builds: the address as typed and the
      password. The URL that carries them is not modelled; the address goes
      into its query string without escaping. */
  datatype Request =
    | SignInRequest(email: string, password: string)
    | SignUpRequest(email: string, password: string)

  /** How the API call ends: a response whose `data` is set, a response
      without `data`, or an exception. */
  datatype Outcome = Data | NoData | Threw

  /** What the screen does once the call has ended. */
  datatype Effect =
    | LoggedIn(routes: seq<string>)  // user stored, login recorded, `navigate` run
    | InvalidCredentialsAlert
    | AccountCreatedAlert
    | EmailExistsAlert
    | ErrorLogged

  /** `navigate`: always `Home`, then the screen named in the navigation
      parameters when there is one (an empty name counts as none). */
  function NavigationTargets(screen: Option<string>): (routes: seq<string>)
    ensures 1 <= |routes| <= 2 && routes[0] == "Home"
    ensures |routes| == 2 <==> screen.Some? && screen.value != ""
    ensures |routes| == 2 ==> routes[1] == screen.value
  {
    if screen.Some? && screen.value != "" then ["Home", screen.value] else ["Home"]
  }

  /** Without characters above U+FFFF, `length` is the number of characters. */
  lemma {:induction false} Utf16LengthOfBmp(s: string)
    requires forall i :: 0 <= i < |s| ==> s[i] as int <= 0xFFFF
    ensures Utf16Length(s) == |s|
  {
    if s != [] {
      assert forall i :: 0 <= i < |s[1..]| ==> s[1..][i] == s[i + 1];
      Utf16LengthOfBmp(s[1..]);
    }
  }

  /** In sign-in mode the rule is "non-empty", in sign-up mode "a `length` of
      at least six": at least six characters when none is above U+FFFF. */
  lemma PasswordRuleByMode(password: string)
    ensures PasswordOk(password, true) <==> |password| >= 1
    ensures PasswordOk(password, false) <==> Utf16Length(password) >= 6
    ensures (forall i :: 0 <= i < |password| ==> password[i] as int <= 0xFFFF) ==>
      (PasswordOk(password, false) <==> |password| >= 6)
  {
    if forall i :: 0 <= i < |password| ==> password[i] as int <= 0xFFFF {
      Utf16LengthOfBmp(password);
    }
  }

  /** Three characters above U+FFFF have a `length` of six, so they pass the
      sign-up rule. */
  lemma ThreeAstralCharactersPassSignUp()
    ensures Utf16Length("\U{1F600}\U{1F600}\U{1F600}") == 6
    ensures PasswordOk("\U{1F600}\U{1F600}\U{1F600}", false)
  {
    var p := "\U{1F600}\U{1F600}\U{1F600}";
    assert p[1..] == "\U{1F600}\U{1F600}" && p[1..][1..] == "\U{1F600}";
  }

  /** Every password good enough to sign up is good enough to sign in. */
  lemma SignUpRuleIsStricter(email: string, password: string)
    ensures FormValid(email, password, false) ==> FormValid(email, password, true)
  {
  }

  /** A valid address with a five-character password makes a valid form in
      sign-in mode and an invalid one in sign-up mode. */
  lemma ModeDecidesFiveCharacterPassword(email: string)
    requires IsEmail(email)
    ensures FormValid(email, "12345", true)
    ensures !FormValid(email, "12345", false)
  {
    var p := "12345";
    assert p[1..] == "2345" && p[1..][1..] == "345" && p[1..][1..][1..] == "45";
    assert Utf16Length(p) == 5;
  }

  class LoginForm {
    var signin: bool
    var loading: bool
    var isFormValid: bool
    var email: string
    var password: string

    /** The flag never calls a form valid that is not. (It may stay false
        for a valid form: see `FinishSignUp`.) */
    ghost predicate Valid()
      reads this
    {
      isFormValid ==> FormValid(email, password, signin)
    }

    /** The initial state: sign-in mode, no spinner, an empty invalid form. */
    constructor ()
      ensures signin && !loading && !isFormValid && email == "" && password == ""
      ensures Valid()
    {
      signin, loading, isFormValid := true, false, false;
      email, password := "", "";
    }

    /** `setFormValid`: the flag becomes exactly the validity of the
        current fields in the current mode; nothing else changes. */
    method SetFormValid()
      modifies this`isFormValid
      ensures isFormValid == FormValid(email, password, signin)
      ensures Valid()
    {
      var passwordValidation := PasswordOk(password, signin);
      if IsEmail(email) && passwordValidation {
        isFormValid := true;
      } else {
        isFormValid := false;
      }
    }

    /** `handleChangeTextEmail`: stores the new address, then revalidates. */
    method HandleChangeTextEmail(text: string)
      modifies this`email, this`isFormValid
      ensures email == text
      ensures isFormValid == FormValid(text, password, signin)
      ensures Valid()
    {
      email := text;
      SetFormValid();
    }

    /** `handleChangeTextPassword`: stores the new password, then revalidates. */
    method HandleChangeTextPassword(text: string)
      modifies this`password, this`isFormValid
      ensures password == text
      ensures isFormValid == FormValid(email, text, signin)
      ensures Valid()
    {
      password := text;
      SetFormValid();
    }

    /** `handleCreateAccount`: switches between sign-in and sign-up, then
        revalidates under the new mode's password rule. */
    method HandleCreateAccount()
      modifies this`signin, this`isFormValid
      ensures signin == !old(signin)
      ensures isFormValid == FormValid(email, password, signin)
      ensures Valid()
    {
      signin := !signin;
      SetFormValid();
    }

    /** The first half of `signIn`: the spinner is shown and the request
        built from the current fields goes out. */
    method SignIn() returns (req: Request)
      requires Valid()
      modifies this`loading
      ensures Valid()
      ensures loading
      ensures req == SignInRequest(email, password)
    {
      loading := true;
      req := SignInRequest(email, password);
    }

    /** The first half of `signUp`, likewise. */
    method SignUp() returns (req: Request)
      requires Valid()
      modifies this`loading
      ensures Valid()
      ensures loading
      ensures req == SignUpRequest(email, password)
    {
      loading := true;
      req := SignUpRequest(email, password);
    }

    /** `handleSignInUp`: nothing happens while the form is invalid;
        otherwise the request of the current mode is built. The request it
        builds carries a valid address, as typed, and a password fit for its
        mode. */
    method HandleSignInUp() returns (req: Option<Request>)
      requires Valid()
      modifies this`loading
      ensures Valid()
      ensures !isFormValid ==> req == None && loading == old(loading)
      ensures isFormValid ==> loading
      ensures isFormValid && signin ==> req == Some(SignInRequest(email, password))
      ensures isFormValid && !signin ==> req == Some(SignUpRequest(email, password))
      ensures req.Some? ==> FormValid(req.value.email, req.value.password, req.value.SignInRequest?)
    {
      if isFormValid {
        if signin {
          var r := SignIn();
          req := Some(r);
        } else {
          var r := SignUp();
          req := Some(r);
        }
      } else {
        req := None;
      }
    }

    /** The second half of `signIn`, when the call has ended: the spinner
        goes away on every outcome; data logs the user in and navigates,
        no data alerts, an exception is only logged. */
    method FinishSignIn(outcome: Outcome, screen: Option<string>) returns (effect: Effect)
      requires Valid()
      modifies this`loading
      ensures Valid()
      ensures !loading
      ensures outcome == Data ==> effect == LoggedIn(NavigationTargets(screen))
      ensures outcome == NoData ==> effect == InvalidCredentialsAlert
      ensures outcome == Threw ==> effect == ErrorLogged
    {
      match outcome
      case Data =>
        loading := false;
        effect := LoggedIn(NavigationTargets(screen));
      case NoData =>
        loading := false;
        effect := InvalidCredentialsAlert;
      case Threw =>
        loading := false;
        effect := ErrorLogged;
    }

    /** The second half of `signUp`: the spinner goes away on every outcome;
        a created account switches the form back to sign-in mode without
        revalidating. The flag stays sound because the sign-up rule is the
        stricter one, but it may stay false for a form that is now valid. */
    method FinishSignUp(outcome: Outcome) returns (effect: Effect)
      requires Valid()
      modifies this`loading, this`signin
      ensures !loading
      ensures signin == (old(signin) || outcome == Data)
      ensures outcome == Data ==> effect == AccountCreatedAlert
      ensures outcome == NoData ==> effect == EmailExistsAlert
      ensures outcome == Threw ==> effect == ErrorLogged
      ensures Valid()
    {
      match outcome
      case Data =>
        loading := false;
        effect := AccountCreatedAlert;
        SignUpRuleIsStricter(email, password);
        signin := true;
      case NoData =>
        loading := false;
        effect := EmailExistsAlert;
      case Threw =>
        loading := false;
        effect := ErrorLogged;
    }

    /** `handleClose`: remembers that the login screen was dismissed, then
        navigates away; the form itself is untouched. */
    method HandleClose(store: Store, screen: Option<string>) returns (routes: seq<string>)
      modifies store
      ensures store.items == old(store.items)[HideLoginKey := "1"]
      ensures routes == NavigationTargets(screen)
    {
      store.SetItem(HideLoginKey, "1");
      routes := NavigationTargets(screen);
    }
  }

  /** Typing a valid address and a five-character password gives a valid
      form in sign-in mode; switching to sign-up makes it invalid. */
  method ToggleScenario(address: string) returns (before: bool, after: bool)
    requires IsEmail(address)
    ensures before && !after
  {
    var form := new LoginForm();
    form.HandleChangeTextEmail(address);
    form.HandleChangeTextPassword("12345");
    before := form.isFormValid;
    form.HandleCreateAccount();
    after := form.isFormValid;
  }

  /** After a successful sign-up while the password was shortened to three
      characters in the meantime, the form is valid in sign-in mode, yet the
      flag still says it is not. */
  method StaleFlagScenario(address: string) returns (flag: bool, valid: bool)
    requires IsEmail(address)
    ensures !flag && valid
  {
    var form := new LoginForm();
    form.HandleCreateAccount();
    form.HandleChangeTextEmail(address);
    form.HandleChangeTextPassword("123456");
    var req := form.HandleSignInUp();
    form.HandleChangeTextPassword("123");
    var effect := form.FinishSignUp(Data);
    flag := form.isFormValid;
    valid := FormValid(form.email, form.password, form.signin);
  }
}
