# Login form and start-up routing of the AudioVerse mobile client

This project models two screens of the AudioVerse mobile app in Dafny:

- **The login screen** (`src/containers/auth/login/Login.js`). It is a form with an e-mail address and a password. The form switches between signing in and signing up. It keeps an `isFormValid` flag, and only a valid form can be submitted. A spinner (`loading`) shows while a request is out. A close button stores a `hideLogin` flag so the screen is skipped on later start-ups.
- **The start-up screen** (`src/containers/auth/loading/Loading.js`). It chooses the login screen or the app drawer from two inputs: whether a user is logged in, and the stored `hideLogin` value.

Files:

- `email_grammar.dfy` (module `EmailGrammar`) models the validator's e-mail regular expression, alternative by alternative. The regex is a simplified form of the addr-spec in section 3.4.1 of RFC 5322; the model follows the regex, not the RFC. The module also holds an independent reference description built on splitting a string at its dots (`Split`, `Join`). Lemmas prove that the regex model and the reference description accept the same strings, in both directions.
- `login.dfy` (module `LoginScreen`) has the password rule and the form validity predicate, and the class `LoginForm`. The class holds the five state fields of the component. Its methods update those fields as the event handlers do, and the class invariant `Valid()` says the flag never calls an invalid form valid.
- `storage.dfy` (module `Storage`) models AsyncStorage as a class holding a `map<string, string>`.
- `wrappers.dfy` (module `Wrappers`) holds the `Option` type the other modules share.
- `loading.dfy` (module `Loading`) is the routing decision, written as pure functions.
- `startup.dfy` (module `Startup`) is a client of both screens. It proves that closing the login screen means the next start-up without a user goes to the app drawer.

Modelling decisions:

- `\s` is modelled as ECMAScript's WhiteSpace and LineTerminator characters, listed explicitly in `IsWhitespace`. `.` matches everything except the four LineTerminator characters.
- A quoted local part (`".+"`) may contain `@` and `"`. So an address can have more than one `@` split; `IsEmail` asks for some split that works, as the backtracking regex does.
- `setState` updates and their callbacks run in order. The asynchronous `signIn` and `signUp` are each split into two methods. The first half (`SignIn`, `SignUp`) shows the spinner and returns the request. The second half (`FinishSignIn`, `FinishSignUp`) takes the API outcome as a parameter: data, no data, or an exception. Any interleaving of the two halves with the other handlers can be expressed.
- A successful sign-up sets `signin` back to `true` without re-running `setFormValid`. The flag stays sound, because the sign-up password rule implies the sign-in rule. But the flag can stay `false` for a form that is now valid: the user shortens the password while the sign-up request is out. `LoginScreen.StaleFlagScenario` shows this.
- `Loading.js` tests `!hideLogin`, which is JavaScript truthiness. A stored empty string counts as no flag, and the model follows that.
- The navigation parameter `screen` is read by truthiness too, so an empty screen name means no extra navigation.
- Strings are sequences of Unicode characters. JavaScript's `password.length` counts UTF-16 code units, so the sign-up rule uses `Utf16Length`, which counts two units for a character above U+FFFF. The e-mail regex has no `u` flag and so works on code units too. Every character class it uses, however, accepts either both halves of a surrogate pair or neither, so matching whole characters gives the same answer.

## Model

| member | source | states |
|---|---|---|
| `EmailGrammar.EmailIff` | src/containers/auth/login/Login.js:61 | `IsEmail` is the regex of `setFormValid`, written as predicates, one per alternative. The regex accepts a string iff some `@` splits it into a local part and a domain. The local part is dot-separated non-empty atoms, or a quoted string. The domain is `[`, four 1–3 digit groups and `]`, or dot-separated non-empty labels, a dot and a top-level label of at least two letters. |
| `EmailGrammar.LocalPartIff` | src/containers/auth/login/Login.js:61 | The local part as written (`LocalPart`) accepts exactly the strings of the reference description (`LocalSpec`). For `atom(\.atom)*` the two sides are independent, and the work is in `DotRunsIff`. The quoted alternative `".+"` is the same predicate `QuotedString` on both sides. |
| `EmailGrammar.DomainIff` | src/containers/auth/login/Login.js:61 | The domain alternatives accept exactly the address literals and host names of the reference description. |
| `EmailGrammar.AddressLiteralIff` | src/containers/auth/login/Login.js:61 | `\[d\.d\.d\.d\]` with `d = [0-9]{1,3}` accepts exactly a bracketed string whose inside splits at dots into four groups of one to three digits. |
| `EmailGrammar.HostNameIff` | src/containers/auth/login/Login.js:61 | `([a-zA-Z\-0-9]+\.)+[a-zA-Z]{2,}` accepts exactly: non-empty labels separated by dots, then a dot, then at least two ASCII letters. The labels part is described independently by splitting. The final `[a-zA-Z]{2,}` is the same predicate `TopLevelLabel` on both sides. |
| `EmailGrammar.HostNameSpecOf` | src/containers/auth/login/Login.js:61 | The regex's host names fit the reference description. |
| `EmailGrammar.HostNameOfSpec` | src/containers/auth/login/Login.js:61 | Host names of the reference description match the regex. |
| `EmailGrammar.DotRunsIff` | src/containers/auth/login/Login.js:61 | `C+(\.C+)*`, for a class C without the dot, accepts a string iff every piece between its dots is a non-empty run of C. |
| `EmailGrammar.DotRunsSplit` | src/containers/auth/login/Login.js:61 | Every match of `C+(\.C+)*` splits at its dots into non-empty runs of C. |
| `EmailGrammar.DotRunsOfSplit` | src/containers/auth/login/Login.js:61 | Every string that splits at its dots into non-empty runs of C matches `C+(\.C+)*`. |
| `EmailGrammar.DotTerminatedRunsShape` | src/containers/auth/login/Login.js:61 | Every match of `(C+\.)+` ends with a dot, and what comes before that dot matches `C+(\.C+)*`. |
| `EmailGrammar.DotRunsThenDot` | src/containers/auth/login/Login.js:61 | Conversely, `C+(\.C+)*` followed by a dot matches `(C+\.)+`. |
| `EmailGrammar.DigitGroupsSplit` | src/containers/auth/login/Login.js:61 | `n` dot-separated `[0-9]{1,3}` groups split into exactly `n` pieces, each of one to three digits. |
| `EmailGrammar.DigitGroupsOfSplit` | src/containers/auth/login/Login.js:61 | Conversely, a string splitting into `n` such pieces is `n` digit groups. |
| `EmailGrammar.DotRunsNoDoubledDot` | src/containers/auth/login/Login.js:61 | An unquoted local part never contains two dots in a row. |
| `EmailGrammar.DotRunsEnds` | src/containers/auth/login/Login.js:61 | An unquoted local part is non-empty and neither starts nor ends with a dot. |
| `EmailGrammar.IndexOf` | src/containers/auth/login/Login.js:61 | A helper of the reference description of line 61; it models no part of the regex. Gives the position of the first occurrence of a character, or the length when it does not occur. No earlier position holds that character. |
| `EmailGrammar.Split` | src/containers/auth/login/Login.js:61 | A helper of the reference description of line 61. Cuts a string at its dots. There is always at least one piece. |
| `EmailGrammar.SplitPartsHaveNoDot` | src/containers/auth/login/Login.js:61 | About the reference description's helper `Split`: no piece of a split contains a dot. |
| `EmailGrammar.JoinSplit` | src/containers/auth/login/Login.js:61 | About the reference description's helper `Split`: joining the pieces with dots gives back the original string, so `Split` loses nothing. |
| `EmailGrammar.EmailOfParts` | src/containers/auth/login/Login.js:61 | A local part, `@` and a domain, concatenated, make an accepted address. |
| `EmailGrammar.AcceptsDottedAddress` | src/containers/auth/login/Login.js:61 | Every `x.y@z.t` is accepted when `x` and `y` are atoms, `z` is a label and `t` has two or more letters. |
| `EmailGrammar.RejectsDotlessDomain` | src/containers/auth/login/Login.js:61 | `a@b` is rejected. |
| `EmailGrammar.RejectsDoubledDot` | src/containers/auth/login/Login.js:61 | `a..b@c.de` is rejected. |
| `EmailGrammar.AcceptsQuotedLocalPart` | src/containers/auth/login/Login.js:61 | Every `"q"@z.t` is accepted when `q` is non-empty and has no line terminator, even if `q` contains `@` or quotes; `z` is a label and `t` has two or more letters. |
| `LoginScreen.PasswordRuleByMode` | src/containers/auth/login/Login.js:62 | `PasswordOk` is the rule of line 62. In sign-in mode the password passes iff it is non-empty. In sign-up mode it passes iff its UTF-16 `length` is at least six, which is at least six characters when none is above U+FFFF. |
| `LoginScreen.Utf16Length` | src/containers/auth/login/Login.js:62 | The `length` JavaScript gives a string lies between its number of characters and twice that number. |
| `LoginScreen.Utf16LengthOfBmp` | src/containers/auth/login/Login.js:62 | For a string without characters above U+FFFF, `length` equals the number of characters. |
| `LoginScreen.ThreeAstralCharactersPassSignUp` | src/containers/auth/login/Login.js:62 | Three emoji have a `length` of six, so they pass the sign-up rule. |
| `LoginScreen.SignUpRuleIsStricter` | src/containers/auth/login/Login.js:62-63 | `FormValid` is the whole test of lines 62-63: the regex and the mode's password rule. A form valid for signing up is valid for signing in. |
| `LoginScreen.ModeDecidesFiveCharacterPassword` | src/containers/auth/login/Login.js:62 | With a valid address, a five-character password is valid for signing in and invalid for signing up. |
| `LoginScreen.NavigationTargets` | src/containers/auth/login/Login.js:35-41 | Navigation always goes to `Home` first. It then goes to the parameter screen exactly when that screen is given and non-empty. |
| `LoginScreen.LoginForm.constructor` | src/containers/auth/login/Login.js:27-33 | The initial state is sign-in mode, no spinner, an empty address and password, and an invalid form. This state satisfies the class invariant `Valid()`: a set `isFormValid` flag implies `FormValid` of the current fields and mode. Every method that changes the form keeps this invariant. |
| `LoginScreen.LoginForm.SetFormValid` | src/containers/auth/login/Login.js:60-68 | Afterwards `isFormValid` is true iff `FormValid` holds: the address matches the grammar and the password passes the current mode's rule, where the sign-up rule counts UTF-16 units. No other field changes. |
| `LoginScreen.LoginForm.HandleChangeTextEmail` | src/containers/auth/login/Login.js:48-52 | Stores the new address and recomputes validity from the new values. The password, mode and spinner are unchanged. |
| `LoginScreen.LoginForm.HandleChangeTextPassword` | src/containers/auth/login/Login.js:54-58 | Stores the new password and recomputes validity from the new values. The address, mode and spinner are unchanged. |
| `LoginScreen.LoginForm.HandleCreateAccount` | src/containers/auth/login/Login.js:169-175 | Flips the mode, then recomputes validity under the new mode's rule. |
| `LoginScreen.ToggleScenario` | src/containers/auth/login/Login.js:169-175 | A valid address with a five-character password is a valid form. After toggling to sign-up the form is invalid. |
| `LoginScreen.LoginForm.HandleSignInUp` | src/containers/auth/login/Login.js:74-82 | Does nothing while the form is invalid. Otherwise it builds the sign-in request iff in sign-in mode, and the sign-up request otherwise. The request it builds always carries a valid address and a password that passes its mode's rule. |
| `LoginScreen.LoginForm.SignIn` | src/containers/auth/login/Login.js:124-126 | Shows the spinner first, then builds the sign-in request from the current address and password. |
| `LoginScreen.LoginForm.SignUp` | src/containers/auth/login/Login.js:148-150 | Shows the spinner first, then builds the sign-up request from the current address and password. |
| `LoginScreen.LoginForm.FinishSignIn` | src/containers/auth/login/Login.js:127-145 | Hides the spinner on every outcome: data, no data or an exception. Data logs the user in and navigates. No data shows the invalid-credentials alert. An exception is only logged. |
| `LoginScreen.LoginForm.FinishSignUp` | src/containers/auth/login/Login.js:151-166 | Hides the spinner on every outcome. A created account shows its alert and sets sign-in mode. An existing e-mail shows its alert. The invariant is kept without revalidating. |
| `LoginScreen.StaleFlagScenario` | src/containers/auth/login/Login.js:151-166 | The password is shortened while a sign-up request is out, then the sign-up succeeds. The form is then valid in sign-in mode while `isFormValid` is still false. |
| `LoginScreen.LoginForm.HandleClose` | src/containers/auth/login/Login.js:43-46 | Stores `hideLogin = "1"` and leaves every other stored key unchanged. Then it navigates. |
| `Storage.Store.SetItem` | src/containers/auth/login/Login.js:44 | The stored value under the key becomes the new value. Every other key keeps its value. |
| `Storage.Lookup` | src/containers/auth/loading/Loading.js:19 | Reading a key gives its value if it is stored, and nothing (`null`) otherwise. |
| `Loading.NavigateLoginIff` | src/containers/auth/loading/Loading.js:19-20 | `StartDestination` is the conditional of line 20. `Navigate` adds the storage read of line 19. The result routes to `Login` iff there is no user and the stored flag is missing or empty. Routes to `AppDrawer` otherwise. The result is always one of the two. |
| `Loading.LoggedInUserSkipsLogin` | src/containers/auth/loading/Loading.js:20 | A logged-in user always goes to the app drawer, whatever is stored. |
| `Loading.StoredFlagSkipsLogin` | src/containers/auth/loading/Loading.js:19-20 | Once `hideLogin = "1"` is stored, start-up goes to the app drawer. |
| `Startup.CloseThenRestart` | src/containers/auth/loading/Loading.js:17-21 | Closing the login screen and then starting without a user routes to the app drawer. |

## Left out

- The playback engine of this application is not part of this model: the queue, the transport state machine, the download and cache manager, favourites and remote controls. Their code (`src/actions`, `src/reducers`, the `Player` component) is not among the modelled files. `src/containers/player/index.js` only wires those actions and selectors to the player component.
- `loginSocial` and `handleLoginWithFB` are left out. They are Facebook SDK and HTTP calls with no state of the form involved.
- `handleForgotPassword` (opening a URL) and `handleSubmitEditingEmail` (moving focus) are user-interface calls with no model state.
- Building URLs and query strings is not modelled: the endpoints, `encodeURIComponent` and the language parameter. A request is modelled as the address as typed and the password. `src/constants/endpoints.js` and `src/containers/bible/verses/BibleVerses.js` are request glue and are not part of this model.
- `LoginScreen.LoginForm.SignIn`: the request holds the address as typed. The source puts the address into the query string without `encodeURIComponent` (only the password is escaped). So an accepted address with URL-special characters does not reach the server as typed: from `#` on it becomes a fragment, `&` splits the parameter, and `+` is usually decoded as a space. The model does not capture this.
- `LoginScreen.LoginForm.SignUp`: the same holds for the sign-up URL, whose address is not escaped either. Its password and password confirmation are escaped.
- `LoginScreen.LoginForm.FinishSignIn`: does not model the user object passed to `setUser`. A successful sign-in is represented only by the navigation it performs.
- The Firebase analytics calls are not modelled: `setUserId` and the `login` event after a sign-in, and the `sign_up` event after a sign-up. They have no counterpart in the `Effect` result.
- `Alert.alert` and `console.log` are named in the `Effect` result, by the alert shown or the error logged, but not modelled further.
- Rendering, styles, prop types and the list screens (`Conference.js`, `Downloads.js`) are not modelled.
- AsyncStorage is modelled as completing at once and never failing. React's batching of `setState` is modelled as updates applied in order.
- `IsWhitespace` fixes the list of Unicode space separators that ECMAScript's `\s` includes. It does not follow later changes to the Unicode database.
- `EmailGrammar.AcceptsDottedAddress`: address literals such as `a@[1.2.3.4]` have no concrete acceptance example; `AddressLiteralIff` characterises them in general.
