# Login screen: validators and login flow

This project models the logic of a React Native login screen.

- **Validation** (`validation.dfy`) models the three input validators of
  `utils/validation.js`. `validateEmail` reports a missing address and then tests
  it against `^[^\s@]+@[^\s@]+\.[^\s@]+$`. `validatePassword` runs five checks in
  a fixed order: empty, shorter than 6, no `[a-z]`, no `[A-Z]`, no `\d`. It
  returns the first one that fails. `validateForm` runs both and sets `isValid`
  when neither reports an error.
  - Each regular expression is modelled by what it matches. The email pattern is
    an existential split into three runs of `[^\s@]`. Each password lookahead
    `(?=.*[a-z])` is a search from every start position, where `.` does not
    match line terminators.
  - Each matcher is proved equal to a plain description. An address matches iff
    it has no whitespace, exactly one `@`, a non-empty part before the `@`, and
    a `.` after it that is neither the first nor the last character of the part
    after the `@`. A lookahead succeeds iff the string contains a character of
    the class.
  - The messages are the seven constructors of `FieldError`, and `Message()`
    gives each one's exact string. `null` is `None`.
- **Login** (`login.dfy`) models the state machine inside
  `components/LoginScreen.js`. The class `LoginScreen` holds:
  - the state hooks `email`, `password`, `errors` and `loading`;
  - the lookups scheduled with `setTimeout`, each holding the input captured at
    submission;
  - the alerts raised so far.

  `handleLogin` is split at its `setTimeout`. `BeginSubmit` is the synchronous
  part and `CompleteLookup` is the timer callback. The credential table is a
  `seq<Credential>` passed to the constructor. The lookup `Find` is
  `credentials.users.find(...)`: it returns the first record whose email and
  password both equal the submitted pair.

## Model

| member | source | states |
|---|---|---|
| `Validation.FieldError.Message` | utils/validation.js:4-34 | each of the seven errors has its fixed, non-empty message, so a reported error is always truthy |
| `Validation.MessagesDistinct` | utils/validation.js:4-34 | distinct errors have distinct messages, so a returned string identifies the check that failed |
| `Validation.IsSpace` | utils/validation.js:2 | JavaScript's `\s`: the ASCII whitespace and line terminators, no-break space, the Unicode space separators and the byte order mark; every one lies in the Basic Multilingual Plane |
| `Validation.IsLineTerminator` | utils/validation.js:24 | the characters `.` does not match without the `s` flag; each one is also `\s` whitespace |
| `Validation.CharClass.Contains` | utils/validation.js:24-32 | the classes `[a-z]`, `[A-Z]` and `\d` (`[0-9]`); each holds only ASCII, non-whitespace characters |
| `Validation.EmailPatternMatches` | utils/validation.js:2-10 | `emailRegex.test(email)`: the string splits at an `@` and a later `.` into three non-empty runs of `[^\s@]`, anchored at both ends; any accepted string has at least five characters and contains `@` and `.` |
| `Validation.EmailPatternIff` | utils/validation.js:2 | the email regular expression matches exactly the strings with no whitespace, exactly one `@`, a non-empty local part, and a domain with a `.` that is neither its first nor its last character |
| `Validation.MatchedEmailIsWellFormed` | utils/validation.js:2 | a string the email regular expression accepts has no whitespace and exactly one `@`, and its domain has an inner `.` |
| `Validation.WellFormedEmailIsMatched` | utils/validation.js:2 | a well-formed address splits into the three runs of `[^\s@]` that the email regular expression needs |
| `Validation.ValidateEmail` | utils/validation.js:1-13 | the empty string gives "Email is required" before any format check; any other string gives null iff it is well formed, and otherwise "Please enter a valid email address" |
| `Validation.LookaheadMatchesAt` | utils/validation.js:24-32 | `.*[class]` from one start position: `.*` runs over characters that are not line terminators up to a class character, so a match from k implies a class character at k or later |
| `Validation.LookaheadTest` | utils/validation.js:24-32 | `/(?=.*[class])/.test(password)`: the unanchored search succeeds from some start position, and success implies the password holds a class character |
| `Validation.LookaheadTestIff` | utils/validation.js:24-32 | the test `/(?=.*[class])/` succeeds iff the password contains a character of the class, even across line terminators |
| `Validation.ValidatePassword` | utils/validation.js:15-37 | returns null iff the password has at least 6 characters and contains an ASCII lowercase letter, an ASCII uppercase letter and an ASCII digit; any error it returns is one of the five password errors |
| `Validation.PasswordErrorClasses` | utils/validation.js:16-34 | which message comes back for each class of password: empty, length 1 to 5, no lowercase, lowercase but no uppercase, both letters but no digit (the first failing check in the fixed order wins) |
| `Validation.ShortPasswordGetsLengthMessage` | utils/validation.js:20-22 | any password of 1 to 5 characters gets the length message, whatever it contains |
| `Validation.Truthy` | utils/validation.js:46 | JavaScript truthiness of a field result, as used by the two `!` operators: truthy iff an error is present, because no message is empty |
| `Validation.ValidateForm` | utils/validation.js:39-48 | both fields are always validated, each on its own input; `isValid`, computed with JavaScript truthiness, is true iff both results are null |
| `Validation.FormValidIff` | utils/validation.js:39-47 | the form is valid iff the email is non-empty and well formed and the password meets the policy; a failing field always has its error reported |
| `Validation.EmptyFormExample` | utils/validation.js:39-47 | `("", "")` reports "Email is required" and "Password is required" and is not valid |
| `Validation.DemoFormExample` | utils/validation.js:39-47 | the demo pair `("test@demo.com", "Test@123")` passes both validators |
| `Validation.LowercaseOnlyExample` | utils/validation.js:28-30 | `"abcdef"` passes the length and lowercase checks and gets the uppercase message |
| `Validation.UppercaseOnlyExample` | utils/validation.js:24-26 | `"ABCDEF"` gets the lowercase message, because that check comes before the uppercase one |
| `Validation.NoAtRejected` | utils/validation.js:2-10 | every non-empty address without `@` is rejected as invalid |
| `Validation.NoDotAfterAtRejected` | utils/validation.js:2-10 | every address with an `@` and no `.` anywhere after it is rejected as invalid |
| `Validation.TwoAtRejected` | utils/validation.js:2-10 | every address with two `@` is rejected as invalid |
| `Validation.SpaceRejected` | utils/validation.js:2-10 | every address holding a `\s` character anywhere is rejected as invalid |
| `Validation.NoAtExample` | utils/validation.js:8-10 | `"test.demo.com"`, which has no `@`, is rejected as invalid |
| `Validation.NoDotExample` | utils/validation.js:8-10 | `"test@demo"`, with no `.` after the `@`, is rejected as invalid |
| `Validation.TwoAtExample` | utils/validation.js:8-10 | `"a@b@c.d"`, with two `@`, is rejected as invalid |
| `Validation.SpaceExample` | utils/validation.js:8-10 | `"a b@c.d"`, which holds a space, is rejected as invalid |
| `Validation.TrailingDotExample` | utils/validation.js:2 | `"a@b.c."` is accepted: the last run of the pattern may itself contain dots |
| `Login.Matches` | components/LoginScreen.js:63 | the `find` callback `u.email === email && u.password === password` holds iff the record equals the submitted pair, case-sensitively and with no normalisation |
| `Login.Find` | components/LoginScreen.js:62-64 | the lookup returns nothing iff no record matches both fields exactly, which includes the empty table; otherwise it returns a matching record with no match before it |
| `Login.FindSucceedsIff` | components/LoginScreen.js:62-68 | the lookup succeeds iff the table holds the submitted (email, password) pair |
| `Login.Expected` | components/LoginScreen.js:62-76 | the alert the timer callback raises: success, naming the captured email, iff `find` returns a record; failure otherwise |
| `Login.LoginScreen.constructor` | components/LoginScreen.js:23-27 | the initial state is empty email and password, no errors, `loading` false, nothing scheduled and no alert |
| `Login.LoginScreen.SetEmail` | components/LoginScreen.js:130 | editing the email replaces the email and changes nothing else, so errors and scheduled lookups stay as they were |
| `Login.LoginScreen.SetPassword` | components/LoginScreen.js:140 | editing the password replaces the password and changes nothing else |
| `Login.LoginScreen.ClearForm` | components/LoginScreen.js:93-97 | clearing empties both inputs and the errors and does not touch `loading` or the scheduled lookups |
| `Login.LoginScreen.BeginSubmit` | components/LoginScreen.js:48-61 | on a failing form, `errors` becomes exactly the two validation results, `loading` is unchanged and nothing is scheduled; on a valid form, `errors` is empty, `loading` is true, and a lookup of the current input is scheduled; `loading` implies a scheduled lookup before and after |
| `Login.LoginScreen.CompleteLookup` | components/LoginScreen.js:61-77 | the oldest scheduled lookup runs on its captured input; `loading` becomes false; the alert is success iff the captured pair is in the table, and failure otherwise; `errors` is untouched |
| `Login.SnapshotScenario` | components/LoginScreen.js:48-64 | editing the email after submission does not change the outcome: the lookup uses the input captured when `handleLogin` ran |
| `Login.WrongPasswordScenario` | components/LoginScreen.js:66-76 | valid input that is not in the table raises the failure alert and leaves the field errors empty |
| `Login.DoubleSubmitScenario` | components/LoginScreen.js:48-77 | with no guard, two submissions schedule two lookups; the first completion already clears `loading`, and each lookup raises its own alert |
| `Login.EmptyFormScenario` | components/LoginScreen.js:49-57 | submitting the empty form shows both errors and schedules nothing; the errors survive an edit and are removed by `clearForm` |

## Left out

- Rendering and visual state are not modelled, because none of it affects the login logic. This covers the JSX, styles, the fade and slide animation, `Dimensions`, `KeyboardAvoidingView`, and the `hidePassword` and `rememberMe` toggles.
- `handleForgotPassword` and `handleSignUp` are not modelled. They only show an alert.
- Alert titles, bodies and buttons are not modelled. An alert is the value `LoginSuccessful(email)` or `LoginFailed`.
- The 1500 ms delay of `setTimeout` is not modelled. Each timer firing is the separate step `CompleteLookup`. All timers share one delay, so they fire in the order they were scheduled.
- `Login.LoginScreen.CompleteLookup` requires a scheduled lookup, because a timer callback runs only after `handleLogin` scheduled it.
- `components/CustomInput.js` and `App.js` only lay out widgets and pass props through, so they are not modelled. `components/CustomButton.js` and `data/credentials.json` are not part of this model. The credential table is an injected sequence, and the model does not know whether the button disables itself while `loading`.
- `Validation.ValidatePassword` counts length in Unicode scalar values, not UTF-16 code units as JavaScript's `.length` does. A character outside the Basic Multilingual Plane is two code units in the source and one `char` here, so such a password can be shorter here than in the source. Only `.length` differs. The classes the validators test for all lie in that plane: `\s`, `@`, `[a-z]`, `[A-Z]`, `\d` and the line terminators (`Validation.IsSpace`, `Validation.CharClass.Contains`). So a non-BMP character falls in `[^\s@]` and `.` in both. A lone UTF-16 surrogate cannot be represented as a Dafny `char` and is not modelled.
- `Login.Errors` uses `None` both for a missing key of `{}` and for a `null` entry. The screen treats both as "no error".
- Determinism of the validators is not stated as a lemma. Every Dafny function is deterministic by construction.
- The login flow has no submission guard and no outcome state, and the model keeps it that way:
  - `handleLogin` does not check for a lookup in flight (components/LoginScreen.js:48-59). A second valid submission schedules a second lookup (`Login.DoubleSubmitScenario`).
  - Every timer callback sets `loading` to false and raises its alert, including one that fires after `clearForm` (components/LoginScreen.js:61-77). No result is discarded as stale.
  - There is no idle or outcome state: `loading` is the only in-flight flag, and an alert is raised once and not kept as state.
