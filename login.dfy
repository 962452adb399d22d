/** The login flow of the login screen with its rendering stripped away: the
    screen's state, the `onChangeText` setters, `clearForm`, and `handleLogin`
    split at its `setTimeout` into the synchronous submission and the timer
    callback that looks the credentials up. */
module Login {
  import opened Validation

  /** A record of the injected credential table. */
  datatype Credential = Credential(email: string, password: string)

  /** The test `find` applies: both fields equal, exactly and case-sensitively. */
  predicate Matches(u: Credential, email: string, password: string): (b: bool)
    ensures b <==> u == Credential(email, password)
  {
    u.email == email && u.password == password
  }

  /** `credentials.users.find(u => u.email === email && u.password === password)`:
      the first record that matches, if any. */
  function Find(users: seq<Credential>, email: string, password: string): (r: Option<Credential>)
    ensures r.None? <==> forall k | 0 <= k < |users| :: !Matches(users[k], email, password)
    ensures r.Some? ==> exists i | 0 <= i < |users| ::
      users[i] == r.value && Matches(users[i], email, password) &&
      forall k | 0 <= k < i :: !Matches(users[k], email, password)
  {
    if users == [] then None
    else if Matches(users[0], email, password) then Some(users[0])
    else
      var r := Find(users[1..], email, password);
      assert forall k | 1 <= k < |users| :: users[k] == users[1..][k - 1];
      if r.Some? then
        var i :| 0 <= i < |users[1..]| && users[1..][i] == r.value &&
          Matches(users[1..][i], email, password) &&
          forall k | 0 <= k < i :: !Matches(users[1..][k], email, password);
        assert users[i + 1] == r.value;
        r
      else r
  }

  /** The lookup succeeds iff the table holds the submitted pair. */
  lemma FindSucceedsIff(users: seq<Credential>, email: string, password: string)
    ensures Find(users, email, password).Some? <==> Credential(email, password) in users
  {
  }

  /** The field errors shown under the inputs; `{}` is `NoErrors`. */
  datatype Errors = Errors(email: Option<FieldError>, password: Option<FieldError>)

  const NoErrors := Errors(None, None)

  /** The input a scheduled lookup captured when `handleLogin` ran. */
  datatype Attempt = Attempt(email: string, password: string)

  /** The alert the timer callback raises. */
  datatype Alert = LoginSuccessful(email: string) | LoginFailed

  /** Each error slot holds only what its own validator can return. */
  predicate ErrorsWellFormed(errors: Errors) {
    (errors.email.Some? ==> errors.email.value.IsEmailError()) &&
    (errors.password.Some? ==> errors.password.value.IsPasswordError())
  }

  /** The alert a completed lookup of the pair raises: success, naming the
      captured email, iff `find` returns a record. */
  function Expected(users: seq<Credential>, email: string, password: string): (a: Alert)
    ensures a.LoginSuccessful? <==> Find(users, email, password).Some?
    ensures a.LoginSuccessful? ==> a.email == email
  {
    FindSucceedsIff(users, email, password);
    if Credential(email, password) in users then LoginSuccessful(email) else LoginFailed
  }

  class LoginScreen {
    /** The credential table, fixed for the screen's lifetime. */
    const users: seq<Credential>

    var email: string
    var password: string
    var errors: Errors
    var loading: bool
    /** The lookups `handleLogin` has scheduled and whose timers have not fired,
        oldest first; every timer has the same delay, so they fire in this order. */
    var pending: seq<Attempt>
    /** The alerts raised so far, oldest first. */
    var alerts: seq<Alert>

    /** `loading` is only set while a lookup is scheduled. */
    ghost predicate Valid()
      reads this
    {
      (loading ==> pending != []) && ErrorsWellFormed(errors)
    }

    /** The initial state of the screen's `useState` hooks. */
    constructor (users: seq<Credential>)
      ensures Valid()
      ensures this.users == users
      ensures email == "" && password == "" && errors == NoErrors && !loading
      ensures pending == [] && alerts == []
    {
      this.users := users;
      email, password := "", "";
      errors := NoErrors;
      loading := false;
      pending, alerts := [], [];
    }

    /** The email input's `onChangeText`: replaces the email and nothing else. */
    method SetEmail(value: string)
      requires Valid()
      modifies this`email
      ensures Valid()
      ensures email == value
    {
      email := value;
    }

    /** The password input's `onChangeText`: replaces the password and nothing else. */
    method SetPassword(value: string)
      requires Valid()
      modifies this`password
      ensures Valid()
      ensures password == value
    {
      password := value;
    }

    /** `clearForm`: empties both inputs and the errors; `loading` and any
        scheduled lookup are left alone. */
    method ClearForm()
      requires Valid()
      modifies this`email, this`password, this`errors
      ensures Valid()
      ensures email == "" && password == "" && errors == NoErrors
    {
      email := "";
      password := "";
      errors := NoErrors;
    }

    /** `handleLogin` up to `setTimeout`. A form that fails validation shows both
        fields' results and schedules nothing; a valid one clears the errors, sets
        `loading` and schedules a lookup of the input as it is now. There is no
        guard against a second submission while a lookup is scheduled. */
    method BeginSubmit()
      requires Valid()
      modifies this`errors, this`loading, this`pending
      ensures Valid()
      ensures var v := ValidateForm(email, password);
        if v.isValid then
          errors == NoErrors && loading && pending == old(pending) + [Attempt(email, password)]
        else
          errors == Errors(v.email, v.password) && loading == old(loading) && pending == old(pending)
    {
      errors := NoErrors;
      var validation := ValidateForm(email, password);
      if !validation.isValid {
        errors := Errors(validation.email, validation.password);
        return;
      }
      loading := true;
      pending := pending + [Attempt(email, password)];
    }

    /** The timer callback of the oldest scheduled lookup: clears `loading` and
        raises the success alert iff the captured pair is in the table, the
        failure alert otherwise. The field errors are not touched. */
    method CompleteLookup()
      requires Valid() && pending != []
      modifies this`loading, this`pending, this`alerts
      ensures Valid()
      ensures !loading && pending == old(pending[1..])
      ensures alerts == old(alerts + [Expected(users, pending[0].email, pending[0].password)])
    {
      var attempt := pending[0];
      pending := pending[1..];
      var user := Find(users, attempt.email, attempt.password);
      FindSucceedsIff(users, attempt.email, attempt.password);
      loading := false;
      if user.Some? {
        alerts := alerts + [LoginSuccessful(attempt.email)];
      } else {
        alerts := alerts + [LoginFailed];
      }
    }
  }

  /** A lookup uses the input captured at submission: editing the email while
      it is scheduled does not change the outcome. */
  method SnapshotScenario(users: seq<Credential>, email: string, password: string, edited: string)
    returns (alerts: seq<Alert>)
    requires ValidateForm(email, password).isValid && Credential(email, password) in users
    ensures alerts == [LoginSuccessful(email)]
  {
    var screen := new LoginScreen(users);
    screen.SetEmail(email);
    screen.SetPassword(password);
    screen.BeginSubmit();
    assert screen.loading && screen.errors == NoErrors;
    screen.SetEmail(edited);
    screen.CompleteLookup();
    assert !screen.loading;
    alerts := screen.alerts;
  }

  /** Valid input that is not in the table fails at lookup time, and the failure
      leaves the field errors empty. */
  method WrongPasswordScenario(users: seq<Credential>, email: string, password: string)
    returns (alerts: seq<Alert>, errors: Errors)
    requires ValidateForm(email, password).isValid && Credential(email, password) !in users
    ensures alerts == [LoginFailed] && errors == NoErrors
  {
    var screen := new LoginScreen(users);
    screen.SetEmail(email);
    screen.SetPassword(password);
    screen.BeginSubmit();
    assert screen.pending == [Attempt(email, password)] && screen.alerts == [];
    screen.CompleteLookup();
    alerts, errors := screen.alerts, screen.errors;
  }

  /** Submitting twice before the timer fires schedules two lookups; the first
      to complete already clears `loading`, and each raises its own alert. */
  method DoubleSubmitScenario(users: seq<Credential>, email: string, password: string)
    returns (loadingAfterFirst: bool, alerts: seq<Alert>)
    requires ValidateForm(email, password).isValid
    ensures !loadingAfterFirst
    ensures alerts == [Expected(users, email, password), Expected(users, email, password)]
  {
    var screen := new LoginScreen(users);
    screen.SetEmail(email);
    screen.SetPassword(password);
    screen.BeginSubmit();
    screen.BeginSubmit();
    assert |screen.pending| == 2;
    screen.CompleteLookup();
    loadingAfterFirst := screen.loading;
    screen.CompleteLookup();
    alerts := screen.alerts;
  }

  /** Submitting the empty form shows both errors and schedules nothing; the
      errors stay while a field is edited and go with `clearForm`. */
  method EmptyFormScenario(users: seq<Credential>, typed: string)
    returns (shown: Errors, afterEdit: Errors, afterClear: Errors, scheduled: nat)
    ensures shown == afterEdit == Errors(Some(EmailRequired), Some(PasswordRequired))
    ensures afterClear == NoErrors && scheduled == 0
  {
    EmptyFormExample();
    var screen := new LoginScreen(users);
    screen.BeginSubmit();
    shown, scheduled := screen.errors, |screen.pending|;
    screen.SetEmail(typed);
    afterEdit := screen.errors;
    screen.ClearForm();
    afterClear := screen.errors;
  }
}
