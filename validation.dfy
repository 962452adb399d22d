/** The input validators of the login screen: `validateEmail`, `validatePassword`
    and `validateForm`. Every validator returns either no error (JavaScript `null`)
    or one of seven fixed messages. Regular-expression tests are modelled by what
    the expressions match, and each is proved equal to a plainer description. */
module Validation {

  datatype Option<+T> = None | Some(value: T)

  /** The seven errors the validators can report, one per fixed message. */
  datatype FieldError =
    | EmailRequired
    | InvalidEmail
    | PasswordRequired
    | PasswordTooShort
    | MissingLowercase
    | MissingUppercase
    | MissingDigit
  {
    /** The message string the validators return for this error. */
    function Message(): (m: string)
      ensures |m| > 0
    {
      match this
      case EmailRequired => "Email is required"
      case InvalidEmail => "Please enter a valid email address"
      case PasswordRequired => "Password is required"
      case PasswordTooShort => "Password must be at least 6 characters"
      case MissingLowercase => "Password must contain at least one lowercase letter"
      case MissingUppercase => "Password must contain at least one uppercase letter"
      case MissingDigit => "Password must contain at least one number"
    }

    predicate IsEmailError() {
      EmailRequired? || InvalidEmail?
    }

    predicate IsPasswordError() {
      !IsEmailError()
    }
  }

  /** Distinct errors have distinct messages, so a message names its error. */
  lemma MessagesDistinct(a: FieldError, b: FieldError)
    ensures a.Message() == b.Message() ==> a == b
  {
  }

  /** JavaScript truthiness of a validator's result: `null` is falsy, a string is
      truthy unless it is empty. */
  function Truthy(r: Option<FieldError>): (b: bool)
    ensures b <==> r.Some?
  {
    match r
    case None => false
    case Some(e) => e.Message() != ""
  }

  // ---------------------------------------------------------------------------
  // Character classes

  /** JavaScript's `\s`: the ASCII whitespace and line terminators, no-break
      space, the Unicode space separators and the byte order mark, all of them in
      the Basic Multilingual Plane. */
  predicate IsSpace(c: char): (b: bool)
    ensures b ==> c as int <= 0xFFFF
  {
    var n := c as int;
    (0x09 <= n <= 0x0D) || n == 0x20 || n == 0xA0 || n == 0x1680 ||
    (0x2000 <= n <= 0x200A) || n == 0x2028 || n == 0x2029 || n == 0x202F ||
    n == 0x205F || n == 0x3000 || n == 0xFEFF
  }

  /** The class `[^\s@]`. */
  predicate IsPatternChar(c: char) {
    !IsSpace(c) && c != '@'
  }

  predicate AllPatternChars(s: string) {
    forall k | 0 <= k < |s| :: IsPatternChar(s[k])
  }

  /** The characters `.` does not match in a regular expression without the `s`
      flag; every one of them is also whitespace to `\s`. */
  predicate IsLineTerminator(c: char): (b: bool)
    ensures b ==> IsSpace(c)
  {
    c == '\n' || c == '\r' || c as int == 0x2028 || c as int == 0x2029
  }

  /** The three classes the password policy looks for: `[a-z]`, `[A-Z]` and `\d`. */
  datatype CharClass = AsciiLower | AsciiUpper | AsciiDigit {
    /** Each class holds ASCII characters only, none of them whitespace. */
    predicate Contains(c: char): (b: bool)
      ensures b ==> c as int < 0x80 && !IsSpace(c)
    {
      match this
      case AsciiLower => 'a' <= c <= 'z'
      case AsciiUpper => 'A' <= c <= 'Z'
      case AsciiDigit => '0' <= c <= '9'
    }
  }

  // ---------------------------------------------------------------------------
  // The email pattern

  /** `/^[^\s@]+@[^\s@]+\.[^\s@]+$/.test(s)`: s splits, at an `@` in position i and a
      `.` in position j, into three non-empty runs of `[^\s@]`. The shortest
      accepted string has five characters, such as "a@b.c". */
  predicate EmailPatternMatches(s: string): (b: bool)
    ensures b ==> 5 <= |s| && '@' in s && '.' in s
  {
    exists i, j | 0 < i < j < |s| ::
      i + 1 < j && j + 1 < |s| && s[i] == '@' && s[j] == '.' &&
      AllPatternChars(s[..i]) && AllPatternChars(s[i + 1..j]) && AllPatternChars(s[j + 1..])
  }

  function Occurrences(s: string, c: char): (n: nat)
    ensures n <= |s|
  {
    if s == [] then 0 else (if s[0] == c then 1 else 0) + Occurrences(s[1..], c)
  }

  predicate NoWhitespace(s: string) {
    forall k | 0 <= k < |s| :: !IsSpace(s[k])
  }

  /** d holds a `.` that is neither its first nor its last character. */
  predicate HasInnerDot(d: string) {
    exists j | 0 < j < |d| - 1 :: d[j] == '.'
  }

  /** The shape of an acceptable email address: no whitespace, exactly one `@`, a
      non-empty part before it, and a part after it with an inner `.`. */
  predicate WellFormedEmail(s: string) {
    NoWhitespace(s) && Occurrences(s, '@') == 1 &&
    exists i | 0 <= i < |s| :: s[i] == '@' && 0 < i && HasInnerDot(s[i + 1..])
  }

  lemma {:induction false} OccurrencesAppend(a: string, b: string, c: char)
    ensures Occurrences(a + b, c) == Occurrences(a, c) + Occurrences(b, c)
  {
    if a == [] {
      assert a + b == b;
    } else {
      assert (a + b)[1..] == a[1..] + b;
      OccurrencesAppend(a[1..], b, c);
    }
  }

  lemma {:induction false} OccurrencesZero(s: string, c: char)
    ensures Occurrences(s, c) == 0 <==> forall k | 0 <= k < |s| :: s[k] != c
  {
    if s != [] {
      OccurrencesZero(s[1..], c);
      assert forall k | 1 <= k < |s| :: s[k] == s[1..][k - 1];
    }
  }

  /** With c at position i, c occurs exactly once iff it occurs nowhere else. */
  lemma OccursOnlyAt(s: string, i: nat, c: char)
    requires i < |s| && s[i] == c
    ensures Occurrences(s, c) == 1 <==> forall k | 0 <= k < |s| && k != i :: s[k] != c
  {
    assert s == s[..i] + [c] + s[i + 1..];
    OccurrencesAppend(s[..i] + [c], s[i + 1..], c);
    OccurrencesAppend(s[..i], [c], c);
    OccurrencesZero(s[..i], c);
    OccurrencesZero(s[i + 1..], c);
    assert forall k | 0 <= k < i :: s[k] == s[..i][k];
    assert forall k | i < k < |s| :: s[k] == s[i + 1..][k - i - 1];
  }

  /** A string the regular expression accepts is well formed. */
  lemma MatchedEmailIsWellFormed(s: string, i: nat, j: nat)
    requires 0 < i && i + 1 < j && j + 1 < |s| && s[i] == '@' && s[j] == '.'
    requires AllPatternChars(s[..i]) && AllPatternChars(s[i + 1..j]) && AllPatternChars(s[j + 1..])
    ensures WellFormedEmail(s)
  {
    var local, domain1, domain2 := s[..i], s[i + 1..j], s[j + 1..];
    forall k | 0 <= k < |s| && k != i && k != j
      ensures IsPatternChar(s[k])
    {
      if k < i {
        assert s[k] == local[k];
      } else if k < j {
        assert s[k] == domain1[k - i - 1];
      } else {
        assert s[k] == domain2[k - j - 1];
      }
    }
    OccursOnlyAt(s, i, '@');
    assert s[i + 1..][j - i - 1] == '.';
  }

  /** A well-formed string splits into the three runs the regular expression needs. */
  lemma WellFormedEmailIsMatched(s: string)
    requires WellFormedEmail(s)
    ensures EmailPatternMatches(s)
  {
    var i :| 0 <= i < |s| && s[i] == '@' && 0 < i && HasInnerDot(s[i + 1..]);
    var d := s[i + 1..];
    var dot :| 0 < dot < |d| - 1 && d[dot] == '.';
    var j := i + 1 + dot;
    OccursOnlyAt(s, i, '@');
    assert s[j] == '.';
    var local, domain1, domain2 := s[..i], s[i + 1..j], s[j + 1..];
    assert AllPatternChars(local) by {
      forall k | 0 <= k < |local| ensures IsPatternChar(local[k]) {
        assert local[k] == s[k];
      }
    }
    assert AllPatternChars(domain1) by {
      forall k | 0 <= k < |domain1| ensures IsPatternChar(domain1[k]) {
        assert domain1[k] == s[i + 1 + k];
      }
    }
    assert AllPatternChars(domain2) by {
      forall k | 0 <= k < |domain2| ensures IsPatternChar(domain2[k]) {
        assert domain2[k] == s[j + 1 + k];
      }
    }
  }

  /** The regular expression accepts exactly the well-formed addresses. */
  lemma EmailPatternIff(s: string)
    ensures EmailPatternMatches(s) <==> WellFormedEmail(s)
  {
    if EmailPatternMatches(s) {
      var i, j :| 0 < i < j < |s| &&
        i + 1 < j && j + 1 < |s| && s[i] == '@' && s[j] == '.' &&
        AllPatternChars(s[..i]) && AllPatternChars(s[i + 1..j]) && AllPatternChars(s[j + 1..]);
      MatchedEmailIsWellFormed(s, i, j);
    }
    if WellFormedEmail(s) {
      WellFormedEmailIsMatched(s);
    }
  }

  // ---------------------------------------------------------------------------
  // The password policy

  /** Whether `.*[class]` matches from position k: `.*` runs over characters that
      are not line terminators until it reaches a character of the class, so a
      match from k means a character of the class at k or later. */
  predicate LookaheadMatchesAt(s: string, cls: CharClass, k: nat): (b: bool)
    ensures b ==> exists m | k <= m < |s| :: cls.Contains(s[m])
    decreases |s| - k
  {
    k < |s| && (cls.Contains(s[k]) || (!IsLineTerminator(s[k]) && LookaheadMatchesAt(s, cls, k + 1)))
  }

  /** `/(?=.*[class])/.test(s)`: the unanchored search succeeds from some position. */
  predicate LookaheadTest(s: string, cls: CharClass): (b: bool)
    ensures b ==> HasCharIn(s, cls)
  {
    exists k | 0 <= k < |s| :: LookaheadMatchesAt(s, cls, k)
  }

  predicate HasCharIn(s: string, cls: CharClass) {
    exists m | 0 <= m < |s| :: cls.Contains(s[m])
  }

  /** The lookahead search succeeds iff the string holds a character of the class,
      line terminators notwithstanding. */
  lemma LookaheadTestIff(s: string, cls: CharClass)
    ensures LookaheadTest(s, cls) <==> HasCharIn(s, cls)
  {
    if HasCharIn(s, cls) {
      var m :| 0 <= m < |s| && cls.Contains(s[m]);
      assert LookaheadMatchesAt(s, cls, m);
    }
  }

  /** What an acceptable password is: six characters or more, with an ASCII
      lowercase letter, an ASCII uppercase letter and an ASCII digit. */
  predicate PasswordPolicyHolds(p: string) {
    |p| >= 6 && HasCharIn(p, AsciiLower) && HasCharIn(p, AsciiUpper) && HasCharIn(p, AsciiDigit)
  }

  // ---------------------------------------------------------------------------
  // The validators

  /** `validateEmail`: the empty string is reported as missing before any format
      check; otherwise the address passes iff it is well formed. */
  function ValidateEmail(email: string): (r: Option<FieldError>)
    ensures email == "" ==> r == Some(EmailRequired)
    ensures email != "" && WellFormedEmail(email) ==> r == None
    ensures email != "" && !WellFormedEmail(email) ==> r == Some(InvalidEmail)
  {
    EmailPatternIff(email);
    if email == "" then Some(EmailRequired)
    else if !EmailPatternMatches(email) then Some(InvalidEmail)
    else None
  }

  /** `validatePassword`: five checks in a fixed order, the first failure wins. */
  function ValidatePassword(password: string): (r: Option<FieldError>)
    ensures r == None <==> PasswordPolicyHolds(password)
    ensures r.Some? ==> r.value.IsPasswordError()
  {
    LookaheadTestIff(password, AsciiLower);
    LookaheadTestIff(password, AsciiUpper);
    LookaheadTestIff(password, AsciiDigit);
    if password == "" then Some(PasswordRequired)
    else if |password| < 6 then Some(PasswordTooShort)
    else if !LookaheadTest(password, AsciiLower) then Some(MissingLowercase)
    else if !LookaheadTest(password, AsciiUpper) then Some(MissingUppercase)
    else if !LookaheadTest(password, AsciiDigit) then Some(MissingDigit)
    else None
  }

  /** The object `validateForm` returns. */
  datatype FormValidation = FormValidation(email: Option<FieldError>, password: Option<FieldError>, isValid: bool)

  /** `validateForm`: both fields are always validated, and `isValid` is
      `!emailError && !passwordError` under JavaScript truthiness. */
  function ValidateForm(email: string, password: string): (v: FormValidation)
    ensures v.email == ValidateEmail(email) && v.password == ValidatePassword(password)
    ensures v.isValid <==> v.email == None && v.password == None
  {
    var emailError := ValidateEmail(email);
    var passwordError := ValidatePassword(password);
    FormValidation(emailError, passwordError, !Truthy(emailError) && !Truthy(passwordError))
  }

  // ---------------------------------------------------------------------------
  // Properties

  /** Which message `validatePassword` returns, for each class of input. */
  lemma PasswordErrorClasses(p: string)
    ensures ValidatePassword(p) == Some(PasswordRequired) <==> p == ""
    ensures ValidatePassword(p) == Some(PasswordTooShort) <==> 0 < |p| < 6
    ensures ValidatePassword(p) == Some(MissingLowercase) <==> |p| >= 6 && !HasCharIn(p, AsciiLower)
    ensures ValidatePassword(p) == Some(MissingUppercase) <==>
      |p| >= 6 && HasCharIn(p, AsciiLower) && !HasCharIn(p, AsciiUpper)
    ensures ValidatePassword(p) == Some(MissingDigit) <==>
      |p| >= 6 && HasCharIn(p, AsciiLower) && HasCharIn(p, AsciiUpper) && !HasCharIn(p, AsciiDigit)
  {
    LookaheadTestIff(p, AsciiLower);
    LookaheadTestIff(p, AsciiUpper);
    LookaheadTestIff(p, AsciiDigit);
  }

  /** A password of one to five characters gets the length message, whatever it holds. */
  lemma ShortPasswordGetsLengthMessage(p: string)
    requires 0 < |p| < 6
    ensures ValidatePassword(p) == Some(PasswordTooShort)
  {
  }

  /** The form is valid iff the email is non-empty and well formed and the
      password meets the policy; a failed form reports every failing field. */
  lemma FormValidIff(email: string, password: string)
    ensures ValidateForm(email, password).isValid <==>
      email != "" && WellFormedEmail(email) && PasswordPolicyHolds(password)
    ensures !PasswordPolicyHolds(password) ==> ValidateForm(email, password).password.Some?
    ensures (email == "" || !WellFormedEmail(email)) ==> ValidateForm(email, password).email.Some?
  {
  }

  /** An empty form fails on both fields. */
  lemma EmptyFormExample()
    ensures ValidateForm("", "") == FormValidation(Some(EmailRequired), Some(PasswordRequired), false)
  {
  }

  // The demo example is proved in small steps: the same facts stated together in
  // one lemma about the literal string exhaust the solver's budget.

  lemma DemoEmailHasNoSpace()
    ensures NoWhitespace("test@demo.com")
  {
  }

  lemma DemoEmailHasOneAt()
    ensures Occurrences("test@demo.com", '@') == 1
  {
  }

  lemma DemoEmailSplits()
    ensures exists i | 0 <= i < |"test@demo.com"| ::
      "test@demo.com"[i] == '@' && 0 < i && HasInnerDot("test@demo.com"[i + 1..])
  {
    var e := "test@demo.com";
    assert e[5..] == "demo.com";
    assert "demo.com"[4] == '.';
    assert e[4] == '@';
  }

  lemma DemoEmailWellFormed()
    ensures WellFormedEmail("test@demo.com")
  {
    DemoEmailHasNoSpace();
    DemoEmailHasOneAt();
    DemoEmailSplits();
  }

  lemma DemoPasswordAccepted()
    ensures PasswordPolicyHolds("Test@123")
  {
    var p := "Test@123";
    assert AsciiLower.Contains(p[1]) && AsciiUpper.Contains(p[0]) && AsciiDigit.Contains(p[5]);
  }

  /** The demo credentials pass both validators. */
  lemma DemoFormExample()
    ensures ValidateForm("test@demo.com", "Test@123") == FormValidation(None, None, true)
  {
    DemoEmailWellFormed();
    DemoPasswordAccepted();
  }

  /** "abcdef" passes the length and lowercase checks and fails on uppercase. */
  lemma LowercaseOnlyExample()
    ensures ValidatePassword("abcdef") == Some(MissingUppercase)
  {
    var p := "abcdef";
    PasswordErrorClasses(p);
    assert AsciiLower.Contains(p[0]);
  }

  /** "ABCDEF" fails on lowercase before uppercase or digits are looked at. */
  lemma UppercaseOnlyExample()
    ensures ValidatePassword("ABCDEF") == Some(MissingLowercase)
  {
    PasswordErrorClasses("ABCDEF");
  }

  /** Any non-empty address without `@` is turned away. */
  lemma NoAtRejected(s: string)
    requires s != "" && '@' !in s
    ensures ValidateEmail(s) == Some(InvalidEmail)
  {
    OccurrencesZero(s, '@');
  }

  /** Any address with an `@` and no `.` after it is turned away. */
  lemma NoDotAfterAtRejected(s: string, i: nat)
    requires i < |s| && s[i] == '@'
    requires forall k | i < k < |s| :: s[k] != '.'
    ensures ValidateEmail(s) == Some(InvalidEmail)
  {
    OccursOnlyAt(s, i, '@');
  }

  /** Any address with two `@` is turned away. */
  lemma TwoAtRejected(s: string, i: nat, j: nat)
    requires i < j < |s| && s[i] == '@' && s[j] == '@'
    ensures ValidateEmail(s) == Some(InvalidEmail)
  {
    OccursOnlyAt(s, i, '@');
  }

  /** Any address holding a `\s` character anywhere is turned away. */
  lemma SpaceRejected(s: string, k: nat)
    requires k < |s| && IsSpace(s[k])
    ensures ValidateEmail(s) == Some(InvalidEmail)
  {
  }

  /** The address `"test.demo.com"`, which has no `@`, is turned away. */
  lemma NoAtExample()
    ensures ValidateEmail("test.demo.com") == Some(InvalidEmail)
  {
  }

  /** The address `"test@demo"`, whose domain has no `.`, is turned away. */
  lemma NoDotExample()
    ensures ValidateEmail("test@demo") == Some(InvalidEmail)
  {
  }

  /** The address `"a@b@c.d"`, with a second `@`, is turned away. */
  lemma TwoAtExample()
    ensures ValidateEmail("a@b@c.d") == Some(InvalidEmail)
  {
  }

  /** The address `"a b@c.d"`, holding a space, is turned away. */
  lemma SpaceExample()
    ensures ValidateEmail("a b@c.d") == Some(InvalidEmail)
  {
  }

  /** A trailing dot is let through: the last run of the pattern may contain dots. */
  lemma TrailingDotExample()
    ensures ValidateEmail("a@b.c.") == None
  {
  }
}
