/** The request-body validators of registration and login. A validator
    either yields the parsed value or fails with the list of issue messages
    it collected, in the order the checks are declared (each field's checks
    run in order, and the fields are checked in order). */
module AuthSchema {
  import opened Wrappers
  import opened Text

  /** The issues the validators report, one per declared check. */
  datatype Issue =
    | UsernameRequired | UsernameChars | UsernameTooShort | UsernameTooLong
    | EmailRequired | EmailInvalid
    | PasswordRequired | PasswordTooShort | PasswordTooLong
    | PasswordNoLower | PasswordNoUpper | PasswordNoDigit | PasswordNoSpecial
  {
    /** The message the schema attaches to the check. */
    function Message(): string {
      match this
      case UsernameRequired => "Username is required"
      case UsernameChars => "Username can only contain letters, numbers, and underscores"
      case UsernameTooShort => "Username must be at least 3 characters long"
      case UsernameTooLong => "Username must be at most 20 characters long"
      case EmailRequired => "Email is required"
      case EmailInvalid => "Invalid email"
      case PasswordRequired => "Password is required"
      case PasswordTooShort => "Password must be at least 8 characters long"
      case PasswordTooLong => "Password must be at most 32 characters long"
      case PasswordNoLower => "Password must contain at least one lowercase letter"
      case PasswordNoUpper => "Password must contain at least one uppercase letter"
      case PasswordNoDigit => "Password must contain at least one number"
      case PasswordNoSpecial => "Password must contain at least one special character"
    }
  }

  /** The messages of a list of issues, in order. */
  function Messages(issues: seq<Issue>): (ms: seq<string>)
    ensures |ms| == |issues|
    ensures forall k :: 0 <= k < |issues| ==> ms[k] == issues[k].Message()
  {
    if issues == [] then [] else [issues[0].Message()] + Messages(issues[1..])
  }

  /** The parsed body of a registration request. */
  datatype RegisterInput = RegisterInput(username: string, email: string, password: string)

  /** The parsed body of a login request. */
  datatype LoginInput = LoginInput(email: string, password: string)

  // ---------------------------------------------------------------------------
  // what each field must satisfy, stated directly

  /** `/^[a-zA-Z0-9_]+$/`: one or more ASCII letters, digits or `_`. */
  predicate WordPattern(u: string) {
    u != [] && forall i :: 0 <= i < |u| ==> IsWordChar(u[i])
  }

  /** A valid username: 3 to 20 characters, all ASCII letters, digits or `_`. */
  predicate UsernameOk(u: string) {
    3 <= |u| <= 20 && WordPattern(u)
  }

  predicate HasLower(p: string) {
    exists i :: 0 <= i < |p| && 'a' <= p[i] <= 'z'
  }

  predicate HasUpper(p: string) {
    exists i :: 0 <= i < |p| && 'A' <= p[i] <= 'Z'
  }

  predicate HasDigit(p: string) {
    exists i :: 0 <= i < |p| && IsDigit(p[i])
  }

  /** `/[^a-zA-Z0-9]/`: some character that is not an ASCII letter or digit. */
  predicate HasSpecial(p: string) {
    exists i :: 0 <= i < |p| && !IsAsciiLetter(p[i]) && !IsDigit(p[i])
  }

  /** A valid password: 8 to 32 characters with a lowercase letter, an
      uppercase letter, a digit and a character that is none of these. */
  predicate PasswordOk(p: string) {
    8 <= |p| <= 32 && HasLower(p) && HasUpper(p) && HasDigit(p) && HasSpecial(p)
  }

  // ---------------------------------------------------------------------------
  // the checks as declared, each adding its message when it fails

  function Check(ok: bool, issue: Issue): seq<Issue> {
    if ok then [] else [issue]
  }

  /** `usernameSchema`: trim, then the pattern, then the two length bounds,
      all on the trimmed value. A missing value fails the type check alone. */
  function UsernameIssues(raw: Option<string>): (issues: seq<Issue>)
    ensures |issues| == 0 <==> raw.Some? && UsernameOk(Trim(raw.value))
    ensures raw.Some? && |Trim(raw.value)| > 20 ==> |issues| > 0
  {
    match raw
    case None => [UsernameRequired]
    case Some(s) =>
      var u := Trim(s);
      Check(WordPattern(u), UsernameChars)
      + Check(|u| >= 3, UsernameTooShort)
      + Check(|u| <= 20, UsernameTooLong)
  }

  /** `passwordSchema`: the checks run on the raw value, none is trimmed. */
  function PasswordIssues(raw: Option<string>): (issues: seq<Issue>)
    ensures |issues| == 0 <==> raw.Some? && PasswordOk(raw.value)
    ensures raw.Some? && |raw.value| < 8 ==> issues[0] == PasswordTooShort
  {
    match raw
    case None => [PasswordRequired]
    case Some(p) =>
      Check(|p| >= 8, PasswordTooShort)
      + Check(|p| <= 32, PasswordTooLong)
      + Check(HasLower(p), PasswordNoLower)
      + Check(HasUpper(p), PasswordNoUpper)
      + Check(HasDigit(p), PasswordNoDigit)
      + Check(HasSpecial(p), PasswordNoSpecial)
  }

  /** `emailSchema`; the address syntax test is the library's and is given
      as `isEmail`. */
  function EmailIssues(raw: Option<string>, isEmail: string -> bool): (issues: seq<Issue>)
    ensures |issues| == 0 <==> raw.Some? && isEmail(raw.value)
  {
    match raw
    case None => [EmailRequired]
    case Some(e) => Check(isEmail(e), EmailInvalid)
  }

  /** `registerSchema.parse`. */
  function ParseRegister(username: Option<string>, email: Option<string>, password: Option<string>,
                         isEmail: string -> bool): (r: Result<RegisterInput, seq<Issue>>)
    ensures r.Ok? <==> |UsernameIssues(username)| == 0 && |EmailIssues(email, isEmail)| == 0
                       && |PasswordIssues(password)| == 0
    ensures r.Ok? ==> username.Some? && email.Some? && password.Some?
                      && r.value == RegisterInput(Trim(username.value), email.value, password.value)
    ensures r.Err? ==> |r.error| > 0
    // the first message reported belongs to the first field that fails
    ensures r.Err? && |UsernameIssues(username)| > 0 ==> r.error[0] == UsernameIssues(username)[0]
  {
    var issues := UsernameIssues(username) + EmailIssues(email, isEmail) + PasswordIssues(password);
    if |issues| == 0 then Ok(RegisterInput(Trim(username.value), email.value, password.value))
    else Err(issues)
  }

  /** `loginSchema.parse`: the same email and password rules as registration. */
  function ParseLogin(email: Option<string>, password: Option<string>,
                      isEmail: string -> bool): (r: Result<LoginInput, seq<Issue>>)
    ensures r.Ok? <==> |EmailIssues(email, isEmail)| == 0 && |PasswordIssues(password)| == 0
    ensures r.Ok? ==> email.Some? && password.Some? && r.value == LoginInput(email.value, password.value)
    ensures r.Err? ==> |r.error| > 0
  {
    var issues := EmailIssues(email, isEmail) + PasswordIssues(password);
    if |issues| == 0 then Ok(LoginInput(email.value, password.value)) else Err(issues)
  }

  /** Registration accepts exactly the bodies whose trimmed username,
      email and password satisfy their rules. */
  lemma {:induction false} RegisterAcceptsExactly(username: Option<string>, email: Option<string>, password: Option<string>,
                               isEmail: string -> bool)
    ensures ParseRegister(username, email, password, isEmail).Ok? <==>
              && username.Some? && UsernameOk(Trim(username.value))
              && email.Some? && isEmail(email.value)
              && password.Some? && PasswordOk(password.value)
  {
  }

  /** Login accepts exactly the bodies whose email and password satisfy the
      registration rules. */
  lemma {:induction false} LoginAcceptsExactly(email: Option<string>, password: Option<string>, isEmail: string -> bool)
    ensures ParseLogin(email, password, isEmail).Ok? <==>
              email.Some? && isEmail(email.value) && password.Some? && PasswordOk(password.value)
  {
  }

  /** A password the registration rules refuse is refused at login before
      any account is looked at, whatever the email. */
  lemma {:induction false} LoginRefusesWhatRegisterRefuses(username: Option<string>, email: Option<string>,
                                        password: Option<string>, isEmail: string -> bool)
    requires email.Some? && isEmail(email.value)
    requires username.Some? && UsernameOk(Trim(username.value))
    ensures ParseRegister(username, email, password, isEmail).Err? <==> ParseLogin(email, password, isEmail).Err?
  {
  }
}
