/** The validator of a profile update: an optional username and an optional
    email, at least one of which must be truthy after parsing. The email
    format test is an oracle `isEmail`. */
module UserSchema {
  import opened Wrappers
  import opened Text

  datatype UserIssue = UsernameTooShort | UsernameTooLong | EmailInvalid | EmailNotLowercase | NothingToUpdate {
    /** The messages the schema declares; the lowercase check keeps the
        library's own message, which is not part of this model. */
    function Message(): Option<string> {
      match this
      case UsernameTooShort => Some("Username must be at least 3 characters long")
      case UsernameTooLong => Some("Username cannot exceed 25 characters")
      case EmailInvalid => Some("Invalid email format")
      case EmailNotLowercase => None
      case NothingToUpdate => Some("At least one field (username or email) must be provided for update")
    }
  }

  datatype UpdateUserDraft = UpdateUserDraft(username: Option<string>, email: Option<string>)

  datatype UpdateUserInput = UpdateUserInput(username: Option<string>, email: Option<string>)

  function Check(ok: bool, issue: UserIssue): seq<UserIssue> {
    if ok then [] else [issue]
  }

  /** The username's bounds measure the text before its `trim`. */
  function UsernameIssues(u: Option<string>): seq<UserIssue> {
    if u.None? then [] else Check(|u.value| >= 3, UsernameTooShort) + Check(|u.value| <= 25, UsernameTooLong)
  }

  /** `.email().lowercase()`: the format, then no uppercase letter; both
      see the text before its `trim`. */
  function EmailIssues(e: Option<string>, isEmail: string -> bool): seq<UserIssue> {
    if e.None? then [] else Check(isEmail(e.value), EmailInvalid) + Check(Lower(e.value) == e.value, EmailNotLowercase)
  }

  /** A JavaScript string is truthy when it is present and non-empty. */
  predicate Given(s: Option<string>) {
    s.Some? && s.value != ""
  }

  function TrimField(s: Option<string>): (r: Option<string>)
    ensures r.Some? <==> s.Some?
  {
    if s.None? then None else Some(Trim(s.value))
  }

  /** `updateUserSchema.parse`: the field checks, then the refinement on
      the trimmed values. */
  function ParseUpdateUser(d: UpdateUserDraft, isEmail: string -> bool): (r: Result<UpdateUserInput, seq<UserIssue>>)
    ensures r.Err? ==> |r.error| > 0
  {
    var username := TrimField(d.username);
    var email := TrimField(d.email);
    var issues := UsernameIssues(d.username) + EmailIssues(d.email, isEmail)
                  + Check(Given(username) || Given(email), NothingToUpdate);
    if |issues| > 0 then Err(issues) else Ok(UpdateUserInput(username, email))
  }

  /** The update is accepted exactly when each field sent meets its rules
      and at least one of them is non-empty once trimmed; each field is
      optional on its own, and the parsed fields are the trimmed ones. */
  lemma {:induction false} ParseUpdateUserAcceptsExactly(d: UpdateUserDraft, isEmail: string -> bool)
    ensures ParseUpdateUser(d, isEmail).Ok? <==>
              && (d.username.Some? ==> 3 <= |d.username.value| <= 25)
              && (d.email.Some? ==> isEmail(d.email.value) && Lower(d.email.value) == d.email.value)
              && ((d.username.Some? && Trim(d.username.value) != "") || (d.email.Some? && Trim(d.email.value) != ""))
    ensures ParseUpdateUser(d, isEmail).Ok? ==>
              var v := ParseUpdateUser(d, isEmail).value;
              && (v.username.Some? <==> d.username.Some?) && (v.email.Some? <==> d.email.Some?)
              && (v.username.Some? ==> v.username.value == Trim(d.username.value) && |v.username.value| <= 25)
              && (v.email.Some? ==> v.email.value == Trim(d.email.value))
              && (Given(v.username) || Given(v.email))
  {
  }

  /** A username of blanks passes its length check but trims to nothing,
      so on its own it is refused by the refinement. */
  lemma {:induction false} BlankUsernameAloneRefused(u: string, isEmail: string -> bool)
    requires 3 <= |u| <= 25 && AllBlank(JsWhitespace, u)
    ensures ParseUpdateUser(UpdateUserDraft(Some(u), None), isEmail) == Err([NothingToUpdate])
  {
    TrimPadded(u, "", "");
    assert u + "" + "" == u;
    assert UsernameIssues(Some(u)) == [];
    assert !Given(TrimField(Some(u)));
    var issues := UsernameIssues(Some(u)) + EmailIssues(None, isEmail) + Check(false, NothingToUpdate);
    assert issues == [NothingToUpdate];
  }
}
