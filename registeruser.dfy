/** The validation rules of a registration request, one predicate per attribute, with
    `None` for a null field. */
module RegisterUser {

  import opened Wrappers
  import opened Strings

  /** `[Required]` on a string: not null, not empty, not only white space. */
  predicate Required(s: Option<string>) {
    s.Some? && !IsBlank(s.value)
  }

  /** `[RegularExpression("^[a-zA-Z0-9]+$")]`: a null or empty value is left to other
      attributes; any other value must match in full, so every character is an ASCII
      letter or digit. */
  predicate MatchesUserNamePattern(s: Option<string>) {
    s.None? || forall i :: 0 <= i < |s.value| ==> IsAsciiLetterOrDigit(s.value[i])
  }

  /** `[MinLength(6)]`: a null value passes; a string needs at least six characters. */
  predicate HasMinLength6(s: Option<string>) {
    s.None? || |s.value| >= 6
  }

  predicate ValidUserName(s: Option<string>) {
    Required(s) && MatchesUserNamePattern(s)
  }

  predicate ValidPassword(p: Option<string>) {
    Required(p) && HasMinLength6(p)
  }

  datatype Registration = Registration(userName: Option<string>, password: Option<string>)

  /** A registration is accepted only when every attribute of both fields accepts it. */
  predicate ValidRegistration(r: Registration) {
    ValidUserName(r.userName) && ValidPassword(r.password)
  }

  /** A user name is valid iff it is present, non-empty and made of ASCII letters and
      digits only. */
  lemma UserNameRule(s: Option<string>)
    ensures ValidUserName(s) <==>
      s.Some? && |s.value| > 0 && forall i :: 0 <= i < |s.value| ==> IsAsciiLetterOrDigit(s.value[i])
  {
    if s.Some? && |s.value| > 0 && forall i :: 0 <= i < |s.value| ==> IsAsciiLetterOrDigit(s.value[i]) {
      assert !IsWhiteSpace(s.value[0]);
    }
  }

  /** One character outside `[a-zA-Z0-9]` anywhere rejects the name. */
  lemma UserNameRejectsOtherCharacters(s: string, i: nat)
    requires i < |s| && !IsAsciiLetterOrDigit(s[i])
    ensures !ValidUserName(Some(s))
  {
  }

  /** A space, an underscore, punctuation and a non-ASCII letter are each rejected; letters
      and digits are accepted. */
  lemma UserNameExamples()
    ensures !ValidUserName(Some("john doe"))
    ensures !ValidUserName(Some("john_doe"))
    ensures !ValidUserName(Some("john.doe"))
    ensures !ValidUserName(Some("jos\U{E9}"))
    ensures !ValidUserName(Some(""))
    ensures !ValidUserName(None)
    ensures ValidUserName(Some("John42"))
  {
    UserNameRejectsOtherCharacters("john doe", 4);
    UserNameRejectsOtherCharacters("john_doe", 4);
    UserNameRejectsOtherCharacters("john.doe", 4);
    UserNameRejectsOtherCharacters("jos\U{E9}", 3);
    UserNameRule(Some("John42"));
  }

  /** A password is valid iff it is present, has at least six characters and is not only
      white space. */
  lemma PasswordRule(p: Option<string>)
    ensures ValidPassword(p) <==> p.Some? && |p.value| >= 6 && !IsBlank(p.value)
  {
  }

  /** Length alone decides between a short and a long enough password that is not blank; a
      blank one is rejected whatever its length. */
  lemma PasswordExamples()
    ensures !ValidPassword(Some("abc12"))
    ensures ValidPassword(Some("abc123"))
    ensures !ValidPassword(Some("      "))
    ensures !ValidPassword(Some(""))
    ensures !ValidPassword(None)
  {
    assert !IsWhiteSpace("abc123"[0]);
  }

  /** Both fields must pass: a valid name with a short password is refused. */
  lemma RegistrationNeedsBothFields(r: Registration)
    ensures ValidRegistration(r) ==> ValidUserName(r.userName) && ValidPassword(r.password)
    ensures ValidUserName(r.userName) && r.password.Some? && |r.password.value| < 6 ==> !ValidRegistration(r)
  {
  }
}
