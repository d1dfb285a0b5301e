/** The validation rules that the logon-page parameter objects declare for
    the validation context "CustomLogonActionsContext": required fields,
    the e-mail pattern and the password confirmation. */
module LogonActionParameters {
  import opened Wrappers
  import opened Text
  import EmailPattern

  const ValidationContext := "CustomLogonActionsContext"

  datatype Field = UserName | Email | Password | ConfirmPassword

  /** One broken rule, reported against the property that declares it. */
  datatype BrokenRule =
    | RequiredField(field: Field)
    | RegularExpression(field: Field)
    | ValueComparison(field: Field, other: Field)

  datatype RegisterUserParameters =
    RegisterUserParameters(userName: Option<string>, email: Option<string>, password: Option<string>)

  datatype RestorePasswordParameters = RestorePasswordParameters(email: Option<string>)

  /** `Token` is not browsable and carries no rule. */
  datatype SetNewPasswordParameters =
    SetNewPasswordParameters(password: Option<string>, confirmPassword: Option<string>, token: Option<string>)

  /** A string property holds a value: neither `null` nor empty. */
  predicate HasValue(v: Option<string>) {
    v.Some? && |v.value| > 0
  }

  /** `RuleRequiredField` on property `f`. */
  function RequiredRule(f: Field, v: Option<string>): (r: set<BrokenRule>)
    ensures r == {} <==> HasValue(v)
    ensures r <= {RequiredField(f)}
  {
    if HasValue(v) then {} else {RequiredField(f)}
  }

  /** `RuleRegularExpression` with the e-mail pattern on property `f`, run
      by the .NET regular-expression engine; an empty value is left to the
      required-field rule. */
  function PatternRule(f: Field, v: Option<string>): (r: set<BrokenRule>)
    ensures r == {} <==> !HasValue(v) || EmailPattern.MatchesAsWritten(v.value)
    ensures r <= {RegularExpression(f)}
  {
    if HasValue(v) && !EmailPattern.MatchesAsWritten(v.value) then {RegularExpression(f)} else {}
  }

  /** `RuleValueComparison(Equals, other)` on property `f`; an empty value is
      left to the required-field rule. */
  function EqualsRule(f: Field, v: Option<string>, other: Field, w: Option<string>): (r: set<BrokenRule>)
    ensures r == {} <==> !HasValue(v) || v == w
    ensures r <= {ValueComparison(f, other)}
  {
    if HasValue(v) && v != w then {ValueComparison(f, other)} else {}
  }

  function RegisterUserBrokenRules(p: RegisterUserParameters): (r: set<BrokenRule>)
    ensures r == {} <==>
      HasValue(p.userName) && HasValue(p.email) && HasValue(p.password) &&
      EmailPattern.MatchesAsWritten(p.email.value)
    ensures RequiredField(Email) in r <==> !HasValue(p.email)
    ensures RegularExpression(Email) in r <==> HasValue(p.email) && !EmailPattern.MatchesAsWritten(p.email.value)
  {
    RequiredRule(UserName, p.userName) + RequiredRule(Email, p.email) + PatternRule(Email, p.email) +
    RequiredRule(Password, p.password)
  }

  function RestorePasswordBrokenRules(p: RestorePasswordParameters): (r: set<BrokenRule>)
    ensures r == {} <==> HasValue(p.email) && EmailPattern.MatchesAsWritten(p.email.value)
  {
    RequiredRule(Email, p.email) + PatternRule(Email, p.email)
  }

  function SetNewPasswordBrokenRules(p: SetNewPasswordParameters): (r: set<BrokenRule>)
    ensures r == {} <==> HasValue(p.password) && HasValue(p.confirmPassword) && p.confirmPassword == p.password
    ensures ValueComparison(ConfirmPassword, Password) in r <==>
      HasValue(p.confirmPassword) && p.confirmPassword != p.password
  {
    RequiredRule(Password, p.password) + RequiredRule(ConfirmPassword, p.confirmPassword) +
    EqualsRule(ConfirmPassword, p.confirmPassword, Password, p.password)
  }

  /** An address that passes the restore-password form also passes the
      service's own "Email address is not specified." guard. */
  lemma ValidRestoreRequestHasEmail(p: RestorePasswordParameters)
    requires RestorePasswordBrokenRules(p) == {}
    ensures !IsNullOrWhiteSpace(p.email)
  {
    var s := p.email.value;
    EmailPattern.AsWrittenAlphabet(s);
    assert EmailPattern.IsPatternChar(s[0]);
  }

  /** The restore form accepts an address with a trailing line feed, and
      reports the pattern rule broken once anything else follows it. */
  lemma RestoreFormAcceptsTrailingLineFeed()
    ensures RestorePasswordBrokenRules(RestorePasswordParameters(Some("a@b.cc\n"))) == {}
    ensures RestorePasswordBrokenRules(RestorePasswordParameters(Some("a@b.cc\n\n"))) ==
              {RegularExpression(Email)}
  {
    EmailPattern.TrailingLineFeedAccepted();
    var s := "a@b.cc\n\n";
    assert s[..|s| - 1] == "a@b.cc\n";
    EmailPattern.RejectsForeignCharacter(s, 6);
    EmailPattern.RejectsForeignCharacter(s[..|s| - 1], 6);
  }
}
