/** The input validators of the authentication service (backend/auth.py). */
module AuthValidation {
  import opened Wrappers
  import opened Text
  import opened Patterns
  import opened Rules

  /** The message the backend reports for each of its rules. */
  function Message(r: Rule): string
    requires r != PasswordsDiffer
  {
    match r
    case NameTooShort => "Name must be at least 2 characters."
    case NameNotLetters => "Name must contain only letters and spaces."
    case EmailInvalid => "Invalid email format."
    case PasswordTooShort => "Password must be at least 8 characters long."
    case PasswordNoUpper => "Password must contain at least 1 uppercase letter."
    case PasswordNoLower => "Password must contain at least 1 lowercase letter."
    case PasswordNoDigit => "Password must contain at least 1 number."
    case PasswordNoSpecial => "Password must contain at least 1 special character."
  }

  /** The messages of a list of backend failures, in the same order. */
  function Messages(errors: seq<Rule>): (texts: seq<string>)
    requires PasswordsDiffer !in errors
    ensures |texts| == |errors|
    ensures forall i :: 0 <= i < |errors| ==> texts[i] == Message(errors[i])
  {
    seq(|errors|, i requires 0 <= i < |errors| => Message(errors[i]))
  }

  /** The test of each rule as `_validate_registration_input` writes it. */
  function Fails(r: Rule, name: string, email: string, password: string): bool {
    match r
    case NameTooShort => name == "" || |Strip(name)| < 2
    case NameNotLetters => !NameMatch(Strip(name))
    case EmailInvalid => email == "" || !EmailMatch(email)
    case PasswordTooShort => password == "" || |password| < 8
    case PasswordNoUpper => !HasUpper(password)
    case PasswordNoLower => !HasLower(password)
    case PasswordNoDigit => !HasDigit(password)
    case PasswordNoSpecial => !HasSpecial(password)
    case PasswordsDiffer => false
  }

  /** When each rule fails, stated without the regular expressions: the name is
      judged after trimming, the address by the shape of `EMAIL_REGEX`. */
  ghost predicate RuleFails(r: Rule, name: string, email: string, password: string) {
    match r
    case NameTooShort => |Strip(name)| < 2
    case NameNotLetters => !LettersAndSpaces(Strip(name))
    case EmailInvalid => !EmailShape(email)
    case PasswordTooShort => |password| < 8
    case PasswordNoUpper => !HasUpper(password)
    case PasswordNoLower => !HasLower(password)
    case PasswordNoDigit => !HasDigit(password)
    case PasswordNoSpecial => !HasSpecial(password)
    case PasswordsDiffer => false
  }

  /** `_validate_registration_input`: every rule is evaluated, and the failed
      ones are reported in the order name, email, password. */
  function RegistrationErrors(name: string, email: string, password: string): (errors: seq<Rule>)
    ensures forall r :: r in errors <==> r in RegistrationRules && RuleFails(r, name, email, password)
    ensures PasswordsDiffer !in errors
    ensures InRuleOrder(errors)
  {
    FailsAsStated(name, email, password);
    RuleListsInOrder();
    Failing(RegistrationRules, r => Fails(r, name, email, password))
  }

  /** The tests as written agree with the rules as stated. */
  lemma FailsAsStated(name: string, email: string, password: string)
    ensures forall r :: Fails(r, name, email, password) == RuleFails(r, name, email, password)
  {
    forall r ensures Fails(r, name, email, password) == RuleFails(r, name, email, password) {
      match r
      case NameTooShort => assert name == "" ==> Strip(name) == "";
      case NameNotLetters =>
        var trimmed := Strip(name);
        assert NameMatch(trimmed) <==> LettersAndSpaces(trimmed);
      case EmailInvalid => assert email == "" ==> !EmailShape(email);
      case _ =>
    }
  }

  /** The password strength rules, shared by all three validators. */
  ghost predicate StrongPassword(password: string) {
    |password| >= 8 && HasUpper(password) && HasLower(password) && HasDigit(password) && HasSpecial(password)
  }

  /** What registration accepts: a trimmed name of two or more letters and
      spaces, an address of the `EMAIL_REGEX` shape, and a strong password. */
  ghost predicate RegistrationAcceptable(name: string, email: string, password: string) {
    |Strip(name)| >= 2 && LettersAndSpaces(Strip(name)) && EmailShape(email) && StrongPassword(password)
  }

  /** Meeting every backend rule is the same as being acceptable. */
  lemma NoRuleFailsIsAcceptable(name: string, email: string, password: string)
    ensures (forall r :: r in RegistrationRules ==> !RuleFails(r, name, email, password))
            <==> RegistrationAcceptable(name, email, password)
  {
    if forall r :: r in RegistrationRules ==> !RuleFails(r, name, email, password) {
      assert !RuleFails(NameTooShort, name, email, password);
      assert !RuleFails(NameNotLetters, name, email, password);
      assert !RuleFails(EmailInvalid, name, email, password);
      assert !RuleFails(PasswordTooShort, name, email, password);
      assert !RuleFails(PasswordNoUpper, name, email, password);
      assert !RuleFails(PasswordNoLower, name, email, password);
      assert !RuleFails(PasswordNoDigit, name, email, password);
      assert !RuleFails(PasswordNoSpecial, name, email, password);
    }
  }

  /** Registration input is accepted exactly when it meets every rule. */
  lemma RegistrationAcceptedIff(name: string, email: string, password: string)
    ensures RegistrationErrors(name, email, password) == [] <==> RegistrationAcceptable(name, email, password)
  {
    var errors := RegistrationErrors(name, email, password);
    NoRuleFailsIsAcceptable(name, email, password);
    if errors != [] {
      assert errors[0] in errors;
    }
  }

  /** An empty or all-whitespace name fails both name rules. */
  lemma BlankNameFailsBothRules(name: string, email: string, password: string)
    requires forall i :: 0 <= i < |name| ==> IsSpace(name[i])
    ensures NameTooShort in RegistrationErrors(name, email, password)
    ensures NameNotLetters in RegistrationErrors(name, email, password)
  {
    assert NameTooShort in RegistrationRules && NameNotLetters in RegistrationRules;
  }

  const LoginRejected := "Invalid credentials."

  /** Result of `_validate_login_input`: a flag and the generic message. */
  datatype LoginCheck = LoginCheck(ok: bool, error: Option<string>)

  /** `_validate_login_input`: only the address shape and a non-empty password
      are checked, and either failure gives the same message. */
  function ValidateLogin(email: string, password: string): (r: LoginCheck)
    ensures r.ok <==> EmailShape(email) && password != []
    ensures r.ok ==> r.error == None
    ensures !r.ok ==> r.error == Some(LoginRejected)
  {
    if email == "" || !EmailMatch(email) then LoginCheck(false, Some(LoginRejected))
    else if password == "" then LoginCheck(false, Some(LoginRejected))
    else LoginCheck(true, None)
  }
}
