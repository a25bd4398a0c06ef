/** The registration form's own checks (frontend/auth.py), run before the
    backend is called. */
module FrontendAuth {
  import opened Text
  import opened Patterns
  import opened Rules
  import AuthValidation

  /** The message the form shows for each rule. */
  function Message(r: Rule): string {
    match r
    case NameTooShort => "Name must be at least 2 characters long."
    case NameNotLetters => "Name must contain only letters and spaces."
    case EmailInvalid => "Invalid email format."
    case PasswordTooShort => "Password must be at least 8 characters long."
    case PasswordNoUpper => "Password must contain at least one uppercase letter."
    case PasswordNoLower => "Password must contain at least one lowercase letter."
    case PasswordNoDigit => "Password must contain at least one number."
    case PasswordNoSpecial => "Password must contain at least one special character."
    case PasswordsDiffer => "Passwords do not match."
  }

  /** The test of each rule as the form writes it: the name is not trimmed. */
  function Fails(r: Rule, name: string, email: string, password: string, confirm: string): bool {
    match r
    case NameTooShort => name == "" || |name| < 2
    case NameNotLetters => !NameMatch(name)
    case EmailInvalid => !EmailMatch(email)
    case PasswordTooShort => |password| < 8
    case PasswordNoUpper => !HasUpper(password)
    case PasswordNoLower => !HasLower(password)
    case PasswordNoDigit => !HasDigit(password)
    case PasswordNoSpecial => !HasSpecial(password)
    case PasswordsDiffer => password != confirm
  }

  /** The rules the form's input breaks, in the order the form checks them. */
  function FormErrors(name: string, email: string, password: string, confirm: string): (errors: seq<Rule>)
    ensures forall r :: r in errors <==> r in FormRules && Fails(r, name, email, password, confirm)
    ensures InRuleOrder(errors)
  {
    RuleListsInOrder();
    Failing(FormRules, r => Fails(r, name, email, password, confirm))
  }

  /** `validate_registration`: the messages of every failed rule, in order. */
  function ValidateRegistration(name: string, email: string, password: string, confirm: string): (messages: seq<string>)
    ensures |messages| == |FormErrors(name, email, password, confirm)|
    ensures forall i :: 0 <= i < |messages| ==> messages[i] == Message(FormErrors(name, email, password, confirm)[i])
  {
    var errors := FormErrors(name, email, password, confirm);
    seq(|errors|, i requires 0 <= i < |errors| => Message(errors[i]))
  }

  /** What the form accepts: the untrimmed name is two or more letters and
      spaces (a final newline aside), the address has the `EMAIL_REGEX`
      shape, the password is strong and the confirmation repeats it. */
  ghost predicate FormAcceptable(name: string, email: string, password: string, confirm: string) {
    && |name| >= 2
    && (LettersAndSpaces(name) || (name[|name| - 1] == '\n' && LettersAndSpaces(name[..|name| - 1])))
    && EmailShape(email)
    && AuthValidation.StrongPassword(password)
    && password == confirm
  }

  /** The form reports nothing exactly when its input is acceptable. */
  lemma FormAcceptedIff(name: string, email: string, password: string, confirm: string)
    ensures ValidateRegistration(name, email, password, confirm) == [] <==> FormAcceptable(name, email, password, confirm)
  {
    var errors := FormErrors(name, email, password, confirm);
    if errors == [] {
      assert !Fails(NameTooShort, name, email, password, confirm) by { assert NameTooShort in FormRules; }
      assert !Fails(NameNotLetters, name, email, password, confirm) by { assert NameNotLetters in FormRules; }
      assert !Fails(EmailInvalid, name, email, password, confirm) by { assert EmailInvalid in FormRules; }
      assert !Fails(PasswordTooShort, name, email, password, confirm) by { assert PasswordTooShort in FormRules; }
      assert !Fails(PasswordNoUpper, name, email, password, confirm) by { assert PasswordNoUpper in FormRules; }
      assert !Fails(PasswordNoLower, name, email, password, confirm) by { assert PasswordNoLower in FormRules; }
      assert !Fails(PasswordNoDigit, name, email, password, confirm) by { assert PasswordNoDigit in FormRules; }
      assert !Fails(PasswordNoSpecial, name, email, password, confirm) by { assert PasswordNoSpecial in FormRules; }
      assert !Fails(PasswordsDiffer, name, email, password, confirm) by { assert PasswordsDiffer in FormRules; }
    } else {
      assert errors[0] in errors;
    }
  }

  /** A confirmation that differs is reported, and reported last. */
  lemma MismatchReportedLast(name: string, email: string, password: string, confirm: string)
    requires password != confirm
    ensures var messages := ValidateRegistration(name, email, password, confirm);
      messages != [] && messages[|messages| - 1] == "Passwords do not match."
  {
    var errors := FormErrors(name, email, password, confirm);
    assert PasswordsDiffer in FormRules;
    LastRankIsLast(errors);
  }

  /** The form and the backend judge the address and the password alike,
      whatever names they are given. */
  lemma SameEmailAndPasswordRules(r: Rule, name: string, backendName: string, email: string, password: string, confirm: string)
    requires r in {EmailInvalid, PasswordTooShort, PasswordNoUpper, PasswordNoLower, PasswordNoDigit, PasswordNoSpecial}
    ensures r in FormErrors(name, email, password, confirm) <==> r in AuthValidation.RegistrationErrors(backendName, email, password)
  {
    assert r in FormRules && r in RegistrationRules;
  }

  /** A name of two or more blanks passes both of the form's name rules, but
      the backend trims it to nothing and fails it on both. */
  lemma BlankNameOnlyBackendRejects(name: string, email: string, password: string, confirm: string)
    requires |name| >= 2 && forall i :: 0 <= i < |name| ==> name[i] == ' '
    ensures NameTooShort !in FormErrors(name, email, password, confirm)
    ensures NameNotLetters !in FormErrors(name, email, password, confirm)
    ensures NameTooShort in AuthValidation.RegistrationErrors(name, email, password)
    ensures NameNotLetters in AuthValidation.RegistrationErrors(name, email, password)
  {
    assert LettersAndSpaces(name);
    AuthValidation.BlankNameFailsBothRules(name, email, password);
  }

  /** For a name that does not start or end with whitespace, the form accepts
      the input only if the backend's validator accepts it too. */
  lemma FormAcceptedBackendAccepts(name: string, email: string, password: string, confirm: string)
    requires name != [] ==> !IsSpace(name[0]) && !IsSpace(name[|name| - 1])
    requires ValidateRegistration(name, email, password, confirm) == []
    ensures AuthValidation.RegistrationErrors(name, email, password) == []
  {
    FormAcceptedIff(name, email, password, confirm);
    StripTrimmed(name);
    assert name[|name| - 1] != '\n';
    AuthValidation.RegistrationAcceptedIff(name, email, password);
  }
}
