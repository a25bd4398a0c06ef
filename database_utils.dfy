/** The two validators of the database helper module (utils/database.py):
    a loose e-mail check and a copy of the registration form's checks. */
module DatabaseUtils {
  import opened Text
  import opened Patterns
  import opened Rules
  import FrontendAuth

  /** `is_valid_email`: `re.match(r"[^@]+@[^@]+\.[^@]+", email)`, which has no
      end anchor, so only a prefix of the address has to fit. */
  function IsValidEmail(email: string): (valid: bool)
    ensures valid <==> LooseEmailShape(email)
  {
    LooseEmailMatch(email)
  }

  /** An address without `@`, or starting with one, is rejected. */
  lemma IsValidEmailNeedsLocalPartAndAt(email: string)
    requires '@' !in email || (email != [] && email[0] == '@')
    ensures !IsValidEmail(email)
  {
    forall at, dot ensures !LooseSplitAt(email, at, dot) {
      if 0 <= at < |email| { assert email[at] in email; }
    }
  }

  /** Every address the strict `EMAIL_REGEX` accepts also passes the loose check. */
  lemma StrictEmailIsValidEmail(email: string)
    requires EmailShape(email)
    ensures IsValidEmail(email)
  {
    var t := if EmailCoreShape(email) then email else email[..|email| - 1];
    var at, dot :| EmailSplitAt(t, at, dot);
    forall i | 0 <= i <= dot + 1 && i != at ensures email[i] != '@' {
      assert email[i] == t[i];
      if i < at { assert IsLocalChar(t[i]); }
      else if i < dot { assert IsDomainChar(t[i]); }
      else if i == dot + 1 { assert IsAsciiLetter(t[i]); }
    }
    assert LooseSplitAt(email, at, dot);
  }

  /** The loose check lets through a space in the local part, which the
      strict pattern refuses. */
  lemma IsValidEmailAllowsSpace()
    ensures IsValidEmail("a b@c.d") && !EmailMatch("a b@c.d")
  {
    var s := "a b@c.d";
    assert LooseSplitAt(s, 3, 5);
    forall at, dot ensures !EmailSplitAt(s, at, dot) {
      if 1 <= at < |s| && s[at] == '@' {
        assert at == 3;
        assert !IsLocalChar(s[1]);
      }
    }
  }

  /** The loose check has no end anchor, so anything may follow a valid
      start, here two more `@`. */
  lemma IsValidEmailAllowsTrailingText()
    ensures IsValidEmail("a@b.c@@") && !EmailMatch("a@b.c@@")
  {
    var s := "a@b.c@@";
    assert LooseSplitAt(s, 1, 3);
    assert !IsAsciiLetter(s[6]);
  }

  /** The message this module gives for each rule. */
  function Message(r: Rule): string {
    match r
    case NameTooShort => "name must be at least 2 char"
    case NameNotLetters => "name must contain only letters and spaces"
    case EmailInvalid => "Invalid email format."
    case PasswordTooShort => "password must be at least 8 char long"
    case PasswordNoUpper => "password must contain at east 2 uppercase letter"
    case PasswordNoLower => "password must contain at least 1 lowercase letter"
    case PasswordNoDigit => "password must contain 1 at least number"
    case PasswordNoSpecial => "password must contain at lest 1 special char"
    case PasswordsDiffer => "password do not match."
  }

  /** The test of each rule as `validate_registration` writes it: the length
      test compares with 0 rather than 8. */
  function Fails(r: Rule, name: string, email: string, password: string, confirm: string): bool {
    match r
    case NameTooShort => name == "" || |name| < 2
    case NameNotLetters => !NameMatch(name)
    case EmailInvalid => !EmailMatch(email)
    case PasswordTooShort => |password| < 0
    case PasswordNoUpper => !HasUpper(password)
    case PasswordNoLower => !HasLower(password)
    case PasswordNoDigit => !HasDigit(password)
    case PasswordNoSpecial => !HasSpecial(password)
    case PasswordsDiffer => password != confirm
  }

  /** The rules `validate_registration` as written reports as broken, in order. */
  function RegistrationErrors(name: string, email: string, password: string, confirm: string): (errors: seq<Rule>)
    ensures forall r :: r in errors <==> r in FormRules && Fails(r, name, email, password, confirm)
    ensures InRuleOrder(errors)
  {
    RuleListsInOrder();
    Failing(FormRules, r => Fails(r, name, email, password, confirm))
  }

  /** `validate_registration` as written: the messages of the failed rules. */
  function ValidateRegistration(name: string, email: string, password: string, confirm: string): (messages: seq<string>)
    ensures |messages| == |RegistrationErrors(name, email, password, confirm)|
    ensures forall i :: 0 <= i < |messages| ==> messages[i] == Message(RegistrationErrors(name, email, password, confirm)[i])
  {
    var errors := RegistrationErrors(name, email, password, confirm);
    seq(|errors|, i requires 0 <= i < |errors| => Message(errors[i]))
  }

  /** A confirmation that differs is reported, and reported last. */
  lemma MismatchReportedLast(name: string, email: string, password: string, confirm: string)
    requires password != confirm
    ensures var messages := ValidateRegistration(name, email, password, confirm);
      messages != [] && messages[|messages| - 1] == "password do not match."
  {
    var errors := RegistrationErrors(name, email, password, confirm);
    assert PasswordsDiffer in FormRules;
    LastRankIsLast(errors);
  }

  /** What this validator accepts: the form's rules without the length rule. */
  ghost predicate Acceptable(name: string, email: string, password: string, confirm: string) {
    && |name| >= 2
    && (LettersAndSpaces(name) || (name[|name| - 1] == '\n' && LettersAndSpaces(name[..|name| - 1])))
    && EmailShape(email)
    && HasUpper(password) && HasLower(password) && HasDigit(password) && HasSpecial(password)
    && password == confirm
  }

  /** The validator reports nothing exactly when its input is acceptable. */
  lemma AcceptedIff(name: string, email: string, password: string, confirm: string)
    ensures ValidateRegistration(name, email, password, confirm) == [] <==> Acceptable(name, email, password, confirm)
  {
    var fails := r => Fails(r, name, email, password, confirm);
    FailingEmptyIff(FormRules, fails);
    if forall r :: r in FormRules ==> !fails(r) {
      assert !fails(NameTooShort) && !fails(NameNotLetters) && !fails(EmailInvalid);
      assert !fails(PasswordNoUpper) && !fails(PasswordNoLower);
      assert !fails(PasswordNoDigit) && !fails(PasswordNoSpecial) && !fails(PasswordsDiffer);
    }
  }

  /** As written, the length message is never produced: a length is never negative. */
  lemma ShortPasswordNeverReported(name: string, email: string, password: string, confirm: string)
    ensures PasswordTooShort !in RegistrationErrors(name, email, password, confirm)
    ensures "password must be at least 8 char long" !in ValidateRegistration(name, email, password, confirm)
  {
    var errors := RegistrationErrors(name, email, password, confirm);
    var messages := ValidateRegistration(name, email, password, confirm);
    forall i | 0 <= i < |messages| ensures messages[i] != "password must be at least 8 char long" {
      assert errors[i] in errors;
      assert errors[i] != PasswordTooShort;
      assert |Message(errors[i])| != |"password must be at least 8 char long"|;
    }
  }

  /** A four-character password that meets every other rule is reported as valid. */
  lemma ShortPasswordAccepted()
    ensures ValidateRegistration("Ann", "a@b.co", "Aa1!", "Aa1!") == []
  {
    var password := "Aa1!";
    assert HasUpper(password) by { assert IsAsciiUpper(password[0]); }
    assert HasLower(password) by { assert IsAsciiLower(password[1]); }
    assert HasDigit(password) by { assert IsAsciiDigit(password[2]); }
    assert HasSpecial(password) by { assert IsSpecialChar(password[3]); }
    assert EmailSplitAt("a@b.co", 1, 3);
    assert LettersAndSpaces("Ann");
    FailingEmptyIff(FormRules, r => Fails(r, "Ann", "a@b.co", password, password));
  }

  /** The length test as evidently intended (at least 8 characters). */
  function IntendedFails(r: Rule, name: string, email: string, password: string, confirm: string): bool {
    if r == PasswordTooShort then |password| < 8 else Fails(r, name, email, password, confirm)
  }

  /** `validate_registration` with the length test as intended. */
  function IntendedRegistrationErrors(name: string, email: string, password: string, confirm: string): (errors: seq<Rule>)
    ensures forall r :: r in errors <==> r in FormRules && IntendedFails(r, name, email, password, confirm)
    ensures InRuleOrder(errors)
  {
    RuleListsInOrder();
    Failing(FormRules, r => IntendedFails(r, name, email, password, confirm))
  }

  /** With the intended length test, this validator finds exactly the failures
      the registration form finds; the two differ only in their messages. */
  lemma IntendedMatchesForm(name: string, email: string, password: string, confirm: string)
    ensures IntendedRegistrationErrors(name, email, password, confirm) == FrontendAuth.FormErrors(name, email, password, confirm)
  {
    var f := r => IntendedFails(r, name, email, password, confirm);
    var g := r => FrontendAuth.Fails(r, name, email, password, confirm);
    assert forall r :: r in FormRules ==> f(r) == g(r);
    FailingRespectsTests(FormRules, f, g);
  }
}
