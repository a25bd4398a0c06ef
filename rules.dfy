/** The rules the three registration validators check. Each validator tests
    every one of its rules, without stopping at the first failure, and reports
    the message of each failed rule in the order the rules are written; a
    validator's result is therefore the list of its failed rules, and each
    validator's own module gives the message text of each rule. */
module Rules {

  datatype Rule =
    | NameTooShort | NameNotLetters | EmailInvalid | PasswordTooShort
    | PasswordNoUpper | PasswordNoLower | PasswordNoDigit | PasswordNoSpecial
    | PasswordsDiffer
  {
    /** Position of the rule in every validator that checks it. */
    function Rank(): nat {
      match this
      case NameTooShort => 0
      case NameNotLetters => 1
      case EmailInvalid => 2
      case PasswordTooShort => 3
      case PasswordNoUpper => 4
      case PasswordNoLower => 5
      case PasswordNoDigit => 6
      case PasswordNoSpecial => 7
      case PasswordsDiffer => 8
    }
  }

  /** The rules of the backend validator, in the order it checks them. */
  const RegistrationRules: seq<Rule> :=
    [NameTooShort, NameNotLetters, EmailInvalid, PasswordTooShort,
     PasswordNoUpper, PasswordNoLower, PasswordNoDigit, PasswordNoSpecial]

  /** The rules of the two form validators, which add the confirmation check last. */
  const FormRules: seq<Rule> := RegistrationRules + [PasswordsDiffer]

  /** Each rule appears at most once, in rank order. */
  ghost predicate InRuleOrder(errors: seq<Rule>) {
    forall i :: 0 <= i < |errors| - 1 ==> errors[i].Rank() < errors[i + 1].Rank()
  }

  lemma RuleListsInOrder()
    ensures InRuleOrder(RegistrationRules) && InRuleOrder(FormRules)
  {
  }

  /** The failed rules, in the order of `rules`: the list built by checking
      each rule in turn and appending the ones that fail. */
  function Failing(rules: seq<Rule>, fails: Rule -> bool): (errors: seq<Rule>)
    ensures forall e :: e in errors <==> e in rules && fails(e)
    ensures InRuleOrder(rules) ==> InRuleOrder(errors)
  {
    if rules == [] then []
    else
      var rest := Failing(rules[1..], fails);
      assert InRuleOrder(rules) ==> forall e :: e in rules[1..] ==> rules[0].Rank() < e.Rank() by {
        if InRuleOrder(rules) { InOrderRanksGrow(rules); }
      }
      if fails(rules[0]) then [rules[0]] + rest else rest
  }

  /** Nothing fails exactly when no rule of the list fails its test. */
  lemma {:induction false} FailingEmptyIff(rules: seq<Rule>, fails: Rule -> bool)
    ensures Failing(rules, fails) == [] <==> forall r :: r in rules ==> !fails(r)
  {
    if rules != [] {
      FailingEmptyIff(rules[1..], fails);
      assert rules[0] in rules;
      assert forall r :: r in rules[1..] ==> r in rules;
      assert forall r :: r in rules ==> r == rules[0] || r in rules[1..];
    }
  }

  /** Filtering with two tests that agree on every rule of the list gives the same failures. */
  lemma {:induction false} FailingRespectsTests(rules: seq<Rule>, f: Rule -> bool, g: Rule -> bool)
    requires forall r :: r in rules ==> f(r) == g(r)
    ensures Failing(rules, f) == Failing(rules, g)
  {
    if rules != [] {
      FailingRespectsTests(rules[1..], f, g);
      assert rules[0] in rules;
    }
  }

  /** In a list in rule order, every later rule has a higher rank than the first. */
  lemma {:induction false} InOrderRanksGrow(rules: seq<Rule>)
    requires InRuleOrder(rules) && rules != []
    ensures forall e :: e in rules[1..] ==> rules[0].Rank() < e.Rank()
  {
    if |rules| > 1 {
      InOrderRanksGrow(rules[1..]);
      forall e | e in rules[1..] ensures rules[0].Rank() < e.Rank() {
        if e != rules[1] { assert e in rules[1..][1..]; }
      }
    }
  }

  /** In a list in rule order, a rule of the highest rank can only be last. */
  lemma LastRankIsLast(errors: seq<Rule>)
    requires InRuleOrder(errors) && PasswordsDiffer in errors
    ensures errors[|errors| - 1] == PasswordsDiffer
  {
    var i :| 0 <= i < |errors| && errors[i] == PasswordsDiffer;
    assert i < |errors| - 1 ==> errors[i].Rank() < errors[i + 1].Rank();
  }
}
