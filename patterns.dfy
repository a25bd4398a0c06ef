/** The regular expressions of the authentication code, written as character
    classes over `seq<char>`. Each full-match pattern is given twice: a scanner
    that decides it, and a ghost predicate that states where the pieces of the
    pattern sit; the scanner's contract says the two agree. */
module Patterns {
  import opened Text

  /** `[A-Za-z ]` */
  predicate IsNameChar(c: char) { IsAsciiLetter(c) || c == ' ' }

  /** `[a-zA-Z0-9._%+-]`, the local part of `EMAIL_REGEX`. */
  predicate IsLocalChar(c: char) {
    IsAsciiLetter(c) || IsAsciiDigit(c) || c == '.' || c == '_' || c == '%' || c == '+' || c == '-'
  }

  /** `[a-zA-Z0-9.-]`, the domain part of `EMAIL_REGEX`. */
  predicate IsDomainChar(c: char) {
    IsAsciiLetter(c) || IsAsciiDigit(c) || c == '.' || c == '-'
  }

  /** `[!@#$%^&*(),.?":{}|<>]`, the special characters a password needs one of. */
  predicate IsSpecialChar(c: char) {
    || c == '!' || c == '@' || c == '#' || c == '$' || c == '%' || c == '^' || c == '&'
    || c == '*' || c == '(' || c == ')' || c == ',' || c == '.' || c == '?' || c == '"'
    || c == ':' || c == '{' || c == '}' || c == '|' || c == '<' || c == '>'
  }

  /** No character of any of the classes above is whitespace. */
  lemma ClassesHaveNoSpace(c: char)
    ensures IsLocalChar(c) ==> !IsSpace(c)
    ensures IsDomainChar(c) ==> !IsSpace(c)
  {
  }

  /** The subject left for the rest of a pattern ending in Python's `$`, which
      matches at the end of the string or just before one final newline. */
  function DropFinalNewline(s: string): (t: string)
    ensures |s| > 0 && s[|s| - 1] == '\n' ==> s == t + "\n"
    ensures !(|s| > 0 && s[|s| - 1] == '\n') ==> t == s
  {
    if |s| > 0 && s[|s| - 1] == '\n' then s[..|s| - 1] else s
  }

  // ---------------------------------------------------------------------
  // ^[A-Za-z ]+$
  // ---------------------------------------------------------------------

  ghost predicate LettersAndSpaces(t: string) {
    t != [] && forall i :: 0 <= i < |t| ==> IsNameChar(t[i])
  }

  /** `re.match(r"^[A-Za-z ]+$", s)` */
  function NameMatch(s: string): (r: bool)
    ensures r <==> LettersAndSpaces(s) || (|s| > 0 && s[|s| - 1] == '\n' && LettersAndSpaces(s[..|s| - 1]))
  {
    var t := DropFinalNewline(s);
    t != [] && forall i :: 0 <= i < |t| ==> IsNameChar(t[i])
  }

  // ---------------------------------------------------------------------
  // EMAIL_REGEX = ^[a-zA-Z0-9._%+-]+@[a-zA-Z0-9.-]+\.[a-zA-Z]{2,}$
  // ---------------------------------------------------------------------

  /** `t` is a whole match of the pattern with `@` at index `at` and the dot
      before the top-level label at index `dot`. */
  ghost predicate EmailSplitAt(t: string, at: int, dot: int) {
    && 1 <= at && at + 2 <= dot && dot + 3 <= |t|
    && t[at] == '@' && t[dot] == '.'
    && (forall i :: 0 <= i < at ==> IsLocalChar(t[i]))
    && (forall i :: at < i < dot ==> IsDomainChar(t[i]))
    && (forall i :: dot < i < |t| ==> IsAsciiLetter(t[i]))
  }

  ghost predicate EmailCoreShape(t: string) {
    exists at, dot :: EmailSplitAt(t, at, dot)
  }

  /** What `EMAIL_REGEX.match(s)` accepts, `$` included. */
  ghost predicate EmailShape(s: string) {
    EmailCoreShape(s) || (|s| > 0 && s[|s| - 1] == '\n' && EmailCoreShape(s[..|s| - 1]))
  }

  /** Scanner for the pattern without its `$`: the `@` must be the first one,
      and the separating dot the last one. */
  function EmailCoreMatch(t: string): (r: bool)
    ensures r <==> EmailCoreShape(t)
  {
    var at := IndexOf(t, '@');
    var dot := LastIndexOf(t, '.');
    var r := && 1 <= at && at + 2 <= dot && dot + 3 <= |t|
             && (forall i :: 0 <= i < at ==> IsLocalChar(t[i]))
             && (forall i :: at < i < dot ==> IsDomainChar(t[i]))
             && (forall i :: dot < i < |t| ==> IsAsciiLetter(t[i]));
    assert r ==> EmailSplitAt(t, at, dot);
    assert EmailCoreShape(t) ==> r by {
      if EmailCoreShape(t) {
        var at0, dot0 :| EmailSplitAt(t, at0, dot0);
        EmailSplitIsUnique(t, at0, dot0);
      }
    }
    r
  }

  /** A whole match fixes where its `@` and its separating dot are. */
  lemma EmailSplitIsUnique(t: string, at: int, dot: int)
    requires EmailSplitAt(t, at, dot)
    ensures IndexOf(t, '@') == at && LastIndexOf(t, '.') == dot
  {
    assert forall i :: 0 <= i < at ==> t[i] != '@' by {
      forall i | 0 <= i < at ensures t[i] != '@' { assert IsLocalChar(t[i]); }
    }
    assert forall i :: dot < i < |t| ==> t[i] != '.' by {
      forall i | dot < i < |t| ensures t[i] != '.' { assert IsAsciiLetter(t[i]); }
    }
  }

  /** A whole match of the pattern contains no whitespace (newline included). */
  lemma EmailCoreHasNoSpace(t: string)
    requires EmailCoreShape(t)
    ensures forall i :: 0 <= i < |t| ==> !IsSpace(t[i])
  {
    var at, dot :| EmailSplitAt(t, at, dot);
    forall i | 0 <= i < |t| ensures !IsSpace(t[i]) {
      if i < at { ClassesHaveNoSpace(t[i]); }
      else if at < i < dot { ClassesHaveNoSpace(t[i]); }
    }
  }

  /** `EMAIL_REGEX.match(s)`. */
  function EmailMatch(s: string): (r: bool)
    ensures r <==> EmailShape(s)
  {
    var r := EmailCoreMatch(DropFinalNewline(s));
    assert EmailCoreShape(s) ==> r by {
      if EmailCoreShape(s) {
        EmailCoreHasNoSpace(s);
        if |s| > 0 { assert !IsSpace(s[|s| - 1]); }
      }
    }
    r
  }

  /** The empty string and a string without `@` never match `EMAIL_REGEX`. */
  lemma EmailNeedsAt(s: string)
    requires '@' !in s
    ensures !EmailMatch(s)
  {
    assert forall i :: 0 <= i < |s| ==> s[i] != '@';
    assert !EmailCoreShape(s);
    if |s| > 0 {
      assert !EmailCoreShape(s[..|s| - 1]);
    }
  }

  /** An address `EMAIL_REGEX` accepts is its own `strip()` unless it ends in
      the newline that `$` lets through, which `strip()` then removes. */
  lemma StripMatchedEmail(s: string)
    requires EmailShape(s)
    ensures Strip(s) == DropFinalNewline(s)
    ensures EmailCoreShape(Strip(s))
  {
    if EmailCoreShape(s) {
      StripCoreEmail(s);
    } else {
      var t := s[..|s| - 1];
      assert s == t + "\n";
      StripCoreEmailNewline(t);
    }
  }

  lemma StripCoreEmail(t: string)
    requires EmailCoreShape(t)
    ensures Strip(t) == t == DropFinalNewline(t)
  {
    EmailCoreEndsAreNotSpace(t);
    StripTrimmed(t);
  }

  /** A whole match starts with a local-part character and ends with a letter. */
  lemma EmailCoreEndsAreNotSpace(t: string)
    requires EmailCoreShape(t)
    ensures t != [] && !IsSpace(t[0]) && IsAsciiLetter(t[|t| - 1]) && !IsSpace(t[|t| - 1])
  {
    var at, dot :| EmailSplitAt(t, at, dot);
    assert IsLocalChar(t[0]);
    ClassesHaveNoSpace(t[0]);
    assert IsAsciiLetter(t[|t| - 1]);
  }

  /** A whole match, lowered, still ends in a letter, so never in a newline. */
  lemma LoweredEmailEndsInLetter(t: string)
    requires EmailCoreShape(t)
    ensures Lower(t) != [] && IsAsciiLower(Lower(t)[|t| - 1])
  {
    EmailCoreEndsAreNotSpace(t);
    var l := Lower(t);
    if !IsAsciiUpper(t[|t| - 1]) { assert l[|t| - 1] == t[|t| - 1]; }
  }

  lemma StripCoreEmailNewline(t: string)
    requires EmailCoreShape(t)
    ensures Strip(t + "\n") == t == DropFinalNewline(t + "\n")
  {
    EmailCoreEndsAreNotSpace(t);
    StripFinalNewline(t);
    assert (t + "\n")[..|t|] == t;
  }

  // ---------------------------------------------------------------------
  // utils/database.py: re.match(r"[^@]+@[^@]+\.[^@]+", email), no end anchor
  // ---------------------------------------------------------------------

  /** A prefix of `s` matches the pattern with `@` at `at` and the dot at `dot`
      (one character after the dot is all the last `[^@]+` needs). */
  ghost predicate LooseSplitAt(s: string, at: int, dot: int) {
    && 1 <= at && at + 2 <= dot && dot + 2 <= |s|
    && s[at] == '@' && s[dot] == '.'
    && (forall i :: 0 <= i <= dot + 1 && i != at ==> s[i] != '@')
  }

  ghost predicate LooseEmailShape(s: string) {
    exists at, dot :: LooseSplitAt(s, at, dot)
  }

  /** Scanner: at least one character before the first `@`, then, in the
      `@`-free run after it, a dot with a character on each side. */
  function LooseEmailMatch(s: string): (r: bool)
    ensures r <==> LooseEmailShape(s)
  {
    var at := IndexOf(s, '@');
    if at == 0 || at == |s| then
      assert !LooseEmailShape(s);
      false
    else
      var rest := s[at + 1..];
      var end := IndexOf(rest, '@');
      var r := exists p :: 1 <= p && p + 1 < end && rest[p] == '.';
      assert r ==> LooseEmailShape(s) by {
        if r {
          var p :| 1 <= p && p + 1 < end && rest[p] == '.';
          assert LooseSplitAt(s, at, at + 1 + p);
        }
      }
      assert LooseEmailShape(s) ==> r by {
        if LooseEmailShape(s) {
          var at0, dot0 :| LooseSplitAt(s, at0, dot0);
          assert s[at0] == '@';
          assert at0 == at;
          var p := dot0 - at - 1;
          assert rest[p] == '.';
          assert forall i :: 0 <= i <= p + 1 ==> rest[i] == s[at + 1 + i] != '@';
        }
      }
      r
  }

  // ---------------------------------------------------------------------
  // re.search over the password: one character of a class anywhere
  // ---------------------------------------------------------------------

  /** `re.search(r"[A-Z]", s)` */
  predicate HasUpper(s: string) { exists i :: 0 <= i < |s| && IsAsciiUpper(s[i]) }
  /** `re.search(r"[a-z]", s)` */
  predicate HasLower(s: string) { exists i :: 0 <= i < |s| && IsAsciiLower(s[i]) }
  /** `re.search(r"[0-9]", s)` */
  predicate HasDigit(s: string) { exists i :: 0 <= i < |s| && IsAsciiDigit(s[i]) }
  /** `re.search(r"[!@#$%^&*(),.?\":{}|<>]", s)` */
  predicate HasSpecial(s: string) { exists i :: 0 <= i < |s| && IsSpecialChar(s[i]) }
}
