/** `register_user` and `login_user` (backend/auth.py): the two operations the
    application calls, over the user collection and the attempts table.
    The password hash, its check, the clock and the faults the database or
    the runtime may raise are parameters. */
module AuthService {
  import opened Wrappers
  import opened Text
  import opened Patterns
  import opened Rules
  import opened AuthValidation
  import opened RateLimit
  import opened Users

  /** The class of an exception: pymongo's `PyMongoError`, other than the
      duplicate-key error the collection itself reports, or any other. */
  datatype ErrorClass = PyMongoError | OtherError

  /** Where an exception is raised: before the collection is called (by
      `db()`, or by `bcrypt.hashpw` in `register_user`), or by the collection
      call itself (`insert_one` in `register_user`, `find_one` in `login_user`). */
  datatype Stage = BeforeCall | InCall

  /** The exception an operation meets, if any. */
  datatype Fault = NoFault | Raised(error: ErrorClass, stage: Stage)

  /** What `bcrypt.checkpw` does with a password and a stored hash: it
      answers, or raises on a hash it cannot read. */
  datatype Checked = Match | Mismatch | Malformed

  datatype RegisterResult = RegisterResult(success: bool, message: string, userId: Option<nat>)

  /** A registration's result and the collection after it. */
  datatype RegisterStep = RegisterStep(result: RegisterResult, users: Collection)

  /** The part of the user document `login_user` returns. */
  datatype SafeUser = SafeUser(userId: nat, name: Option<string>, email: Option<string>, role: string, createdAt: Option<real>)

  datatype LoginResult = LoginResult(success: bool, message: string, user: Option<SafeUser>)

  /** A login's result and the attempts table after it. */
  datatype LoginStep = LoginStep(result: LoginResult, ledger: Ledger)

  const Registered := "User registered successfully"
  const AlreadyRegistered := "Email already registered"
  const DatabaseError := "Database error"
  const InternalError := "Internal error"
  const BadCredentials := "Invalid credentials"
  const TooManyAttempts := "Too many failed attempts. Try again later."
  const LoggedIn := "Login successful"

  /** The message of a registration refused by validation: every failure's
      text, joined by "; ". */
  function ValidationFailed(errors: seq<Rule>): (message: string)
    requires PasswordsDiffer !in errors
    ensures |errors| == 1 ==> message == "Validation failed: " + Message(errors[0])
    ensures "Validation failed: " <= message
  {
    "Validation failed: " + Join(Messages(errors), "; ")
  }

  /** One more failure adds "; " and its text to the message, so with the
      single-failure case this fixes the message for every list. */
  lemma ValidationFailedAppend(errors: seq<Rule>, r: Rule)
    requires errors != [] && PasswordsDiffer !in errors && r != PasswordsDiffer
    ensures ValidationFailed(errors + [r]) == ValidationFailed(errors) + "; " + Message(r)
  {
    var texts := Messages(errors);
    var last := Message(r);
    assert Messages(errors + [r]) == texts + [last] by {
      var longer := Messages(errors + [r]);
      forall i | 0 <= i < |longer| ensures longer[i] == (texts + [last])[i] {
        if i < |errors| { assert (errors + [r])[i] == errors[i]; }
      }
    }
    var joined := Join(texts, "; ");
    assert Join(texts + [last], "; ") == joined + "; " + last by {
      JoinAppend(texts, last, "; ");
    }
    assert ValidationFailed(errors) == "Validation failed: " + joined;
    Associative("Validation failed: ", joined + "; ", last);
    Associative("Validation failed: ", joined, "; ");
  }

  /** Removing a key that is absent leaves a map as it was. */
  lemma RemoveAbsent<K, V>(m: map<K, V>, k: K)
    requires k !in m
    ensures m - {k} == m
  {
  }

  lemma Associative(a: string, b: string, c: string)
    ensures a + (b + c) == (a + b) + c
  {
  }

  /** The document `register_user` stores: trimmed name, trimmed and lowered
      address, the hash, the role "user" and the creation time. */
  function NewUserDoc(name: string, email: string, passwordHash: string, now: real): (doc: UserDoc)
    ensures doc.name.Some? && doc.passwordHash == Some(passwordHash)
    ensures doc.role == Some("user") && doc.createdAt == Some(now)
  {
    UserDoc(Some(Strip(name)), Lower(Strip(email)), Some(passwordHash), Some("user"), Some(now))
  }

  /** The stored name and address are already in canonical form: stripping
      or lowering them again changes nothing. */
  lemma NewUserDocCanonical(name: string, email: string, passwordHash: string, now: real)
    ensures var doc := NewUserDoc(name, email, passwordHash, now);
      && Strip(doc.name.value) == doc.name.value
      && Lower(doc.email) == doc.email && Strip(doc.email) == doc.email
  {
    StripIdempotent(name);
    LowerIdempotent(Strip(email));
    StripLowerStripped(email);
  }

  /** `register_user(fullName, email, password)`, with `passwordHash` the
      value `bcrypt.hashpw` gives for `password` and a fresh salt. */
  function Register(c: Collection, name: string, email: string, password: string,
                    passwordHash: string, fault: Fault, now: real): (step: RegisterStep)
    ensures step.result.success <==>
      RegistrationErrors(name, email, password) == [] && fault == NoFault && Lower(Strip(email)) !in c.byEmail
    ensures step.result.success ==>
      && step.result.userId == Some(c.nextId)
      && step.users.byEmail == c.byEmail[Lower(Strip(email)) := StoredUser(c.nextId, NewUserDoc(name, email, passwordHash, now))]
    ensures !step.result.success ==> step.users == c && step.result.userId == None
    ensures RegistrationErrors(name, email, password) != [] ==>
      step.result.message == ValidationFailed(RegistrationErrors(name, email, password))
  {
    var errors := RegistrationErrors(name, email, password);
    if errors != [] then
      RegisterStep(RegisterResult(false, ValidationFailed(errors), None), c)
    else match fault
      case Raised(error, stage) =>
        // only `insert_one` is inside the `PyMongoError` handler
        var message := if error == PyMongoError && stage == InCall then DatabaseError else InternalError;
        RegisterStep(RegisterResult(false, message, None), c)
      case NoFault =>
        var inserted := Insert(c, NewUserDoc(name, email, passwordHash, now));
        if inserted.1.DuplicateKey? then RegisterStep(RegisterResult(false, AlreadyRegistered, None), inserted.0)
        else RegisterStep(RegisterResult(true, Registered, Some(inserted.1.id)), inserted.0)
  }

  /** The rate-limiting key: `identifier or email.lower()`. */
  function LoginKey(email: string, identifier: Option<string>): (key: string)
    ensures identifier.Some? && identifier.value != [] ==> key == identifier.value
    ensures identifier.None? || identifier.value == [] ==> key == Lower(email)
  {
    if identifier.Some? && identifier.value != "" then identifier.value else Lower(email)
  }

  /** The fields of a stored user that a successful login hands back. */
  function Safe(u: StoredUser): (su: SafeUser)
    ensures su.userId == u.id && su.name == u.doc.name && su.email == Some(u.doc.email)
    ensures u.doc.role.Some? ==> su.role == u.doc.role.value
    ensures u.doc.role.None? ==> su.role == "user"
    ensures su.createdAt == u.doc.createdAt
  {
    SafeUser(u.id, u.doc.name, Some(u.doc.email), u.doc.role.GetOr("user"), u.doc.createdAt)
  }

  /** `login_user(email, password, identifier)` at time `now`, against the
      collection `c`, with `check` standing for `bcrypt.checkpw`. */
  function Login(m: Ledger, c: Collection, email: string, password: string, identifier: Option<string>,
                 check: (string, string) -> Checked, fault: Fault, now: real): (step: LoginStep)
    ensures step.result.success ==> step.result.message == LoggedIn && step.result.user.Some?
    ensures !step.result.success ==> step.result.user == None
    ensures step.result.success ==>
      && ValidateLogin(email, password).ok && fault == NoFault
      && Lower(email) in c.byEmail
      && step.result.user == Some(Safe(c.byEmail[Lower(email)]))
      && check(password, c.byEmail[Lower(email)].doc.passwordHash.GetOr("")) == Match
  {
    if !ValidateLogin(email, password).ok then
      LoginStep(LoginResult(false, BadCredentials, None), m)
    else
      var key := LoginKey(email, identifier);
      var cleaned := AfterCleanup(m, key, now);
      if |Attempts(cleaned, key)| >= MaxLoginAttempts then
        LoginStep(LoginResult(false, TooManyAttempts, None), cleaned)
      else match fault
        case Raised(error, _) =>
          // every `PyMongoError`, from `db()` or `find_one`, reaches one handler
          LoginStep(LoginResult(false, if error == PyMongoError then DatabaseError else InternalError, None), cleaned)
        case NoFault =>
          match Find(c, Lower(email))
          case None =>
            LoginStep(LoginResult(false, BadCredentials, None), AfterRecord(cleaned, key, now))
          case Some(u) =>
            if check(password, u.doc.passwordHash.GetOr("")) != Match then
              LoginStep(LoginResult(false, BadCredentials, None), AfterRecord(cleaned, key, now))
            else
              LoginStep(LoginResult(true, LoggedIn, Some(Safe(u))), cleaned - {key})
  }

  // ---------------------------------------------------------------------
  // Registration
  // ---------------------------------------------------------------------

  /** Registration keeps the collection valid: the new document is stored
      under its own address. */
  lemma RegisterKeepsValid(c: Collection, name: string, email: string, password: string,
                           passwordHash: string, fault: Fault, now: real)
    requires Valid(c)
    ensures Valid(Register(c, name, email, password, passwordHash, fault, now).users)
  {
    InsertKeepsValid(c, NewUserDoc(name, email, passwordHash, now));
  }

  /** Which message a registration that passed validation ends with. */
  lemma RegisterOutcomes(c: Collection, name: string, email: string, password: string,
                         passwordHash: string, fault: Fault, now: real)
    requires RegistrationErrors(name, email, password) == []
    ensures var step := Register(c, name, email, password, passwordHash, fault, now);
      var r := step.result;
      && (fault == Raised(PyMongoError, InCall) ==> r.message == DatabaseError)
      && (fault == Raised(OtherError, InCall) ==> r.message == InternalError)
      && (fault.Raised? && fault.stage == BeforeCall ==> r.message == InternalError)
      && (fault.Raised? ==> step.users == c)
      && (fault == NoFault && Lower(Strip(email)) in c.byEmail ==> r.message == AlreadyRegistered)
      && (fault == NoFault && Lower(Strip(email)) !in c.byEmail ==> r.message == Registered)
  {
    var r := Register(c, name, email, password, passwordHash, fault, now).result;
    match fault
    case Raised(_, _) =>
    case NoFault =>
      var doc := NewUserDoc(name, email, passwordHash, now);
      assert doc.email == Lower(Strip(email));
      if doc.email in c.byEmail {
        assert Insert(c, doc).1 == DuplicateKey;
        assert r.message == AlreadyRegistered;
      } else {
        assert Insert(c, doc).1 == Inserted(c.nextId);
        assert r.message == Registered;
      }
  }

  /** Once an address is registered, registering it again, in any letter
      case and with any surrounding whitespace, is refused and changes nothing. */
  lemma SecondRegistrationIsDuplicate(c: Collection, name: string, email: string, password: string,
                                      passwordHash: string, now: real,
                                      name2: string, email2: string, password2: string,
                                      passwordHash2: string, now2: real)
    requires Register(c, name, email, password, passwordHash, NoFault, now).result.success
    requires RegistrationErrors(name2, email2, password2) == []
    requires Lower(Strip(email2)) == Lower(Strip(email))
    ensures var c' := Register(c, name, email, password, passwordHash, NoFault, now).users;
      Register(c', name2, email2, password2, passwordHash2, NoFault, now2)
        == RegisterStep(RegisterResult(false, AlreadyRegistered, None), c')
  {
  }

  // ---------------------------------------------------------------------
  // Login
  // ---------------------------------------------------------------------

  /** Input that fails the login checks is refused before anything else, and
      the attempts table is left as it was. */
  lemma InvalidLoginChangesNothing(m: Ledger, c: Collection, email: string, password: string,
                                   identifier: Option<string>, check: (string, string) -> Checked,
                                   fault: Fault, now: real)
    requires !(EmailShape(email) && password != [])
    ensures Login(m, c, email, password, identifier, check, fault, now)
      == LoginStep(LoginResult(false, BadCredentials, None), m)
  {
  }

  /** A login that passes validation and the rate limit but meets a
      `PyMongoError`, whether from `db()` or from `find_one`, reports
      "Database error", and any other exception "Internal error"; the key is
      only cleaned up and no failure is recorded. */
  lemma LoginFaultOutcomes(m: Ledger, c: Collection, email: string, password: string,
                           identifier: Option<string>, check: (string, string) -> Checked,
                           fault: Fault, now: real)
    requires ValidateLogin(email, password).ok
    requires !Limited(m, LoginKey(email, identifier), now)
    requires fault != NoFault
    ensures Login(m, c, email, password, identifier, check, fault, now)
      == LoginStep(LoginResult(false, if fault.error == PyMongoError then DatabaseError else InternalError, None),
                   AfterCleanup(m, LoginKey(email, identifier), now))
  {
  }

  /** On a valid collection, a successful login hands back the address it
      was looked up with, lowered, and an identifier no other stored account has. */
  lemma LoginReturnsLookedUpAccount(m: Ledger, c: Collection, email: string, password: string,
                                    identifier: Option<string>, check: (string, string) -> Checked,
                                    fault: Fault, now: real)
    requires Valid(c)
    requires Login(m, c, email, password, identifier, check, fault, now).result.success
    ensures var user := Login(m, c, email, password, identifier, check, fault, now).result.user.value;
      && user.email == Some(Lower(email))
      && forall e :: e in c.byEmail && e != Lower(email) ==> c.byEmail[e].id != user.userId
  {
    var u := c.byEmail[Lower(email)];
    assert u.doc.email == Lower(email);
    forall e | e in c.byEmail && e != Lower(email) ensures c.byEmail[e].id != u.id {
    }
  }

  /** A limited key is refused whatever the password, the accounts and the
      faults, even the right password; only the key's cleanup is kept. */
  lemma LimitedLoginIgnoresCredentials(m: Ledger, email: string, identifier: Option<string>, now: real,
                                       c1: Collection, password1: string, check1: (string, string) -> Checked, fault1: Fault,
                                       c2: Collection, password2: string, check2: (string, string) -> Checked, fault2: Fault)
    requires ValidateLogin(email, password1).ok && ValidateLogin(email, password2).ok
    requires Limited(m, LoginKey(email, identifier), now)
    ensures Login(m, c1, email, password1, identifier, check1, fault1, now)
      == Login(m, c2, email, password2, identifier, check2, fault2, now)
    ensures Login(m, c1, email, password1, identifier, check1, fault1, now)
      == LoginStep(LoginResult(false, TooManyAttempts, None), AfterCleanup(m, LoginKey(email, identifier), now))
  {
  }

  /** An unknown address and a known one with a wrong password or an
      unreadable hash give the same answer and the same attempts table, so a
      caller cannot tell which addresses have accounts. */
  lemma NoAccountEnumeration(m: Ledger, email: string, password: string, identifier: Option<string>,
                             check: (string, string) -> Checked, now: real,
                             unknown: Collection, known: Collection)
    requires Lower(email) !in unknown.byEmail
    requires Lower(email) in known.byEmail
    requires check(password, known.byEmail[Lower(email)].doc.passwordHash.GetOr("")) != Match
    ensures Login(m, unknown, email, password, identifier, check, NoFault, now)
      == Login(m, known, email, password, identifier, check, NoFault, now)
  {
    if ValidateLogin(email, password).ok && !Limited(m, LoginKey(email, identifier), now) {
      assert Find(unknown, Lower(email)) == None;
      assert Find(known, Lower(email)) == Some(known.byEmail[Lower(email)]);
      FailedLoginLedger(m, unknown, email, password, identifier, check, now);
      FailedLoginLedger(m, known, email, password, identifier, check, now);
    }
  }

  /** The converse of what `Login` promises on success: valid input on a key
      that is not limited, for a stored account whose hash accepts the
      password, logs in and forgets the key's failures. */
  lemma LoginSucceeds(m: Ledger, c: Collection, email: string, password: string,
                      identifier: Option<string>, check: (string, string) -> Checked, now: real)
    requires ValidateLogin(email, password).ok
    requires !Limited(m, LoginKey(email, identifier), now)
    requires Lower(email) in c.byEmail
    requires check(password, c.byEmail[Lower(email)].doc.passwordHash.GetOr("")) == Match
    ensures var key := LoginKey(email, identifier);
      Login(m, c, email, password, identifier, check, NoFault, now)
        == LoginStep(LoginResult(true, LoggedIn, Some(Safe(c.byEmail[Lower(email)]))), AfterCleanup(m, key, now) - {key})
  {
  }

  /** A refused password or address that gets as far as the lookup adds
      exactly one failure, at `now`, to the key's recent failures, and
      changes no other key. */
  lemma FailedLoginRecordsOnce(m: Ledger, c: Collection, email: string, password: string,
                               identifier: Option<string>, check: (string, string) -> Checked, now: real)
    requires ValidateLogin(email, password).ok
    requires !Limited(m, LoginKey(email, identifier), now)
    requires !Login(m, c, email, password, identifier, check, NoFault, now).result.success
    ensures var step := Login(m, c, email, password, identifier, check, NoFault, now);
      && var key := LoginKey(email, identifier);
      && step.result == LoginResult(false, BadCredentials, None)
      && Attempts(step.ledger, key) == Recent(Attempts(m, key), now - LoginWindowSeconds) + [now]
      && (forall k :: k != key ==> (k in step.ledger <==> k in m))
      && (forall k :: k != key && k in m ==> step.ledger[k] == m[k])
  {
    var key := LoginKey(email, identifier);
    var cleaned := AfterCleanup(m, key, now);
    FailedLoginLedger(m, c, email, password, identifier, check, now);
    RecentIdempotent(Attempts(m, key), now - LoginWindowSeconds);
    assert Attempts(cleaned, key) == Recent(Attempts(m, key), now - LoginWindowSeconds);
  }

  /** The attempts table after a refused lookup or password: the key cleaned
      up, then the failure recorded. */
  lemma FailedLoginLedger(m: Ledger, c: Collection, email: string, password: string,
                          identifier: Option<string>, check: (string, string) -> Checked, now: real)
    requires ValidateLogin(email, password).ok
    requires !Limited(m, LoginKey(email, identifier), now)
    requires !Login(m, c, email, password, identifier, check, NoFault, now).result.success
    ensures var key := LoginKey(email, identifier);
      Login(m, c, email, password, identifier, check, NoFault, now)
        == LoginStep(LoginResult(false, BadCredentials, None), AfterRecord(AfterCleanup(m, key, now), key, now))
  {
    match Find(c, Lower(email))
    case None =>
    case Some(u) =>
  }

  /** A successful login forgets the key's failures and no other key's. */
  lemma SuccessfulLoginClearsKey(m: Ledger, c: Collection, email: string, password: string,
                                 identifier: Option<string>, check: (string, string) -> Checked,
                                 fault: Fault, now: real)
    requires Login(m, c, email, password, identifier, check, fault, now).result.success
    ensures var step := Login(m, c, email, password, identifier, check, fault, now);
      && var key := LoginKey(email, identifier);
      && key !in step.ledger
      && (forall k :: k != key ==> (k in step.ledger <==> k in m))
      && (forall k :: k != key && k in m ==> step.ledger[k] == m[k])
  {
    var key := LoginKey(email, identifier);
    var step := Login(m, c, email, password, identifier, check, fault, now);
    assert step.ledger == AfterCleanup(m, key, now) - {key} by {
      match Find(c, Lower(email))
      case None =>
      case Some(u) =>
    }
    ClearedKeyFrame(m, key, now);
  }

  /** Cleaning a key up and then removing it touches no other key. */
  lemma ClearedKeyFrame(m: Ledger, key: string, now: real)
    ensures var m' := AfterCleanup(m, key, now) - {key};
      && key !in m'
      && (forall k :: k != key ==> (k in m' <==> k in m))
      && (forall k :: k != key && k in m ==> m'[k] == m[k])
  {
  }

  /** After a successful login the key starts again from nothing: the next
      failure leaves exactly one failure on record. */
  lemma FreshCountAfterSuccess(m: Ledger, c: Collection, email: string, password: string,
                               identifier: Option<string>, check: (string, string) -> Checked, now: real,
                               password2: string, check2: (string, string) -> Checked, now2: real)
    requires Login(m, c, email, password, identifier, check, NoFault, now).result.success
    requires ValidateLogin(email, password2).ok
    requires var m1 := Login(m, c, email, password, identifier, check, NoFault, now).ledger;
      !Login(m1, c, email, password2, identifier, check2, NoFault, now2).result.success
    ensures var m1 := Login(m, c, email, password, identifier, check, NoFault, now).ledger;
      Attempts(Login(m1, c, email, password2, identifier, check2, NoFault, now2).ledger, LoginKey(email, identifier)) == [now2]
  {
    var key := LoginKey(email, identifier);
    var m1 := Login(m, c, email, password, identifier, check, NoFault, now).ledger;
    SuccessfulLoginClearsKey(m, c, email, password, identifier, check, NoFault, now);
    assert Attempts(m1, key) == [];
    FailedLoginRecordsOnce(m1, c, email, password2, identifier, check2, now2);
  }

  /** No key ever holds an empty list or more failures than the limit. */
  lemma LoginKeepsBounded(m: Ledger, c: Collection, email: string, password: string,
                          identifier: Option<string>, check: (string, string) -> Checked,
                          fault: Fault, now: real)
    requires Bounded(m)
    ensures Bounded(Login(m, c, email, password, identifier, check, fault, now).ledger)
  {
    var key := LoginKey(email, identifier);
    var cleaned := AfterCleanup(m, key, now);
    var step := Login(m, c, email, password, identifier, check, fault, now);
    CleanupKeepsBounded(m, key, now);
    if ValidateLogin(email, password).ok && !Limited(m, key, now) && fault == NoFault {
      CleanupIdempotent(m, key, now);
      RecordKeepsBounded(cleaned, key, now);
      assert step.ledger in {cleaned - {key}, AfterRecord(cleaned, key, now)} by {
        match Find(c, Lower(email))
        case None =>
        case Some(u) =>
      }
    } else {
      assert step.ledger in {m, cleaned};
    }
  }

  // ---------------------------------------------------------------------
  // Registration followed by login
  // ---------------------------------------------------------------------

  /** An address registration accepts passes the login check, and when it
      has no final newline its registered key is its lowered form. */
  lemma RegisteredEmailKey(name: string, email: string, password: string)
    requires RegistrationErrors(name, email, password) == []
    ensures ValidateLogin(email, password).ok
    ensures EmailCoreShape(Strip(email))
    ensures !(|email| > 0 && email[|email| - 1] == '\n') ==> Lower(Strip(email)) == Lower(email)
  {
    RegistrationAcceptedIff(name, email, password);
    StripMatchedEmail(email);
  }

  /** Registering and then logging in with the same address and password,
      on a key that is not limited, succeeds and hands back the new account. */
  lemma RegisterThenLogin(c: Collection, name: string, email: string, password: string,
                          passwordHash: string, created: real,
                          m: Ledger, identifier: Option<string>, check: (string, string) -> Checked, now: real)
    requires Register(c, name, email, password, passwordHash, NoFault, created).result.success
    requires check(password, passwordHash) == Match
    requires !(|email| > 0 && email[|email| - 1] == '\n')
    requires !Limited(m, LoginKey(email, identifier), now)
    ensures var c' := Register(c, name, email, password, passwordHash, NoFault, created).users;
      var step := Login(m, c', email, password, identifier, check, NoFault, now);
      && step.result.success
      && step.result.user == Some(SafeUser(c.nextId, Some(Strip(name)), Some(Lower(email)), "user", Some(created)))
  {
    var c' := Register(c, name, email, password, passwordHash, NoFault, created).users;
    var u := StoredUser(c.nextId, NewUserDoc(name, email, passwordHash, created));
    assert ValidateLogin(email, password).ok by {
      RegisteredEmailKey(name, email, password);
    }
    assert Lower(email) in c'.byEmail && c'.byEmail[Lower(email)] == u
        && Safe(u) == SafeUser(c.nextId, Some(Strip(name)), Some(Lower(email)), "user", Some(created)) by {
      RegisteredEmailKey(name, email, password);
      RegisteredAccount(c, name, email, password, passwordHash, created);
    }
    assert Login(m, c', email, password, identifier, check, NoFault, now).result == LoginResult(true, LoggedIn, Some(Safe(u))) by {
      LoginSucceeds(m, c', email, password, identifier, check, now);
    }
  }

  /** A successful registration stores the new document under the trimmed,
      lowered address. */
  lemma RegisteredAccount(c: Collection, name: string, email: string, password: string,
                          passwordHash: string, created: real)
    requires Register(c, name, email, password, passwordHash, NoFault, created).result.success
    ensures var c' := Register(c, name, email, password, passwordHash, NoFault, created).users;
      && Lower(Strip(email)) in c'.byEmail
      && c'.byEmail[Lower(Strip(email))] == StoredUser(c.nextId, NewUserDoc(name, email, passwordHash, created))
  {
  }

  /** A key that ends in a newline is never stored by registration. */
  ghost predicate NoKeyEndsInNewline(c: Collection) {
    forall e :: e in c.byEmail ==> e == [] || e[|e| - 1] != '\n'
  }

  /** The key registration stores never ends in a newline. */
  lemma RegisteredKeyHasNoNewline(name: string, email: string, password: string)
    requires RegistrationErrors(name, email, password) == []
    ensures var key := Lower(Strip(email)); key != [] && key[|key| - 1] != '\n'
  {
    assert EmailCoreShape(Strip(email)) by { RegisteredEmailKey(name, email, password); }
    LoweredEmailEndsInLetter(Strip(email));
  }

  lemma RegisterKeepsKeysTrimmed(c: Collection, name: string, email: string, password: string,
                                 passwordHash: string, fault: Fault, now: real)
    requires NoKeyEndsInNewline(c)
    ensures NoKeyEndsInNewline(Register(c, name, email, password, passwordHash, fault, now).users)
  {
    var step := Register(c, name, email, password, passwordHash, fault, now);
    if step.result.success {
      RegisteredKeyHasNoNewline(name, email, password);
      KeysTrimmedAfterPut(c, step.users, Lower(Strip(email)), StoredUser(c.nextId, NewUserDoc(name, email, passwordHash, now)));
    }
  }

  /** Storing under a key without a final newline keeps every key so. */
  lemma KeysTrimmedAfterPut(c: Collection, c': Collection, key: string, u: StoredUser)
    requires NoKeyEndsInNewline(c)
    requires key != [] && key[|key| - 1] != '\n'
    requires c'.byEmail == c.byEmail[key := u]
    ensures NoKeyEndsInNewline(c')
  {
    forall e | e in c'.byEmail ensures e == [] || e[|e| - 1] != '\n' {
      if e != key { assert e in c.byEmail; }
    }
  }

  /** An address with a final newline passes both validators, and
      registration stores it without the newline, but logging in with the same
      text looks up the address with the newline and is refused. */
  lemma NewlineEmailCannotLogIn(c: Collection, m: Ledger, email: string, password: string,
                                identifier: Option<string>, check: (string, string) -> Checked,
                                fault: Fault, now: real)
    requires NoKeyEndsInNewline(c)
    requires |email| > 0 && email[|email| - 1] == '\n'
    ensures !Login(m, c, email, password, identifier, check, fault, now).result.success
  {
    var e := Lower(email);
    assert e[|e| - 1] == '\n';
  }

  // ---------------------------------------------------------------------
  // Lockout
  // ---------------------------------------------------------------------

  /** `k` failures, all at time `t`. */
  function Failures(t: real, k: nat): (ts: seq<real>)
    ensures |ts| == k && forall i :: 0 <= i < k ==> ts[i] == t
  {
    seq(k, _ => t)
  }

  /** One more failed login at the same time as the key's earlier ones adds
      one to them, while fewer than the limit were there. */
  lemma FailureAtSameTime(m: Ledger, c: Collection, email: string, password: string,
                          identifier: Option<string>, check: (string, string) -> Checked, now: real, k: nat)
    requires ValidateLogin(email, password).ok && Lower(email) !in c.byEmail
    requires k < MaxLoginAttempts && Attempts(m, LoginKey(email, identifier)) == Failures(now, k)
    ensures var step := Login(m, c, email, password, identifier, check, NoFault, now);
      && step.result == LoginResult(false, BadCredentials, None)
      && Attempts(step.ledger, LoginKey(email, identifier)) == Failures(now, k + 1)
  {
    var key := LoginKey(email, identifier);
    assert Recent(Failures(now, k), now - LoginWindowSeconds) == Failures(now, k) by {
      RecentKeepsAllRecent(Failures(now, k), now - LoginWindowSeconds);
    }
    FailedLoginRecordsOnce(m, c, email, password, identifier, check, now);
    FailuresSnoc(now, k);
  }

  /** One more failure at the same time extends the run by one. */
  lemma FailuresSnoc(t: real, k: nat)
    ensures Failures(t, k) + [t] == Failures(t, k + 1)
  {
  }

  /** The attempts table after `n` failed logins in the same instant. */
  function AfterFailures(m: Ledger, c: Collection, email: string, password: string,
                         identifier: Option<string>, check: (string, string) -> Checked, now: real, n: nat): Ledger
  {
    if n == 0 then m
    else Login(AfterFailures(m, c, email, password, identifier, check, now, n - 1),
               c, email, password, identifier, check, NoFault, now).ledger
  }

  /** Up to the limit, each failed login in the same instant adds one failure
      to a key that had none. */
  lemma {:induction false} FailuresAccumulate(m: Ledger, c: Collection, email: string, password: string,
                                              identifier: Option<string>, check: (string, string) -> Checked,
                                              now: real, n: nat)
    requires ValidateLogin(email, password).ok
    requires Lower(email) !in c.byEmail && LoginKey(email, identifier) !in m
    requires n <= MaxLoginAttempts
    ensures Attempts(AfterFailures(m, c, email, password, identifier, check, now, n), LoginKey(email, identifier))
      == Failures(now, n)
  {
    if n == 0 {
      assert Attempts(m, LoginKey(email, identifier)) == [];
    } else {
      FailuresAccumulate(m, c, email, password, identifier, check, now, n - 1);
      FailureAtSameTime(AfterFailures(m, c, email, password, identifier, check, now, n - 1),
        c, email, password, identifier, check, now, n - 1);
    }
  }

  /** Five failed logins for an unknown address in the same instant lock the
      key: the sixth attempt is refused whatever its password. */
  lemma FiveFailuresLockOut(m: Ledger, c: Collection, email: string, password: string,
                            identifier: Option<string>, check: (string, string) -> Checked, now: real,
                            nextPassword: string, nextCheck: (string, string) -> Checked)
    requires ValidateLogin(email, password).ok && ValidateLogin(email, nextPassword).ok
    requires Lower(email) !in c.byEmail && LoginKey(email, identifier) !in m
    ensures Login(AfterFailures(m, c, email, password, identifier, check, now, MaxLoginAttempts),
                  c, email, nextPassword, identifier, nextCheck, NoFault, now).result
      == LoginResult(false, TooManyAttempts, None)
  {
    var m5 := AfterFailures(m, c, email, password, identifier, check, now, MaxLoginAttempts);
    FailuresAccumulate(m, c, email, password, identifier, check, now, MaxLoginAttempts);
    RecentKeepsAllRecent(Failures(now, MaxLoginAttempts), now - LoginWindowSeconds);
    LimitedLoginIgnoresCredentials(m5, email, identifier, now,
      c, nextPassword, nextCheck, NoFault, c, nextPassword, nextCheck, NoFault);
  }

  /** Once every failure of the key lies before the window, the right
      password logs in again. */
  lemma LockoutExpires(m: Ledger, c: Collection, email: string, password: string,
                       identifier: Option<string>, check: (string, string) -> Checked, now: real)
    requires ValidateLogin(email, password).ok
    requires forall i :: 0 <= i < |Attempts(m, LoginKey(email, identifier))| ==>
      Attempts(m, LoginKey(email, identifier))[i] < now - LoginWindowSeconds
    requires Lower(email) in c.byEmail
    requires check(password, c.byEmail[Lower(email)].doc.passwordHash.GetOr("")) == Match
    ensures Login(m, c, email, password, identifier, check, NoFault, now).result.success
  {
    ExpiredAttemptsForgotten(m, LoginKey(email, identifier), now);
  }

  /** The two spellings of the address used below: the same account. */
  lemma SampleAddressSpellings()
    ensures Lower("A@b.co") == "a@b.co" == Lower("a@b.co")
    ensures "a@b.co" != "A@b.co"
    ensures EmailShape("a@b.co")
  {
    var upper := Lower("A@b.co");
    assert upper[0] == LowerChar('A') == 'a';
    assert forall i :: 1 <= i < 6 ==> upper[i] == "a@b.co"[i];
    var lower := Lower("a@b.co");
    assert forall i :: 0 <= i < 6 ==> lower[i] == "a@b.co"[i];
    assert "a@b.co"[0] != "A@b.co"[0];
    assert EmailSplitAt("a@b.co", 1, 3);
  }

  /** The login page passes the address as typed as the rate-limiting key,
      so the same account under another letter case is counted apart: a key
      locked for "A@b.co" does not stop a login as "a@b.co". */
  lemma LetterCaseEvadesLockout(now: real)
    ensures Lower("A@b.co") == Lower("a@b.co")
    ensures var m := map["A@b.co" := Failures(now, MaxLoginAttempts)];
      && Limited(m, LoginKey("A@b.co", Some("A@b.co")), now)
      && !Limited(m, LoginKey("a@b.co", Some("a@b.co")), now)
  {
    SampleAddressSpellings();
    var m := map["A@b.co" := Failures(now, MaxLoginAttempts)];
    RecentKeepsAllRecent(Failures(now, MaxLoginAttempts), now - LoginWindowSeconds);
    assert Attempts(m, "a@b.co") == [];
  }

  /** With no identifier, the key is the lowered address, so every spelling
      of an account shares one count: failures as "A@b.co" lock "a@b.co". */
  lemma LoweredKeySharesLockout(m: Ledger, email1: string, email2: string, now: real)
    requires Lower(email1) == Lower(email2)
    ensures Limited(m, LoginKey(email1, None), now) <==> Limited(m, LoginKey(email2, None), now)
    ensures var locked := map["a@b.co" := Failures(now, MaxLoginAttempts)];
      Limited(locked, LoginKey("A@b.co", None), now) && Limited(locked, LoginKey("a@b.co", None), now)
  {
    SampleAddressSpellings();
    RecentKeepsAllRecent(Failures(now, MaxLoginAttempts), now - LoginWindowSeconds);
  }

  // ---------------------------------------------------------------------
  // The operations on the live state
  // ---------------------------------------------------------------------

  /** `register_user` on the live collection. */
  method RegisterUser(store: UserStore, name: string, email: string, password: string,
                      passwordHash: string, fault: Fault, now: real) returns (r: RegisterResult)
    modifies store
    ensures RegisterStep(r, store.Contents()) == Register(old(store.Contents()), name, email, password, passwordHash, fault, now)
  {
    var errors := RegistrationErrors(name, email, password);
    if errors != [] {
      return RegisterResult(false, ValidationFailed(errors), None);
    }
    match fault {
      case Raised(error, stage) =>
        r := RegisterResult(false, if error == PyMongoError && stage == InCall then DatabaseError else InternalError, None);
      case NoFault =>
        var doc := NewUserDoc(name, email, passwordHash, now);
        var outcome := store.InsertOne(doc);
        if outcome.DuplicateKey? {
          r := RegisterResult(false, AlreadyRegistered, None);
        } else {
          r := RegisterResult(true, Registered, Some(outcome.id));
        }
    }
  }

  /** `login_user` on the live attempts table and collection. */
  method LoginUser(limiter: RateLimiter, store: UserStore, email: string, password: string,
                   identifier: Option<string>, check: (string, string) -> Checked,
                   fault: Fault, now: real) returns (r: LoginResult)
    modifies limiter
    ensures LoginStep(r, limiter.attempts)
      == Login(old(limiter.attempts), store.Contents(), email, password, identifier, check, fault, now)
  {
    ghost var spec := Login(limiter.attempts, store.Contents(), email, password, identifier, check, fault, now);
    var valid := ValidateLogin(email, password);
    if !valid.ok {
      assert spec == LoginStep(LoginResult(false, BadCredentials, None), limiter.attempts);
      return LoginResult(false, BadCredentials, None);
    }
    var key := LoginKey(email, identifier);
    var limited := limiter.IsRateLimited(key, now);
    ghost var cleaned := limiter.attempts;
    if limited {
      assert spec == LoginStep(LoginResult(false, TooManyAttempts, None), cleaned);
      return LoginResult(false, TooManyAttempts, None);
    }
    match fault {
      case Raised(error, _) =>
        var message := if error == PyMongoError then DatabaseError else InternalError;
        assert spec == LoginStep(LoginResult(false, message, None), cleaned);
        return LoginResult(false, message, None);
      case NoFault =>
    }
    var found := store.FindOne(Lower(email));
    match found {
      case None =>
        assert spec == LoginStep(LoginResult(false, BadCredentials, None), AfterRecord(cleaned, key, now));
        limiter.RecordFailedAttempt(key, now);
        r := LoginResult(false, BadCredentials, None);
      case Some(u) =>
        var matches := check(password, u.doc.passwordHash.GetOr(""));
        if matches != Match {
          assert spec == LoginStep(LoginResult(false, BadCredentials, None), AfterRecord(cleaned, key, now));
          limiter.RecordFailedAttempt(key, now);
          r := LoginResult(false, BadCredentials, None);
        } else {
          assert spec == LoginStep(LoginResult(true, LoggedIn, Some(Safe(u))), cleaned - {key});
          if key in limiter.attempts {
            limiter.attempts := limiter.attempts - {key};
          } else {
            RemoveAbsent(cleaned, key);
          }
          r := LoginResult(true, LoggedIn, Some(Safe(u)));
        }
    }
  }
}
