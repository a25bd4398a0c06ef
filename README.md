# Authentication core of intelli-book-summarizer, in Dafny

This project models the authentication core of the book-summarizer web
application:

- the three registration validators, in the backend, the registration form
  and the database helpers, and the login validator;
- the regular expressions they use, as character-class predicates;
- the login rate limiter, a process-wide table from a login key to the times
  of its recent failed attempts;
- `register_user` and `login_user`, which validate, hash or check the
  password, consult the user collection and the rate limiter, and return
  a result with a message;
- the session helpers `is_logged_in`, `get_current_user` and `logout`.

Layout, one module per file:

| file | module | models |
|---|---|---|
| `wrappers.dfy` | `Wrappers` | `Option`, standing in for `None` |
| `text.dfy` | `Text` | `str.isspace`, `strip`, `lower` (ASCII), `join` |
| `patterns.dfy` | `Patterns` | the name pattern, `EMAIL_REGEX`, the loose pattern in `utils/database.py`, and the four password character tests |
| `rules.dfy` | `Rules` | the validation rules shared by the three validators and their fixed order |
| `auth_validation.dfy` | `AuthValidation` | `_validate_registration_input`, `_validate_login_input` |
| `frontend_auth.dfy` | `FrontendAuth` | `validate_registration` of the registration form |
| `database_utils.dfy` | `DatabaseUtils` | `is_valid_email`, `validate_registration` of the database helpers |
| `rate_limit.dfy` | `RateLimit` | `_cleanup_attempts`, `_record_failed_attempt`, `_is_rate_limited`, and the table as class `RateLimiter` |
| `users.dfy` | `Users` | the `users` collection with its unique email index, as class `UserStore` |
| `auth_service.dfy` | `AuthService` | `register_user`, `login_user` |
| `session.dfy` | `Session` | the session helpers, as class `SessionState` |

Each validator is a pure function. It returns the failed rules in the order
they are checked, and a message function turns them into text.
`Rules.Failing` builds the list and proves two things once, for all three
validators:

- a rule is listed exactly when it fails;
- the list keeps the rules' order.

Each regular expression is modelled twice:

- a scanner function that computes the answer;
- a ghost predicate that describes the strings the pattern accepts.

The scanner's contract proves that the two agree. Python's `$` also matches
before one final newline, and this is modelled.

The rate limiter and the user collection are classes, because the source
mutates them in place. Each method is proved equal to a specification
function over the old state: `AfterCleanup`, `AfterRecord`, `Insert`.
`register_user` and `login_user` work the same way:

- the functions `Register` and `Login` return the result together with the
  new collection or attempts table;
- the methods `RegisterUser` and `LoginUser` run the steps on the live
  objects and are proved to produce what those functions produce.

These parts of the source are parameters of the model:

- the password hash that `bcrypt.hashpw` returns;
- `bcrypt.checkpw`, as a function that answers `Match`, `Mismatch` or
  `Malformed` (it raised an exception);
- the clock, as `now`;
- the exception the database or the runtime may raise, as `fault`: its
  class (`PyMongoError` or another) and whether it is raised before the
  collection call (`db()`, or hashing in `register_user`) or by the call
  itself (`insert_one`, `find_one`).

Two behaviours of the source that the model proves:

- A registered address that ends in a newline passes `EMAIL_REGEX`.
  Registration stores it stripped. Login looks it up with the newline, so
  that account cannot log in with the text it registered with
  (`AuthService.NewlineEmailCannotLogIn`).
- A registration that fails on the store is not always reported as
  "Database error". In `register_user`, only an exception from `insert_one`
  reaches the `PyMongoError` handler (backend/auth.py:126-135). An exception
  from `db()` or from hashing (backend/auth.py:110-116), a `PyMongoError`
  included, reaches the outer handler and is reported as "Internal error"
  (backend/auth.py:137-139), and the collection is unchanged
  (`AuthService.RegisterOutcomes`). `login_user` instead reports every
  `PyMongoError`, from `db()` or from `find_one`, as "Database error"
  (backend/auth.py:191-193, `AuthService.LoginFaultOutcomes`).

## Model

| member | source | states |
|---|---|---|
| `Text.Strip` | backend/auth.py:46-48 | `strip()` removes exactly the leading and trailing `isspace` characters. The result is empty iff the input is all whitespace. Neither end of the result is whitespace. The result is the input's middle, in order, and everything dropped after it is whitespace. |
| `Text.StripIdempotent` | backend/auth.py:119-120 | Stripping twice is the same as stripping once. |
| `Text.Lower` | backend/auth.py:120 | `lower()` keeps the length. It maps each ASCII upper-case letter to its lower-case letter (code point plus 32) and changes no other character. |
| `Text.LowerChar` | backend/auth.py:120 | One character: an ASCII upper-case letter becomes its lower-case letter; any other character is kept. |
| `Text.StripLowerStripped` | backend/auth.py:120 | Lowering a stripped address leaves it stripped. |
| `Text.Join` | backend/auth.py:108 | `"; ".join`: no parts give the empty string, one part gives that part, and the first part always starts the result. |
| `Text.JoinAppend` | backend/auth.py:108 | Joining one more part appends the separator and that part. |
| `Patterns.NameMatch` | backend/auth.py:48 | `^[A-Za-z ]+$` accepts exactly a non-empty run of ASCII letters and spaces, alone or followed by one newline. |
| `Patterns.EmailCoreMatch` | backend/auth.py:41 | Scanning from the first `@` and the last dot decides the pattern without `$` exactly. |
| `Patterns.EmailMatch` | backend/auth.py:41 | `EMAIL_REGEX.match` accepts exactly this shape, alone or followed by one newline: local part over `[A-Za-z0-9._%+-]`, `@`, a non-empty `[A-Za-z0-9.-]` run, a dot, at least two letters. |
| `Patterns.EmailSplitIsUnique` | backend/auth.py:41 | In a whole match, the `@` is the first `@` and the separating dot is the last dot. |
| `Patterns.EmailNeedsAt` | backend/auth.py:41 | A string with no `@`, the empty string included, is rejected. |
| `Patterns.StripMatchedEmail` | backend/auth.py:120 | An accepted address is its own `strip()`, except that a final newline is removed. What remains still matches without `$`. |
| `Patterns.LooseEmailMatch` | utils/database.py:28 | The unanchored `[^@]+@[^@]+\.[^@]+` accepts exactly a string that starts with: one or more non-`@` characters, `@`, then an `@`-free run holding a dot with a character on each side. |
| `Rules.Failing` | backend/auth.py:44-62 | The validator's list holds a rule iff the rule is in the validator's rules and fails. The list keeps the rule order. |
| `Rules.FailingEmptyIff` | backend/auth.py:44-62 | The list is empty iff no rule fails. |
| `Rules.FailingRespectsTests` | utils/database.py:108-134 | Two validators with tests that agree on every rule report the same failures. |
| `Rules.LastRankIsLast` | frontend/auth.py:86-87 | In a list in rule order, the confirmation rule can only be last. |
| `AuthValidation.RegistrationErrors` | backend/auth.py:44-62 | Every rule is checked without stopping. A rule is reported iff it fails. Rules are reported in the order name, email, password length, upper, lower, digit, special. |
| `AuthValidation.FailsAsStated` | backend/auth.py:46-61 | Each test as written (`not name`, the regex on the stripped name, `not email`, `not password`) fails exactly when its stated rule fails. |
| `AuthValidation.RegistrationAcceptedIff` | backend/auth.py:44-62 | The list is empty iff all of these hold: the stripped name has at least 2 characters, all letters and spaces; the address matches `EMAIL_REGEX`; the password has at least 8 characters and one of each class. |
| `AuthValidation.NoRuleFailsIsAcceptable` | backend/auth.py:44-62 | Passing all eight rules is the same as meeting those conditions. |
| `AuthValidation.BlankNameFailsBothRules` | backend/auth.py:46-49 | An empty or all-whitespace name gets both name messages. |
| `AuthValidation.Messages` | backend/auth.py:44-62 | One message per failed rule, in the same order. |
| `AuthValidation.ValidateLogin` | backend/auth.py:65-70 | Login input passes iff the address matches `EMAIL_REGEX` and the password is not empty. On failure the message is always "Invalid credentials.". |
| `FrontendAuth.FormErrors` | frontend/auth.py:64-89 | Every rule of the form is checked, on the untrimmed name, and the failures are listed in order, confirmation last. |
| `FrontendAuth.ValidateRegistration` | frontend/auth.py:64-89 | The form's messages are the texts of its failed rules, in order. |
| `FrontendAuth.FormAcceptedIff` | frontend/auth.py:64-89 | The form reports nothing iff all of these hold: the name has at least 2 characters, all letters and spaces; the address matches; the password is strong; the confirmation equals the password. |
| `FrontendAuth.MismatchReportedLast` | frontend/auth.py:86-87 | A differing confirmation always produces "Passwords do not match.", as the last message. |
| `FrontendAuth.SameEmailAndPasswordRules` | frontend/auth.py:72-84 | The form and the backend fail the email rule and each password rule on exactly the same inputs. |
| `FrontendAuth.BlankNameOnlyBackendRejects` | frontend/auth.py:67-70 | A name of two or more blanks passes both of the form's name rules and fails both of the backend's. |
| `FrontendAuth.FormAcceptedBackendAccepts` | frontend/auth.py:67-70 | For a name with no whitespace at either end, input the form accepts is also accepted by the backend. |
| `DatabaseUtils.IsValidEmail` | utils/database.py:27-28 | `is_valid_email` holds exactly for strings of the loose shape, whatever follows it. |
| `DatabaseUtils.IsValidEmailNeedsLocalPartAndAt` | utils/database.py:27-28 | A string without `@`, or starting with `@`, is rejected. |
| `DatabaseUtils.StrictEmailIsValidEmail` | utils/database.py:27-28 | Every address `EMAIL_REGEX` accepts passes `is_valid_email`. |
| `DatabaseUtils.IsValidEmailAllowsSpace` | utils/database.py:27-28 | "a b@c.d" passes `is_valid_email` and fails `EMAIL_REGEX`. |
| `DatabaseUtils.IsValidEmailAllowsTrailingText` | utils/database.py:27-28 | "a@b.c@@" passes `is_valid_email` and fails `EMAIL_REGEX`. |
| `DatabaseUtils.RegistrationErrors` | utils/database.py:108-134 | Every rule is checked, and a rule is reported iff its test as written fails; the length test is `len(password) < 0`. The list keeps the rule order. |
| `DatabaseUtils.ValidateRegistration` | utils/database.py:108-134 | The messages are the texts of the failed rules, in order. |
| `DatabaseUtils.MismatchReportedLast` | utils/database.py:132-133 | A differing confirmation always produces "password do not match.", as the last message. |
| `DatabaseUtils.AcceptedIff` | utils/database.py:108-134 | The list is empty iff all of these hold: the name rules, the address rule, the four character classes, and the two passwords are equal. Length plays no part. |
| `DatabaseUtils.ShortPasswordNeverReported` | utils/database.py:120-121 | The length rule and its message never appear, for any input. |
| `DatabaseUtils.ShortPasswordAccepted` | utils/database.py:120-121 | A four-character password that meets every other rule is accepted. |
| `DatabaseUtils.IntendedRegistrationErrors` | utils/database.py:120-121 | With the length test written as `< 8`, a rule is reported iff it fails, in order. |
| `DatabaseUtils.IntendedMatchesForm` | utils/database.py:108-134 | With that correction, this validator finds exactly the failures the registration form finds. |
| `RateLimit.Recent` | backend/auth.py:79-80 | The window filter keeps exactly the times at or after the window start, each as often as before. The result is empty iff every time is older. |
| `RateLimit.RecentAppend` | backend/auth.py:91-93 | Filtering a list with one time appended is filtering the list, then keeping the new time if it is recent. |
| `RateLimit.RecentIdempotent` | backend/auth.py:79-80 | Filtering twice with the same window is the same as filtering once. |
| `RateLimit.AfterCleanup` | backend/auth.py:76-85 | Cleanup keeps only the key's recent failures. It deletes the key iff none remain. It changes no other key. |
| `RateLimit.AfterRecord` | backend/auth.py:88-93 | Recording appends `now` to the key's recent failures. The key is then present, and no other key changes. |
| `RateLimit.CleanupIdempotent` | backend/auth.py:76-85 | Cleanup is idempotent at a fixed `now`. |
| `RateLimit.Limited` | backend/auth.py:96-98 | A key is limited iff it holds at least 5 failures inside the window. A limited key is in the table with at least 5 entries. |
| `RateLimit.ExpiredAttemptsForgotten` | backend/auth.py:96-98 | A key whose failures all lie before the window is deleted and is not limited. |
| `RateLimit.CleanupKeepsBounded` | backend/auth.py:76-85 | Cleanup keeps every entry non-empty and at most 5 long. |
| `RateLimit.RecordKeepsBounded` | backend/auth.py:88-98 | Recording for a key that is not limited keeps every entry non-empty and at most 5 long. |
| `RateLimit.RateLimiter.constructor` | backend/auth.py:21 | The table starts empty. |
| `RateLimit.RateLimiter.Cleanup` | backend/auth.py:76-85 | The new table is `AfterCleanup` of the old one. |
| `RateLimit.RateLimiter.RecordFailedAttempt` | backend/auth.py:88-93 | The new table is `AfterRecord` of the old one. |
| `RateLimit.RateLimiter.IsRateLimited` | backend/auth.py:96-98 | Cleans the key up, then answers whether at least 5 recent failures remain. |
| `Users.Insert` | backend/auth.py:126-132 | Under the unique email index, an insert with a taken address is refused and changes nothing. Otherwise the document is stored under a fresh identifier. |
| `Users.Find` | backend/auth.py:159 | The lookup finds a document iff its address is stored, and what it finds is the document stored under that address. |
| `Users.InsertKeepsValid` | utils/database.py:103 | Inserts keep each document under its own address and keep identifiers distinct. |
| `Users.FindAfterInsert` | backend/auth.py:127 | An inserted document is found under its address. Every other lookup is unchanged. |
| `Users.SecondInsertIsDuplicate` | utils/database.py:103 | A second insert with the same address is refused. |
| `Users.UserStore.constructor` | utils/database.py:103 | The collection starts empty. |
| `Users.UserStore.InsertOne` | backend/auth.py:127 | The new contents and the outcome are those of `Insert`. |
| `Users.UserStore.FindOne` | backend/auth.py:159 | Returns what `Find` returns on the current contents. |
| `AuthService.ValidationFailed` | backend/auth.py:107-108 | The message starts with "Validation failed: ". With a single failure, it is that prefix followed by the failure's text. |
| `AuthService.ValidationFailedAppend` | backend/auth.py:107-108 | One more failure appends "; " and its text to the message. With the single-failure case, this fixes the message for every list of failures. |
| `AuthService.NewUserDoc` | backend/auth.py:118-124 | The stored document always has a name, the given hash, role "user" and the creation time. |
| `AuthService.NewUserDocCanonical` | backend/auth.py:118-124 | The stored name is stripped, and the stored address is stripped and lower-case: stripping or lowering them again changes nothing. |
| `AuthService.Register` | backend/auth.py:104-139 | Registration succeeds iff the input is valid, nothing raises and the lowered, stripped address is new. On success, exactly that address gains the new document: stripped name, lowered and stripped address, the hash, role "user". On failure the collection is unchanged and there is no identifier. |
| `AuthService.RegisterOutcomes` | backend/auth.py:109-139 | For valid input: a `PyMongoError` from `insert_one` gives "Database error"; any other exception from `insert_one`, and any exception raised before it by `db()` or hashing, a `PyMongoError` included, gives "Internal error"; after any exception the collection is unchanged. With no exception, a taken address gives "Email already registered", otherwise "User registered successfully". |
| `AuthService.RegisterKeepsValid` | backend/auth.py:118-129 | Registration keeps the collection valid. |
| `AuthService.SecondRegistrationIsDuplicate` | backend/auth.py:130-132 | Re-registering an address in any letter case or padding is refused as a duplicate and changes nothing. |
| `AuthService.RegisterUser` | backend/auth.py:104-139 | The live operation gives `Register`'s result and leaves `Register`'s collection. |
| `AuthService.LoginKey` | backend/auth.py:151 | The key is the identifier when one is given and non-empty, otherwise the lowered address. |
| `AuthService.Safe` | backend/auth.py:181-187 | The returned user carries the stored identifier, name, address and creation time, never the hash. Its role is the stored role, or "user" when the document has none. |
| `AuthService.Login` | backend/auth.py:145-196 | A successful login had valid input, no fault, a stored account and a matching hash. It returns that account's view with "Login successful". Every failure returns no user. |
| `AuthService.LoginFaultOutcomes` | backend/auth.py:191-196 | When valid input on a key that is not limited meets an exception, a `PyMongoError`, from `db()` or from `find_one`, gives "Database error" and any other gives "Internal error". No user is returned. The key is only cleaned up, and no failure is recorded. |
| `AuthService.LoginReturnsLookedUpAccount` | backend/auth.py:181-187 | On a collection where each document sits under its own address and identifiers are distinct, a successful login returns the lowered address it looked up, and an identifier that no other stored account has. |
| `AuthService.LoginSucceeds` | backend/auth.py:177-189 | Conversely, all of these together log in and remove the key: valid input, a key that is not limited, a stored account, and a hash that accepts the password. |
| `AuthService.InvalidLoginChangesNothing` | backend/auth.py:147-149 | Invalid login input returns "Invalid credentials" and leaves the table unchanged. |
| `AuthService.LimitedLoginIgnoresCredentials` | backend/auth.py:152-154 | A limited key returns the retry-later message after only the key's cleanup. The outcome is the same for any password, collection or fault, the correct password included. |
| `AuthService.NoAccountEnumeration` | backend/auth.py:159-175 | An unknown address, a wrong password and an unreadable hash give identical results and identical tables. |
| `AuthService.FailedLoginLedger` | backend/auth.py:159-175 | A refused lookup or password cleans the key up, then records one failure. |
| `AuthService.FailedLoginRecordsOnce` | backend/auth.py:159-175 | Such a failure returns "Invalid credentials". The key's recent failures gain exactly `now`, and no other key changes. |
| `AuthService.SuccessfulLoginClearsKey` | backend/auth.py:177-179 | A successful login removes the key and changes no other entry. |
| `AuthService.FreshCountAfterSuccess` | backend/auth.py:177-179 | After a success, the next failure leaves exactly one failure on record. |
| `AuthService.LoginKeepsBounded` | backend/auth.py:151-175 | Through login, no entry is ever empty or longer than 5. |
| `AuthService.RegisteredEmailKey` | backend/auth.py:118-120 | An address registration accepts also passes the login check. Without a final newline, its stored key is its lowered form. |
| `AuthService.RegisteredAccount` | backend/auth.py:118-129 | A successful registration stores the new document under the lowered, stripped address. |
| `AuthService.RegisterThenLogin` | backend/auth.py:104-189 | Register, then log in with the same address (one that does not end in a newline) and a password the stored hash accepts, on a key that is not limited. The login succeeds and returns the new account: stripped name, lowered address, role "user". |
| `AuthService.RegisteredKeyHasNoNewline` | backend/auth.py:120 | The key registration stores never ends in a newline. |
| `AuthService.RegisterKeepsKeysTrimmed` | backend/auth.py:118-129 | Registration never stores a key that ends in a newline. |
| `AuthService.NewlineEmailCannotLogIn` | backend/auth.py:159 | An address ending in a newline is never found at login, so it never logs in. |
| `AuthService.FailureAtSameTime` | backend/auth.py:159-163 | Below the limit, a login for an unknown address at the same instant as the key's earlier failures adds exactly one failure. |
| `AuthService.FailuresAccumulate` | backend/auth.py:88-93 | After `n` failures at one instant, up to 5, the key holds exactly `n`. |
| `AuthService.FiveFailuresLockOut` | backend/auth.py:96-98 | After five failures in one instant, a sixth attempt is refused whatever its password. |
| `AuthService.LockoutExpires` | backend/auth.py:76-85 | Once every failure is older than the window, the right password logs in again. |
| `AuthService.LetterCaseEvadesLockout` | frontend/auth.py:145 | With the address as typed used as the key, a lock on "A@b.co" does not limit "a@b.co", the same account. |
| `AuthService.LoweredKeySharesLockout` | backend/auth.py:151 | With the default key, all spellings of an address share one count. |
| `AuthService.LoginUser` | backend/auth.py:145-196 | The live operation gives `Login`'s result and leaves `Login`'s table. |
| `Session.Get` | backend/auth.py:203 | `get` finds a value iff the key is set, and what it finds is the stored value. |
| `Session.LoggedIn` | backend/auth.py:202-203 | `is_logged_in` holds iff `get("logged_in")` is truthy, so a missing entry means not logged in. |
| `Session.SessionState.IsLoggedIn` | backend/auth.py:202-203 | `LoggedIn` read on the live session: logged in iff `get("logged_in")` is truthy. |
| `Session.CurrentUserOf` | backend/auth.py:206-214 | There is no current user iff the session is not logged in. Otherwise the four fields are read from `user_id`, `user_name`, `user_email` and `user_role`. |
| `Session.SessionState.GetCurrentUser` | backend/auth.py:206-208 | `CurrentUserOf` read on the live session: there is no current user iff `is_logged_in` is false. |
| `Session.AfterLogout` | backend/auth.py:217-219 | Logout removes exactly the five login keys and keeps every other entry. |
| `Session.LogoutEndsSession` | backend/auth.py:217-219 | After logout, nobody is logged in and there is no current user. |
| `Session.LogoutIdempotent` | backend/auth.py:217-219 | Logging out twice is the same as logging out once. |
| `Session.SessionState.Logout` | backend/auth.py:217-224 | The loop leaves the session as `AfterLogout` of the old one and returns success with "Logged out successfully". |

## Left out

- bcrypt: `hashpw` with a random salt is not modelled. Its output is the `passwordHash` parameter. `checkpw` is the `check` parameter. Its properties, such as 72-byte truncation, are not modelled. The round-trip lemma assumes that `check` accepts the password for the hash.
- pymongo and the database server: the collection is the `Users` model. It assumes the unique email index of `create_indexes` exists.
- Database faults: whether and what is raised is the `fault` parameter, not a model of the database server. In `register_user` it is raised either before the insert (`db()`, hashing) or by `insert_one`. In `login_user` it is raised by `db()` or `find_one`, after the rate-limit check; there its stage does not change the outcome.
- Late exceptions: an exception raised after the state has changed, for example by a `logger` call after a successful insert, is not modelled.
- `ObjectId` and `str()`: identifiers are natural numbers, handed out in increasing order.
- Clock: `time.time()` is a `real` parameter with exact arithmetic instead of floating point. One `login_user` call uses one reading. The source reads the clock again in each helper.
- `datetime.utcnow()`: the creation time is the same kind of parameter.
- Logging: it has only side effects, so it is not modelled.
- Streamlit UI: the pages and routing are not modelled. The same holds for how the login page fills the session, and for `create_user`, `get_user_by_email` and the other database helpers.
- Concurrency: concurrent access to the attempts table is not modelled; calls run one at a time.
- `None` arguments: `fullName or ""` and similar are not modelled. Every argument is a string, apart from the optional identifier.
- `Text.Lower`: only ASCII letters are mapped. It is applied only to addresses that passed `EMAIL_REGEX`, which are ASCII: the stored address, the lookup address and the default rate-limit key.
- Session values: only booleans, strings, integers and `None` are modelled.
- `logout`'s `redirect_fn` callback is not modelled.
- Message text: the database helpers' messages are kept verbatim. One of them says "at east 2 uppercase letter", while the check requires only one.

## Findings

| source | as written | input that shows it | evidently intended | confidence | as-written member | corrected member |
|---|---|---|---|---|---|---|
| utils/database.py:120-121 | the length test is `len(password) < 0`, which no password meets | name "Ann", email "a@b.co", password and confirmation "Aa1!" give no error | `len(password) < 8`, as in the other two validators | high, not executed | `DatabaseUtils.ShortPasswordAccepted` | `DatabaseUtils.IntendedMatchesForm` |
| frontend/auth.py:145 | the login page passes the address as typed as the rate-limiting key | five failures as "A@b.co" do not limit a login as "a@b.co", the same account | the default key, the lowered address | medium, not executed | `AuthService.LetterCaseEvadesLockout` | `AuthService.LoweredKeySharesLockout` |
