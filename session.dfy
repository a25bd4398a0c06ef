/** The session helpers of backend/auth.py, over the web framework's
    per-user session store, a dictionary the application mutates in place. */
module Session {
  import opened Wrappers

  /** The values the application keeps in a session. */
  datatype Value = BoolValue(b: bool) | TextValue(s: string) | NumberValue(n: int) | NoneValue

  /** Python's `bool(v)` on those values. */
  predicate Truthy(v: Value) {
    match v
    case BoolValue(b) => b
    case TextValue(s) => s != ""
    case NumberValue(n) => n != 0
    case NoneValue => false
  }

  /** `d.get(key)`: the stored value, or `None` when the key is absent. */
  function Get(entries: map<string, Value>, key: string): (v: Option<Value>)
    ensures v.Some? <==> key in entries
    ensures v.Some? ==> v.value == entries[key]
  {
    if key in entries then Some(entries[key]) else None
  }

  /** The keys a login writes and a logout removes, in the order `logout` pops them. */
  const SessionKeys: seq<string> := ["logged_in", "user_id", "user_name", "user_email", "user_role"]

  /** `is_logged_in`: the `logged_in` entry is present and truthy. */
  predicate LoggedIn(entries: map<string, Value>)
    ensures LoggedIn(entries) <==> Truthy(Get(entries, "logged_in").GetOr(NoneValue))
    ensures "logged_in" !in entries ==> !LoggedIn(entries)
  {
    "logged_in" in entries && Truthy(entries["logged_in"])
  }

  /** The user `get_current_user` reports: each field read with `get`. */
  datatype CurrentUser = CurrentUser(userId: Option<Value>, name: Option<Value>, email: Option<Value>, role: Option<Value>)

  /** `get_current_user`: nothing unless logged in, otherwise the four user entries. */
  function CurrentUserOf(entries: map<string, Value>): (u: Option<CurrentUser>)
    ensures u.None? <==> !LoggedIn(entries)
    ensures u.Some? ==> u.value.userId == Get(entries, "user_id") && u.value.name == Get(entries, "user_name")
    ensures u.Some? ==> u.value.email == Get(entries, "user_email") && u.value.role == Get(entries, "user_role")
  {
    if !LoggedIn(entries) then None
    else Some(CurrentUser(Get(entries, "user_id"), Get(entries, "user_name"),
                          Get(entries, "user_email"), Get(entries, "user_role")))
  }

  /** The session after `logout`: the five login keys removed, nothing else touched. */
  function AfterLogout(entries: map<string, Value>): (after: map<string, Value>)
    ensures forall k :: k in after <==> k in entries && k !in SessionKeys
    ensures forall k :: k in after ==> after[k] == entries[k]
  {
    map k | k in entries && k !in SessionKeys :: entries[k]
  }

  /** After a logout nobody is logged in and there is no current user. */
  lemma LogoutEndsSession(entries: map<string, Value>)
    ensures !LoggedIn(AfterLogout(entries))
    ensures CurrentUserOf(AfterLogout(entries)) == None
  {
    assert "logged_in" in SessionKeys;
  }

  /** Logging out twice is logging out once. */
  lemma LogoutIdempotent(entries: map<string, Value>)
    ensures AfterLogout(AfterLogout(entries)) == AfterLogout(entries)
  {
  }

  datatype LogoutResult = LogoutResult(success: bool, message: string)

  /** A user's session. */
  class SessionState {
    var entries: map<string, Value>

    constructor(initial: map<string, Value>)
      ensures entries == initial
    {
      entries := initial;
    }

    /** `is_logged_in(st_session)`: `LoggedIn` read on the live session. */
    predicate IsLoggedIn()
      reads this
      ensures IsLoggedIn() <==> Truthy(Get(entries, "logged_in").GetOr(NoneValue))
    {
      LoggedIn(entries)
    }

    /** `get_current_user(st_session)`: `CurrentUserOf` read on the live session. */
    function GetCurrentUser(): (u: Option<CurrentUser>)
      reads this
      ensures u.None? <==> !IsLoggedIn()
    {
      CurrentUserOf(entries)
    }

    /** `logout(st_session)`: pops each login key in turn; the redirect
        callback is not modelled. */
    method Logout() returns (r: LogoutResult)
      modifies this
      ensures entries == AfterLogout(old(entries))
      ensures r == LogoutResult(true, "Logged out successfully")
    {
      var i := 0;
      while i < |SessionKeys|
        invariant 0 <= i <= |SessionKeys|
        invariant forall k :: k in entries <==> k in old(entries) && k !in SessionKeys[..i]
        invariant forall k :: k in entries ==> entries[k] == old(entries)[k]
      {
        entries := entries - {SessionKeys[i]};
        assert SessionKeys[..i + 1] == SessionKeys[..i] + [SessionKeys[i]];
        i := i + 1;
      }
      assert SessionKeys[..i] == SessionKeys;
      r := LogoutResult(true, "Logged out successfully");
    }
  }
}
