/** The in-memory login rate limiter of backend/auth.py: for each login key,
    the times of its recent failed attempts. */
module RateLimit {

  /** At this many failures inside the window, logins are refused. */
  const MaxLoginAttempts: nat := 5

  /** The window, in seconds, over which failures are counted. */
  const LoginWindowSeconds: real := 15.0 * 60.0

  /** The attempts table: login key to failure times, oldest first. */
  type Ledger = map<string, seq<real>>

  /** The failure times of `ts` no older than `windowStart`, in their order. */
  function Recent(ts: seq<real>, windowStart: real): (kept: seq<real>)
    ensures |kept| <= |ts|
    ensures forall t :: t in kept <==> t in ts && t >= windowStart
    ensures forall t :: multiset(kept)[t] == if t >= windowStart then multiset(ts)[t] else 0
    ensures kept == [] <==> forall i :: 0 <= i < |ts| ==> ts[i] < windowStart
  {
    if ts == [] then []
    else
      assert ts == [ts[0]] + ts[1..];
      (if ts[0] >= windowStart then [ts[0]] else []) + Recent(ts[1..], windowStart)
  }

  /** Filtering a list extended by one time is filtering the list, then that time. */
  lemma {:induction false} RecentAppend(ts: seq<real>, t: real, windowStart: real)
    ensures Recent(ts + [t], windowStart) == Recent(ts, windowStart) + (if t >= windowStart then [t] else [])
  {
    if ts != [] {
      var head := if ts[0] >= windowStart then [ts[0]] else [];
      TailOfAppend(ts, t);
      assert Recent(ts + [t], windowStart) == head + Recent(ts[1..] + [t], windowStart);
      assert Recent(ts, windowStart) == head + Recent(ts[1..], windowStart);
      RecentAppend(ts[1..], t, windowStart);
    }
  }

  /** Appending to a non-empty list keeps its head and appends to its tail. */
  lemma TailOfAppend<T>(s: seq<T>, x: T)
    requires s != []
    ensures (s + [x])[0] == s[0] && (s + [x])[1..] == s[1..] + [x]
  {
  }

  /** A list with no time older than the window start is kept whole. */
  lemma {:induction false} RecentKeepsAllRecent(ts: seq<real>, windowStart: real)
    requires forall i :: 0 <= i < |ts| ==> ts[i] >= windowStart
    ensures Recent(ts, windowStart) == ts
  {
    if ts != [] {
      RecentKeepsAllRecent(ts[1..], windowStart);
      assert ts == [ts[0]] + ts[1..];
    }
  }

  /** Filtering twice with the same window is filtering once. */
  lemma {:induction false} RecentIdempotent(ts: seq<real>, windowStart: real)
    ensures Recent(Recent(ts, windowStart), windowStart) == Recent(ts, windowStart)
  {
    var kept := Recent(ts, windowStart);
    assert forall i :: 0 <= i < |kept| ==> kept[i] in kept;
    RecentKeepsAllRecent(kept, windowStart);
  }

  /** `_login_attempts.get(identifier, [])` */
  function Attempts(m: Ledger, id: string): seq<real> {
    if id in m then m[id] else []
  }

  /** `_cleanup_attempts(identifier)` at time `now`: the key keeps only its
      failures inside the window and is removed when none is left; no other
      key changes. */
  function AfterCleanup(m: Ledger, id: string, now: real): (m': Ledger)
    ensures forall k :: k != id ==> (k in m' <==> k in m)
    ensures forall k :: k != id && k in m ==> m'[k] == m[k]
    ensures id in m' <==> Recent(Attempts(m, id), now - LoginWindowSeconds) != []
    ensures Attempts(m', id) == Recent(Attempts(m, id), now - LoginWindowSeconds)
  {
    var kept := Recent(Attempts(m, id), now - LoginWindowSeconds);
    if kept != [] then m[id := kept] else m - {id}
  }

  /** `_record_failed_attempt(identifier)` at time `now`: the failure is
      appended, then the key is cleaned up. */
  function AfterRecord(m: Ledger, id: string, now: real): (m': Ledger)
    ensures forall k :: k != id ==> (k in m' <==> k in m)
    ensures forall k :: k != id && k in m ==> m'[k] == m[k]
    ensures id in m'
    ensures Attempts(m', id) == Recent(Attempts(m, id), now - LoginWindowSeconds) + [now]
  {
    RecentAppend(Attempts(m, id), now, now - LoginWindowSeconds);
    AfterCleanup(m[id := Attempts(m, id) + [now]], id, now)
  }

  /** Whether `_is_rate_limited(identifier)` answers yes at time `now`. */
  predicate Limited(m: Ledger, id: string, now: real)
    ensures Limited(m, id, now) <==> |Recent(Attempts(m, id), now - LoginWindowSeconds)| >= MaxLoginAttempts
    ensures Limited(m, id, now) ==> id in m && |m[id]| >= MaxLoginAttempts
  {
    |Attempts(AfterCleanup(m, id, now), id)| >= MaxLoginAttempts
  }

  /** Cleaning up the same key twice at the same time changes nothing more. */
  lemma CleanupIdempotent(m: Ledger, id: string, now: real)
    ensures AfterCleanup(AfterCleanup(m, id, now), id, now) == AfterCleanup(m, id, now)
  {
    RecentIdempotent(Attempts(m, id), now - LoginWindowSeconds);
  }

  /** A key whose failures all lie before the window is dropped and not limited. */
  lemma ExpiredAttemptsForgotten(m: Ledger, id: string, now: real)
    requires forall i :: 0 <= i < |Attempts(m, id)| ==> Attempts(m, id)[i] < now - LoginWindowSeconds
    ensures id !in AfterCleanup(m, id, now)
    ensures !Limited(m, id, now)
  {
  }

  /** A table with no empty entry and no entry longer than the limit. */
  ghost predicate Bounded(m: Ledger) {
    forall k :: k in m ==> 0 < |m[k]| <= MaxLoginAttempts
  }

  /** Cleaning up keeps a table bounded. */
  lemma CleanupKeepsBounded(m: Ledger, id: string, now: real)
    requires Bounded(m)
    ensures Bounded(AfterCleanup(m, id, now))
  {
  }

  /** Recording a failure for a key that is not limited keeps a table bounded. */
  lemma RecordKeepsBounded(m: Ledger, id: string, now: real)
    requires Bounded(m) && !Limited(m, id, now)
    ensures Bounded(AfterRecord(m, id, now))
  {
  }

  /** The attempts table of the running service, shared by all logins. */
  class RateLimiter {
    var attempts: Ledger

    constructor()
      ensures attempts == map[]
    {
      attempts := map[];
    }

    /** `_cleanup_attempts` */
    method Cleanup(id: string, now: real)
      modifies this
      ensures attempts == AfterCleanup(old(attempts), id, now)
    {
      var windowStart := now - LoginWindowSeconds;
      var kept := Recent(Attempts(attempts, id), windowStart);
      if kept != [] {
        attempts := attempts[id := kept];
      } else {
        attempts := attempts - {id};
      }
    }

    /** `_record_failed_attempt` */
    method RecordFailedAttempt(id: string, now: real)
      modifies this
      ensures attempts == AfterRecord(old(attempts), id, now)
    {
      var entry := Attempts(attempts, id);
      attempts := attempts[id := entry + [now]];
      Cleanup(id, now);
    }

    /** `_is_rate_limited` */
    method IsRateLimited(id: string, now: real) returns (limited: bool)
      modifies this
      ensures attempts == AfterCleanup(old(attempts), id, now)
      ensures limited <==> Limited(old(attempts), id, now)
      ensures limited <==> |Attempts(attempts, id)| >= MaxLoginAttempts
    {
      Cleanup(id, now);
      limited := |Attempts(attempts, id)| >= MaxLoginAttempts;
    }
  }
}
