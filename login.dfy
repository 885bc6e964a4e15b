/** The login handler of `login.cjs` and its per-IP rate limiter: a table from client
    IP to `{count, lastAttempt}`, a lockout after five failures that lasts fifteen
    minutes, and a reset of the counter once the last attempt is more than fifteen
    minutes old. The only identity it accepts is the hard-coded `admin`. */
module Login {
  import opened Common
  import opened Http

  const LockoutTime := 15 * 60 * 1000
  const MaxAttempts := 5

  /** One row of the rate-limit table; `lastAttempt` in milliseconds. */
  datatype RateEntry = RateEntry(count: nat, lastAttempt: int)

  /** What `getRateLimit` answers for an IP it has no row for, or when the read throws. */
  const NoAttempts := RateEntry(0, 0)

  /** The 429 test: five or more recorded failures, the last one less than fifteen
      minutes ago. */
  predicate LockedOut(e: RateEntry, now: int): (b: bool)
    ensures b ==> e.count >= MaxAttempts
    // a locked-out row is never one whose count is reset
    ensures b ==> CountAfterReset(e, now) == e.count
  {
    e.count >= MaxAttempts && now - e.lastAttempt < LockoutTime
  }

  /** `currentCount`: the stored count, or 0 once the last attempt is MORE than fifteen
      minutes old. */
  function CountAfterReset(e: RateEntry, now: int): (c: nat)
    ensures now - e.lastAttempt > LockoutTime ==> c == 0
    ensures now - e.lastAttempt <= LockoutTime ==> c == e.count
  {
    if now - e.lastAttempt > LockoutTime then 0 else e.count
  }

  /** `username !== 'admin'` or the bcrypt comparison did not match. */
  predicate BadCredentials(username: Option<string>, passwordMatches: bool): (b: bool)
    // the one accepted attempt: user `admin` with a matching password
    ensures !b <==> username == Some("admin") && passwordMatches
  {
    username != Some("admin") || !passwordMatches
  }

  /** What one attempt leads to: 429 with the row untouched, 401 with the row to write,
      or success with the row to write. */
  datatype Decision = Locked | Rejected(entry: RateEntry) | Accepted(entry: RateEntry)

  /** The decision of the handler for one attempt at time `now` against the row `e`. */
  function Decide(e: RateEntry, now: int, username: Option<string>, passwordMatches: bool)
    : (d: Decision)
    ensures d.Locked? <==> LockedOut(e, now)
    ensures d.Rejected? <==> !LockedOut(e, now) && BadCredentials(username, passwordMatches)
    ensures d.Rejected? ==> d.entry == RateEntry(CountAfterReset(e, now) + 1, now)
    ensures d.Accepted? ==> d.entry == RateEntry(0, now)
  {
    if LockedOut(e, now) then Locked
    else
      var currentCount := CountAfterReset(e, now);
      if BadCredentials(username, passwordMatches) then Rejected(RateEntry(currentCount + 1, now))
      else Accepted(RateEntry(0, now))
  }

  /** The session the handler issues on success: id `'1'`, username `'admin'`, no role. */
  const AdminSession := Principal("1", "admin", None)

  /** A session from this login never passes the `role === 'admin'` gates. */
  lemma AdminSessionIsNotAdminRole()
    ensures !IsAdmin(AdminSession)
  {
  }

  /* ---------- Sequences of attempts from one IP ---------- */

  datatype Attempt = Attempt(time: int, username: Option<string>, passwordMatches: bool)

  /** The row after one attempt: unchanged when locked out, otherwise the row written. */
  function Step(e: RateEntry, a: Attempt): (e': RateEntry)
    ensures LockedOut(e, a.time) ==> e' == e
    ensures !LockedOut(e, a.time) ==> e'.lastAttempt == a.time
    ensures !LockedOut(e, a.time) && BadCredentials(a.username, a.passwordMatches) ==>
              e'.count == CountAfterReset(e, a.time) + 1
    ensures !LockedOut(e, a.time) && !BadCredentials(a.username, a.passwordMatches) ==>
              e'.count == 0
  {
    match Decide(e, a.time, a.username, a.passwordMatches)
    case Locked => e
    case Rejected(n) => n
    case Accepted(n) => n
  }

  /** The row after a sequence of attempts, in order, each with the write succeeding. */
  function Run(e: RateEntry, attempts: seq<Attempt>): RateEntry
    decreases |attempts|
  {
    if attempts == [] then e
    else Step(Run(e, attempts[..|attempts| - 1]), attempts[|attempts| - 1])
  }

  predicate AllFail(attempts: seq<Attempt>) {
    forall k :: 0 <= k < |attempts| ==> BadCredentials(attempts[k].username, attempts[k].passwordMatches)
  }

  /** Every attempt lies in the fifteen minutes that start at `start`. */
  predicate WithinWindow(attempts: seq<Attempt>, start: int) {
    forall k :: 0 <= k < |attempts| ==> start <= attempts[k].time < start + LockoutTime
  }

  /** The count grows by one per failure and never resets inside the window; once the
      lockout starts the row is frozen. */
  lemma {:induction false} FailuresAccumulate(e0: RateEntry, attempts: seq<Attempt>, start: int)
    requires |attempts| >= 1 && attempts[0].time == start
    requires !LockedOut(e0, start)
    requires AllFail(attempts) && WithinWindow(attempts, start)
    ensures Run(e0, attempts).count >= Min(|attempts|, MaxAttempts)
    ensures Run(e0, attempts).lastAttempt >= start
    decreases |attempts|
  {
    var n := |attempts| - 1;
    if n == 0 {
      assert Run(e0, attempts) == Step(Run(e0, []), attempts[0]);
    } else {
      var init := attempts[..n];
      assert init[0] == attempts[0];
      FailuresAccumulate(e0, init, start);
      var e := Run(e0, init);
      var a := attempts[n];
      assert BadCredentials(a.username, a.passwordMatches);
      assert start <= a.time < start + LockoutTime;
      if !LockedOut(e, a.time) {
        assert CountAfterReset(e, a.time) == e.count;
      }
    }
  }

  /** Five failures within fifteen minutes of the first one lock the IP out: a further
      attempt inside that window answers 429, whatever the credentials. */
  lemma FiveFailuresLockOut(e0: RateEntry, attempts: seq<Attempt>, next: Attempt)
    requires |attempts| == MaxAttempts
    requires !LockedOut(e0, attempts[0].time)
    requires AllFail(attempts) && WithinWindow(attempts + [next], attempts[0].time)
    ensures Decide(Run(e0, attempts), next.time, next.username, next.passwordMatches) == Locked
  {
    var start := attempts[0].time;
    assert forall k :: 0 <= k < |attempts| ==> attempts[k] == (attempts + [next])[k];
    FailuresAccumulate(e0, attempts, start);
    assert (attempts + [next])[MaxAttempts] == next;
  }

  /** Fewer than five failures from a clean row never lock the IP out. */
  lemma {:induction false} FewFailuresDoNotLock(attempts: seq<Attempt>, now: int)
    requires |attempts| < MaxAttempts
    ensures Run(NoAttempts, attempts).count <= |attempts|
    ensures !LockedOut(Run(NoAttempts, attempts), now)
    decreases |attempts|
  {
    if attempts != [] {
      var init := attempts[..|attempts| - 1];
      FewFailuresDoNotLock(init, attempts[|attempts| - 1].time);
    }
  }

  /** At exactly fifteen minutes after the last attempt there is neither a lockout nor a
      reset: the next failure still counts on top of the old ones. */
  lemma ExactlyFifteenMinutes(e: RateEntry, now: int)
    requires now - e.lastAttempt == LockoutTime
    ensures !LockedOut(e, now)
    ensures CountAfterReset(e, now) == e.count
    ensures Decide(e, now, Some("admin"), false) == Rejected(RateEntry(e.count + 1, now))
  {
  }

  /** A success clears the row: the next attempt, at any later time, is examined. */
  lemma SuccessClearsLockout(e: RateEntry, now: int, later: int, u: Option<string>, m: bool)
    requires Decide(e, now, Some("admin"), true).Accepted?
    ensures Decide(Decide(e, now, Some("admin"), true).entry, later, u, m) != Locked
  {
  }

  /* ---------- The rate-limit store and the handler ---------- */

  class RateLimits {
    /** The `rate_limits` blob store, one JSON row per IP. */
    var entries: map<string, RateEntry>

    constructor ()
      ensures entries == map[]
    {
      entries := map[];
    }

    /** `getRateLimit(ip)`: the stored row, or `{0, 0}` for a missing row or a failed
        read; the limiter fails open. */
    function GetRateLimit(ip: string, readOk: bool): (e: RateEntry)
      reads this
      ensures readOk && ip in entries ==> e == entries[ip]
      ensures !readOk || ip !in entries ==> e == NoAttempts
    {
      if readOk && ip in entries then entries[ip] else NoAttempts
    }

    /** `updateRateLimit(ip, data)`: a failed write is logged and swallowed. */
    method UpdateRateLimit(ip: string, data: RateEntry, writeOk: bool)
      modifies this
      ensures entries == if writeOk then old(entries)[ip := data] else old(entries)
    {
      if writeOk {
        entries := entries[ip := data];
      }
    }

    /** The login handler. `passwordMatches` stands for the bcrypt comparison against
        the admin password; `now` for `Date.now()`. */
    method Login(verb: string, headers: Headers, username: Option<string>, passwordMatches: bool,
                 now: int, readOk: bool, writeOk: bool)
      returns (res: Result<Principal>)
      modifies this
      ensures verb != "POST" ==> res == Err(MethodNotAllowed) && entries == old(entries)
      ensures verb == "POST" ==>
                var ip := ClientIp(headers);
                match Decide(old(GetRateLimit(ip, readOk)), now, username, passwordMatches)
                case Locked => res == Err(TooManyRequests) && entries == old(entries)
                case Rejected(n) =>
                  && res == Err(Unauthorized)
                  && entries == if writeOk then old(entries)[ip := n] else old(entries)
                case Accepted(n) =>
                  && res == Ok(AdminSession)
                  && entries == if writeOk then old(entries)[ip := n] else old(entries)
    {
      if verb != "POST" {
        return Err(MethodNotAllowed);
      }
      var ip := ClientIp(headers);
      var entry := GetRateLimit(ip, readOk);
      if entry.count >= MaxAttempts && now - entry.lastAttempt < LockoutTime {
        return Err(TooManyRequests);
      }
      var currentCount := entry.count;
      if now - entry.lastAttempt > LockoutTime {
        currentCount := 0;
      }
      if username != Some("admin") {
        UpdateRateLimit(ip, RateEntry(currentCount + 1, now), writeOk);
        return Err(Unauthorized);
      }
      if !passwordMatches {
        UpdateRateLimit(ip, RateEntry(currentCount + 1, now), writeOk);
        return Err(Unauthorized);
      }
      UpdateRateLimit(ip, RateEntry(0, now), writeOk);
      res := Ok(AdminSession);
    }
  }

  /** A failed read of the table never answers 429, whatever the stored row says. */
  lemma ReadFailureFailsOpen(limits: RateLimits, ip: string, now: int, u: Option<string>, m: bool)
    ensures limits.GetRateLimit(ip, false) == NoAttempts
    ensures Decide(limits.GetRateLimit(ip, false), now, u, m) != Locked
  {
  }
}
