/** `logAction` of `utils/logger.cjs`: an audit entry per action, kept newest first in
    the single list `recent_logs` of the `stats` store, capped at 1000 entries. Any
    failure is swallowed; the caller never sees one. */
module ActionLog {
  import opened Common
  import opened Http
  import Text

  const MaxLogs := 1000

  datatype LogEntry = LogEntry(id: string, action: string, username: string, userId: Option<string>,
                               ip: string, userAgent: string, timestamp: string)

  /** The entry for `action` by `user` (absent for an anonymous caller). `nowMillis` and
      `isoNow` stand for `Date.now()` and `new Date().toISOString()`. */
  function MakeEntry(action: string, user: Option<Principal>, headers: Headers, nowMillis: nat,
                     isoNow: string): (e: LogEntry)
    ensures e.id == Text.DecimalString(nowMillis) && e.action == action && e.timestamp == isoNow
    ensures user.None? ==> e.username == "anonymous" && e.userId.None?
    ensures user.Some? ==> e.username == user.value.username && e.userId == Some(user.value.id)
    ensures e.ip == ClientIp(headers) && e.ip != ""
    ensures Truthy(Header(headers, "user-agent")) ==> e.userAgent == headers["user-agent"]
    ensures !Truthy(Header(headers, "user-agent")) ==> e.userAgent == "unknown"
  {
    LogEntry(Text.DecimalString(nowMillis), action,
             if user.Some? then user.value.username else "anonymous",
             if user.Some? then Some(user.value.id) else None,
             ClientIp(headers),
             if Truthy(Header(headers, "user-agent")) then headers["user-agent"] else "unknown",
             isoNow)
  }

  /** Entries made at different milliseconds have different ids. */
  lemma DistinctTimesDistinctIds(a: string, u: Option<Principal>, h: Headers, t1: nat, t2: nat,
                                 s1: string, s2: string)
    requires t1 != t2
    ensures MakeEntry(a, u, h, t1, s1).id != MakeEntry(a, u, h, t2, s2).id
  {
    Text.DecimalInjective(t1, t2);
  }

  /** The log after `unshift(e)` and the cut to 1000: `e` first, then the old log in its
      order, of which at most 999 entries survive. */
  function NewestFirst(e: LogEntry, logs: seq<LogEntry>): (r: seq<LogEntry>)
    ensures |r| == Min(|logs| + 1, MaxLogs)
    ensures r[0] == e
    ensures r[1..] == logs[..Min(|logs|, MaxLogs - 1)]
  {
    var grown := [e] + logs;
    assert grown[1..] == logs;
    if |grown| > MaxLogs then grown[..MaxLogs] else grown
  }

  /** Logging the entries `es` one after the other onto `logs`. */
  function LogAll(es: seq<LogEntry>, logs: seq<LogEntry>): seq<LogEntry>
    decreases |es|
  {
    if es == [] then logs else NewestFirst(es[|es| - 1], LogAll(es[..|es| - 1], logs))
  }

  function Reverse<T>(s: seq<T>): (r: seq<T>)
    ensures |r| == |s|
    ensures forall k :: 0 <= k < |s| ==> r[k] == s[|s| - 1 - k]
    decreases |s|
  {
    if s == [] then [] else [s[|s| - 1]] + Reverse(s[..|s| - 1])
  }

  /** After any number of calls the log holds the newest 1000 entries of everything ever
      logged, newest first: older entries are dropped, never reordered. */
  lemma {:induction false} LogAllKeepsNewest(es: seq<LogEntry>, logs: seq<LogEntry>)
    requires |logs| <= MaxLogs
    ensures LogAll(es, logs) == (Reverse(es) + logs)[..Min(|es| + |logs|, MaxLogs)]
    decreases |es|
  {
    if es == [] {
      assert Reverse(es) + logs == logs;
    } else {
      var n := |es| - 1;
      var e := es[n];
      LogAllKeepsNewest(es[..n], logs);
      var all := Reverse(es[..n]) + logs;
      var before := all[..Min(n + |logs|, MaxLogs)];
      assert LogAll(es, logs) == NewestFirst(e, before);
      assert Reverse(es) == [e] + Reverse(es[..n]);
      var all' := Reverse(es) + logs;
      assert all' == [e] + all;
      var r := NewestFirst(e, before);
      var m := Min(|es| + |logs|, MaxLogs);
      assert |r| == m;
      forall k | 0 <= k < m ensures r[k] == all'[k] {
        if k > 0 {
          assert r[k] == r[1..][k - 1];
        }
      }
    }
  }

  /** The `stats` store; `recentLogs` is `None` while nothing has been logged. */
  class LogStore {
    var recentLogs: Option<seq<LogEntry>>

    constructor ()
      ensures recentLogs == None
    {
      recentLogs := None;
    }

    /** A stored log never exceeds the cap. */
    ghost predicate Valid()
      reads this
    {
      recentLogs.Some? ==> |recentLogs.value| <= MaxLogs
    }

    /** `logAction`. `readOk` and `writeOk` say whether `store.get` and `store.setJSON`
        succeed; either failure is caught and leaves the store as it was. */
    method LogAction(action: string, user: Option<Principal>, headers: Headers, nowMillis: nat,
                     isoNow: string, readOk: bool, writeOk: bool)
      modifies this
      ensures recentLogs == if readOk && writeOk
                            then Some(NewestFirst(MakeEntry(action, user, headers, nowMillis, isoNow),
                                                  old(recentLogs).GetOr([])))
                            else old(recentLogs)
      ensures readOk && writeOk ==> Valid()
      ensures old(Valid()) ==> Valid()
    {
      var entry := MakeEntry(action, user, headers, nowMillis, isoNow);
      if !readOk {
        return;
      }
      var logs := recentLogs.GetOr([]);
      ghost var stored := logs;
      logs := [entry] + logs;
      if |logs| > MaxLogs {
        logs := logs[..MaxLogs];
      }
      assert logs == NewestFirst(entry, stored);
      if writeOk {
        recentLogs := Some(logs);
      }
    }
  }
}
