/** The in-memory sliding-window rate limiter: a per-key log of request timestamps, pruned
    on every check, and the middleware that applies it per client and path. */
module RateLimiting {
  import opened Wrappers

  // ---------------------------------------------------------------------------
  // One key's log

  /** The entries of a log strictly younger than `window` at time `now`, in their order. */
  function Prune(log: seq<int>, now: int, window: int): (kept: seq<int>)
    ensures forall t :: t in kept <==> t in log && now - t < window
    ensures |kept| <= |log|
  {
    if log == [] then []
    else
      assert log == [log[0]] + log[1..];
      (if now - log[0] < window then [log[0]] else []) + Prune(log[1..], now, window)
  }

  /** `a` is `b` with some entries left out and the rest in their order. */
  predicate Subsequence(a: seq<int>, b: seq<int>)
    decreases |b|
  {
    a == [] || (b != [] && (if a[0] == b[0] then Subsequence(a[1..], b[1..]) else Subsequence(a, b[1..])))
  }

  /** Pruning keeps the surviving timestamps in their original relative order. */
  lemma {:induction false} PruneKeepsOrder(log: seq<int>, now: int, window: int)
    ensures Subsequence(Prune(log, now, window), log)
  {
    if log != [] {
      PruneKeepsOrder(log[1..], now, window);
      var kept := Prune(log, now, window);
      var rest := Prune(log[1..], now, window);
      if now - log[0] < window {
        assert kept == [log[0]] + rest && kept[1..] == rest;
      } else {
        assert kept == rest;
        if kept != [] {
          assert kept[0] in kept;
        }
      }
    }
  }

  /** Pruning drops every entry at least `window` old and keeps every younger one as often as
      it occurs. */
  lemma {:induction false} PruneCounts(log: seq<int>, now: int, window: int, t: int)
    ensures multiset(Prune(log, now, window))[t] == if now - t < window then multiset(log)[t] else 0
  {
    if log != [] {
      assert log == [log[0]] + log[1..];
      PruneCounts(log[1..], now, window, t);
    }
  }

  /** A log whose entries are all younger than the window is left as it is. */
  lemma {:induction false} PruneKeepsYoung(log: seq<int>, now: int, window: int)
    requires forall t :: t in log ==> now - t < window
    ensures Prune(log, now, window) == log
  {
    if log != [] {
      assert log == [log[0]] + log[1..];
      assert log[0] in log && forall t :: t in log[1..] ==> t in log;
      PruneKeepsYoung(log[1..], now, window);
    }
  }

  /** The outcome of one check: whether the request is limited and the key's new log. */
  datatype Verdict = Verdict(limited: bool, log: seq<int>)

  /** `is_rate_limited` on one key's log: prune; refuse without recording when the pruned log
      already holds `limit` entries; otherwise record `now` and admit. */
  function Check(log: seq<int>, limit: int, window: int, now: int): (v: Verdict)
    ensures v.limited <==> |Prune(log, now, window)| >= limit
    ensures forall t :: t in v.log <==> (t in log && now - t < window) || (!v.limited && t == now)
    ensures |v.log| <= |log| + 1
  {
    var kept := Prune(log, now, window);
    if |kept| >= limit then Verdict(true, kept) else Verdict(false, kept + [now])
  }

  /** After a check every stored timestamp is younger than the window; one exactly `window`
      old is gone. */
  lemma CheckWindowBound(log: seq<int>, limit: int, window: int, now: int)
    requires window > 0
    ensures forall t :: t in Check(log, limit, window, now).log ==> now - t < window
    ensures now - window !in Check(log, limit, window, now).log
  {
  }

  /** A limited check stores exactly the pruned log; an admitted one stores the pruned log
      with `now` appended. */
  lemma CheckOutcome(log: seq<int>, limit: int, window: int, now: int)
    ensures var v := Check(log, limit, window, now);
            && (v.limited <==> |Prune(log, now, window)| >= limit)
            && (v.limited ==> v.log == Prune(log, now, window))
            && (!v.limited ==> v.log == Prune(log, now, window) + [now])
  {
  }

  /** "At most `limit` entries" is kept by every check with that limit. */
  lemma CheckKeepsBound(log: seq<int>, limit: int, window: int, now: int)
    requires |log| <= limit
    ensures |Check(log, limit, window, now).log| <= limit
  {
  }

  /** A key never seen behaves as an empty log: its first request is admitted when `limit >= 1`. */
  lemma FirstRequestAdmitted(limit: int, window: int, now: int)
    requires limit >= 1
    ensures Check([], limit, window, now) == Verdict(false, [now])
  {
  }

  /** A run of checks on one key at the given times, in order: the verdicts and the final log. */
  function Replay(log: seq<int>, limit: int, window: int, times: seq<int>): (r: (seq<bool>, seq<int>))
    ensures |r.0| == |times|
    decreases |times|
  {
    if times == [] then ([], log)
    else
      var v := Check(log, limit, window, times[0]);
      var rest := Replay(v.log, limit, window, times[1..]);
      ([v.limited] + rest.0, rest.1)
  }

  predicate NonDecreasing(times: seq<int>) {
    forall i, j :: 0 <= i < j < |times| ==> times[i] <= times[j]
  }

  /** Requests at non-decreasing times that all fall inside one window, starting from a log
      whose entries are still inside it: the i-th request is refused exactly when the log
      already held `limit - i` entries or more. */
  lemma {:induction false} BurstWithinWindow(log: seq<int>, limit: int, window: int, times: seq<int>)
    requires |times| > 0 && NonDecreasing(times)
    requires times[|times| - 1] - times[0] < window
    requires forall t :: t in log ==> times[|times| - 1] - t < window
    requires |log| <= limit
    ensures forall i :: 0 <= i < |times| ==> (Replay(log, limit, window, times).0[i] <==> |log| + i >= limit)
    decreases |times|
  {
    var last := times[|times| - 1];
    PruneKeepsYoung(log, times[0], window);
    var v := Check(log, limit, window, times[0]);
    assert v.limited <==> |log| >= limit;
    assert v.log == if |log| >= limit then log else log + [times[0]];
    if |times| > 1 {
      var rest := times[1..];
      assert rest[|rest| - 1] == last;
      assert forall t :: t in v.log ==> last - t < window;
      BurstWithinWindow(v.log, limit, window, rest);
      var r := Replay(log, limit, window, times);
      forall i | 0 < i < |times|
        ensures r.0[i] <==> |log| + i >= limit
      {
        assert r.0[i] == Replay(v.log, limit, window, rest).0[i - 1];
      }
    }
  }

  /** From a fresh key, the first `limit` requests inside one window are admitted and the
      next one is refused. */
  lemma FreshKeyBurst(limit: nat, window: int, times: seq<int>)
    requires |times| == limit + 1 && NonDecreasing(times)
    requires times[limit] - times[0] < window
    ensures forall i :: 0 <= i < limit ==> !Replay([], limit, window, times).0[i]
    ensures Replay([], limit, window, times).0[limit]
  {
    BurstWithinWindow([], limit, window, times);
  }

  // ---------------------------------------------------------------------------
  // The limiter object

  class RateLimiter {
    /** The request log of every key seen so far. */
    var requests: map<string, seq<int>>

    constructor ()
      ensures requests == map[]
    {
      requests := map[];
    }

    /** The log of a key; a key never seen has an empty log. */
    function Log(key: string): seq<int>
      reads this
    {
      if key in requests then requests[key] else []
    }

    /** No key holds more than `limit` timestamps. */
    predicate LogsWithin(limit: int)
      reads this
    {
      forall k :: k in requests ==> |requests[k]| <= limit
    }

    /** `is_rate_limited(key, limit, window)` at time `now`: the key's log is replaced by its
        pruned form; the call returns true, recording nothing, when that log already holds
        `limit` entries, and otherwise appends `now` and returns false. No other key's log
        changes. */
    method IsRateLimited(key: string, limit: int, window: int, now: int) returns (limited: bool)
      modifies this
      ensures key in requests && requests == old(requests)[key := requests[key]]
      ensures limited <==> |Prune(old(Log(key)), now, window)| >= limit
      ensures limited ==> requests[key] == Prune(old(Log(key)), now, window)
      ensures !limited ==> requests[key] == Prune(old(Log(key)), now, window) + [now]
      ensures Verdict(limited, requests[key]) == Check(old(Log(key)), limit, window, now)
      ensures window > 0 ==> forall t :: t in requests[key] ==> now - t < window
      ensures limit >= 0 && old(LogsWithin(limit)) ==> LogsWithin(limit)
    {
      requests := requests[key := Prune(Log(key), now, window)];
      if |requests[key]| >= limit {
        return true;
      }
      requests := requests[key := requests[key] + [now]];
      return false;
    }
  }

  // ---------------------------------------------------------------------------
  // The middleware

  /** Paths that bypass the limiter. */
  const ExemptPaths: set<string> := {"/healthz", "/metrics", "/docs", "/openapi.json"}

  const RequestLimit: int := 60

  const WindowSeconds: int := 60

  function HostOf(clientHost: Option<string>): string {
    if clientHost.Some? then clientHost.value else "unknown"
  }

  /** `f"{client_ip}:{path}"`, with "unknown" for a request without a client address. */
  function RateLimitKey(clientHost: Option<string>, path: string): (key: string)
    ensures |key| == |HostOf(clientHost)| + 1 + |path|
    ensures key[..|HostOf(clientHost)|] == HostOf(clientHost) && key[|HostOf(clientHost)|] == ':'
    ensures clientHost.None? ==> key[..8] == "unknown:"
    ensures key[|key| - |path|..] == path
  {
    HostOf(clientHost) + ":" + path
  }

  /** What the middleware does with a request: passes it on untouched, refuses it with 429,
      or passes it on and adds the `X-RateLimit-Limit` and `X-RateLimit-Remaining` headers. */
  datatype Outcome = Exempt | TooManyRequests | Forwarded(limitHeader: string, remaining: int)

  /** `rate_limit_middleware`: exempt paths never touch the limiter; any other request is
      checked under key "<host>:<path>" with limit 60 and window 60, and an admitted one
      reports `60 - len(log)` remaining, which lies in [0, 59]. */
  method Middleware(limiter: RateLimiter, clientHost: Option<string>, path: string, now: int)
    returns (o: Outcome)
    modifies limiter
    ensures path in ExemptPaths ==> o == Exempt && limiter.requests == old(limiter.requests)
    ensures path !in ExemptPaths ==>
              var key := RateLimitKey(clientHost, path);
              var v := Check(old(limiter.Log(key)), RequestLimit, WindowSeconds, now);
              && limiter.requests == old(limiter.requests)[key := v.log]
              && o == (if v.limited then TooManyRequests else Forwarded("60", RequestLimit - |v.log|))
    ensures o.Forwarded? ==> 0 <= o.remaining < RequestLimit
  {
    if path in ExemptPaths {
      return Exempt;
    }
    var key := RateLimitKey(clientHost, path);
    var limited := limiter.IsRateLimited(key, RequestLimit, WindowSeconds, now);
    if limited {
      return TooManyRequests;
    }
    o := Forwarded("60", RequestLimit - |limiter.requests[key]|);
  }

  /** In "<host>:<path>" the first '/' is the first character of the path. */
  lemma FirstSlash(h: string, p: string, j: nat)
    requires '/' !in h && |p| > 0 && p[0] == '/'
    requires j <= |h| + 1
    ensures (h + ":" + p)[j] == '/' <==> j == |h| + 1
  {
    if j < |h| {
      assert (h + ":" + p)[j] == h[j];
      assert h[j] in h;
    }
  }

  /** Distinct clients or paths get distinct logs, given that a host address has no '/' and
      every request path starts with '/'. */
  lemma KeyDeterminesClientAndPath(c1: Option<string>, p1: string, c2: Option<string>, p2: string)
    requires '/' !in HostOf(c1) && '/' !in HostOf(c2)
    requires |p1| > 0 && p1[0] == '/' && |p2| > 0 && p2[0] == '/'
    requires RateLimitKey(c1, p1) == RateLimitKey(c2, p2)
    ensures HostOf(c1) == HostOf(c2) && p1 == p2
  {
    var h1, h2 := HostOf(c1), HostOf(c2);
    var k := RateLimitKey(c1, p1);
    assert k == h1 + ":" + p1 == h2 + ":" + p2;
    // Position m is the key's first '/' as read through the shorter host; read through the
    // other host it must be that host's first '/' too, so the hosts have equal length.
    var m := if |h1| <= |h2| then |h1| + 1 else |h2| + 1;
    FirstSlash(h1, p1, m);
    FirstSlash(h2, p2, m);
    assert h1 == k[..|h1|] == h2;
    assert p1 == k[|h1| + 1..] == p2;
  }
}
