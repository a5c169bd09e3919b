/**
 * The sliding-window rate limiter of app/rate_limiter.py.
 *
 * Every API key owns the list of the instants at which its admitted requests
 * arrived. Each call first drops the instants that have left the window and
 * then decides. The wall clock is the explicit parameter `now`.
 */
module RateLimiting {

  /** The instants of `ts` still inside the window at `now`, in their original order. */
  function Prune(ts: seq<int>, now: int, window: int): (kept: seq<int>)
    ensures |kept| <= |ts|
    ensures forall x :: x in kept <==> x in ts && now - x < window
  {
    if ts == [] then []
    else if now - ts[0] < window then [ts[0]] + Prune(ts[1..], now, window)
    else Prune(ts[1..], now, window)
  }

  /** The stored instants of `key`; an unknown key has none. */
  function History(requests: map<string, seq<int>>, key: string): seq<int>
  {
    if key in requests then requests[key] else []
  }

  /** Python's `max(0, x)`. */
  function MaxZero(x: int): (r: int)
    ensures r >= 0 && r >= x
    ensures r == x || r == 0
  {
    if x > 0 then x else 0
  }

  /** Pruning works entry by entry: it distributes over concatenation, so it keeps the order. */
  lemma {:induction false} PruneDistributes(a: seq<int>, b: seq<int>, now: int, window: int)
    ensures Prune(a + b, now, window) == Prune(a, now, window) + Prune(b, now, window)
  {
    if a == [] {
      assert a + b == b;
    } else {
      assert (a + b)[1..] == a[1..] + b;
      PruneDistributes(a[1..], b, now, window);
    }
  }

  /** Pruning keeps every recent instant as often as it occurs and drops every stale one. */
  lemma {:induction false} PruneCounts(ts: seq<int>, now: int, window: int, x: int)
    ensures multiset(Prune(ts, now, window))[x] == if now - x < window then multiset(ts)[x] else 0
  {
    if ts != [] {
      assert ts == [ts[0]] + ts[1..];
      PruneCounts(ts[1..], now, window, x);
    }
  }

  /** A list whose instants are all recent is left as it is. */
  lemma {:induction false} PruneKeepsRecent(ts: seq<int>, now: int, window: int)
    requires forall i :: 0 <= i < |ts| ==> now - ts[i] < window
    ensures Prune(ts, now, window) == ts
  {
    if ts != [] {
      PruneKeepsRecent(ts[1..], now, window);
    }
  }

  /** Once a whole window has passed since the last instant, nothing is kept. */
  lemma {:induction false} PruneDropsStale(ts: seq<int>, now: int, window: int)
    requires forall i :: 0 <= i < |ts| ==> now - ts[i] >= window
    ensures Prune(ts, now, window) == []
  {
    if ts != [] {
      PruneDropsStale(ts[1..], now, window);
    }
  }

  /** With a clock that does not go back, an earlier pruning is subsumed by a later one. */
  lemma {:induction false} PruneLater(ts: seq<int>, now: int, later: int, window: int)
    requires now <= later
    ensures Prune(Prune(ts, now, window), later, window) == Prune(ts, later, window)
  {
    if ts != [] {
      PruneLater(ts[1..], now, later, window);
    }
  }

  /** Pruning twice at the same instant is pruning once. */
  lemma PruneIdempotent(ts: seq<int>, now: int, window: int)
    ensures Prune(Prune(ts, now, window), now, window) == Prune(ts, now, window)
  {
    PruneLater(ts, now, now, window);
  }

  class RateLimiter {
    const maxRequests: nat
    const window: int
    var requests: map<string, seq<int>>

    /** No key ever holds more instants than the limit. */
    ghost predicate Valid()
      reads this
    {
      forall key :: key in requests ==> |requests[key]| <= maxRequests
    }

    constructor (maxRequests: nat := 10, window: int := 60)
      ensures Valid()
      ensures this.maxRequests == maxRequests && this.window == window
      ensures requests == map[]
    {
      this.maxRequests := maxRequests;
      this.window := window;
      requests := map[];
    }

    /**
     * Admits the request of `key` at `now` when fewer than `maxRequests`
     * recent instants remain after pruning, and records it; otherwise rejects
     * it and records nothing. `remaining` is the number of free slots left.
     */
    method CheckRateLimit(key: string, now: int) returns (allowed: bool, remaining: int)
      requires Valid()
      modifies this
      ensures Valid()
      ensures remaining >= 0
      ensures var kept := Prune(History(old(requests), key), now, window);
        && allowed == (|kept| < maxRequests)
        && (allowed ==> remaining == maxRequests - (|kept| + 1)
                        && requests == old(requests)[key := kept + [now]])
        && (!allowed ==> remaining == 0 && requests == old(requests)[key := kept])
      ensures key !in old(requests) ==>
        key in requests && allowed == (maxRequests > 0) && requests[key] == (if allowed then [now] else [])
      ensures requests.Keys == old(requests).Keys + {key}
      ensures forall k :: k in old(requests) && k != key ==> requests[k] == old(requests)[k]
      ensures var stored := requests[key];
        forall i :: 0 <= i < |stored| - (if allowed then 1 else 0) ==> now - stored[i] < window
    {
      if key !in requests {
        requests := requests[key := []];
      }
      requests := requests[key := Prune(requests[key], now, window)];
      assert forall i :: 0 <= i < |requests[key]| ==> requests[key][i] in requests[key];
      var count := |requests[key]|;
      if count >= maxRequests {
        return false, 0;
      }
      requests := requests[key := requests[key] + [now]];
      remaining := maxRequests - (count + 1);
      allowed := true;
    }

    /**
     * The free slots of `key` at `now`. A known key's list is pruned as in
     * CheckRateLimit, but nothing is appended; an unknown key is not created.
     */
    method GetRemaining(key: string, now: int) returns (remaining: int)
      requires Valid()
      modifies this
      ensures Valid()
      ensures remaining >= 0
      ensures key !in old(requests) ==> remaining == maxRequests && requests == old(requests)
      ensures key in old(requests) ==>
        var kept := Prune(old(requests)[key], now, window);
        && requests == old(requests)[key := kept]
        && remaining == MaxZero(maxRequests - |kept|)
        && remaining == maxRequests - |kept|
    {
      if key !in requests {
        return maxRequests;
      }
      requests := requests[key := Prune(requests[key], now, window)];
      remaining := MaxZero(maxRequests - |requests[key]|);
    }
  }

  /**
   * A limiter of `maxRequests` per `window` that sees `maxRequests + 1`
   * requests of one key, all inside one window: the first `maxRequests` are
   * admitted with a remaining count that falls to 0, the last is rejected.
   */
  method BurstWithinWindow(maxRequests: nat, window: int, key: string, times: seq<int>)
    returns (verdicts: seq<bool>, remainders: seq<int>)
    requires |times| == maxRequests + 1
    requires forall i, j :: 0 <= i <= j < |times| ==> times[i] <= times[j]
    requires times[|times| - 1] - times[0] < window
    ensures |verdicts| == |times| && |remainders| == |times|
    ensures forall i :: 0 <= i < maxRequests ==> verdicts[i] && remainders[i] == maxRequests - 1 - i
    ensures !verdicts[maxRequests] && remainders[maxRequests] == 0
  {
    var limiter := new RateLimiter(maxRequests, window);
    verdicts, remainders := [], [];
    var i := 0;
    while i < |times|
      invariant 0 <= i <= |times|
      invariant limiter.Valid()
      invariant limiter.maxRequests == maxRequests && limiter.window == window
      invariant History(limiter.requests, key) == times[..if i < maxRequests then i else maxRequests]
      invariant |verdicts| == i && |remainders| == i
      invariant forall j :: 0 <= j < i && j < maxRequests ==> verdicts[j] && remainders[j] == maxRequests - 1 - j
      invariant i == |times| ==> !verdicts[maxRequests] && remainders[maxRequests] == 0
    {
      var before := History(limiter.requests, key);
      PruneKeepsRecent(before, times[i], window);
      var ok, left := limiter.CheckRateLimit(key, times[i]);
      if i < maxRequests {
        assert times[..i + 1] == times[..i] + [times[i]];
      }
      verdicts, remainders := verdicts + [ok], remainders + [left];
      i := i + 1;
    }
  }

  /** With two requests per 60 seconds, requests at 0, 1 and 2 give (true, 1), (true, 0), (false, 0). */
  method TwoPerMinute(key: string) returns (first: (bool, int), second: (bool, int), third: (bool, int))
    ensures first == (true, 1) && second == (true, 0) && third == (false, 0)
  {
    var limiter := new RateLimiter(2, 60);
    var a, ra := limiter.CheckRateLimit(key, 0);
    var b, rb := limiter.CheckRateLimit(key, 1);
    var c, rc := limiter.CheckRateLimit(key, 2);
    first, second, third := (a, ra), (b, rb), (c, rc);
  }

  /**
   * Asking for the free slots does not disturb the next check at the same
   * instant: it is admitted exactly when a slot was reported, and then
   * reports one slot fewer.
   */
  method RemainingThenCheck(limiter: RateLimiter, key: string, now: int)
    returns (left: int, allowed: bool, remaining: int)
    requires limiter.Valid()
    modifies limiter
    ensures limiter.Valid()
    ensures allowed <==> left > 0
    ensures allowed ==> remaining == left - 1
    ensures forall k :: k in old(limiter.requests) && k != key ==>
      k in limiter.requests && limiter.requests[k] == old(limiter.requests)[k]
  {
    ghost var ts := History(limiter.requests, key);
    left := limiter.GetRemaining(key, now);
    PruneIdempotent(ts, now, limiter.window);
    allowed, remaining := limiter.CheckRateLimit(key, now);
  }

  /** After a full window without requests of `key`, its next request is admitted. */
  method ReadmitAfterQuietWindow(limiter: RateLimiter, key: string, now: int)
    returns (allowed: bool, remaining: int)
    requires limiter.Valid() && limiter.maxRequests > 0
    requires var ts := History(limiter.requests, key);
      forall i :: 0 <= i < |ts| ==> now - ts[i] >= limiter.window
    modifies limiter
    ensures limiter.Valid()
    ensures allowed && remaining == limiter.maxRequests - 1
    ensures key in limiter.requests && limiter.requests[key] == [now]
    ensures forall k :: k in old(limiter.requests) && k != key ==>
      k in limiter.requests && limiter.requests[k] == old(limiter.requests)[k]
  {
    PruneDropsStale(History(limiter.requests, key), now, limiter.window);
    allowed, remaining := limiter.CheckRateLimit(key, now);
  }
}
