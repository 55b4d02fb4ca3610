/** The sliding-window request limiter: per client, the timestamps of the
    requests admitted within the last 60 seconds. A request is refused with
    429 when the client already has `rateLimit` of them. Timestamps are whole
    seconds. */
module RateLimit {

  /** The client's address, as reported by the server. */
  type ClientId = string

  /** Length of the sliding window, in seconds. */
  const Window: int := 60

  /** The stored timestamps of a client; an unseen client has none. */
  function Lookup(requests: map<ClientId, seq<int>>, client: ClientId): (ts: seq<int>)
  {
    if client in requests then requests[client] else []
  }

  /** The timestamps of `ts` that are less than `Window` seconds older than
      `now`, in their original order (the list comprehension of `dispatch`). */
  function Recent(ts: seq<int>, now: int): (r: seq<int>)
    ensures |r| <= |ts|
    ensures forall t :: t in r ==> t in ts && now - t < Window
    ensures forall t :: t in ts && now - t < Window ==> t in r
    ensures forall t :: multiset(r)[t] == if now - t < Window then multiset(ts)[t] else 0
  {
    assert ts != [] ==> ts == [ts[0]] + ts[1..];
    if ts == [] then []
    else if now - ts[0] < Window then [ts[0]] + Recent(ts[1..], now)
    else Recent(ts[1..], now)
  }

  /** The timestamps of `ts` that fall into the window `[start, start + Window)`. */
  function InWindow(ts: seq<int>, start: int): (r: seq<int>)
    ensures |r| <= |ts|
    ensures forall t :: t in r <==> t in ts && start <= t < start + Window
    ensures forall t :: multiset(r)[t] == if start <= t < start + Window then multiset(ts)[t] else 0
  {
    assert ts != [] ==> ts == [ts[0]] + ts[1..];
    if ts == [] then []
    else if start <= ts[0] < start + Window then [ts[0]] + InWindow(ts[1..], start)
    else InWindow(ts[1..], start)
  }

  /** The most entries a stored list can hold: `rateLimit`, or none at all
      when the limit is not positive. */
  function Cap(limit: int): (n: nat)
  {
    if limit < 0 then 0 else limit
  }

  /** The new table and the verdict of one request. */
  datatype Verdict = Verdict(requests: map<ClientId, seq<int>>, allowed: bool)

  /** One call of `dispatch`: prune the client's list, refuse when it already
      holds `limit` entries, otherwise record `now`. */
  function Step(limit: int, requests: map<ClientId, seq<int>>, client: ClientId, now: int): (v: Verdict)
    ensures client in v.requests
    ensures forall t :: t in v.requests[client] ==> now - t < Window
    ensures v.allowed <==> |Recent(Lookup(requests, client), now)| < limit
    ensures !v.allowed ==> v.requests[client] == Recent(Lookup(requests, client), now)
    ensures v.allowed ==> v.requests[client] == Recent(Lookup(requests, client), now) + [now]
    ensures forall c :: c != client ==> (c in v.requests <==> c in requests)
    ensures forall c :: c != client && c in requests ==> v.requests[c] == requests[c]
    ensures limit <= 0 ==> !v.allowed
  {
    var kept := Recent(Lookup(requests, client), now);
    if |kept| >= limit then Verdict(requests[client := kept], false)
    else Verdict(requests[client := kept + [now]], true)
  }

  /** A request as seen by the limiter: who sent it, and when. */
  datatype Request = Request(client: ClientId, time: int)

  /** The clock never runs backwards over a history of requests. */
  ghost predicate NonDecreasing(h: seq<Request>)
  {
    forall i, j :: 0 <= i < j < |h| ==> h[i].time <= h[j].time
  }

  /** `t` is no earlier than the last request of `h`. */
  ghost predicate NotBefore(h: seq<Request>, t: int)
  {
    h == [] || h[|h| - 1].time <= t
  }

  /** The table after serving the requests of `h` in order, from an empty table. */
  function Run(limit: int, h: seq<Request>): (m: map<ClientId, seq<int>>)
  {
    if h == [] then map[]
    else
      var last := h[|h| - 1];
      Step(limit, Run(limit, h[..|h| - 1]), last.client, last.time).requests
  }

  /** The times at which requests of `c` were admitted while serving `h`. */
  function Admitted(limit: int, h: seq<Request>, c: ClientId): (log: seq<int>)
  {
    if h == [] then []
    else
      var last := h[|h| - 1];
      var before := Admitted(limit, h[..|h| - 1], c);
      if last.client == c && Step(limit, Run(limit, h[..|h| - 1]), c, last.time).allowed
      then before + [last.time]
      else before
  }

  lemma {:induction false} RecentAppend(x: seq<int>, y: seq<int>, now: int)
    ensures Recent(x + y, now) == Recent(x, now) + Recent(y, now)
  {
    if x != [] {
      assert (x + y)[1..] == x[1..] + y;
      RecentAppend(x[1..], y, now);
    } else {
      assert x + y == y;
    }
  }

  /** Pruning at `a` and then at a later `b` is pruning at `b`. */
  lemma {:induction false} RecentTwice(x: seq<int>, a: int, b: int)
    requires a <= b
    ensures Recent(Recent(x, a), b) == Recent(x, b)
  {
    if x != [] {
      RecentTwice(x[1..], a, b);
      if a - x[0] < Window {
        assert Recent(x, a) == [x[0]] + Recent(x[1..], a);
        RecentAppend([x[0]], Recent(x[1..], a), b);
      }
    }
  }

  lemma {:induction false} InWindowAppend(x: seq<int>, y: seq<int>, start: int)
    ensures InWindow(x + y, start) == InWindow(x, start) + InWindow(y, start)
  {
    if x != [] {
      assert (x + y)[1..] == x[1..] + y;
      InWindowAppend(x[1..], y, start);
    } else {
      assert x + y == y;
    }
  }

  /** When nothing in `x` is later than `now` and the window `[start,
      start + Window)` contains `now`, every timestamp of `x` in that window
      survives pruning at `now`. */
  lemma {:induction false} InWindowWithinRecent(x: seq<int>, start: int, now: int)
    requires forall t :: t in x ==> t <= now
    requires now < start + Window
    ensures |InWindow(x, start)| <= |Recent(x, now)|
  {
    if x != [] {
      assert forall t :: t in x[1..] ==> t in x;
      InWindowWithinRecent(x[1..], start, now);
    }
  }

  /** Nothing admitted while serving `h` is later than a time at or after the
      last request. */
  lemma {:induction false} AdmittedNotAfter(limit: int, h: seq<Request>, c: ClientId, t: int)
    requires NonDecreasing(h)
    requires NotBefore(h, t)
    ensures forall a :: a in Admitted(limit, h, c) ==> a <= t
  {
    if h != [] {
      var prefix := h[..|h| - 1];
      assert NotBefore(prefix, t) by {
        if prefix != [] { assert prefix[|prefix| - 1] == h[|h| - 2]; }
      }
      AdmittedNotAfter(limit, prefix, c, t);
    }
  }

  /** The stored list of a client, pruned at any time no earlier than the last
      request, is that client's admission log pruned at the same time: the
      table forgets only what has left the window. */
  lemma {:induction false} StoredMatchesLog(limit: int, h: seq<Request>, c: ClientId, t: int)
    requires NonDecreasing(h)
    requires NotBefore(h, t)
    ensures Recent(Lookup(Run(limit, h), c), t) == Recent(Admitted(limit, h, c), t)
  {
    if h != [] {
      var prefix := h[..|h| - 1];
      var last := h[|h| - 1];
      assert NotBefore(prefix, t) by {
        if prefix != [] { assert prefix[|prefix| - 1] == h[|h| - 2]; }
      }
      StoredMatchesLog(limit, prefix, c, t);
      if last.client == c {
        var stored := Lookup(Run(limit, prefix), c);
        var v := Step(limit, Run(limit, prefix), c, last.time);
        RecentTwice(stored, last.time, t);
        if v.allowed {
          RecentAppend(Recent(stored, last.time), [last.time], t);
          RecentAppend(Admitted(limit, prefix, c), [last.time], t);
        }
      }
    }
  }

  /** Starting from an empty table, no stored list ever holds more than
      `rateLimit` entries (none at all when the limit is not positive). */
  lemma {:induction false} StoredWithinLimit(limit: int, h: seq<Request>)
    ensures forall c :: c in Run(limit, h) ==> |Run(limit, h)[c]| <= Cap(limit)
  {
    if h != [] {
      StoredWithinLimit(limit, h[..|h| - 1]);
    }
  }

  /** The headline property: with a clock that never runs backwards, no client
      is admitted more than `rateLimit` times within any window of `Window`
      seconds. */
  lemma {:induction false} WindowBound(limit: int, h: seq<Request>, c: ClientId, start: int)
    requires NonDecreasing(h)
    ensures |InWindow(Admitted(limit, h, c), start)| <= Cap(limit)
  {
    if h != [] {
      var prefix := h[..|h| - 1];
      var last := h[|h| - 1];
      assert NonDecreasing(prefix);
      WindowBound(limit, prefix, c, start);
      var before := Admitted(limit, prefix, c);
      if last.client == c && Step(limit, Run(limit, prefix), c, last.time).allowed {
        InWindowAppend(before, [last.time], start);
        if start <= last.time < start + Window {
          assert NotBefore(prefix, last.time) by {
            if prefix != [] { assert prefix[|prefix| - 1] == h[|h| - 2]; }
          }
          StoredMatchesLog(limit, prefix, c, last.time);
          AdmittedNotAfter(limit, prefix, c, last.time);
          InWindowWithinRecent(before, start, last.time);
        }
      }
    }
  }

  /** Every admission of a client in any window, for all clients and windows. */
  lemma AllWindowsBounded(limit: int, h: seq<Request>)
    requires NonDecreasing(h)
    ensures forall c, start :: |InWindow(Admitted(limit, h, c), start)| <= Cap(limit)
  {
    forall c, start ensures |InWindow(Admitted(limit, h, c), start)| <= Cap(limit) {
      WindowBound(limit, h, c, start);
    }
  }

  /** What `Dispatch` leaves behind, given the table `m` it started from
      replays `h`: the verdict of `Step`, a table that replays one request
      more, and both bounds. */
  lemma ServeOne(limit: int, h: seq<Request>, m: map<ClientId, seq<int>>, client: ClientId, now: int,
                 m': map<ClientId, seq<int>>, allowed: bool)
    requires m == Run(limit, h)
    requires allowed == (|Recent(Lookup(m, client), now)| < limit)
    requires m' == m[client := if allowed then Recent(Lookup(m, client), now) + [now]
                               else Recent(Lookup(m, client), now)]
    ensures Verdict(m', allowed) == Step(limit, m, client, now)
    ensures m' == Run(limit, h + [Request(client, now)])
    ensures forall c :: c in m' ==> |m'[c]| <= Cap(limit)
    ensures NonDecreasing(h + [Request(client, now)]) ==>
      forall c, start :: |InWindow(Admitted(limit, h + [Request(client, now)], c), start)| <= Cap(limit)
  {
    var r := Request(client, now);
    assert (h + [r])[..|h|] == h;
    StoredWithinLimit(limit, h + [r]);
    if NonDecreasing(h + [r]) {
      AllWindowsBounded(limit, h + [r]);
    }
  }

  /** The middleware object: the configured limit and the per-client lists of
      admitted timestamps. The ghost `history` records every request it has
      dispatched, so that the window theorem can be stated about the object. */
  class RateLimitMiddleware {
    const rateLimit: int
    var requests: map<ClientId, seq<int>>
    ghost var history: seq<Request>

    ghost predicate Valid()
      reads this
    {
      requests == Run(rateLimit, history)
    }

    constructor (rateLimit: int)
      ensures this.rateLimit == rateLimit
      ensures requests == map[] && history == []
      ensures Valid()
    {
      this.rateLimit := rateLimit;
      requests := map[];
      history := [];
    }

    /** Handle one request of `client` arriving at `now`; `allowed` means the
        request is passed on, otherwise the answer is 429 "Too many requests". */
    method Dispatch(client: ClientId, now: int) returns (allowed: bool)
      requires Valid()
      modifies this`requests, this`history
      ensures Valid()
      ensures history == old(history) + [Request(client, now)]
      ensures Verdict(requests, allowed) == Step(rateLimit, old(requests), client, now)
      ensures forall c :: c in requests ==> |requests[c]| <= Cap(rateLimit)
      ensures NonDecreasing(history) ==>
        forall c, start :: |InWindow(Admitted(rateLimit, history, c), start)| <= Cap(rateLimit)
    {
      ghost var before := requests;
      // An unseen client starts from an empty list, which the pruned list
      // then replaces.
      var kept := Recent(Lookup(requests, client), now);
      if |kept| >= rateLimit {
        requests := requests[client := kept];
        allowed := false;
      } else {
        requests := requests[client := kept + [now]];
        allowed := true;
      }
      ServeOne(rateLimit, history, before, client, now, requests, allowed);
      history := history + [Request(client, now)];
    }
  }
}
