/** The sliding-window rate limiter: per key, the visit times of the last minute;
    a request is admitted while fewer than `limit` visits are that recent. Times
    are nanoseconds, the resolution of the source's clock. */
module RateLimit {
  import opened Common

  const MinuteNs: int := 60 * 1000 * 1000 * 1000

  type Visits = map<string, seq<int>>

  /** The visits younger than one minute at `now`, in their stored order. */
  function Recent(vs: seq<int>, now: int): (rs: seq<int>)
    ensures |rs| <= |vs|
    ensures forall x :: x in rs <==> x in vs && now - x < MinuteNs
  {
    if |vs| == 0 then []
    else (if now - vs[0] < MinuteNs then [vs[0]] else []) + Recent(vs[1..], now)
  }

  /** Filtering twice at the same instant filters nothing more. */
  lemma {:induction false} RecentIdempotent(vs: seq<int>, now: int)
    ensures Recent(Recent(vs, now), now) == Recent(vs, now)
  {
    if |vs| > 0 {
      RecentIdempotent(vs[1..], now);
      RecentAppend(if now - vs[0] < MinuteNs then [vs[0]] else [], Recent(vs[1..], now), now);
    }
  }

  lemma {:induction false} RecentAppend(a: seq<int>, b: seq<int>, now: int)
    ensures Recent(a + b, now) == Recent(a, now) + Recent(b, now)
  {
    if |a| == 0 {
      assert a + b == b;
    } else {
      assert (a + b)[0] == a[0];
      assert (a + b)[1..] == a[1..] + b;
      RecentAppend(a[1..], b, now);
    }
  }

  /** A list of visits all younger than a minute is kept whole. */
  lemma {:induction false} RecentAllYoung(vs: seq<int>, now: int)
    requires forall i :: 0 <= i < |vs| ==> now - vs[i] < MinuteNs
    ensures Recent(vs, now) == vs
  {
    if |vs| > 0 {
      RecentAllYoung(vs[1..], now);
    }
  }

  function VisitsOf(visits: Visits, key: string): seq<int>
  {
    if key in visits then visits[key] else []
  }

  datatype Decision = Decision(allowed: bool, visits: Visits)

  /** allow: drop the key's visits older than a minute; refuse when `limit` or
      more remain, leaving the store untouched; otherwise store the recent visits
      followed by this one. */
  function Allow(visits: Visits, key: string, limit: int, now: int): (d: Decision)
    ensures d.allowed <==> |Recent(VisitsOf(visits, key), now)| < limit
    ensures !d.allowed ==> d.visits == visits
    ensures d.allowed ==> key in d.visits && d.visits[key] == Recent(VisitsOf(visits, key), now) + [now]
    ensures d.allowed ==> |d.visits[key]| <= limit
    ensures forall k :: k != key ==> (k in d.visits <==> k in visits)
    ensures forall k :: k != key && k in visits ==> d.visits[k] == visits[k]
  {
    var recent := Recent(VisitsOf(visits, key), now);
    if |recent| >= limit then Decision(false, visits)
    else Decision(true, visits[key := recent + [now]])
  }

  /** `n` successive calls for one key at one instant: how many were admitted,
      and the store they leave. */
  function Burst(visits: Visits, key: string, limit: int, now: int, n: nat): (r: (nat, Visits))
    decreases n
  {
    if n == 0 then (0, visits)
    else
      var d := Allow(visits, key, limit, now);
      var rest := Burst(d.visits, key, limit, now, n - 1);
      ((if d.allowed then 1 else 0) + rest.0, rest.1)
  }

  /** Admitted visits are recent at the instant they were made, so each one counts
      towards the next decision: a burst is admitted until the key holds `limit`
      visits, then refused. */
  lemma {:induction false} BurstAdmits(visits: Visits, key: string, limit: int, now: int, n: nat)
    requires key in visits ==> forall i :: 0 <= i < |visits[key]| ==> now - visits[key][i] < MinuteNs
    ensures var held := |VisitsOf(visits, key)|;
      Burst(visits, key, limit, now, n).0 == if held >= limit then 0 else if held + n <= limit then n else limit - held
    decreases n
  {
    var vs := VisitsOf(visits, key);
    RecentAllYoung(vs, now);
    if n > 0 {
      var d := Allow(visits, key, limit, now);
      var next := VisitsOf(d.visits, key);
      if d.allowed {
        assert next == vs + [now];
        forall i | 0 <= i < |next| ensures now - next[i] < MinuteNs {
          if i < |vs| { assert next[i] == vs[i]; }
        }
      }
      BurstAdmits(d.visits, key, limit, now, n - 1);
    }
  }

  /** A key with no visits is admitted min(n, limit) times out of n at one instant. */
  lemma FreshKeyBurst(visits: Visits, key: string, limit: int, now: int, n: nat)
    requires key !in visits && limit >= 0
    ensures Burst(visits, key, limit, now, n).0 == if n <= limit then n else limit
  {
    BurstAdmits(visits, key, limit, now, n);
  }

  /** cleanup: keep each key's visits younger than a minute and delete the keys
      left with none. */
  function Cleanup(visits: Visits, now: int): (c: Visits)
    ensures forall k :: k in c <==> k in visits && |Recent(visits[k], now)| > 0
    ensures forall k :: k in c ==> c[k] == Recent(visits[k], now)
  {
    map k | k in visits && |Recent(visits[k], now)| > 0 :: Recent(visits[k], now)
  }

  /** Cleaning up never changes a decision taken at the same instant. */
  lemma CleanupKeepsDecisions(visits: Visits, key: string, limit: int, now: int)
    ensures Allow(Cleanup(visits, now), key, limit, now).allowed == Allow(visits, key, limit, now).allowed
  {
    if key in visits {
      RecentIdempotent(visits[key], now);
    }
  }

  /** The limiter key of the address-based middleware: the X-Forwarded-For header
      when present and non-empty, otherwise the connection's remote address. */
  function ClientKey(remoteAddr: string, forwarded: string): (k: string)
    ensures forwarded != "" ==> k == forwarded
    ensures forwarded == "" ==> k == remoteAddr
  {
    if forwarded != "" then forwarded else remoteAddr
  }

  /** The header is taken on trust: any two connections naming the same forwarded
      address share one budget, and one connection gets a fresh budget per
      distinct header value. */
  lemma ForwardedHeaderDecidesKey(a1: string, a2: string, f: string, g: string)
    requires f != "" && g != ""
    ensures ClientKey(a1, f) == ClientKey(a2, f)
    ensures f != g ==> ClientKey(a1, f) != ClientKey(a1, g)
  {
  }

  /** The limiter key of the per-user middleware: the authenticated user's id,
      otherwise the remote address (the forwarded header is not consulted). */
  function UserKey(userId: Option<string>, remoteAddr: string): (k: string)
    ensures userId.Some? ==> k == userId.value
    ensures userId.None? ==> k == remoteAddr
  {
    match userId
    case Some(u) => u
    case None => remoteAddr
  }
}
