/**
 The in-memory sliding-window limiter (backend/utils/rate_limit.py:64-135), which prunes and
 forgets old hits, against the full history of the hits it accepted.  Times are real numbers
 of seconds on a clock that never goes back.
 */
module RateLimit {

  /** The hits later than `cutoff`, in order. */
  function Recent(hits: seq<real>, cutoff: real): (r: seq<real>)
    ensures forall t :: t in r ==> t in hits && t > cutoff
  {
    if hits == [] then []
    else
      var front := Recent(hits[..|hits| - 1], cutoff);
      var t := hits[|hits| - 1];
      if t > cutoff then front + [t] else front
  }

  /** How many hits fall into the window that ends at `end` and begins, exclusively, `window` before. */
  function InWindow(hits: seq<real>, end: real, window: real): nat {
    if hits == [] then 0
    else
      var t := hits[|hits| - 1];
      InWindow(hits[..|hits| - 1], end, window) + if end - window < t <= end then 1 else 0
  }

  predicate Sorted(hits: seq<real>) { forall i, j :: 0 <= i < j < |hits| ==> hits[i] <= hits[j] }

  predicate UpTo(hits: seq<real>, time: real) { forall t :: t in hits ==> t <= time }

  lemma RecentAppend(hits: seq<real>, t: real, cutoff: real)
    ensures Recent(hits + [t], cutoff) == if t > cutoff then Recent(hits, cutoff) + [t] else Recent(hits, cutoff)
  {
    assert (hits + [t])[..|hits|] == hits;
  }

  lemma InWindowAppend(hits: seq<real>, t: real, end: real, window: real)
    ensures InWindow(hits + [t], end, window) == InWindow(hits, end, window) + if end - window < t <= end then 1 else 0
  {
    assert (hits + [t])[..|hits|] == hits;
  }

  /** Pruning twice is pruning once, by the later cutoff. */
  lemma {:induction false} RecentOfRecent(hits: seq<real>, c: real, d: real)
    requires c <= d
    ensures Recent(Recent(hits, c), d) == Recent(hits, d)
  {
    if hits != [] {
      var front, t := hits[..|hits| - 1], hits[|hits| - 1];
      RecentOfRecent(front, c, d);
      RecentAppend(Recent(front, c), t, d);
    }
  }

  lemma {:induction false} RecentSorted(hits: seq<real>, c: real)
    requires Sorted(hits)
    ensures Sorted(Recent(hits, c))
    ensures |Recent(hits, c)| <= |hits|
  {
    if hits != [] {
      var front, t := hits[..|hits| - 1], hits[|hits| - 1];
      RecentSorted(front, c);
      var r := Recent(front, c);
      forall i | 0 <= i < |r| ensures r[i] <= t {
        assert r[i] in front;
      }
    }
  }

  lemma {:induction false} RecentNone(hits: seq<real>, c: real)
    requires UpTo(hits, c)
    ensures Recent(hits, c) == []
  {
    if hits != [] {
      var front, t := hits[..|hits| - 1], hits[|hits| - 1];
      assert t in hits && forall x :: x in front ==> x in hits;
      RecentNone(front, c);
    }
  }

  /** A window that begins at `c` or later has no more hits than there are after `c`. */
  lemma {:induction false} InWindowIsRecent(hits: seq<real>, c: real, end: real, window: real)
    requires c <= end - window
    ensures InWindow(hits, end, window) <= |Recent(hits, c)|
  {
    if hits != [] {
      InWindowIsRecent(hits[..|hits| - 1], c, end, window);
    }
  }

  // ---------------------------------------------------------------- the bound

  /** No window anywhere holds more than `max` hits. */
  ghost predicate Bounded(hits: seq<real>, max: int, window: real) {
    forall end: real :: InWindow(hits, end, window) <= if max > 0 then max else 0
  }

  /** The sliding-window rule: accept while there are fewer than `max` hits in the window up to
      now.  It keeps every window bounded, also those that end later. */
  lemma AcceptKeepsBounded(hits: seq<real>, now: real, max: int, window: real)
    requires Bounded(hits, max, window) && |Recent(hits, now - window)| < max
    ensures Bounded(hits + [now], max, window)
  {
    forall end: real ensures InWindow(hits + [now], end, window) <= max {
      InWindowAppend(hits, now, end, window);
      assert InWindow(hits, end, window) <= max;
      if end - window < now <= end {
        InWindowIsRecent(hits, now - window, end, window);
      }
    }
  }

  // ---------------------------------------------------------------- what may be forgotten

  /** What is kept agrees with the whole history on every cutoff from `c` on. */
  ghost predicate AgreeFrom(kept: seq<real>, history: seq<real>, c: real) {
    forall d: real :: c <= d ==> Recent(kept, d) == Recent(history, d)
  }

  lemma PruneAgrees(kept: seq<real>, history: seq<real>, c: real, d: real)
    requires AgreeFrom(kept, history, c) && c <= d
    ensures AgreeFrom(Recent(kept, d), history, d)
  {
    forall e: real | d <= e ensures Recent(Recent(kept, d), e) == Recent(history, e) {
      RecentOfRecent(kept, d, e);
    }
  }

  lemma AppendAgrees(kept: seq<real>, history: seq<real>, c: real, t: real)
    requires AgreeFrom(kept, history, c)
    ensures AgreeFrom(kept + [t], history + [t], c)
  {
    forall d: real | c <= d ensures Recent(kept + [t], d) == Recent(history + [t], d) {
      RecentAppend(kept, t, d);
      RecentAppend(history, t, d);
    }
  }

  lemma ForgetAgrees(kept: seq<real>, history: seq<real>, c: real, d: real)
    requires AgreeFrom(kept, history, c) && c <= d && UpTo(kept, d)
    ensures AgreeFrom([], history, d)
  {
    forall e: real | d <= e ensures Recent([], e) == Recent(history, e) {
      RecentNone(kept, e);
    }
  }

  lemma AgreesLater(kept: seq<real>, history: seq<real>, c: real, d: real)
    requires AgreeFrom(kept, history, c) && c <= d
    ensures AgreeFrom(kept, history, d)
  {
  }

  /** What is kept for one address agrees with its whole history on every window that a later
      request can ask about, and the history is within bounds. */
  ghost predicate RecordOk(kept: seq<real>, history: seq<real>, last: real, max: int, window: real) {
    && AgreeFrom(kept, history, last - window)
    && Sorted(kept) && UpTo(kept, last) && UpTo(history, last)
    && Bounded(history, max, window)
  }

  lemma TimePasses(kept: seq<real>, history: seq<real>, last: real, later: real, max: int, window: real)
    requires RecordOk(kept, history, last, max, window) && last <= later
    ensures RecordOk(kept, history, later, max, window)
  {
    hide Bounded, Recent, Sorted;
    AgreesLater(kept, history, last - window, later - window);
  }

  lemma PruneKeepsOk(kept: seq<real>, history: seq<real>, now: real, max: int, window: real)
    requires RecordOk(kept, history, now, max, window) && window >= 0.0
    ensures RecordOk(Recent(kept, now - window), history, now, max, window)
    ensures Recent(history, now - window) == Recent(kept, now - window)
  {
    hide Bounded, Recent, Sorted;
    PruneAgrees(kept, history, now - window, now - window);
    RecentSorted(kept, now - window);
  }

  lemma HitKeepsOk(kept: seq<real>, history: seq<real>, now: real, max: int, window: real)
    requires RecordOk(kept, history, now, max, window) && |kept| < max
    requires kept == Recent(history, now - window)
    ensures RecordOk(kept + [now], history + [now], now, max, window)
  {
    hide Bounded, Recent, AgreeFrom;
    AppendAgrees(kept, history, now - window, now);
    AcceptKeepsBounded(history, now, max, window);
    assert forall i :: 0 <= i < |kept| ==> kept[i] in kept;
  }

  lemma ForgetKeepsOk(kept: seq<real>, history: seq<real>, now: real, max: int, window: real)
    requires RecordOk(kept, history, now, max, window)
    requires kept == [] || kept[|kept| - 1] <= now - window
    ensures RecordOk([], history, now, max, window)
  {
    hide Bounded, Recent, AgreeFrom;
    ForgetAgrees(kept, history, now - window, now - window);
  }

  // ---------------------------------------------------------------- the limiter

  type Hits = map<string, seq<real>>

  function HitsOf(hits: Hits, ip: string): seq<real> { if ip in hits then hits[ip] else [] }

  /** The addresses whose newest hit is later than the cutoff. */
  function Cleaned(hits: Hits, cutoff: real): Hits {
    map ip | ip in hits && hits[ip] != [] && hits[ip][|hits[ip]| - 1] > cutoff :: hits[ip]
  }

  /** A cleanup keeps the hits of the addresses whose newest one is later, as they are, and
      nothing of the others. */
  lemma CleanedMeans(hits: Hits, cutoff: real, ip: string)
    ensures ip in Cleaned(hits, cutoff) ==> ip in hits && Cleaned(hits, cutoff)[ip] == hits[ip]
    ensures ip in hits ==>
              (ip in Cleaned(hits, cutoff) <==> hits[ip] != [] && hits[ip][|hits[ip]| - 1] > cutoff)
  {
  }

  /** Every so many accepted requests, the limiter cleans up. */
  const CLEANUP_INTERVAL := 200

  class RateLimiter {
    const max: int
    const window: real
    var hits: Hits
    var requestCount: nat

    /** Every hit ever accepted, and the latest time on the clock. */
    ghost var history: Hits
    ghost var last: real

    function Kept(ip: string): seq<real>
      reads this
    {
      HitsOf(hits, ip)
    }

    ghost function Accepted(ip: string): seq<real>
      reads this
    {
      HitsOf(history, ip)
    }

    ghost predicate IpOk(ip: string)
      reads this
    {
      RecordOk(Kept(ip), Accepted(ip), last, max, window)
    }

    ghost predicate Valid()
      reads this
    {
      window >= 0.0 && forall ip :: IpOk(ip)
    }

    lemma NothingYet(ip: string)
      requires history == map[]
      ensures Accepted(ip) == []
    {
    }

    constructor (max: int, window: real, ghost now: real)
      requires window >= 0.0
      ensures Valid() && this.max == max && this.window == window && last == now
      ensures history == map[] && requestCount == 0
    {
      this.max, this.window := max, window;
      hits, requestCount, history, last := map[], 0, map[], now;
    }

    /** Rejects exactly when the whole accepted history of this address has `max` hits in the
        window that ends now, however much of it was pruned; records the hit otherwise.  The
        history of other addresses is untouched, and `Valid` says that no window of length
        `window`, ending at any time, has more than `max` accepted hits of one address.
        `later` is the second clock reading, which the periodic cleanup takes. */
    method IsLimited(ip: string, now: real, later: real) returns (limited: bool)
      requires Valid() && last <= now <= later
      modifies this
      ensures Valid() && last == later
      ensures limited <==> |Recent(old(Accepted(ip)), now - window)| >= max
      ensures history == if limited then old(history) else old(history)[ip := old(Accepted(ip)) + [now]]
      ensures requestCount == if limited then old(requestCount) else old(requestCount) + 1
      ensures var pruned := Recent(old(Kept(ip)), now - window);
              var kept := old(hits)[ip := if limited then pruned else pruned + [now]];
              hits == if !limited && requestCount % CLEANUP_INTERVAL == 0 then Cleaned(kept, later - window) else kept
    {
      hide RecordOk, Recent;
      Prune(ip, now);
      if |hits[ip]| >= max {
        Wait(later);
        return true;
      }
      Record(ip, now);
      if requestCount % CLEANUP_INTERVAL == 0 {
        Cleanup(later);
      } else {
        Wait(later);
      }
      return false;
    }

    /** Drops the hits of one address that have left the window. */
    method Prune(ip: string, now: real)
      requires Valid() && last <= now
      modifies this`hits, this`last
      ensures Valid() && last == now
      ensures hits == old(hits)[ip := Recent(old(Kept(ip)), now - window)]
      ensures hits[ip] == Recent(Accepted(ip), now - window)
    {
      hide RecordOk, Recent;
      ghost var kept := Kept(ip);
      hits := hits[ip := Recent(Kept(ip), now - window)];
      last := now;
      assert old(IpOk(ip));
      TimePasses(kept, Accepted(ip), old(last), now, max, window);
      PruneKeepsOk(kept, Accepted(ip), now, max, window);
      forall a ensures IpOk(a) {
        assert old(IpOk(a));
        TimePasses(old(Kept(a)), Accepted(a), old(last), now, max, window);
      }
    }

    /** Counts an accepted request. */
    method Record(ip: string, now: real)
      requires Valid() && last == now && ip in hits && |hits[ip]| < max
      requires hits[ip] == Recent(Accepted(ip), now - window)
      modifies this`hits, this`history, this`requestCount
      ensures Valid()
      ensures hits == old(hits)[ip := old(hits)[ip] + [now]]
      ensures history == old(history)[ip := old(Accepted(ip)) + [now]]
      ensures requestCount == old(requestCount) + 1
    {
      hide RecordOk, Recent;
      assert IpOk(ip);
      HitKeepsOk(hits[ip], Accepted(ip), now, max, window);
      hits := hits[ip := hits[ip] + [now]];
      history := history[ip := Accepted(ip) + [now]];
      requestCount := requestCount + 1;
      forall a ensures IpOk(a) {
        assert old(IpOk(a));
      }
    }

    /** Time passes. */
    ghost method Wait(later: real)
      requires Valid() && last <= later
      modifies this`last
      ensures Valid() && last == later
    {
      hide RecordOk;
      label start:
      last := later;
      forall a ensures IpOk(a) {
        assert old@start(IpOk(a));
        TimePasses(Kept(a), Accepted(a), old(last), later, max, window);
      }
    }

    /** Forgets the addresses whose newest hit has left the window, and no others. */
    method Cleanup(now: real)
      requires Valid() && last <= now
      modifies this`hits, this`last
      ensures Valid() && last == now
      ensures hits == Cleaned(old(hits), now - window)
    {
      hide RecordOk;
      var cutoff := now - window;
      hits := Cleaned(hits, cutoff);
      last := now;
      forall ip ensures IpOk(ip) {
        assert old(IpOk(ip));
        TimePasses(old(Kept(ip)), Accepted(ip), old(last), now, max, window);
        if ip !in hits {
          ForgetKeepsOk(old(Kept(ip)), Accepted(ip), now, max, window);
        }
      }
    }
  }
}
