/**
 The two limiters of every API key, and their eviction
 (backend/domains/api_keys/middleware.py:53-109, 179-189).  A request reads the clock anew for
 each look-up and each hit; the limits of a key may change from one request to the next.
 */
module ApiKeyLimits {
  import opened RateLimit

  const LIMITER_TTL_SECONDS := 3600.0
  const LIMITER_CLEANUP_INTERVAL := 100

  /** A limiter, and when it was looked up last. */
  datatype Slot = Slot(limiter: RateLimiter, touched: real)

  /** The limiters that were looked up within the last hour. */
  function Touched(slots: map<string, Slot>, now: real): map<string, Slot> {
    map k | k in slots && slots[k].touched >= now - LIMITER_TTL_SECONDS :: slots[k]
  }

  /** Every hundredth access drops the others. */
  function Swept(slots: map<string, Slot>, count: nat, now: real): map<string, Slot> {
    if count % LIMITER_CLEANUP_INTERVAL == 0 then Touched(slots, now) else slots
  }

  /** A sweep comes with every hundredth access, and drops exactly the limiters that were not
      looked up for 3600 seconds. */
  lemma SweptMeans(slots: map<string, Slot>, count: nat, now: real, k: string)
    ensures k in Touched(slots, now) <==> k in slots && slots[k].touched >= now - 3600.0
    ensures k in Touched(slots, now) ==> Touched(slots, now)[k] == slots[k]
    ensures k in Swept(slots, count, now)
       <==> k in slots && (count % 100 == 0 ==> slots[k].touched >= now - 3600.0)
    ensures k in Swept(slots, count, now) ==> Swept(slots, count, now)[k] == slots[k]
  {
  }

  function LimitersOf(slots: map<string, Slot>): set<RateLimiter> { set k | k in slots :: slots[k].limiter }

  /** What the limiter that a look-up gives has accepted: a new one is made if there is none,
      or if there is one for another limit. */
  ghost function OwnHits(slots: map<string, Slot>, key: string, limit: int): seq<real>
    reads LimitersOf(slots)
  {
    if key in slots && slots[key].limiter.max == limit then slots[key].limiter.Accepted(key) else []
  }

  // ---------------------------------------------------------------- one key

  /** How a key without a limiter must look: its hits have left the window. */
  ghost predicate Absent(history: seq<real>, max: int, span: real, last: real) {
    UpTo(history, last - span) && Bounded(history, max, span)
  }

  /** After any cutoff, `own` has no more hits than the history. */
  ghost predicate PartOf(own: seq<real>, history: seq<real>) {
    forall d: real :: |Recent(own, d)| <= |Recent(history, d)|
  }

  /** How the whole history of a key relates to what its limiter, which may be younger, has
      accepted.  The last hit came at most `lag` after the last look-up. */
  ghost predicate Present(own: seq<real>, history: seq<real>, max: int, span: real, last: real, touched: real,
                          lag: real)
  {
    && touched <= last && UpTo(history, touched + lag) && UpTo(history, last)
    && AgreeFrom(own, history, last - span) && PartOf(own, history) && Bounded(history, max, span)
  }

  lemma UpToLater(history: seq<real>, c: real, d: real)
    requires UpTo(history, c) && c <= d
    ensures UpTo(history, d)
  {
  }

  lemma AbsentLater(history: seq<real>, max: int, span: real, last: real, later: real)
    requires Absent(history, max, span, last) && last <= later
    ensures Absent(history, max, span, later)
  {
  }

  lemma PresentLater(own: seq<real>, history: seq<real>, max: int, span: real, last: real, later: real, touched: real,
                     lag: real)
    requires Present(own, history, max, span, last, touched, lag) && last <= later
    ensures Present(own, history, max, span, later, touched, lag)
  {
    hide Bounded, PartOf;
    AgreesLater(own, history, last - span, later - span);
    UpToLater(history, last, later);
  }

  /** A limiter can be dropped when, since its last look-up, the window and the lag have
      passed; an empty window does not need one. */
  lemma StaleIsAbsent(own: seq<real>, history: seq<real>, max: int, span: real, last: real, touched: real, lag: real)
    requires Present(own, history, max, span, last, touched, lag) && (touched + lag <= last - span || span == 0.0)
    ensures Absent(history, max, span, last)
  {
    hide Bounded;
    if span != 0.0 { UpToLater(history, touched + lag, last - span); }
  }

  /** And a new limiter takes over where none was needed. */
  lemma NewIsPresent(history: seq<real>, max: int, span: real, last: real, lag: real)
    requires Absent(history, max, span, last) && span >= 0.0 && lag >= 0.0
    ensures Present([], history, max, span, last, last, lag)
  {
    hide Bounded;
    UpToLater(history, last - span, last);
    UpToLater(history, last - span, last + lag);
    forall d: real | last - span <= d ensures Recent([], d) == Recent(history, d) {
      RecentNone(history, d);
    }
  }

  lemma TouchIsPresent(own: seq<real>, history: seq<real>, max: int, span: real, now: real, touched: real, lag: real)
    requires Present(own, history, max, span, now, touched, lag) && lag >= 0.0
    ensures Present(own, history, max, span, now, now, lag)
  {
    hide Bounded, AgreeFrom, PartOf;
    UpToLater(history, touched + lag, now + lag);
  }

  lemma EmptyIsAbsent(max: int, span: real, last: real)
    ensures Absent([], max, span, last)
  {
  }

  lemma {:induction false} LaterCutoffKeepsFewer(hits: seq<real>, c: real, d: real)
    requires c <= d
    ensures |Recent(hits, d)| <= |Recent(hits, c)|
  {
    if hits != [] { LaterCutoffKeepsFewer(hits[..|hits| - 1], c, d); }
  }

  lemma HitIsPart(own: seq<real>, history: seq<real>, now: real)
    requires PartOf(own, history)
    ensures PartOf(own + [now], history + [now])
  {
    forall d: real ensures |Recent(own + [now], d)| <= |Recent(history + [now], d)| {
      RecentAppend(own, now, d);
      RecentAppend(history, now, d);
    }
  }

  /** What a decision by the limiter's own hits means for the whole history. */
  lemma OwnHitsDecide(own: seq<real>, history: seq<real>, max: int, span: real, window: real, now: real, touched: real,
                      lag: real)
    requires Present(own, history, max, span, now, touched, lag) && span <= window
    ensures |Recent(own, now - window)| < max ==> |Recent(history, now - span)| < max
    ensures |Recent(own, now - window)| >= max ==> |Recent(history, now - window)| >= max
  {
    LaterCutoffKeepsFewer(own, now - window, now - span);
    assert Recent(own, now - span) == Recent(history, now - span);
  }

  lemma HitIsPresent(own: seq<real>, history: seq<real>, max: int, span: real, now: real, touched: real, lag: real)
    requires Present(own, history, max, span, now, touched, lag) && now <= touched + lag
    requires |Recent(history, now - span)| < max
    ensures Present(own + [now], history + [now], max, span, now, touched, lag)
  {
    hide Bounded, Recent, PartOf;
    AppendAgrees(own, history, now - span, now);
    AcceptKeepsBounded(history, now, max, span);
    HitIsPart(own, history, now);
  }

  // ---------------------------------------------------------------- one dictionary of limiters

  class LimiterStore {
    const window: real
    var slots: map<string, Slot>

    /** The hits accepted for each key, over all its limiters, since its limit last changed;
        the limits; the clock; and how long after a look-up a hit may come. */
    ghost var history: Hits
    ghost var limits: map<string, int>
    ghost var last: real
    ghost const lag: real

    ghost function Limiters(): set<RateLimiter>
      reads this
    {
      LimitersOf(slots)
    }

    ghost function History(key: string): seq<real>
      reads this
    {
      HitsOf(history, key)
    }

    ghost function Max(key: string): int
      reads this
    {
      if key in limits then limits[key] else 0
    }

    /** The window for which the limit is kept: all of it, or, if an eviction may drop hits
        that are still in it, what is left of an hour without the lag. */
    ghost function Span(): real {
      if window + lag <= LIMITER_TTL_SECONDS then window
      else if lag <= LIMITER_TTL_SECONDS then LIMITER_TTL_SECONDS - lag
      else 0.0
    }

    ghost predicate KeyOk(key: string)
      reads this, Limiters()
    {
      && (key !in limits ==> key !in slots && key !in history)
      && if key in slots then
        var l := slots[key].limiter;
        && l.Valid() && l.window == window && l.max == Max(key) && l.last <= last
        && Present(l.Accepted(key), History(key), Max(key), Span(), last, slots[key].touched, lag)
      else
        Absent(History(key), Max(key), Span(), last)
    }

    ghost predicate Sizes() {
      0.0 <= window <= LIMITER_TTL_SECONDS && 0.0 <= lag
    }

    ghost predicate Valid()
      reads this, Limiters()
    {
      && Sizes()
      && (forall j, k :: j in slots && k in slots && j != k ==> slots[j].limiter != slots[k].limiter)
      && forall key :: KeyOk(key)
    }

    constructor (window: real, ghost lag: real, ghost now: real)
      requires 0.0 <= window <= LIMITER_TTL_SECONDS && 0.0 <= lag
      ensures Valid() && this.window == window && this.lag == lag && last == now
      ensures slots == map[] && history == map[] && limits == map[]
    {
      this.window, this.lag := window, lag;
      slots, history, limits, last := map[], map[], map[], now;
    }

    ghost method Wait(now: real)
      requires Valid() && last <= now
      modifies this`last
      ensures Valid() && last == now
    {
      hide Present, Absent;
      label start:
      last := now;
      forall k ensures KeyOk(k) {
        assert old@start(KeyOk(k));
        if k in slots {
          PresentLater(slots[k].limiter.Accepted(k), History(k), Max(k), Span(), old(last), now, slots[k].touched, lag);
        } else {
          AbsentLater(History(k), Max(k), Span(), old(last), now);
        }
      }
    }

    /** Drops the limiters that were not looked up for an hour.  No history suffers. */
    method Evict(now: real)
      requires Valid() && last <= now
      modifies this`slots, this`last
      ensures Valid() && last == now
      ensures slots == Touched(old(slots), now)
    {
      hide Present, Absent;
      Wait(now);
      label waited:
      slots := Touched(slots, now);
      forall k ensures KeyOk(k) {
        assert old@waited(KeyOk(k));
        if k in old(slots) && k !in slots {
          StaleIsAbsent(old@waited(slots[k].limiter.Accepted(k)), History(k), Max(k), Span(), now,
                        old(slots)[k].touched, lag);
        }
      }
    }

    lemma Found(key: string)
      requires Valid()
      ensures Sizes() && Span() >= 0.0
      ensures key in slots ==>
                var l := slots[key].limiter;
                && l.Valid() && l.window == window && l.max == Max(key) && l.last <= last && key in limits
                && Present(l.Accepted(key), History(key), Max(key), Span(), last, slots[key].touched, lag)
                && forall k :: k in slots && k != key ==> slots[k].limiter != l
      ensures key !in slots ==> Absent(History(key), Max(key), Span(), last)
      ensures key !in limits ==> History(key) == []
    {
      assert KeyOk(key);
    }

    lemma SpanFits()
      requires Sizes()
      ensures 0.0 <= Span() <= window
    {
    }

    /** The history of a key for a limit: what there is if the limit stays, nothing if it changes. */
    ghost function HistoryFor(key: string, limit: int): Hits
      reads this
    {
      if key in limits && limits[key] != limit then history[key := []] else history
    }

    method Place(key: string, l: RateLimiter, limit: int, now: real)
      requires Valid() && last == now && l.Valid() && l.window == window && l.max == limit && l.last <= last
      requires Present(l.Accepted(key), HitsOf(HistoryFor(key, limit), key), limit, Span(), last, last, lag)
      requires forall k :: k in slots && k != key ==> slots[k].limiter != l
      modifies this`slots, this`limits, this`history
      ensures Valid()
      ensures slots == old(slots)[key := Slot(l, now)] && limits == old(limits)[key := limit]
      ensures history == old(HistoryFor(key, limit))
    {
      hide Present, Absent, RateLimiter.Valid, RateLimiter.IpOk, RateLimiter.Accepted;
      label start:
      history := HistoryFor(key, limit);
      slots := slots[key := Slot(l, now)];
      limits := limits[key := limit];
      forall k ensures KeyOk(k) {
        assert old@start(KeyOk(k));
      }
    }

    /** The limiter of a key, which is made if there is none, or if there is one for another
        limit. */
    method Get(key: string, limit: int, now: real) returns (l: RateLimiter)
      requires Valid() && last <= now
      modifies this`slots, this`last, this`limits, this`history
      ensures Valid() && last == now
      ensures slots == old(slots)[key := Slot(l, now)] && limits == old(limits)[key := limit]
      ensures history == old(HistoryFor(key, limit))
      ensures fresh(l) || l in old(Limiters())
      ensures OwnHits(slots, key, limit) == old(OwnHits(slots, key, limit)) && l.max == limit
    {
      hide Present, Absent, RateLimiter.Valid, RateLimiter.IpOk, RateLimiter.Accepted;
      Wait(now);
      Found(key);
      if key !in slots || slots[key].limiter.max != limit {
        EmptyIsAbsent(limit, Span(), now);
        NewIsPresent(HitsOf(HistoryFor(key, limit), key), limit, Span(), now, lag);
        label waited:
        l := new RateLimiter(limit, window, now);
        forall k ensures KeyOk(k) {
          assert old@waited(KeyOk(k));
        }
        l.NothingYet(key);
      } else {
        l := slots[key].limiter;
        TouchIsPresent(l.Accepted(key), History(key), limit, Span(), now, slots[key].touched, lag);
      }
      Place(key, l, limit, now);
    }

    /** `is_limited` of the limiter just looked up.  It decides by the hits of that limiter;
        what this says of the key's whole history is exact when the lag leaves the window
        whole.  `later` is the clock reading of the limiter's own cleanup. */
    method IsLimited(key: string, now: real, later: real) returns (limited: bool)
      requires Valid() && last <= now <= later && key in slots && now <= slots[key].touched + lag
      modifies this`history, this`last, slots[key].limiter
      ensures Valid() && last == later
      ensures limited <==> |Recent(old(slots[key].limiter.Accepted(key)), now - window)| >= old(Max(key))
      ensures limited ==> |Recent(old(History(key)), now - window)| >= old(Max(key))
      ensures !limited ==> |Recent(old(History(key)), now - Span())| < old(Max(key))
      ensures history == if limited then old(history) else old(history)[key := old(History(key)) + [now]]
    {
      hide Present, Absent, Recent, Span, RateLimiter.Valid, RateLimiter.IpOk;
      Wait(now);
      Found(key);
      SpanFits();
      var l := slots[key].limiter;
      label start:
      limited := l.IsLimited(key, now, later);
      OwnHitsDecide(old(l.Accepted(key)), old(History(key)), Max(key), Span(), window, now, slots[key].touched, lag);
      if !limited {
        HitIsPresent(old(l.Accepted(key)), old(History(key)), Max(key), Span(), now, slots[key].touched, lag);
        history := history[key := History(key) + [now]];
      }
      last := later;
      forall k ensures KeyOk(k) {
        assert old@start(KeyOk(k));
        if k in slots {
          assert k != key ==> slots[k].limiter != l;
          PresentLater(slots[k].limiter.Accepted(k), History(k), Max(k), Span(), now, later, slots[k].touched, lag);
        } else {
          AbsentLater(History(k), Max(k), Span(), now, later);
        }
      }
    }
  }

  // ---------------------------------------------------------------- both dictionaries

  /** The clock readings of one request, in the order in which they are taken: for the sweep,
      the two look-ups, and the two hits, each with the reading of the limiter's own cleanup. */
  datatype Clock = Clock(sweep: real, minuteGet: real, hourGet: real, minuteHit: real, minuteDone: real,
                         hourHit: real, hourDone: real)
  {
    predicate Ordered() {
      sweep <= minuteGet <= hourGet <= minuteHit <= minuteDone <= hourHit <= hourDone
    }

    /** The hits come soon after the look-ups. */
    predicate Within(lag: real) { minuteHit <= minuteGet + lag && hourHit <= hourGet + lag }
  }

  /** No window holds more of the first than of the second. */
  ghost predicate CountedIn(accepted: seq<real>, hits: seq<real>) {
    forall end: real, span: real :: InWindow(accepted, end, span) <= InWindow(hits, end, span)
  }

  lemma CountOnce(accepted: seq<real>, hits: seq<real>, now: real)
    requires CountedIn(accepted, hits)
    ensures CountedIn(accepted, hits + [now]) && CountedIn(accepted + [now], hits + [now])
  {
    forall end: real, span: real
      ensures InWindow(accepted, end, span) <= InWindow(hits + [now], end, span)
      ensures InWindow(accepted + [now], end, span) <= InWindow(hits + [now], end, span)
    {
      InWindowAppend(accepted, now, end, span);
      InWindowAppend(hits, now, end, span);
      assert InWindow(accepted, end, span) <= InWindow(hits, end, span);
    }
  }

  lemma NothingIsCounted(hits: seq<real>)
    ensures CountedIn([], hits)
  {
  }

  lemma SweptLimiters(slots: map<string, Slot>, count: nat, now: real)
    ensures forall k :: k in Swept(slots, count, now) ==> k in slots && Swept(slots, count, now)[k] == slots[k]
  {
  }

  /** Room for one more by a limiter's own hits. */
  predicate HasRoom(own: seq<real>, now: real, window: real, limit: int) { |Recent(own, now - window)| < limit }

  function Recorded(hits: Hits, key: string, now: real, ok: bool): Hits {
    if ok then hits[key := HitsOf(hits, key) + [now]] else hits
  }

  class KeyLimiters {
    const minute: LimiterStore
    const hour: LimiterStore
    var accessCount: nat

    /** When the accepted requests of each key hit the minute limiter, since that limit last
        changed.  When they hit the hour limiter is `hour.history`. */
    ghost var accepted: Hits

    ghost function Accepted(key: string): seq<real>
      reads this
    {
      HitsOf(accepted, key)
    }

    ghost predicate Valid()
      reads this, minute, hour, minute.Limiters(), hour.Limiters()
    {
      && minute != hour && minute.window == 60.0 && hour.window == 3600.0 && minute.lag == hour.lag
      && minute.Valid() && hour.Valid() && minute.last == hour.last
      && (forall j, k :: j in minute.slots && k in hour.slots ==> minute.slots[j].limiter != hour.slots[k].limiter)
      && forall key :: CountedIn(Accepted(key), minute.History(key))
    }

    constructor (ghost lag: real, ghost now: real)
      requires 0.0 <= lag
      ensures Valid() && fresh(minute) && fresh(hour) && minute.last == now && minute.lag == lag
      ensures minute.history == map[] && hour.history == map[] && accepted == map[] && accessCount == 0
      ensures minute.slots == map[] && hour.slots == map[] && minute.limits == map[] && hour.limits == map[]
    {
      minute := new LimiterStore(60.0, lag, now);
      hour := new LimiterStore(3600.0, lag, now);
      accessCount := 0;
      accepted := map[];
    }

    /** Neither of these objects is one of the limiters. */
    lemma NotALimiter(store: LimiterStore)
      ensures (this as object) !in store.Limiters()
      ensures (minute as object) !in store.Limiters() && (hour as object) !in store.Limiters()
    {
    }

    lemma NoneIsALimiter(slots: map<string, Slot>)
      ensures (this as object) !in LimitersOf(slots)
      ensures (minute as object) !in LimitersOf(slots) && (hour as object) !in LimitersOf(slots)
    {
    }

    /** Counts the access; every hundredth one drops the stale limiters of both kinds. */
    method Sweep(now: real)
      requires Valid() && minute.last <= now
      modifies this`accessCount, minute`slots, minute`last, hour`slots, hour`last
      ensures Valid() && minute.last == now
      ensures accessCount == old(accessCount) + 1
      ensures minute.slots == Swept(old(minute.slots), accessCount, now)
      ensures hour.slots == Swept(old(hour.slots), accessCount, now)
    {
      hide LimiterStore.Valid, LimiterStore.KeyOk, CountedIn;
      NotALimiter(minute);
      NotALimiter(hour);
      accessCount := accessCount + 1;
      if accessCount % LIMITER_CLEANUP_INTERVAL == 0 {
        minute.Evict(now);
        hour.Evict(now);
      } else {
        minute.Wait(now);
        hour.Wait(now);
      }
      NotALimiter(minute);
      forall k ensures CountedIn(Accepted(k), minute.History(k)) {
        assert old(CountedIn(Accepted(k), minute.History(k)));
      }
    }

    method LookUpMinute(key: string, limit: int, now: real)
      requires Valid() && minute.last <= now
      modifies this`accepted, minute, hour`last
      ensures Valid() && minute.last == now
      ensures minute.history == old(minute.HistoryFor(key, limit))
      ensures minute.limits == old(minute.limits)[key := limit]
      ensures accepted == if key in old(minute.limits) && old(minute.limits)[key] != limit then old(accepted)[key := []]
                          else old(accepted)
      ensures key in minute.slots && minute.slots[key].touched == now && minute.slots[key].limiter.max == limit
      ensures OwnHits(minute.slots, key, limit) == old(OwnHits(minute.slots, key, limit))
      ensures minute.slots - {key} == old(minute.slots) - {key}
      ensures fresh(minute.Limiters() - old(minute.Limiters()))
    {
      hide LimiterStore.Valid, LimiterStore.KeyOk, CountedIn, OwnHits;
      NotALimiter(minute);
      NotALimiter(hour);
      ForgetChanged(key, limit);
      label start:
      hour.Wait(now);
      NotALimiter(hour);
      var _ := minute.Get(key, limit, now);
      NotALimiter(minute);
      forall k ensures CountedIn(Accepted(k), minute.History(k)) {
        assert old@start(CountedIn(Accepted(k), minute.History(k)));
      }
    }

    /** A changed limit starts a new count of the accepted requests. */
    ghost method ForgetChanged(key: string, limit: int)
      requires Valid()
      modifies this`accepted
      ensures Valid()
      ensures accepted == if key in minute.limits && minute.limits[key] != limit then old(accepted)[key := []]
                          else old(accepted)
      ensures forall k :: CountedIn(Accepted(k), HitsOf(minute.HistoryFor(key, limit), k))
    {
      hide LimiterStore.Valid, LimiterStore.KeyOk, CountedIn;
      NotALimiter(minute);
      NotALimiter(hour);
      if key in minute.limits && minute.limits[key] != limit { accepted := accepted[key := []]; }
      forall k
        ensures CountedIn(Accepted(k), minute.History(k))
        ensures CountedIn(Accepted(k), HitsOf(minute.HistoryFor(key, limit), k))
      {
        assert old(CountedIn(Accepted(k), minute.History(k)));
        NothingIsCounted(minute.History(k));
        NothingIsCounted([]);
      }
    }

    /** Sweeps if it is time, and looks the minute limiter up. */
    method GetMinuteLimiter(key: string, limit: int, sweep: real, now: real)
      requires Valid() && minute.last <= sweep <= now
      modifies this`accessCount, this`accepted, minute, hour`slots, hour`last
      ensures Valid() && minute.last == now && accessCount == old(accessCount) + 1
      ensures minute.history == old(minute.HistoryFor(key, limit))
      ensures minute.limits == old(minute.limits)[key := limit]
      ensures accepted == if key in old(minute.limits) && old(minute.limits)[key] != limit then old(accepted)[key := []]
                          else old(accepted)
      ensures key in minute.slots && minute.slots[key].touched == now && minute.slots[key].limiter.max == limit
      ensures OwnHits(minute.slots, key, limit)
           == old(OwnHits(Swept(minute.slots, accessCount + 1, sweep), key, limit))
      ensures minute.slots - {key} == Swept(old(minute.slots), accessCount, sweep) - {key}
      ensures hour.slots == Swept(old(hour.slots), accessCount, sweep)
      ensures forall limit :: OwnHits(hour.slots, key, limit)
                           == old(OwnHits(Swept(hour.slots, accessCount + 1, sweep), key, limit))
      ensures fresh(minute.Limiters() - old(minute.Limiters())) && hour.Limiters() <= old(hour.Limiters())
    {
      hide Valid, Swept, OwnHits;
      StoresDiffer();
      NoneIsALimiter(Swept(minute.slots, accessCount + 1, sweep));
      NoneIsALimiter(Swept(hour.slots, accessCount + 1, sweep));
      Sweep(sweep);
      assert minute.Limiters() <= old(minute.Limiters()) && hour.Limiters() <= old(hour.Limiters()) by {
        SweptLimiters(old(minute.slots), accessCount, sweep);
        SweptLimiters(old(hour.slots), accessCount, sweep);
      }
      LookUpMinute(key, limit, now);
    }

    lemma StoresDiffer()
      requires Valid()
      ensures minute != hour
    {
    }

    method GetHourLimiter(key: string, limit: int, now: real)
      requires Valid() && minute.last <= now
      modifies hour, minute`last
      ensures Valid() && minute.last == now
      ensures hour.history == old(hour.HistoryFor(key, limit)) && hour.limits == old(hour.limits)[key := limit]
      ensures hour.slots - {key} == old(hour.slots) - {key}
      ensures key in hour.slots && hour.slots[key].touched == now && hour.slots[key].limiter.max == limit
      ensures OwnHits(hour.slots, key, limit) == old(OwnHits(hour.slots, key, limit))
      ensures minute.slots == old(minute.slots)
      ensures forall m :: OwnHits(minute.slots, key, m) == old(OwnHits(minute.slots, key, m))
      ensures fresh(hour.Limiters() - old(hour.Limiters()))
    {
      hide LimiterStore.Valid, LimiterStore.KeyOk, CountedIn, OwnHits;
      NotALimiter(minute);
      NotALimiter(hour);
      minute.Wait(now);
      NotALimiter(minute);
      var _ := hour.Get(key, limit, now);
      forall k ensures CountedIn(Accepted(k), minute.History(k)) {
        assert old(CountedIn(Accepted(k), minute.History(k)));
      }
    }

    /** Both look-ups of a request. */
    method LookUp(key: string, perMinute: int, perHour: int, c: Clock)
      requires Valid() && minute.last <= c.sweep && c.Ordered()
      modifies this`accessCount, this`accepted, minute, hour
      ensures Valid() && minute.last == c.hourGet && accessCount == old(accessCount) + 1
      ensures minute.history == old(minute.HistoryFor(key, perMinute))
      ensures hour.history == old(hour.HistoryFor(key, perHour))
      ensures minute.limits == old(minute.limits)[key := perMinute] && hour.limits == old(hour.limits)[key := perHour]
      ensures key in minute.slots && minute.slots[key].touched == c.minuteGet
      ensures key in hour.slots && hour.slots[key].touched == c.hourGet
      ensures minute.slots[key].limiter.max == perMinute && hour.slots[key].limiter.max == perHour
      ensures minute.slots - {key} == Swept(old(minute.slots), accessCount, c.sweep) - {key}
      ensures hour.slots - {key} == Swept(old(hour.slots), accessCount, c.sweep) - {key}
      ensures OwnHits(minute.slots, key, perMinute)
           == old(OwnHits(Swept(minute.slots, accessCount + 1, c.sweep), key, perMinute))
      ensures OwnHits(hour.slots, key, perHour)
           == old(OwnHits(Swept(hour.slots, accessCount + 1, c.sweep), key, perHour))
      ensures fresh(minute.Limiters() - old(minute.Limiters())) && fresh(hour.Limiters() - old(hour.Limiters()))
    {
      hide Valid, Swept, OwnHits;
      StoresDiffer();
      GetMinuteLimiter(key, perMinute, c.sweep, c.minuteGet);
      GetHourLimiter(key, perHour, c.hourGet);
    }

    /** Asks the two limiters that were just looked up, the second only if the first accepts. */
    method Hit(key: string, c: Clock) returns (ok: bool)
      requires Valid() && minute.last <= c.minuteHit && c.Ordered()
      requires key in minute.slots && c.minuteHit <= minute.slots[key].touched + minute.lag
      requires key in hour.slots && c.hourHit <= hour.slots[key].touched + hour.lag
      modifies this`accepted, minute`history, minute`last, hour`history, hour`last
      modifies minute.slots[key].limiter, hour.slots[key].limiter
      ensures Valid() && minute.last <= c.hourDone
      ensures var inMinute := HasRoom(old(minute.slots[key].limiter.Accepted(key)), c.minuteHit, 60.0,
                                      old(minute.Max(key)));
              && ok == (inMinute && HasRoom(old(hour.slots[key].limiter.Accepted(key)), c.hourHit, 3600.0,
                                            old(hour.Max(key))))
              && minute.history == Recorded(old(minute.history), key, c.minuteHit, inMinute)
      ensures hour.history == Recorded(old(hour.history), key, c.hourHit, ok)
      ensures accepted == Recorded(old(accepted), key, c.minuteHit, ok)
      ensures ok ==> HasRoom(old(minute.History(key)), c.minuteHit, minute.Span(), old(minute.Max(key)))
                     && HasRoom(old(hour.History(key)), c.hourHit, hour.Span(), old(hour.Max(key)))
      ensures !ok ==> !HasRoom(old(minute.History(key)), c.minuteHit, 60.0, old(minute.Max(key)))
                      || !HasRoom(old(hour.History(key)), c.hourHit, 3600.0, old(hour.Max(key)))
    {
      hide Valid, CountedIn, HasRoom;
      StoresDiffer();
      LimitersDiffer(key);
      var minuteLimited := HitMinute(key, c.minuteHit, c.minuteDone);
      if minuteLimited { return false; }
      var hourLimited := HitHour(key, c.hourHit, c.hourDone);
      if hourLimited { return false; }
      ok := true;
      Count(key, c.minuteHit);
    }

    lemma LimitersDiffer(key: string)
      requires Valid() && key in minute.slots && key in hour.slots
      ensures minute.slots[key].limiter != hour.slots[key].limiter
    {
    }

    method HitMinute(key: string, now: real, later: real) returns (limited: bool)
      requires Valid() && minute.last <= now <= later
      requires key in minute.slots && now <= minute.slots[key].touched + minute.lag
      modifies minute`history, minute`last, hour`last, minute.slots[key].limiter
      ensures Valid() && minute.last == later
      ensures limited == !HasRoom(old(minute.slots[key].limiter.Accepted(key)), now, 60.0, old(minute.Max(key)))
      ensures limited ==> !HasRoom(old(minute.History(key)), now, 60.0, old(minute.Max(key)))
      ensures !limited ==> HasRoom(old(minute.History(key)), now, minute.Span(), old(minute.Max(key)))
      ensures minute.history == Recorded(old(minute.history), key, now, !limited)
      ensures !limited ==> CountedIn(Accepted(key) + [now], minute.History(key))
    {
      hide LimiterStore.Valid, LimiterStore.KeyOk, CountedIn, Recent;
      NotALimiter(minute);
      NotALimiter(hour);
      limited := minute.IsLimited(key, now, later);
      hour.Wait(later);
      NotALimiter(minute);
      CountOnce(Accepted(key), old(minute.History(key)), now);
      forall k ensures CountedIn(Accepted(k), minute.History(k)) {
        assert old(CountedIn(Accepted(k), minute.History(k)));
      }
    }

    method HitHour(key: string, now: real, later: real) returns (limited: bool)
      requires Valid() && minute.last <= now <= later
      requires key in hour.slots && now <= hour.slots[key].touched + hour.lag
      modifies hour`history, hour`last, minute`last, hour.slots[key].limiter
      ensures Valid() && minute.last == later
      ensures limited == !HasRoom(old(hour.slots[key].limiter.Accepted(key)), now, 3600.0, old(hour.Max(key)))
      ensures limited ==> !HasRoom(old(hour.History(key)), now, 3600.0, old(hour.Max(key)))
      ensures !limited ==> HasRoom(old(hour.History(key)), now, hour.Span(), old(hour.Max(key)))
      ensures hour.history == Recorded(old(hour.history), key, now, !limited)
    {
      hide LimiterStore.Valid, LimiterStore.KeyOk, CountedIn, Recent;
      NotALimiter(minute);
      NotALimiter(hour);
      assert hour.slots[key].limiter !in minute.Limiters();
      limited := hour.IsLimited(key, now, later);
      NotALimiter(minute);
      minute.Wait(later);
      NotALimiter(hour);
      forall k ensures CountedIn(Accepted(k), minute.History(k)) {
        assert old(CountedIn(Accepted(k), minute.History(k)));
      }
    }

    ghost method Count(key: string, now: real)
      requires Valid() && CountedIn(Accepted(key) + [now], minute.History(key))
      modifies this`accepted
      ensures Valid() && accepted == Recorded(old(accepted), key, now, true)
    {
      hide LimiterStore.Valid, LimiterStore.KeyOk, CountedIn;
      NotALimiter(minute);
      NotALimiter(hour);
      accepted := accepted[key := Accepted(key) + [now]];
      forall k ensures CountedIn(Accepted(k), minute.History(k)) {
        assert old(CountedIn(Accepted(k), minute.History(k)));
      }
    }

    /** The rate limiting of one request; false stands for the 429 response.  It goes by what
        the two limiters of the key remember, after the sweep and with the limits of this
        request. */
    method Admit(key: string, perMinute: int, perHour: int, c: Clock) returns (ok: bool)
      requires Valid() && minute.last <= c.sweep && c.Ordered() && c.Within(minute.lag)
      modifies this`accessCount, this`accepted, minute, hour, minute.Limiters(), hour.Limiters()
      ensures Valid() && minute.last <= c.hourDone && accessCount == old(accessCount) + 1
      ensures key in minute.slots && minute.slots[key].touched == c.minuteGet
      ensures key in hour.slots && hour.slots[key].touched == c.hourGet
      ensures minute.limits == old(minute.limits)[key := perMinute] && hour.limits == old(hour.limits)[key := perHour]
      ensures minute.slots - {key} == Swept(old(minute.slots), accessCount, c.sweep) - {key}
      ensures hour.slots - {key} == Swept(old(hour.slots), accessCount, c.sweep) - {key}
      ensures var minuteOwn := old(OwnHits(Swept(minute.slots, accessCount + 1, c.sweep), key, perMinute));
              var hourOwn := old(OwnHits(Swept(hour.slots, accessCount + 1, c.sweep), key, perHour));
              var inMinute := HasRoom(minuteOwn, c.minuteHit, 60.0, perMinute);
              && ok == (inMinute && HasRoom(hourOwn, c.hourHit, 3600.0, perHour))
              && minute.history == Recorded(old(minute.HistoryFor(key, perMinute)), key, c.minuteHit, inMinute)
      ensures hour.history == Recorded(old(hour.HistoryFor(key, perHour)), key, c.hourHit, ok)
      ensures Justified(ok, HitsOf(old(minute.HistoryFor(key, perMinute)), key),
                        HitsOf(old(hour.HistoryFor(key, perHour)), key), perMinute, perHour, c)
      ensures fresh(minute.Limiters() - old(minute.Limiters())) && fresh(hour.Limiters() - old(hour.Limiters()))
    {
      hide Valid, Swept, HasRoom, LimiterStore.HistoryFor, LimiterStore.Span, Recorded;
      LookUp(key, perMinute, perHour, c);
      SameLag();
      ok := Hit(key, c);
    }

    lemma SameLag()
      requires Valid()
      ensures minute.lag == hour.lag
    {
    }

    /** A request is accepted only if the whole history of the key leaves room in both spans,
        and rejected only if it leaves none in one of the windows, whatever was evicted and
        pruned and whichever limits changed.  When hits and look-ups share a clock reading
        (`lag` 0), the two conditions are each other's negation. */
    ghost predicate Justified(ok: bool, minuteHits: seq<real>, hourHits: seq<real>, perMinute: int, perHour: int,
                              c: Clock)
    {
      if ok then
        HasRoom(minuteHits, c.minuteHit, minute.Span(), perMinute) && HasRoom(hourHits, c.hourHit, hour.Span(), perHour)
      else
        !HasRoom(minuteHits, c.minuteHit, 60.0, perMinute) || !HasRoom(hourHits, c.hourHit, 3600.0, perHour)
    }

    /** The spans: the minute is whole unless the lag comes near an hour, and an hour is short
        of the lag. */
    lemma Spans()
      requires Valid()
      ensures minute.lag <= 3540.0 ==> minute.Span() == 60.0
      ensures hour.lag <= 3600.0 ==> hour.Span() == 3600.0 - hour.lag
    {
      hide LimiterStore.KeyOk, CountedIn;
    }

    /** For every key and its current limits: no span of a minute has more accepted requests
        than the minute limit, and no span of an hour more than the hour limit. */
    lemma WindowsAreBounded(key: string, end: real)
      requires Valid() && key in minute.limits && key in hour.limits
      requires minute.limits[key] >= 0 && hour.limits[key] >= 0
      ensures InWindow(Accepted(key), end, minute.Span()) <= minute.limits[key]
      ensures InWindow(hour.History(key), end, hour.Span()) <= hour.limits[key]
    {
      assert minute.KeyOk(key) && hour.KeyOk(key);
      assert Bounded(minute.History(key), minute.limits[key], minute.Span());
      assert Bounded(hour.History(key), hour.limits[key], hour.Span());
      assert CountedIn(Accepted(key), minute.History(key));
    }
  }

  /** The lag matters: for every positive one, a key whose only request hit its hour limiter
      that much after the look-up loses the limiter to the hundredth look-up, while the hit is
      still in the window; and then an hour holds two accepted requests under a limit of one. */
  method LateHitIsForgotten(lag: real) returns (limiters: KeyLimiters, now: real)
    requires 0.0 < lag
    ensures fresh(limiters) && limiters.Valid() && limiters.accessCount == LIMITER_CLEANUP_INTERVAL
    ensures "k" in limiters.hour.limits && limiters.hour.limits["k"] == 1
    ensures limiters.hour.History("k") == [lag, now] && InWindow(limiters.hour.History("k"), now, 3600.0) == 2
  {
    hide Waiting;
    now := if lag <= 3600.0 then 3600.0 + lag / 2.0 else lag;
    limiters := FirstRequest(lag);
    OtherRequests(limiters, lag);
    LastRequest(limiters, lag, now);
    BothInWindow(lag, now, 3600.0);
  }

  /** The limiters while `count` requests have been made, the first for key "k". */
  ghost predicate Waiting(limiters: KeyLimiters, lag: real, count: nat)
    reads limiters, limiters.minute, limiters.hour, limiters.minute.Limiters(), limiters.hour.Limiters()
  {
    && limiters.Valid() && limiters.accessCount == count
    && limiters.minute.last <= lag && limiters.minute.lag == lag
    && Idle(limiters.minute.slots) && Idle(limiters.hour.slots)
    && "k" in limiters.hour.limits && limiters.hour.limits["k"] == 1
    && "k" in limiters.minute.limits && limiters.minute.limits["k"] == 1
    && limiters.hour.History("k") == [lag]
  }

  /** The key has not been looked up since time zero. */
  predicate Idle(slots: map<string, Slot>) { "k" in slots ==> slots["k"].touched == 0.0 }

  lemma IdleAfter(slots: map<string, Slot>, swept: map<string, Slot>, count: nat, now: real)
    requires Idle(slots) && swept - {"j"} == Swept(slots, count, now) - {"j"}
    ensures Idle(swept)
  {
    assert "k" in swept ==> "k" in swept - {"j"} && (swept - {"j"})["k"] == swept["k"];
  }

  method FirstRequest(lag: real) returns (limiters: KeyLimiters)
    requires 0.0 < lag
    ensures fresh(limiters) && fresh(limiters.minute) && fresh(limiters.hour)
    ensures fresh(limiters.minute.Limiters()) && fresh(limiters.hour.Limiters())
    ensures Waiting(limiters, lag, 1)
  {
    hide KeyLimiters.Valid, KeyLimiters.Justified;
    limiters := new KeyLimiters(lag, 0.0);
    var _ := limiters.Admit("k", 1, 1, Clock(0.0, 0.0, 0.0, lag, lag, lag, lag));
  }

  /** Requests for another key. */
  method OtherRequests(limiters: KeyLimiters, lag: real)
    requires 0.0 < lag && Waiting(limiters, lag, 1)
    modifies limiters, limiters.minute, limiters.hour, limiters.minute.Limiters(), limiters.hour.Limiters()
    ensures Waiting(limiters, lag, LIMITER_CLEANUP_INTERVAL - 1)
    ensures fresh(limiters.minute.Limiters() - old(limiters.minute.Limiters()))
    ensures fresh(limiters.hour.Limiters() - old(limiters.hour.Limiters()))
  {
    hide Waiting;
    for i := 1 to LIMITER_CLEANUP_INTERVAL - 1
      invariant Waiting(limiters, lag, i)
      invariant fresh(limiters.minute.Limiters() - old(limiters.minute.Limiters()))
      invariant fresh(limiters.hour.Limiters() - old(limiters.hour.Limiters()))
    {
      OtherRequest(limiters, lag, i);
    }
  }

  method OtherRequest(limiters: KeyLimiters, lag: real, ghost count: nat)
    requires 0.0 < lag && Waiting(limiters, lag, count)
    modifies limiters, limiters.minute, limiters.hour, limiters.minute.Limiters(), limiters.hour.Limiters()
    ensures Waiting(limiters, lag, count + 1)
    ensures fresh(limiters.minute.Limiters() - old(limiters.minute.Limiters()))
    ensures fresh(limiters.hour.Limiters() - old(limiters.hour.Limiters()))
  {
    hide KeyLimiters.Valid, KeyLimiters.Justified, Idle, Swept, OwnHits;
    var _ := limiters.Admit("j", 1, 1, Clock(lag, lag, lag, lag, lag, lag, lag));
    IdleAfter(old(limiters.minute.slots), limiters.minute.slots, count + 1, lag);
    IdleAfter(old(limiters.hour.slots), limiters.hour.slots, count + 1, lag);
  }

  method LastRequest(limiters: KeyLimiters, lag: real, now: real)
    requires 0.0 < lag <= now && 3600.0 < now && Waiting(limiters, lag, LIMITER_CLEANUP_INTERVAL - 1)
    modifies limiters, limiters.minute, limiters.hour, limiters.minute.Limiters(), limiters.hour.Limiters()
    ensures limiters.Valid() && limiters.accessCount == LIMITER_CLEANUP_INTERVAL
    ensures "k" in limiters.hour.limits && limiters.hour.limits["k"] == 1
    ensures limiters.hour.History("k") == [lag, now]
  {
    hide KeyLimiters.Valid, KeyLimiters.Justified;
    var _ := limiters.Admit("k", 1, 1, Clock(now, now, now, now, now, now, now));
  }

  lemma BothInWindow(a: real, b: real, window: real)
    requires b - window < a <= b && window > 0.0
    ensures InWindow([a, b], b, window) == 2
  {
    assert [a, b][..1] == [a] && [a][..0] == [];
    assert InWindow([a], b, window) == 1;
  }
}
