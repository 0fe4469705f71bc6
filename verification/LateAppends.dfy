/**
 When the append lock protects the log (backend/audit/chain/commands.py:173-259).  It is taken
 without a heartbeat, so that nothing keeps a call from outliving its lease.  From a state with
 the protocol's invariant, every continuation without a further delay leaves a chain if and
 only if no call that owes an entry has outlived its lease.
 */
module LateAppends {
  import opened Wrappers
  import opened CanonicalJson
  import opened Timestamps
  import opened Hashing
  import opened ChainVerification
  import opened ChainRules
  import opened AppendProtocol
  import Runs

  /** What is asked of every step of a run. */
  type Policy = (State, Step) -> bool

  ghost predicate Moves(hash: EntryHasher, policy: Policy, s: State, t: State) {
    s.size >= 1 && exists step :: Enabled(s, step) && policy(s, step) && t == Next(hash, s, step)
  }

  ghost function By(hash: EntryHasher, policy: Policy): (State, State) -> bool {
    (s, t) => Moves(hash, policy, s, t)
  }

  /** There is a run from `s` to `t` whose steps follow the policy. */
  ghost predicate Leads(hash: EntryHasher, policy: Policy, s: State, t: State) {
    Runs.Leads(By(hash, policy), s, t)
  }

  ghost predicate IsChain(hash: EntryHasher, s: State) { exists n: nat :: WellChained(hash, s.log, n, s.size) }

  /** No time passes, and numbers are allocated within the lease. */
  predicate Still(s: State, step: Step) {
    !step.Tick? && (step.Allocate? && s.At(step.c).Held? ==> s.now < s.At(step.c).until)
  }

  /** Every call that owes an entry is within its lease. */
  ghost predicate InTime(s: State) { forall c :: Owing(s.At(c)) ==> s.now < s.At(c).until }

  /** Every call that owes an entry is within its lease, apart from those in `late`. */
  ghost predicate InTimeBut(late: set<Call>, s: State) {
    forall c :: Owing(s.At(c)) && c !in late ==> s.now < s.At(c).until
  }

  /** The step would be timely without the calls in `late`. */
  ghost predicate TimelyBut(late: set<Call>, s: State, step: Step) {
    InTimeBut(late, s) && (step.Allocate? && s.At(step.c).Held? && step.c !in late ==> s.now < s.At(step.c).until)
  }

  ghost function OnlyLate(late: set<Call>): Policy { (s, step) => TimelyBut(late, s, step) }

  ghost function Quick(late: set<Call>): Policy { (s, step) => Still(s, step) && TimelyBut(late, s, step) }

  // ---------------------------------------------------------------- putting runs together

  lemma LeadsBy(hash: EntryHasher, policy: Policy, s: State, step: Step, t: State)
    requires s.size >= 1 && Enabled(s, step) && policy(s, step) && Leads(hash, policy, Next(hash, s, step), t)
    ensures Leads(hash, policy, s, t)
  {
    hide Next, Enabled, Runs.Leads;
    assert Moves(hash, policy, s, Next(hash, s, step));
    Runs.LeadsBy(By(hash, policy), s, Next(hash, s, step), t);
  }

  lemma LeadsUnder(hash: EntryHasher, strict: Policy, policy: Policy, s: State, t: State)
    requires Leads(hash, strict, s, t) && forall u, step :: strict(u, step) ==> policy(u, step)
    ensures Leads(hash, policy, s, t)
  {
    hide Next, Enabled;
    Runs.LeadsUnder(By(hash, strict), By(hash, policy), u => u, s, t);
  }

  // ---------------------------------------------------------------- one call, undisturbed

  lemma {:induction false} FreshCall(used: set<Call>) returns (d: Call)
    ensures forall c :: c in used ==> c < d
  {
    if used == {} {
      d := 0;
    } else {
      var c :| c in used;
      d := FreshCall(used - {c});
      assert forall x :: x in used ==> x == c || x in used - {c};
      if d <= c { d := c + 1; }
    }
  }

  lemma {:induction false} LastOfEpochAmong(log: Log, epoch: int, keys: set<nat>) returns (found: Option<nat>)
    requires keys <= log.Keys
    ensures found.Some? ==> found.value in keys && log[found.value].epoch == epoch
    ensures forall t :: t in keys && log[t].epoch == epoch ==> found.Some? && t <= found.value
  {
    if keys == {} {
      found := None;
    } else {
      var t :| t in keys;
      found := LastOfEpochAmong(log, epoch, keys - {t});
      if log[t].epoch == epoch && (found.None? || found.value < t) { found := Some(t); }
    }
  }

  /** The state `t` after call `d` has written an entry under its number `q`. */
  predicate WroteAt(s: State, t: State, d: Call, q: nat) {
    && t.log.Keys == s.log.Keys + {q} && q in t.log && t.log[q].previousHash == LinkFor(s.log, q)
    && t.now == s.now && t.size == s.size && t.lock == s.lock && t.counter == s.counter
    && s.At(d).Allocated? && t.calls == s.calls[d := Releasing(s.At(d).until)]
  }

  function SomeDraft(): Draft {
    Draft(DateTime(2026, 1, 1, 0, 0, 0, 0, Some(0)), "", "", "", "", "", Null, None)
  }

  lemma StepIsQuick(late: set<Call>, s: State, step: Step)
    requires InTimeBut(late, s) && !step.Tick? && !step.Allocate?
    ensures Quick(late)(s, step)
  {
  }

  /** The last two steps of an append, whether or not an epoch was closed before them. */
  lemma WriteLinked(hash: EntryHasher, late: set<Call>, s: State, d: Call) returns (t: State)
    requires s.size >= 1 && InTimeBut(late, s)
    requires s.At(d).Linking? || (s.At(d).Allocated? && !IsBoundary(s.At(d).sequence, s.size))
    requires s.At(d).sequence !in s.log
    ensures Leads(hash, Quick(late), s, t)
    ensures var q := s.At(d).sequence;
            && t.log.Keys == s.log.Keys + {q} && q in t.log && t.log[q].previousHash == LinkFor(s.log, q)
            && t == s.(log := t.log).Go(d, Releasing(s.At(d).until))
  {
    hide Runs.Leads, InTimeBut, Quick, By;
    var write, insert := ReadLink(d, SomeDraft()), Insert(d, true);
    var s1 := Next(hash, s, write);
    assert s1 == s.Go(d, s1.At(d)) && s1.At(d).Writing? && s1.At(d).entry.sequence == s.At(d).sequence;
    StillInTime(hash, late, s, write);
    t := Next(hash, s1, insert);
    assert s1.calls[d := Releasing(s.At(d).until)] == s.calls[d := Releasing(s.At(d).until)];
    Runs.LeadsToItself(By(hash, Quick(late)), t);
    StepIsQuick(late, s1, insert);
    LeadsBy(hash, Quick(late), s1, insert, t);
    StepIsQuick(late, s, write);
    LeadsBy(hash, Quick(late), s, write, t);
  }

  /** Steps that take no time keep every call in time that was. */
  lemma StillInTime(hash: EntryHasher, late: set<Call>, s: State, step: Step)
    requires s.size >= 1 && Enabled(s, step) && InTimeBut(late, s) && Still(s, step)
    ensures InTimeBut(late, Next(hash, s, step))
  {
    hide BuildEntry, BoundaryQuery;
    var t := Next(hash, s, step);
    forall c | Owing(t.At(c)) && c !in late ensures t.now < t.At(c).until {
      assert !step.Reap? && c == step.c ==> Critical(s.At(c)) && t.At(c).until == s.At(c).until;
      assert step.Reap? || c != step.c ==> t.At(c) == s.At(c);
    }
  }

  /** A call that has allocated a free number can write an entry under it without delay. */
  lemma WriteNumber(hash: EntryHasher, late: set<Call>, s: State, d: Call) returns (t: State)
    requires s.size >= 1 && InTimeBut(late, s) && s.At(d).Allocated? && s.At(d).sequence !in s.log
    ensures Leads(hash, Quick(late), s, t) && WroteAt(s, t, d, s.At(d).sequence)
  {
    hide Leads, InTimeBut, Quick;
    var q := s.At(d).sequence;
    if IsBoundary(q, s.size) {
      var last := LastOfEpochAmong(s.log, q / s.size - 1, s.log.Keys);
      var s1 := Next(hash, s, FindBoundary(d, last));
      StillInTime(hash, late, s, FindBoundary(d, last));
      var s2 := Next(hash, s1, MarkEnd(d));
      StillInTime(hash, late, s1, MarkEnd(d));
      MarkKeepsLinks(s.log, last, q);
      t := WriteLinked(hash, late, s2, d);
      assert t.calls == s.calls[d := Releasing(s.At(d).until)];
      StepIsQuick(late, s1, MarkEnd(d));
      LeadsBy(hash, Quick(late), s1, MarkEnd(d), t);
      StepIsQuick(late, s, FindBoundary(d, last));
      LeadsBy(hash, Quick(late), s, FindBoundary(d, last), t);
    } else {
      t := WriteLinked(hash, late, s, d);
    }
  }

  lemma MarkKeepsLinks(log: Log, found: Option<nat>, sequence: nat)
    ensures Marked(log, found).Keys == log.Keys && LinkFor(Marked(log, found), sequence) == LinkFor(log, sequence)
  {
  }

  /** When the lock is free, a new call can append without delay, if the number that the
      counter gives it is. */
  lemma AppendAlone(hash: EntryHasher, late: set<Call>, s: State, d: Call) returns (t: State)
    requires s.size >= 1 && InTimeBut(late, s) && s.lock.None? && s.At(d).Idle? && s.counter !in s.log
    ensures Leads(hash, Quick(late), s, t)
    ensures t.log.Keys == s.log.Keys + {s.counter} && t.log[s.counter].previousHash == LinkFor(s.log, s.counter)
    ensures t == s.(log := t.log, lock := Some(LockDoc(d, s.now + TTL)), counter := s.counter + 1)
                  .Go(d, Releasing(s.now + TTL))
  {
    hide Leads, InTimeBut;
    var u := s.now + TTL;
    var s1, s2, s3 := AllocatedAlone(hash, late, s, d);
    t := WriteNumber(hash, late, s3, d);
    assert s3.calls[d := Releasing(u)] == s.calls[d := Releasing(u)];
    LeadsBy(hash, Quick(late), s2, Allocate(d), t);
    LeadsBy(hash, Quick(late), s1, InsertLock(d), t);
    LeadsBy(hash, Quick(late), s, ReadClock(d), t);
  }

  lemma AllocatedAlone(hash: EntryHasher, late: set<Call>, s: State, d: Call) returns (s1: State, s2: State, s3: State)
    requires s.size >= 1 && InTimeBut(late, s) && s.lock.None? && s.At(d).Idle?
    ensures Enabled(s, ReadClock(d)) && s1 == Next(hash, s, ReadClock(d)) && Quick(late)(s, ReadClock(d))
    ensures Enabled(s1, InsertLock(d)) && s2 == Next(hash, s1, InsertLock(d)) && Quick(late)(s1, InsertLock(d))
    ensures Enabled(s2, Allocate(d)) && s3 == Next(hash, s2, Allocate(d)) && Quick(late)(s2, Allocate(d))
    ensures InTimeBut(late, s3)
    ensures s3 == s.(lock := Some(LockDoc(d, s.now + TTL)), counter := s.counter + 1)
                   .Go(d, Allocated(s.now + TTL, s.counter))
  {
    s1 := Next(hash, s, ReadClock(d));
    StillInTime(hash, late, s, ReadClock(d));
    s2 := Next(hash, s1, InsertLock(d));
    StillInTime(hash, late, s1, InsertLock(d));
    s3 := Next(hash, s2, Allocate(d));
    StillInTime(hash, late, s2, Allocate(d));
    var u := s.now + TTL;
    assert s1.calls[d := Held(u)][d := Allocated(u, s.counter)] == s.calls[d := Allocated(u, s.counter)];
  }

  // ---------------------------------------------------------------- waiting for the lock

  lemma QuickIsStill(late: set<Call>)
    ensures forall s, step :: Quick(late)(s, step) ==> Still(s, step) && OnlyLate(late)(s, step)
  {
  }

  ghost predicate OnlyOwing(late: set<Call>, s: State) { forall d :: Owing(s.At(d)) ==> d in late }

  /** When nobody outside `late` owes an entry, a new call can wait for the lock and append, if
      the number that the counter gives it is free. */
  lemma AppendAfterLock(hash: EntryHasher, late: set<Call>, s: State) returns (t: State)
    requires s.size >= 1 && OnlyOwing(late, s) && s.counter !in s.log
    ensures Leads(hash, OnlyLate(late), s, t) && t.size == s.size && OnlyOwing(late, t)
    ensures t.log.Keys == s.log.Keys + {s.counter} && t.log[s.counter].previousHash == LinkFor(s.log, s.counter)
  {
    hide Leads;
    if s.lock.Some? && s.now < s.lock.value.expires {
      var wait := Tick(s.lock.value.expires);
      var s1 := Next(hash, s, wait);
      assert forall d :: s1.At(d) == s.At(d);
      t := AppendAfterExpiry(hash, late, s1);
      LeadsBy(hash, OnlyLate(late), s, wait, t);
    } else {
      t := AppendAfterExpiry(hash, late, s);
    }
  }

  lemma AppendAfterExpiry(hash: EntryHasher, late: set<Call>, s: State) returns (t: State)
    requires s.size >= 1 && OnlyOwing(late, s) && s.counter !in s.log
    requires s.lock.Some? ==> s.lock.value.expires <= s.now
    ensures Leads(hash, OnlyLate(late), s, t) && t.size == s.size && OnlyOwing(late, t)
    ensures t.log.Keys == s.log.Keys + {s.counter} && t.log[s.counter].previousHash == LinkFor(s.log, s.counter)
  {
    hide Leads;
    QuickIsStill(late);
    var d := FreshCall(s.calls.Keys);
    if s.lock.Some? {
      var s1 := Next(hash, s, Reap);
      assert forall c :: s1.At(c) == s.At(c);
      t := AppendAlone(hash, late, s1, d);
      LeadsUnder(hash, Quick(late), OnlyLate(late), s1, t);
      LeadsBy(hash, OnlyLate(late), s, Reap, t);
    } else {
      t := AppendAlone(hash, late, s, d);
      LeadsUnder(hash, Quick(late), OnlyLate(late), s, t);
    }
  }

  // ---------------------------------------------------------------- how the chain breaks

  lemma GapIsNoChain(hash: EntryHasher, t: State, n: nat, q: nat)
    requires n < q && n !in t.log && q in t.log
    ensures !IsChain(hash, t)
  {
    hide EntryOk;
  }

  /** A call that owes an entry and has outlived its lease: the lock document is reaped, and
      another call writes behind the gap, without any delay and however the epochs lie. */
  lemma LateCallBreaks(hash: EntryHasher, s: State, n: nat, c: Call) returns (t: State)
    requires Inv(hash, s, n) && Owing(s.At(c)) && s.At(c).until <= s.now
    ensures Leads(hash, Quick({c}), s, t) && !IsChain(hash, t)
  {
    hide EntryOk, Knows, Leads, IsChain;
    assert Protected(s, c);
    forall other | Owing(s.At(other)) ensures other == c { MutualExclusion(s, c, other); }
    var s1 := Next(hash, s, Reap);
    assert forall other :: s1.At(other) == s.At(other);
    var d := FreshCall(s1.calls.Keys);
    t := AppendAlone(hash, {c}, s1, d);
    GapIsNoChain(hash, t, n, s1.counter);
    LeadsBy(hash, Quick({c}), s, Reap, t);
  }

  // ---------------------------------------------------------------- the exact condition

  ghost predicate SafeAndInTime(hash: EntryHasher, s: State) { InTime(s) && exists n :: Inv(hash, s, n) }

  lemma StillKeepsSafe(hash: EntryHasher, s: State, t: State)
    requires IgnoresMarks(hash) && SurvivesStorage(hash)
    requires SafeAndInTime(hash, s) && Moves(hash, Still, s, t)
    ensures SafeAndInTime(hash, t)
  {
    hide Inv, Next, Enabled;
    var n :| Inv(hash, s, n);
    var step :| Enabled(s, step) && Still(s, step) && t == Next(hash, s, step);
    StepKeepsInv(hash, s, n, step);
    StillInTime(hash, {}, s, step);
  }

  /** The exact condition.  From any state with the invariant: every way to go on in which no
      further time passes, and numbers are allocated within the lease, ends in a chain, if and
      only if no call that owes an entry has outlived its lease. */
  lemma ChainIffInTime(sha: Sha, s: State, n: nat)
    requires Inv(HasherOf(sha), s, n)
    ensures (forall t :: Leads(HasherOf(sha), Still, s, t) ==> IsChain(HasherOf(sha), t)) <==> InTime(s)
  {
    hide Inv, EntryHash, Next, Enabled, WellChained;
    var hash := HasherOf(sha);
    Sha256SurvivesStorage(sha);
    if InTime(s) {
      forall t | Leads(hash, Still, s, t) ensures IsChain(hash, t) {
        forall u, v | SafeAndInTime(hash, u) && Moves(hash, Still, u, v) ensures SafeAndInTime(hash, v) {
          StillKeepsSafe(hash, u, v);
        }
        Runs.LeadsKeeps(By(hash, Still), u => SafeAndInTime(hash, u), s, t);
        var m :| Inv(hash, t, m);
        InvIsChain(hash, t, m);
      }
    } else {
      var c :| Owing(s.At(c)) && s.At(c).until <= s.now;
      var t := LateCallBreaks(hash, s, n, c);
      QuickIsStill({c});
      LeadsUnder(hash, Quick({c}), Still, s, t);
    }
  }

  lemma InvIsChain(hash: EntryHasher, s: State, n: nat)
    requires Inv(hash, s, n)
    ensures IsChain(hash, s)
  {
  }

  ghost function LateCalls(s: State): set<Call> {
    set c | c in s.calls && Owing(s.calls[c]) && s.calls[c].until <= s.now
  }

  lemma NoneLate(s: State)
    ensures LateCalls(s) == {} <==> InTime(s)
    ensures forall c :: c in LateCalls(s) <==> Owing(s.At(c)) && s.At(c).until <= s.now
  {
    forall c ensures c in LateCalls(s) <==> Owing(s.At(c)) && s.At(c).until <= s.now {}
  }

  ghost predicate IsSafe(hash: EntryHasher, s: State) { exists n :: Inv(hash, s, n) }

  lemma TimelyRunsKeepChain(hash: EntryHasher, s: State, n: nat, t: State)
    requires IgnoresMarks(hash) && SurvivesStorage(hash) && Inv(hash, s, n) && Leads(hash, OnlyLate({}), s, t)
    ensures IsChain(hash, t)
  {
    hide Inv, Next, Enabled, Timely, WellChained, Runs.Leads;
    forall u, v | IsSafe(hash, u) && Moves(hash, OnlyLate({}), u, v) ensures IsSafe(hash, v) {
      var m :| Inv(hash, u, m);
      var step :| Enabled(u, step) && OnlyLate({})(u, step) && v == Next(hash, u, step);
      TimelyIfNoneLate(u, step);
      StepKeepsInv(hash, u, m, step);
    }
    Runs.LeadsKeeps(By(hash, OnlyLate({})), u => IsSafe(hash, u), s, t);
    var m :| Inv(hash, t, m);
    InvIsChain(hash, t, m);
  }

  lemma TimelyIfNoneLate(s: State, step: Step)
    ensures TimelyBut({}, s, step) <==> Timely(s, step)
  {
  }

  /** The same with time passing: every way to go on in which no further call is late ends in
      a chain, if and only if no call is late already. */
  lemma ChainIffNoneLate(sha: Sha, s: State, n: nat)
    requires Inv(HasherOf(sha), s, n)
    ensures (forall t :: Leads(HasherOf(sha), OnlyLate(LateCalls(s)), s, t) ==> IsChain(HasherOf(sha), t))
       <==> LateCalls(s) == {}
  {
    hide Inv, EntryHash, WellChained, Leads, IsChain;
    var hash := HasherOf(sha);
    Sha256SurvivesStorage(sha);
    NoneLate(s);
    if LateCalls(s) == {} {
      forall t | Leads(hash, OnlyLate({}), s, t) ensures IsChain(hash, t) { TimelyRunsKeepChain(hash, s, n, t); }
    } else {
      var c :| c in LateCalls(s);
      var t := LateCallBreaks(hash, s, n, c);
      LeadsUnder(hash, Quick({c}), OnlyLate(LateCalls(s)), s, t);
    }
  }

  // ---------------------------------------------------------------- late allocation

  /** The other half of the assumption: when a call allocates its number and from then on no
      further call is late, every run ends in a chain, if and only if it did so within its lease. */
  lemma ChainIffAllocatedInTime(sha: Sha, s: State, n: nat, c: Call)
    requires Inv(HasherOf(sha), s, n) && InTime(s) && s.At(c).Held?
    ensures var u := Next(HasherOf(sha), s, Allocate(c));
            (forall t :: Leads(HasherOf(sha), OnlyLate(LateCalls(u)), u, t) ==> IsChain(HasherOf(sha), t))
            <==> s.now < s.At(c).until
  {
    hide Inv, EntryHash, WellChained, Leads, IsChain;
    var hash := HasherOf(sha);
    Sha256SurvivesStorage(sha);
    LateAfterAllocation(hash, s, n, c);
    var u := Next(hash, s, Allocate(c));
    if s.now < s.At(c).until {
      StepKeepsInv(hash, s, n, Allocate(c));
      ChainIffNoneLate(sha, u, n);
    } else {
      var t := LateAllocationBreaks(hash, s, n, c);
    }
  }

  lemma LateAfterAllocation(hash: EntryHasher, s: State, n: nat, c: Call)
    requires Inv(hash, s, n) && InTime(s) && s.At(c).Held?
    ensures s.size >= 1 && LateCalls(Next(hash, s, Allocate(c))) == if s.now < s.At(c).until then {} else {c}
  {
    hide WellChained, Knows;
    var t := Next(hash, s, Allocate(c));
    assert forall d :: d != c ==> t.At(d) == s.At(d);
    NoneLate(t);
    assert s.now >= s.At(c).until ==> c in LateCalls(t);
  }

  /** A call that allocates its number after its lease can break the chain, even if every other
      call is on time in the whole run. */
  lemma LateAllocationBreaks(hash: EntryHasher, s: State, n: nat, c: Call) returns (t: State)
    requires Inv(hash, s, n) && InTime(s) && s.At(c).Held? && s.At(c).until <= s.now
    ensures s.size >= 1 && Leads(hash, OnlyLate({c}), Next(hash, s, Allocate(c)), t) && !IsChain(hash, t)
  {
    hide WellChained, Leads, IsChain, Inv;
    var s1 := AllocatedLate(hash, s, n, c);
    if OwnerOwes(s) {
      t := WriteNumber(hash, {c}, s1, c);
      GapIsNoChain(hash, t, n, n + 1);
      QuickIsStill({c});
      LeadsUnder(hash, Quick({c}), OnlyLate({c}), s1, t);
    } else {
      t := AppendAfterLock(hash, {c}, s1);
      GapIsNoChain(hash, t, n, s1.counter);
    }
  }

  /** What a late allocation leaves: the counter is ahead of the log, and of other calls only
      the owner of the lock can owe an entry. */
  lemma AllocatedLate(hash: EntryHasher, s: State, n: nat, c: Call) returns (t: State)
    requires Inv(hash, s, n) && InTime(s) && s.At(c).Held? && s.At(c).until <= s.now
    ensures s.size >= 1 && Enabled(s, Allocate(c)) && t == Next(hash, s, Allocate(c)) && t.At(c).Allocated?
    ensures InTimeBut({c}, t) && WellChained(hash, t.log, n, t.size) && t.counter > n
    ensures n !in t.log && t.counter !in t.log && n + 1 !in t.log
    ensures OwnerOwes(s) ==> t.At(c).sequence == n + 1
    ensures !OwnerOwes(s) ==> OnlyOwing({c}, t)
  {
    hide EntryOk, Knows;
    t := Next(hash, s, Allocate(c));
    assert forall d :: d != c ==> t.At(d) == s.At(d);
    assert forall d :: Owing(s.At(d)) ==> Protected(s, d);
  }
}
