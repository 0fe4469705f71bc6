/**
 Any number of workers append to one log (backend/audit/chain/commands.py:133-262).  Every
 database call is one atomic step; the steps of different calls interleave freely, clock
 readings grow stale between being taken and being used, and the database may reap an
 expired lock document at any time.
 */
module AppendProtocol {
  import opened Wrappers
  import opened Timestamps
  import opened Hashing
  import opened ChainVerification
  import opened ChainRules
  import Lease

  /** One call of `append_chained_entry`; its lock object has an owner id of its own. */
  type Call = nat

  datatype LockDoc = LockDoc(owner: Call, expires: int)

  /** Where a call is.  From `Held` to `Releasing` it believes to hold the lock, under the
      expiry `until` that it wrote. */
  datatype Pc =
    | Idle
    | Inserting(read: int)
    | TakingOver(read: int)
    | Held(until: int)
    | Allocated(until: int, sequence: nat)
    | Closing(until: int, sequence: nat, last: Option<nat>, lastHash: Option<string>)
    | Linking(until: int, sequence: nat, previousEpochHash: Option<string>)
    | Writing(until: int, entry: Entry, attempt: nat)
    | RollingBack(until: int, sequence: nat)
    | Releasing(until: int)
    | Finished

  /** Thirty seconds, on a clock that counts microseconds. */
  const TTL: int := 30_000_000

  datatype State = State(now: int, lock: Option<LockDoc>, counter: nat, log: Log, calls: map<Call, Pc>, size: nat)
  {
    function At(c: Call): Pc { if c in calls then calls[c] else Idle }

    function Go(c: Call, pc: Pc): State { this.(calls := calls[c := pc]) }
  }

  datatype Step =
    | Tick(now: int)
    | Reap
    | ReadClock(c: Call)
    | InsertLock(c: Call)
    | TakeOver(c: Call)
    | Allocate(c: Call)
    | FindBoundary(c: Call, found: Option<nat>)
    | MarkEnd(c: Call)
    | ReadLink(c: Call, draft: Draft)
    | Insert(c: Call, ok: bool)
    | RollBack(c: Call)
    | Release(c: Call)

  ghost predicate Enabled(s: State, step: Step)
    requires s.size >= 1
  {
    match step
    case Tick(now) => now > s.now
    case Reap => s.lock.Some? && s.lock.value.expires <= s.now
    case ReadClock(c) => s.At(c).Idle?
    case InsertLock(c) => s.At(c).Inserting?
    case TakeOver(c) => s.At(c).TakingOver?
    case Allocate(c) => s.At(c).Held?
    case FindBoundary(c, found) =>
      s.At(c).Allocated? && IsBoundary(s.At(c).sequence, s.size)
      && BoundaryQuery(s.log, s.At(c).sequence / s.size - 1, found)
    case MarkEnd(c) => s.At(c).Closing?
    case ReadLink(c, draft) =>
      FromUtcNow(draft)
      && (s.At(c).Linking? || (s.At(c).Allocated? && !IsBoundary(s.At(c).sequence, s.size)))
    case Insert(c, _) => s.At(c).Writing?
    case RollBack(c) => s.At(c).RollingBack?
    case Release(c) => s.At(c).Releasing?
  }

  ghost function Next(hash: EntryHasher, s: State, step: Step): (t: State)
    requires s.size >= 1 && Enabled(s, step)
    ensures t.size == s.size
  {
    match step
    case Tick(now) => s.(now := now)
    case Reap => s.(lock := None)
    case ReadClock(c) => s.Go(c, Inserting(s.now))
    case InsertLock(c) =>
      var read := s.At(c).read;
      if s.lock.None? then s.(lock := Some(LockDoc(c, read + TTL))).Go(c, Held(read + TTL))
      else s.Go(c, TakingOver(read))
    case TakeOver(c) =>
      var read := s.At(c).read;
      if s.lock.Some? && s.lock.value.expires < read
      then s.(lock := Some(LockDoc(c, read + TTL))).Go(c, Held(read + TTL))
      else s.Go(c, Idle)
    case Allocate(c) => s.(counter := s.counter + 1).Go(c, Allocated(s.At(c).until, s.counter))
    case FindBoundary(c, found) =>
      s.Go(c, Closing(s.At(c).until, s.At(c).sequence, found, HashOf(s.log, found)))
    case MarkEnd(c) =>
      var pc := s.At(c);
      s.(log := Marked(s.log, pc.last)).Go(c, Linking(pc.until, pc.sequence, pc.lastHash))
    case ReadLink(c, draft) =>
      var pc := s.At(c);
      var peh := if pc.Linking? then pc.previousEpochHash else None;
      s.Go(c, Writing(pc.until, BuildEntry(hash, draft, pc.sequence, s.size, peh, LinkFor(s.log, pc.sequence)), 0))
    case Insert(c, ok) =>
      var pc := s.At(c);
      if ok && pc.entry.sequence >= 0 && pc.entry.sequence !in s.log && pc.entry.timestamp.Moment?
      then s.(log := s.log[pc.entry.sequence := Stored(pc.entry)]).Go(c, Releasing(pc.until))
      else if pc.attempt == 0 then s.Go(c, Writing(pc.until, pc.entry, 1))
      else s.Go(c, RollingBack(pc.until, if pc.entry.sequence >= 0 then pc.entry.sequence else 0))
    case RollBack(c) => s.(counter := s.At(c).sequence).Go(c, Releasing(s.At(c).until))
    case Release(c) =>
      s.(lock := if s.lock.Some? && s.lock.value.owner == c then None else s.lock).Go(c, Finished)
  }

  // ---------------------------------------------------------------- the invariant

  predicate Critical(pc: Pc) {
    pc.Held? || pc.Allocated? || pc.Closing? || pc.Linking? || pc.Writing? || pc.RollingBack? || pc.Releasing?
  }

  /** Between allocating a sequence number and inserting its entry, or giving it back. */
  predicate Owing(pc: Pc) { Critical(pc) && !pc.Held? && !pc.Releasing? }

  /** The assumption under which the lock protects the log: a number is allocated within the
      lease, and while a call owes an entry its lease runs.  Nothing is asked of a call that
      has only taken the lock or only has to release it, so such calls may be late or crash. */
  ghost predicate Timely(s: State, step: Step) {
    && (forall c :: Owing(s.At(c)) ==> s.now < s.At(c).until)
    && (step.Allocate? && s.At(step.c).Held? ==> s.now < s.At(step.c).until)
  }

  /** A call in the critical section within its lease. */
  predicate Live(s: State, c: Call) { Critical(s.At(c)) && s.now < s.At(c).until }

  /** A call that owes an entry, or is in the critical section within its lease. */
  predicate Protected(s: State, c: Call) { Owing(s.At(c)) || Live(s, c) }

  /** What a call in the critical section knows, when the log has `n` entries. */
  ghost predicate Knows(hash: EntryHasher, s: State, n: nat, pc: Pc)
    requires WellChained(hash, s.log, n, s.size)
  {
    match pc
    case Allocated(_, q) => q == n
    case Closing(_, q, last, lastHash) =>
      q == n && IsBoundary(n, s.size) && last == Some(n - 1) && lastHash == LinkFor(s.log, n)
    case Linking(_, q, peh) =>
      q == n && IsBoundary(n, s.size) && peh == LinkFor(s.log, n) && s.log[n - 1].isEpochEnd
    case Writing(_, e, _) =>
      Appendable(hash, s.log, n, s.size, e) && (IsBoundary(n, s.size) ==> s.log[n - 1].isEpochEnd)
    case RollingBack(_, q) => q == n
    case _ => true
  }

  predicate OwnerOwes(s: State) { s.lock.Some? && Owing(s.At(s.lock.value.owner)) }

  /** No call that still tries to take the lock has a clock reading from the future. */
  ghost predicate ReadingsArePast(s: State) {
    forall c :: s.At(c).Inserting? || s.At(c).TakingOver? ==> s.At(c).read <= s.now
  }

  ghost predicate LockInv(s: State) {
    && (forall c :: Protected(s, c) ==> s.lock == Some(LockDoc(c, s.At(c).until)))
    && ReadingsArePast(s)
  }

  ghost predicate Inv(hash: EntryHasher, s: State, n: nat) {
    && s.size >= 1
    && LockInv(s)
    && WellChained(hash, s.log, n, s.size)
    && (s.lock.Some? ==> Knows(hash, s, n, s.At(s.lock.value.owner)))
    && s.counter == (if OwnerOwes(s) then n + 1 else n)
  }

  /** The number of entries after a step. */
  function LengthAfter(s: State, n: nat, step: Step): nat {
    if step.Insert? && step.ok && s.At(step.c).Writing? && s.At(step.c).entry.sequence == n then n + 1 else n
  }

  /** No two calls are ever in the critical section together, unless one of them is late and
      owes nothing. */
  lemma MutualExclusion(s: State, c: Call, d: Call)
    requires LockInv(s) && Protected(s, c) && Protected(s, d)
    ensures c == d
  {
    assert LockDoc(c, s.At(c).until) == LockDoc(d, s.At(d).until);
  }

  /** A lock document can be taken over or reaped only when no call is protected by it. */
  lemma ExpiredMeansFree(s: State, step: Step, c: Call)
    requires LockInv(s) && Timely(s, step) && s.lock.Some? && s.lock.value.expires <= s.now
    ensures !Protected(s, c)
  {
  }

  /** When a lock document is replaced or removed, no call was protected by it, or only the
      call that removes its own. */
  lemma LockStepKeepsLockInv(hash: EntryHasher, s: State, step: Step)
    requires s.size >= 1 && LockInv(s) && Timely(s, step) && Enabled(s, step)
    requires step.Tick? || step.Reap? || step.ReadClock? || step.InsertLock? || step.TakeOver? || step.Release?
    ensures LockInv(Next(hash, s, step))
  {
    var t := Next(hash, s, step);
    forall d ensures Protected(t, d) ==> t.lock == Some(LockDoc(d, t.At(d).until)) {
      assert Protected(s, d) ==> s.lock == Some(LockDoc(d, s.At(d).until)) && s.now < s.At(d).until;
      if step.TakeOver? {
        assert s.At(step.c).read <= s.now;
      }
    }
    forall d | t.At(d).Inserting? || t.At(d).TakingOver? ensures t.At(d).read <= t.now {
      assert s.At(d).Inserting? || s.At(d).TakingOver? ==> s.At(d).read <= s.now;
    }
  }

  lemma LockStepKeepsInv(hash: EntryHasher, s: State, n: nat, step: Step)
    requires Inv(hash, s, n) && Timely(s, step) && Enabled(s, step)
    requires step.Tick? || step.Reap? || step.ReadClock? || step.InsertLock? || step.TakeOver? || step.Release?
    ensures Inv(hash, Next(hash, s, step), n)
  {
    hide WellChained, BuildEntry, BoundaryQuery;
    LockStepKeepsLockInv(hash, s, step);
    var t := Next(hash, s, step);
    if s.lock.Some? {
      var owner := s.lock.value.owner;
      assert t.lock == s.lock && !step.Tick? && !step.Reap? && owner != step.c ==> t.At(owner) == s.At(owner);
      if step.Reap? || step.TakeOver? {
        assert step.TakeOver? ==> s.At(step.c).read <= s.now;
        if s.lock.value.expires <= s.now { ExpiredMeansFree(s, step, owner); }
      }
    }
  }

  /** The steps inside the critical section. */
  lemma CriticalStepKeepsLock(hash: EntryHasher, s: State, step: Step)
    requires s.size >= 1 && LockInv(s) && Timely(s, step) && Enabled(s, step)
    requires !(step.Tick? || step.Reap? || step.ReadClock? || step.InsertLock? || step.TakeOver? || step.Release?)
    ensures var t := Next(hash, s, step);
            LockInv(t) && t.lock == s.lock && s.lock.Some? && s.lock.value.owner == step.c
            && t.now == s.now && Critical(t.At(step.c))
  {
    hide BuildEntry, BoundaryQuery;
    var t := Next(hash, s, step);
    assert forall c :: c != step.c ==> t.At(c) == s.At(c);
    assert Protected(s, step.c);
    assert t.At(step.c).until == s.At(step.c).until;
  }

  lemma AllocateKeepsInv(hash: EntryHasher, s: State, n: nat, step: Step)
    requires Inv(hash, s, n) && Timely(s, step) && Enabled(s, step) && (step.Allocate? || step.RollBack?)
    ensures Inv(hash, Next(hash, s, step), n)
  {
    hide WellChained, LockInv;
    CriticalStepKeepsLock(hash, s, step);
  }

  lemma CloseKeepsInv(hash: EntryHasher, s: State, n: nat, step: Step)
    requires IgnoresMarks(hash)
    requires Inv(hash, s, n) && Timely(s, step) && Enabled(s, step) && (step.FindBoundary? || step.MarkEnd?)
    ensures Inv(hash, Next(hash, s, step), n)
  {
    hide WellChained, LockInv, EntryOk;
    CriticalStepKeepsLock(hash, s, step);
    if step.FindBoundary? {
      BoundaryIsPrevious(hash, s.log, n, s.size, step.found);
    } else {
      MarkKeepsChain(hash, s.log, n, s.size);
    }
  }

  lemma LinkKeepsInv(hash: EntryHasher, s: State, n: nat, step: Step)
    requires SurvivesStorage(hash)
    requires Inv(hash, s, n) && Timely(s, step) && Enabled(s, step) && step.ReadLink?
    ensures Inv(hash, Next(hash, s, step), n)
  {
    hide LockInv, EntryOk, BuildEntry, Appendable;
    CriticalStepKeepsLock(hash, s, step);
    BuiltIsAppendable(hash, s.log, n, s.size, step.draft);
  }

  lemma InsertKeepsInv(hash: EntryHasher, s: State, n: nat, step: Step)
    requires Inv(hash, s, n) && Timely(s, step) && Enabled(s, step) && step.Insert?
    ensures Inv(hash, Next(hash, s, step), LengthAfter(s, n, step))
  {
    hide LockInv, EntryOk;
    CriticalStepKeepsLock(hash, s, step);
    var e := s.At(step.c).entry;
    if step.ok {
      assert n !in s.log;
      WriteExtendsChain(hash, s.log, n, s.size, e);
    }
  }

  /** Every step keeps the invariant, as long as no call that owes an entry outlives its lease. */
  lemma StepKeepsInv(hash: EntryHasher, s: State, n: nat, step: Step)
    requires IgnoresMarks(hash) && SurvivesStorage(hash)
    requires Inv(hash, s, n) && Timely(s, step) && Enabled(s, step)
    ensures Inv(hash, Next(hash, s, step), LengthAfter(s, n, step))
  {
    hide Inv, Next, Enabled, Timely;
    match step
    case Tick(_) => LockStepKeepsInv(hash, s, n, step);
    case Reap => LockStepKeepsInv(hash, s, n, step);
    case ReadClock(_) => LockStepKeepsInv(hash, s, n, step);
    case InsertLock(_) => LockStepKeepsInv(hash, s, n, step);
    case TakeOver(_) => LockStepKeepsInv(hash, s, n, step);
    case Release(_) => LockStepKeepsInv(hash, s, n, step);
    case Allocate(_) => AllocateKeepsInv(hash, s, n, step);
    case RollBack(_) => AllocateKeepsInv(hash, s, n, step);
    case FindBoundary(_, _) => CloseKeepsInv(hash, s, n, step);
    case MarkEnd(_) => CloseKeepsInv(hash, s, n, step);
    case ReadLink(_, _) => LinkKeepsInv(hash, s, n, step);
    case Insert(_, _) => InsertKeepsInv(hash, s, n, step);
  }

  /** The lock of the protocol as an abstract lease: a call claims it while it is in the
      critical section. */
  function LeaseOf(s: State): Lease.State {
    Lease.State(s.now, if s.lock.None? then None else Some(Lease.Doc(s.lock.value.owner, s.lock.value.expires)),
                map c | c in s.calls && Critical(s.calls[c]) :: s.calls[c].until)
  }

  function LeaseStep(s: State, step: Step): Option<Lease.Step>
    requires step.InsertLock? ==> s.At(step.c).Inserting?
    requires step.TakeOver? ==> s.At(step.c).TakingOver?
  {
    match step
    case Tick(now) => Some(Lease.Tick(now))
    case Reap => Some(Lease.Reap)
    case InsertLock(c) => if s.lock.None? then Some(Lease.Insert(c, s.At(c).read + TTL)) else None
    case TakeOver(c) =>
      var read := s.At(c).read;
      if s.lock.Some? && s.lock.value.expires < read then Some(Lease.TakeOver(c, read, read + TTL)) else None
    case Release(c) => Some(Lease.Release(c))
    case _ => None
  }

  /** The steps inside the critical section leave the claims alone. */
  lemma CriticalStepKeepsClaims(hash: EntryHasher, s: State, step: Step)
    requires s.size >= 1 && Enabled(s, step)
    requires !(step.Tick? || step.Reap? || step.ReadClock? || step.InsertLock? || step.TakeOver? || step.Release?)
    ensures LeaseOf(Next(hash, s, step)) == LeaseOf(s)
  {
    hide BuildEntry, BoundaryQuery;
    var t := Next(hash, s, step);
    assert t.calls == s.calls[step.c := t.At(step.c)] && step.c in s.calls;
    assert Critical(s.At(step.c)) && Critical(t.At(step.c)) && t.At(step.c).until == s.At(step.c).until;
    assert LeaseOf(t).claims == LeaseOf(s).claims;
    assert t.lock == s.lock && t.now == s.now;
  }

  /** Every step of an append, timely or not, is a step of the abstract lease, or leaves the
      lease alone. */
  lemma AppendRefinesLease(hash: EntryHasher, s: State, step: Step)
    requires s.size >= 1 && ReadingsArePast(s) && Enabled(s, step)
    ensures var a := LeaseStep(s, step);
            if a.Some? then Lease.Enabled(LeaseOf(s), a.value)
                            && LeaseOf(Next(hash, s, step)) == Lease.Next(LeaseOf(s), a.value)
            else LeaseOf(Next(hash, s, step)) == LeaseOf(s)
  {
    hide BuildEntry, BoundaryQuery;
    if step.Tick? || step.Reap? || step.ReadClock? || step.InsertLock? || step.TakeOver? || step.Release? {
      LockStepRefinesLease(hash, s, step);
    } else {
      CriticalStepKeepsClaims(hash, s, step);
    }
  }

  lemma LockStepRefinesLease(hash: EntryHasher, s: State, step: Step)
    requires s.size >= 1 && ReadingsArePast(s) && Enabled(s, step)
    requires step.Tick? || step.Reap? || step.ReadClock? || step.InsertLock? || step.TakeOver? || step.Release?
    ensures var a := LeaseStep(s, step);
            if a.Some? then Lease.Enabled(LeaseOf(s), a.value)
                            && LeaseOf(Next(hash, s, step)) == Lease.Next(LeaseOf(s), a.value)
            else LeaseOf(Next(hash, s, step)) == LeaseOf(s)
  {
    var t, a := Next(hash, s, step), LeaseStep(s, step);
    if step.TakeOver? { assert s.At(step.c).read <= s.now; }
    if step.Tick? || step.Reap? {
      assert LeaseOf(t).claims == LeaseOf(s).claims;
    } else {
      ClaimsAfter(s, step.c, t.At(step.c));
      assert a.Some? && !step.Release? ==> Lease.Next(LeaseOf(s), a.value).claims
                                           == LeaseOf(s).claims[step.c := t.At(step.c).until];
    }
  }

  /** When one call moves on, only its own claim can change. */
  lemma ClaimsAfter(s: State, c: Call, pc: Pc)
    ensures LeaseOf(s.Go(c, pc)).claims
         == if Critical(pc) then LeaseOf(s).claims[c := pc.until] else LeaseOf(s).claims - {c}
    ensures !Critical(s.At(c)) ==> LeaseOf(s).claims - {c} == LeaseOf(s).claims
  {
  }

  // ---------------------------------------------------------------- whole runs

  ghost predicate IsRun(hash: EntryHasher, states: seq<State>, steps: seq<Step>) {
    && |states| == |steps| + 1
    && forall i :: 0 <= i < |steps| ==>
         states[i].size >= 1 && Enabled(states[i], steps[i]) && states[i + 1] == Next(hash, states[i], steps[i])
  }

  /** A log of `n` entries with its counter in place, and nobody appending; a lock document
      that a crash has left behind may still be there. */
  ghost predicate Start(hash: EntryHasher, s: State, n: nat) {
    WellChained(hash, s.log, n, s.size) && s.counter == n && s.calls == map[]
  }

  ghost predicate AllTimely(states: seq<State>, steps: seq<Step>)
    requires |steps| <= |states|
  {
    forall i :: 0 <= i < |steps| ==> Timely(states[i], steps[i])
  }

  /** The log only grows; of an old entry only the end mark can change. */
  predicate Extends(a: Log, b: Log) {
    forall s :: s in a ==> s in b && b[s] == a[s].(isEpochEnd := b[s].isEpochEnd)
  }

  lemma StepExtends(hash: EntryHasher, s: State, step: Step)
    requires s.size >= 1 && Enabled(s, step)
    ensures Extends(s.log, Next(hash, s, step).log)
  {
    hide BuildEntry, BoundaryQuery, LinkFor, HashOf, IsBoundary;
    assert step.MarkEnd? || step.Insert? || Next(hash, s, step).log == s.log;
  }

  /** In every state of every timely run the log is a chain without gaps, and the counter
      agrees with it. */
  lemma {:induction false} RunKeepsInv(hash: EntryHasher, states: seq<State>, steps: seq<Step>, n0: nat, i: nat)
    returns (n: nat)
    requires IgnoresMarks(hash) && SurvivesStorage(hash)
    requires IsRun(hash, states, steps) && Start(hash, states[0], n0) && AllTimely(states, steps)
    requires i < |states|
    ensures n0 <= n && Inv(hash, states[i], n) && Extends(states[0].log, states[i].log)
    decreases i
  {
    if i == 0 {
      n := n0;
    } else {
      hide Inv, Next, Enabled, Timely, Start;
      var m := RunKeepsInv(hash, states, steps, n0, i - 1);
      n := LengthAfter(states[i - 1], m, steps[i - 1]);
      StepKeepsInv(hash, states[i - 1], m, steps[i - 1]);
      StepExtends(hash, states[i - 1], steps[i - 1]);
    }
  }

  lemma StepKeepsReadings(hash: EntryHasher, s: State, step: Step)
    requires s.size >= 1 && Enabled(s, step) && ReadingsArePast(s)
    ensures ReadingsArePast(Next(hash, s, step))
  {
    hide BuildEntry, BoundaryQuery;
    var t := Next(hash, s, step);
    forall d | t.At(d).Inserting? || t.At(d).TakingOver? ensures t.At(d).read <= t.now {
      assert s.At(d).Inserting? || s.At(d).TakingOver? ==> s.At(d).read <= s.now;
    }
  }

  /** What the lock gives in every run, timely or not: a call that believes to hold it, under
      an expiry that has not come yet, owns the document, so there is at most one such call. */
  lemma {:induction false} LiveHoldersOwnTheLock(hash: EntryHasher, states: seq<State>, steps: seq<Step>, i: nat)
    requires IsRun(hash, states, steps) && states[0].calls == map[] && i < |states|
    ensures ReadingsArePast(states[i]) && Lease.Inv(LeaseOf(states[i]))
    ensures var s := states[i];
            && (forall c :: Live(s, c) ==> s.lock == Some(LockDoc(c, s.At(c).until)))
            && forall c, d :: Live(s, c) && Live(s, d) ==> c == d
    decreases i
  {
    hide Enabled, Next;
    if i > 0 {
      LiveHoldersOwnTheLock(hash, states, steps, i - 1);
      StepKeepsReadings(hash, states[i - 1], steps[i - 1]);
      StepKeepsLease(hash, states[i - 1], steps[i - 1]);
    }
    forall c | Live(states[i], c) ensures states[i].lock == Some(LockDoc(c, states[i].At(c).until)) {
      assert Lease.Live(LeaseOf(states[i]), c);
    }
  }

  lemma StepKeepsLease(hash: EntryHasher, s: State, step: Step)
    requires s.size >= 1 && ReadingsArePast(s) && Enabled(s, step) && Lease.Inv(LeaseOf(s))
    ensures Lease.Inv(LeaseOf(Next(hash, s, step)))
  {
    hide Next;
    AppendRefinesLease(hash, s, step);
    if LeaseStep(s, step).Some? {
      Lease.StepKeepsInv(LeaseOf(s), LeaseStep(s, step).value);
    }
  }

  /** The counter is ahead of the log exactly while some call owes an entry. */
  lemma CounterTellsWhoOwes(hash: EntryHasher, s: State, n: nat)
    requires Inv(hash, s, n)
    ensures s.counter == if exists c :: Owing(s.At(c)) then n + 1 else n
  {
    hide WellChained, Knows;
    if c :| Owing(s.At(c)) {
      assert Protected(s, c);
    }
  }

  /** Chain safety, with the real hash: after any timely run from a well-chained log, the log
      is 0..n-1, old entries are untouched except for end marks, every entry links to and
      hashes over its predecessor, the verifier agrees for every batch size, and the counter
      is `n`, or `n + 1` exactly while a call sits between allocation and insert. */
  lemma AppendersBuildAChain(sha: Sha, states: seq<State>, steps: seq<Step>, n0: nat, batch: nat) returns (n: nat)
    requires IsRun(HasherOf(sha), states, steps) && Start(HasherOf(sha), states[0], n0) && AllTimely(states, steps)
    requires batch >= 1
    ensures var s := states[|steps|];
            && n0 <= n && WellChained(HasherOf(sha), s.log, n, s.size)
            && Extends(states[0].log, s.log)
            && s.counter == (if exists c :: Owing(s.At(c)) then n + 1 else n)
            && (forall c, d :: Protected(s, c) && Protected(s, d) ==> c == d)
            && (n > 0 ==> var v := FullVerification(HasherOf(sha), s.log, n - 1, batch);
                          v.status == VALID && v.verified == n)
  {
    hide EntryHash, Start, AllTimely, WellChained, Enabled, Next;
    Sha256SurvivesStorage(sha);
    n := RunKeepsInv(HasherOf(sha), states, steps, n0, |steps|);
    var s := states[|steps|];
    CounterTellsWhoOwes(HasherOf(sha), s, n);
    forall c, d | Protected(s, c) && Protected(s, d) ensures c == d { MutualExclusion(s, c, d); }
    if n > 0 { WellChainedVerifies(HasherOf(sha), s.log, n, s.size, batch); }
  }

  // ---------------------------------------------------------------- why the assumption is needed

  ghost function Run(hash: EntryHasher, s: State, steps: seq<Step>): Option<State>
    requires s.size >= 1
    decreases |steps|
  {
    if steps == [] then Some(s)
    else if !Enabled(s, steps[0]) then None
    else Run(hash, Next(hash, s, steps[0]), steps[1..])
  }

  lemma RunOne(hash: EntryHasher, s: State, step: Step, rest: seq<Step>)
    requires s.size >= 1 && Enabled(s, step)
    ensures Run(hash, s, [step] + rest) == Run(hash, Next(hash, s, step), rest)
  {
    assert ([step] + rest)[1..] == rest;
  }

  /** A log with a genesis entry only. */
  function GenesisState(genesis: Entry): State {
    State(0, None, 1, map[0 := genesis], map[], 1000)
  }

  /** The same log after call 0 has allocated number 1 and then outlived its lease. */
  function StalledState(genesis: Entry): State {
    State(TTL, None, 2, map[0 := genesis], map[0 := Allocated(TTL, 1)], 1000)
  }

  lemma CallStalls(hash: EntryHasher, genesis: Entry, rest: seq<Step>)
    ensures Run(hash, GenesisState(genesis),
                [ReadClock(0)] + ([InsertLock(0)] + ([Allocate(0)] + ([Tick(TTL)] + ([Reap] + rest)))))
         == Run(hash, StalledState(genesis), rest)
  {
    hide Run;
    var s0 := GenesisState(genesis);
    var s1 := s0.Go(0, Inserting(0));
    var s2 := s0.(lock := Some(LockDoc(0, TTL)), calls := map[0 := Held(TTL)]);
    var s3 := s2.(counter := 2, calls := map[0 := Allocated(TTL, 1)]);
    var s4 := s3.(now := TTL);
    RunOne(hash, s0, ReadClock(0), [InsertLock(0)] + ([Allocate(0)] + ([Tick(TTL)] + ([Reap] + rest))));
    RunOne(hash, s1, InsertLock(0), [Allocate(0)] + ([Tick(TTL)] + ([Reap] + rest)));
    assert Next(hash, s1, InsertLock(0)) == s2;
    RunOne(hash, s2, Allocate(0), [Tick(TTL)] + ([Reap] + rest));
    assert Next(hash, s2, Allocate(0)) == s3;
    RunOne(hash, s3, Tick(TTL), [Reap] + rest);
    RunOne(hash, s4, Reap, rest);
  }

  /** And after call 1 has taken the lock and allocated number 2. */
  function OvertakenState(genesis: Entry): State {
    State(TTL, Some(LockDoc(1, TTL + TTL)), 3, map[0 := genesis],
          map[0 := Allocated(TTL, 1), 1 := Allocated(TTL + TTL, 2)], 1000)
  }

  lemma NextCallAllocates(hash: EntryHasher, genesis: Entry, rest: seq<Step>)
    ensures Run(hash, StalledState(genesis), [ReadClock(1)] + ([InsertLock(1)] + ([Allocate(1)] + rest)))
         == Run(hash, OvertakenState(genesis), rest)
  {
    hide Run;
    var s0 := StalledState(genesis);
    var s1 := s0.(calls := s0.calls[1 := Inserting(TTL)]);
    var s2 := s0.(lock := Some(LockDoc(1, TTL + TTL)), calls := s0.calls[1 := Held(TTL + TTL)]);
    RunOne(hash, s0, ReadClock(1), [InsertLock(1)] + ([Allocate(1)] + rest));
    RunOne(hash, s1, InsertLock(1), [Allocate(1)] + rest);
    assert Next(hash, s1, InsertLock(1)) == s2;
    RunOne(hash, s2, Allocate(1), rest);
    assert Next(hash, s2, Allocate(1)) == OvertakenState(genesis);
  }

  lemma NextCallWrites(hash: EntryHasher, genesis: Entry, d: Draft)
    requires FromUtcNow(d)
    ensures var end := Run(hash, OvertakenState(genesis), [ReadLink(1, d)] + ([Insert(1, true)] + []));
            end.Some? && 1 !in end.value.log && 2 in end.value.log && end.value.log[2].previousHash == None
  {
    hide Run;
    var s3 := OvertakenState(genesis);
    var e := BuildEntry(hash, d, 2, 1000, None, None);
    var s4 := s3.(calls := s3.calls[1 := Writing(TTL + TTL, e, 0)]);
    RunOne(hash, s3, ReadLink(1, d), [Insert(1, true)] + []);
    assert Next(hash, s3, ReadLink(1, d)) == s4;
    RunOne(hash, s4, Insert(1, true), []);
    RunNone(hash, Next(hash, s4, Insert(1, true)));
  }

  lemma RunNone(hash: EntryHasher, s: State)
    requires s.size >= 1
    ensures Run(hash, s, []) == Some(s)
  {
  }

  /** The steps of that disaster. */
  function DisasterSteps(d: Draft): seq<Step> {
    [ReadClock(0)] + ([InsertLock(0)] + ([Allocate(0)] + ([Tick(TTL)] + ([Reap]
    + ([ReadClock(1)] + ([InsertLock(1)] + ([Allocate(1)] + ([ReadLink(1, d)] + ([Insert(1, true)] + [])))))))))
  }

  /** Without the assumption on leases the log breaks.  Call 0 stalls after its allocation
      until its lease has run out and been reaped; call 1 then allocates the next number,
      finds no predecessor, and writes an entry behind a gap.  No number of entries makes
      the result a chain. */
  lemma OutlivedLeaseBreaksTheChain(hash: EntryHasher, genesis: Entry, d: Draft)
    requires FromUtcNow(d) && Start(hash, GenesisState(genesis), 1)
    ensures var end := Run(hash, GenesisState(genesis), DisasterSteps(d));
            && end.Some? && 0 in end.value.log && 1 !in end.value.log && 2 in end.value.log
            && forall n: nat :: !WellChained(hash, end.value.log, n, end.value.size)
  {
    hide Run, BuildEntry;
    var rest := [ReadClock(1)] + ([InsertLock(1)] + ([Allocate(1)] + ([ReadLink(1, d)] + ([Insert(1, true)] + []))));
    CallStalls(hash, genesis, rest);
    NextCallAllocates(hash, genesis, [ReadLink(1, d)] + ([Insert(1, true)] + []));
    NextCallWrites(hash, genesis, d);
    var end := Run(hash, GenesisState(genesis), DisasterSteps(d));
    RunGrows(hash, GenesisState(genesis), DisasterSteps(d));
    var log, size := end.value.log, end.value.size;
    forall n: nat ensures !WellChained(hash, log, n, size) {
      assert WellChained(hash, log, n, size) ==> 2 < n && 1 in log;
    }
  }

  lemma {:induction false} RunGrows(hash: EntryHasher, s: State, steps: seq<Step>)
    requires s.size >= 1 && Run(hash, s, steps).Some?
    ensures Extends(s.log, Run(hash, s, steps).value.log)
    decreases |steps|
  {
    hide Next, Enabled;
    if steps != [] {
      StepExtends(hash, s, steps[0]);
      RunGrows(hash, Next(hash, s, steps[0]), steps[1..]);
    }
  }
}
