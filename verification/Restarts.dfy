/**
 Appends at the same time as initialisations (backend/audit/chain/commands.py:57-262): every
 start of a worker initialises the chain (backend/main.py:597), and so does a request
 (backend/audit/chain/router.py:170), while other workers append.  An initialisation sets the
 counter without holding the append lock.
 */
module Restarts {
  import opened Wrappers
  import opened CanonicalJson
  import opened Timestamps
  import opened Hashing
  import opened ChainVerification
  import opened ChainRules
  import AP = AppendProtocol
  import Late = LateAppends
  import Genesis
  import ChainStore
  import Runs

  /** The state of the appends, and where each initialisation is; log and counter are shared. */
  datatype State = State(chain: AP.State, inits: map<Genesis.Call, Genesis.Pc>)
  {
    function At(c: Genesis.Call): Genesis.Pc { Init().At(c) }

    function Init(): Genesis.State { Genesis.State(chain.log, chain.counter, inits) }
  }

  datatype Step = Append(append: AP.Step) | Initialise(init: Genesis.Step)

  ghost predicate Enabled(hash: EntryHasher, s: State, step: Step)
    requires s.chain.size >= 1
  {
    match step
    case Append(a) => AP.Enabled(s.chain, a)
    case Initialise(i) => Genesis.Enabled(hash, s.chain.size, s.Init(), i)
  }

  ghost function Next(hash: EntryHasher, s: State, step: Step): (t: State)
    requires s.chain.size >= 1 && Enabled(hash, s, step)
    ensures t.chain.size == s.chain.size
  {
    match step
    case Append(a) => s.(chain := AP.Next(hash, s.chain, a))
    case Initialise(i) =>
      var t := Genesis.Next(hash, s.chain.size, s.Init(), i);
      State(s.chain.(log := t.log, counter := t.counter), t.calls)
  }

  /** Appends are timely, also while initialisations take their steps. */
  ghost predicate Timely(s: State, step: Step) {
    && Late.InTime(s.chain)
    && (step.Append? ==> AP.Timely(s.chain, step.append))
  }

  // ---------------------------------------------------------------- the invariant

  /** The number that a call owes. */
  function NumberOf(pc: AP.Pc): int
    requires AP.Owing(pc)
  {
    if pc.Writing? then pc.entry.sequence else pc.sequence
  }

  /** The owner of the lock owes an entry under a number that is taken already. */
  predicate Stale(s: AP.State, n: nat) { AP.OwnerOwes(s) && NumberOf(s.At(s.lock.value.owner)) < n }

  /** What a call with such a number knows: there is nothing left for it to change. */
  predicate KnowsTaken(s: AP.State, n: nat, pc: AP.Pc)
    requires s.size >= 1 && AP.Owing(pc)
  {
    && 0 <= NumberOf(pc) < n
    && (pc.Closing? ==> IsBoundary(pc.sequence, s.size) && pc.last == Some(pc.sequence - 1))
  }

  /** The next number, or the one that is owed, is taken already. */
  predicate Short(s: AP.State, n: nat) { if AP.OwnerOwes(s) then Stale(s, n) else s.counter < n }

  function Expected(s: AP.State, n: nat): nat { if AP.OwnerOwes(s) then n + 1 else n }

  /** The counter is not beyond its place, and the rest is as if it were there, apart from a
      call that has got a number that is taken. */
  ghost predicate ChainInv(hash: EntryHasher, s: AP.State, n: nat) {
    && s.size >= 1 && AP.LockInv(s) && WellChained(hash, s.log, n, s.size)
    && if Stale(s, n)
       then KnowsTaken(s, n, s.At(s.lock.value.owner)) && s.counter <= n
       else s.counter <= Expected(s, n) && AP.Inv(hash, s.(counter := Expected(s, n)), n)
  }

  /** An initialisation that has found the genesis entry. */
  predicate Finding(pc: Genesis.Pc, n: nat) {
    pc.Idle? || pc.ReadingMax? || pc.Done? || (pc.Following? && pc.next <= n)
  }

  ghost predicate Inv(hash: EntryHasher, s: State, n: nat) {
    n >= 1 && ChainInv(hash, s.chain, n) && forall c :: Finding(s.At(c), n)
  }

  function LengthAfter(s: State, n: nat, step: Step): nat {
    if step.Append? then AP.LengthAfter(s.chain, n, step.append) else n
  }

  // ---------------------------------------------------------------- initialisations

  lemma InitialisationKeepsInv(hash: EntryHasher, s: State, n: nat, step: Step)
    requires Inv(hash, s, n) && step.Initialise? && Enabled(hash, s, step)
    ensures Inv(hash, Next(hash, s, step), n)
    ensures Next(hash, s, step).chain == s.chain.(counter := Next(hash, s, step).chain.counter)
    ensures step.init.Follow? || Next(hash, s, step).chain == s.chain
  {
    hide EntryOk, AP.Knows, Genesis.IsGenesis;
    var t, i := Next(hash, s, step), step.init;
    assert Finding(s.At(i.c), n);
    assert 0 in s.chain.log;
    assert i.ReadMax? ==> i.latest in s.chain.log && n - 1 in s.chain.log;
    assert forall c :: c != i.c ==> t.At(c) == s.At(c);
    forall c ensures Finding(t.At(c), n) {
      assert Finding(s.At(c), n);
    }
    assert i.Follow? ==> t.chain.counter <= n;
    OtherCounter(hash, s.chain, t.chain, n);
  }

  /** A lower counter does no harm to the invariant. */
  lemma OtherCounter(hash: EntryHasher, s: AP.State, t: AP.State, n: nat)
    requires ChainInv(hash, s, n) && t == s.(counter := t.counter) && (t.counter == s.counter || t.counter <= n)
    ensures ChainInv(hash, t, n)
  {
    hide WellChained, AP.Knows;
    assert forall c :: t.At(c) == s.At(c);
    assert t.(counter := Expected(t, n)) == s.(counter := Expected(s, n));
  }

  // ---------------------------------------------------------------- appends

  lemma AppendKeepsInv(hash: EntryHasher, s: AP.State, n: nat, step: AP.Step)
    requires IgnoresMarks(hash) && SurvivesStorage(hash)
    requires ChainInv(hash, s, n) && AP.Timely(s, step) && AP.Enabled(s, step)
    ensures ChainInv(hash, AP.Next(hash, s, step), AP.LengthAfter(s, n, step))
  {
    hide AP.Next, AP.Enabled, AP.Timely, ChainInv;
    if Stale(s, n) {
      StaleStep(hash, s, n, step);
    } else if step.Allocate? {
      AllocateStep(hash, s, n, step);
    } else {
      UsualStep(hash, s, n, step);
    }
  }

  lemma UsualStep(hash: EntryHasher, s: AP.State, n: nat, step: AP.Step)
    requires IgnoresMarks(hash) && SurvivesStorage(hash)
    requires ChainInv(hash, s, n) && AP.Timely(s, step) && AP.Enabled(s, step) && !Stale(s, n) && !step.Allocate?
    ensures ChainInv(hash, AP.Next(hash, s, step), AP.LengthAfter(s, n, step))
  {
    hide WellChained, AP.Knows, AP.Next, AP.Enabled, AP.Timely;
    var u := s.(counter := Expected(s, n));
    CounterUnread(hash, s, u, step);
    AP.StepKeepsInv(hash, u, n, step);
    var t, v, m := AP.Next(hash, s, step), AP.Next(hash, u, step), AP.LengthAfter(s, n, step);
    NotStale(hash, v, m);
    assert forall c :: t.At(c) == v.At(c);
    assert t.(counter := Expected(t, m)) == v;
  }

  /** The counter is read by no other step than the allocation. */
  lemma CounterUnread(hash: EntryHasher, s: AP.State, u: AP.State, step: AP.Step)
    requires s.size >= 1 && AP.Timely(s, step) && AP.Enabled(s, step) && !step.Allocate?
    requires u == s.(counter := u.counter) && s.counter <= u.counter
    ensures AP.Enabled(u, step) && AP.Timely(u, step)
    ensures var t, v := AP.Next(hash, s, step), AP.Next(hash, u, step);
            t == v.(counter := t.counter) && t.counter <= v.counter
  {
    hide BuildEntry, BoundaryQuery;
    assert forall c :: u.At(c) == s.At(c);
  }

  lemma NotStale(hash: EntryHasher, s: AP.State, n: nat)
    requires AP.Inv(hash, s, n)
    ensures !Stale(s, n) && s.counter == Expected(s, n)
  {
    hide WellChained;
  }

  /** An allocation takes the next number, or one that is taken already. */
  lemma AllocateStep(hash: EntryHasher, s: AP.State, n: nat, step: AP.Step)
    requires IgnoresMarks(hash) && SurvivesStorage(hash)
    requires ChainInv(hash, s, n) && AP.Timely(s, step) && AP.Enabled(s, step) && step.Allocate?
    ensures ChainInv(hash, AP.Next(hash, s, step), n)
  {
    hide WellChained, AP.LockInv;
    AP.CriticalStepKeepsLock(hash, s, step);
    assert s.At(step.c).Held? && !AP.OwnerOwes(s);
    if s.counter == n {
      assert s == s.(counter := Expected(s, n));
      AP.StepKeepsInv(hash, s, n, step);
      var t := AP.Next(hash, s, step);
      NotStale(hash, t, n);
      assert t == t.(counter := Expected(t, n));
    }
  }

  /** A call with a taken number changes nothing, and in the end gives the number back. */
  lemma StaleStep(hash: EntryHasher, s: AP.State, n: nat, step: AP.Step)
    requires IgnoresMarks(hash) && SurvivesStorage(hash)
    requires ChainInv(hash, s, n) && AP.Timely(s, step) && AP.Enabled(s, step) && Stale(s, n)
    ensures AP.LengthAfter(s, n, step) == n
    ensures ChainInv(hash, AP.Next(hash, s, step), n)
    ensures AP.Next(hash, s, step).log == s.log
    ensures Short(AP.Next(hash, s, step), n)
  {
    hide WellChained, AP.Knows, AP.LockInv, BuildEntry;
    if step.Tick? || step.Reap? || step.ReadClock? || step.InsertLock? || step.TakeOver? || step.Release? {
      StaleLockStep(hash, s, n, step);
    } else {
      AP.CriticalStepKeepsLock(hash, s, step);
      TakenStep(hash, s, n, step);
    }
  }

  lemma StaleLockStep(hash: EntryHasher, s: AP.State, n: nat, step: AP.Step)
    requires ChainInv(hash, s, n) && AP.Timely(s, step) && AP.Enabled(s, step) && Stale(s, n)
    requires step.Tick? || step.Reap? || step.ReadClock? || step.InsertLock? || step.TakeOver? || step.Release?
    ensures ChainInv(hash, AP.Next(hash, s, step), n)
    ensures AP.Next(hash, s, step).log == s.log && Stale(AP.Next(hash, s, step), n)
  {
    hide WellChained, AP.Knows;
    var t, owner := AP.Next(hash, s, step), s.lock.value.owner;
    AP.LockStepKeepsLockInv(hash, s, step);
    assert AP.Protected(s, owner);
    assert s.now < s.lock.value.expires;
    assert step.TakeOver? ==> s.At(step.c).read <= s.now;
    assert !step.Tick? && !step.Reap? ==> step.c != owner;
    assert t.lock == s.lock && t.At(owner) == s.At(owner) && t.log == s.log;
  }

  lemma TakenStep(hash: EntryHasher, s: AP.State, n: nat, step: AP.Step)
    requires ChainInv(hash, s, n) && AP.Timely(s, step) && AP.Enabled(s, step) && Stale(s, n)
    requires !(step.Tick? || step.Reap? || step.ReadClock? || step.InsertLock? || step.TakeOver? || step.Release?)
    requires s.lock.value.owner == step.c && AP.Next(hash, s, step).lock == s.lock
    requires AP.LockInv(AP.Next(hash, s, step))
    ensures ChainInv(hash, AP.Next(hash, s, step), n) && AP.Next(hash, s, step).log == s.log
    ensures Short(AP.Next(hash, s, step), n)
  {
    hide EntryOk, AP.LockInv;
    var t, pc := AP.Next(hash, s, step), s.At(step.c);
    if step.FindBoundary? {
      EarlierBoundary(hash, s.log, n, s.size, pc.sequence, step.found);
    }
    if step.MarkEnd? {
      MarkedAlready(hash, s.log, n, s.size, pc.sequence);
    }
    assert t.log == s.log && t.size == s.size;
    if step.RollBack? {
      NobodyOwes(hash, t, n);
    } else {
      assert AP.OwnerOwes(t) && NumberOf(t.At(step.c)) == NumberOf(pc);
    }
  }

  lemma MarkedAlready(hash: EntryHasher, log: Log, n: nat, size: nat, q: nat)
    requires WellChained(hash, log, n, size) && q < n && IsBoundary(q, size)
    ensures Marked(log, Some(q - 1)) == log
  {
    BeforeBoundary(q, size);
    assert EntryOk(hash, log, n, size, q - 1);
    assert log[q - 1].(isEpochEnd := true) == log[q - 1];
  }

  /** When nobody owes an entry, the counter may be anywhere up to its place. */
  lemma NobodyOwes(hash: EntryHasher, s: AP.State, n: nat)
    requires s.size >= 1 && AP.LockInv(s) && WellChained(hash, s.log, n, s.size) && s.counter <= n
    requires !AP.OwnerOwes(s)
    ensures ChainInv(hash, s, n)
  {
    hide WellChained;
    var t := s.(counter := n);
    assert forall c :: t.At(c) == s.At(c);
  }

  /** The boundary query also finds the entry before a boundary that is not the last one. */
  lemma EarlierBoundary(hash: EntryHasher, log: Log, n: nat, size: nat, q: nat, found: Option<nat>)
    requires WellChained(hash, log, n, size) && q < n && IsBoundary(q, size) && BoundaryQuery(log, q / size - 1, found)
    ensures found == Some(q - 1)
  {
    BeforeBoundary(q, size);
    assert EntryOk(hash, log, n, size, q - 1);
    assert found.Some? ==> EntryOk(hash, log, n, size, found.value);
    if found.Some? && found.value >= q { LaterEpoch(q, found.value, size); }
  }

  lemma LaterEpoch(q: nat, s: nat, size: nat)
    requires size >= 1 && q <= s
    ensures q / size <= s / size
  {
    var a, b := q / size, s / size;
    if b < a {
      ProductAtLeast(a - b, size);
    }
  }

  // ---------------------------------------------------------------- whole runs

  /** The step that sets the counter by what was read before. */
  predicate Resets(step: Step) { step.Initialise? && step.init.Follow? }

  ghost predicate Moves(hash: EntryHasher, resets: bool, s: State, t: State) {
    s.chain.size >= 1
    && exists step :: Enabled(hash, s, step) && Timely(s, step) && (Resets(step) ==> resets) && t == Next(hash, s, step)
  }

  /** There is a timely run from `s` to `t`; without `resets`, no initialisation sets the
      counter in it. */
  ghost predicate Leads(hash: EntryHasher, resets: bool, s: State, t: State) {
    Runs.Leads(By(hash, resets), s, t)
  }

  ghost function By(hash: EntryHasher, resets: bool): (State, State) -> bool { (s, t) => Moves(hash, resets, s, t) }

  lemma LeadsBy(hash: EntryHasher, s: State, step: Step, t: State)
    requires s.chain.size >= 1 && Enabled(hash, s, step) && Timely(s, step)
    requires Leads(hash, true, Next(hash, s, step), t)
    ensures Leads(hash, true, s, t)
  {
    hide Next, Enabled, Timely, Runs.Leads;
    assert Moves(hash, true, s, Next(hash, s, step));
    Runs.LeadsBy(By(hash, true), s, Next(hash, s, step), t);
  }

  /** Appends by themselves are a run beside waiting initialisations. */
  lemma AppendsLead(hash: EntryHasher, resets: bool, s: State, t: AP.State)
    requires Late.Leads(hash, Late.OnlyLate({}), s.chain, t)
    ensures Leads(hash, resets, s, s.(chain := t))
  {
    hide Next, Enabled, Runs.Leads, AP.Next, AP.Enabled;
    var r, f := Late.By(hash, Late.OnlyLate({})), (chain: AP.State) => State(chain, s.inits);
    forall u, v | r(u, v) ensures Moves(hash, resets, f(u), f(v)) {
      AppendMoves(hash, resets, u, v, s.inits);
    }
    Runs.LeadsUnder(r, By(hash, resets), f, s.chain, t);
  }

  lemma AppendMoves(hash: EntryHasher, resets: bool, u: AP.State, v: AP.State, inits: map<Genesis.Call, Genesis.Pc>)
    requires Late.Moves(hash, Late.OnlyLate({}), u, v)
    ensures Moves(hash, resets, State(u, inits), State(v, inits))
  {
    hide AP.Next, AP.Enabled;
    var a :| AP.Enabled(u, a) && Late.OnlyLate({})(u, a) && v == AP.Next(hash, u, a);
    assert Enabled(hash, State(u, inits), Append(a)) && Timely(State(u, inits), Append(a));
    assert State(v, inits) == Next(hash, State(u, inits), Append(a));
  }

  /** Nobody appends or initialises; the log has `n` entries, and the counter is in place. */
  ghost predicate Start(hash: EntryHasher, s: State, n: nat) {
    AP.Start(hash, s.chain, n) && s.inits == map[]
  }

  lemma StartIsInv(hash: EntryHasher, s: State, n: nat)
    requires Start(hash, s, n) && n >= 1
    ensures Inv(hash, s, n)
  {
    hide EntryOk;
    assert forall c :: s.chain.At(c).Idle?;
    NobodyOwes(hash, s.chain, n);
  }

  /** Some number of entries, no less than `n0`, and of the entries of `s0` only end marks differ. */
  ghost predicate Grown(hash: EntryHasher, s0: State, n0: nat, s: State) {
    AP.Extends(s0.chain.log, s.chain.log) && exists n :: n0 <= n && Inv(hash, s, n)
  }

  lemma StepGrows(hash: EntryHasher, s0: State, n0: nat, s: State, step: Step)
    requires IgnoresMarks(hash) && SurvivesStorage(hash)
    requires Grown(hash, s0, n0, s) && s.chain.size >= 1 && Enabled(hash, s, step) && Timely(s, step)
    ensures Grown(hash, s0, n0, Next(hash, s, step))
  {
    hide Inv;
    var n :| n0 <= n && Inv(hash, s, n);
    StepKeepsInv(hash, s, n, step);
    if step.Append? {
      AP.StepExtends(hash, s.chain, step.append);
    } else {
      InitialisationKeepsInv(hash, s, n, step);
    }
    assert Inv(hash, Next(hash, s, step), LengthAfter(s, n, step)) && n0 <= LengthAfter(s, n, step);
  }

  lemma StepKeepsInv(hash: EntryHasher, s: State, n: nat, step: Step)
    requires IgnoresMarks(hash) && SurvivesStorage(hash)
    requires Inv(hash, s, n) && Enabled(hash, s, step) && Timely(s, step)
    ensures Inv(hash, Next(hash, s, step), LengthAfter(s, n, step))
  {
    hide WellChained, AP.LockInv, AP.Inv, AP.Next, AP.Enabled, AP.Timely;
    if step.Append? {
      AppendKeepsInv(hash, s.chain, n, step.append);
      var t := Next(hash, s, step);
      forall c ensures Finding(t.At(c), LengthAfter(s, n, step)) {
        assert Finding(s.At(c), n);
      }
    } else {
      InitialisationKeepsInv(hash, s, n, step);
    }
  }

  lemma RunGrows(hash: EntryHasher, s: State, n: nat, t: State) returns (m: nat)
    requires IgnoresMarks(hash) && SurvivesStorage(hash)
    requires Inv(hash, s, n) && Leads(hash, true, s, t)
    ensures n <= m && Inv(hash, t, m) && AP.Extends(s.chain.log, t.chain.log)
  {
    hide Inv, Next, Enabled, Timely, Runs.Leads, AP.Extends;
    assert AP.Extends(s.chain.log, s.chain.log) by { ExtendsItself(s.chain.log); }
    assert Grown(hash, s, n, s);
    forall u, v | Grown(hash, s, n, u) && Moves(hash, true, u, v) ensures Grown(hash, s, n, v) {
      var step :| Enabled(hash, u, step) && Timely(u, step) && v == Next(hash, u, step);
      StepGrows(hash, s, n, u, step);
    }
    Runs.LeadsKeeps(By(hash, true), u => Grown(hash, s, n, u), s, t);
    m :| n <= m && Inv(hash, t, m);
  }

  lemma ExtendsItself(log: Log)
    ensures AP.Extends(log, log)
  {
  }

  /** What survives.  After any timely run of appends and initialisations from a log with its
      genesis, the log is a chain that extends the old one and verifies in batches of every
      size, and the counter is not beyond its place; it may be short of it. */
  lemma ChainSurvives(sha: Sha, s: State, n0: nat, t: State, batch: nat) returns (n: nat)
    requires Start(HasherOf(sha), s, n0) && n0 >= 1 && Leads(HasherOf(sha), true, s, t) && batch >= 1
    ensures n0 <= n && WellChained(HasherOf(sha), t.chain.log, n, t.chain.size)
    ensures AP.Extends(s.chain.log, t.chain.log)
    ensures t.chain.counter <= if exists c :: AP.Owing(t.chain.At(c)) then n + 1 else n
    ensures var v := FullVerification(HasherOf(sha), t.chain.log, n - 1, batch); v.status == VALID && v.verified == n
  {
    hide EntryHash, EntryOk, Leads, AP.Knows;
    Sha256SurvivesStorage(sha);
    StartIsInv(HasherOf(sha), s, n0);
    n := RunGrows(HasherOf(sha), s, n0, t);
    assert AP.OwnerOwes(t.chain) ==> AP.Owing(t.chain.At(t.chain.lock.value.owner));
    WellChainedVerifies(HasherOf(sha), t.chain.log, n, t.chain.size, batch);
  }

  // ---------------------------------------------------------------- a log without its genesis

  /** Before there is a genesis, an append can be given number 1 by an initialisation that has
      allocated number 0.  It finds no entry to link to, and no genesis can repair that. */
  lemma AppendBeforeGenesis(hash: EntryHasher, s: State) returns (t: State)
    requires SurvivesStorage(hash) && Start(hash, s, 0)
    ensures Leads(hash, true, s, t) && !Late.IsChain(hash, t.chain) && t.chain.log.Keys == {0, 1} && t.At(0).Done?
  {
    hide Runs.Leads, Moves, EntryOk, Late.Leads, Late.IsChain;
    var s1 := Next(hash, s, Initialise(Genesis.FindGenesis(0)));
    var s2 := Next(hash, s1, Initialise(Genesis.Allocate(0)));
    assert s2.chain == s.chain.(counter := 1) && s2.At(0).Upserting?;
    var appended := Late.AppendAfterLock(hash, {}, s2.chain);
    var s3 := s2.(chain := appended);
    var rest := GenesisAfterFirst(hash, s3);
    t := rest;
    AppendsLead(hash, true, s2, appended);
    Runs.LeadsOn(By(hash, true), s2, s3, t);
    LeadsBy(hash, s1, Initialise(Genesis.Allocate(0)), t);
    LeadsBy(hash, s, Initialise(Genesis.FindGenesis(0)), t);
  }

  lemma GenesisAfterFirst(hash: EntryHasher, s: State) returns (t: State)
    requires s.chain.size >= 1 && Late.OnlyOwing({}, s.chain) && s.At(0).Upserting?
    requires s.chain.log.Keys == {1} && s.chain.log[1].previousHash == None
    ensures Leads(hash, true, s, t) && !Late.IsChain(hash, t.chain) && t.chain.log.Keys == {0, 1} && t.At(0).Done?
  {
    hide Runs.Leads, Moves;
    var time := DateTime(2026, 1, 1, 0, 0, 0, 0, Some(0));
    var g := ChainStore.GenesisEntry(hash, time, None, "", "", s.chain.size);
    assert Genesis.IsGenesis(hash, s.chain.size, g);
    var upsert, count := Initialise(Genesis.Upsert(0, g)), Initialise(Genesis.Count(0));
    var s1 := Next(hash, s, upsert);
    assert forall c :: s1.chain.At(c) == s.chain.At(c);
    t := Next(hash, s1, count);
    Runs.LeadsToItself(By(hash, true), t);
    LeadsBy(hash, s1, count, t);
    LeadsBy(hash, s, upsert, t);
    UnlinkedIsNoChain(hash, t.chain);
  }

  lemma UnlinkedIsNoChain(hash: EntryHasher, s: AP.State)
    requires s.log.Keys == {0, 1} && s.log[1].previousHash == None && s.log[0].hash.Some?
    ensures !Late.IsChain(hash, s)
  {
    forall n: nat ensures !WellChained(hash, s.log, n, s.size) {
      assert WellChained(hash, s.log, n, s.size) ==> 1 < n && EntryOk(hash, s.log, n, s.size, 1);
    }
  }

  /** Exactly when appends and initialisations may run at once: with the genesis in place. */
  lemma ChainIffGenesis(sha: Sha, s: State, n0: nat)
    requires Start(HasherOf(sha), s, n0)
    ensures (forall t :: Leads(HasherOf(sha), true, s, t) ==> Late.IsChain(HasherOf(sha), t.chain)) <==> n0 >= 1
  {
    hide EntryHash, Runs.Leads, Moves, EntryOk, Start;
    var hash := HasherOf(sha);
    Sha256SurvivesStorage(sha);
    if n0 == 0 {
      var t := AppendBeforeGenesis(hash, s);
    } else {
      forall t | Leads(hash, true, s, t) ensures Late.IsChain(hash, t.chain) {
        var n := ChainSurvives(sha, s, n0, t, 1);
      }
    }
  }

  // ---------------------------------------------------------------- a counter that is behind

  ghost predicate Behind(hash: EntryHasher, s: State, n: nat) { Inv(hash, s, n) && Short(s.chain, n) }

  /** From every start with a genesis, one append between the read and the write of one
      initialisation leaves the counter behind. */
  lemma FallsBehind(sha: Sha, s: State, n: nat) returns (t: State)
    requires Start(HasherOf(sha), s, n) && n >= 1
    ensures Leads(HasherOf(sha), true, s, t) && Behind(HasherOf(sha), t, n + 1)
    ensures t.chain.counter == n && !AP.OwnerOwes(t.chain) && t.At(0).Done?
  {
    hide EntryHash, EntryOk, Runs.Leads, Moves, Late.Leads, Inv;
    var hash := HasherOf(sha);
    Sha256SurvivesStorage(sha);
    var find, read := Initialise(Genesis.FindGenesis(0)), Initialise(Genesis.ReadMax(0, n - 1));
    var follow := Initialise(Genesis.Follow(0));
    var s1 := Next(hash, s, find);
    assert 0 in s.chain.log && n - 1 in s.chain.log;
    var s2 := Next(hash, s1, read);
    var appended := Late.AppendAfterLock(hash, {}, s2.chain);
    var s3 := s2.(chain := appended);
    t := Next(hash, s3, follow);
    assert forall c :: t.chain.At(c) == appended.At(c);
    Runs.LeadsToItself(By(hash, true), t);
    LeadsBy(hash, s3, follow, t);
    AppendsLead(hash, true, s2, appended);
    Runs.LeadsOn(By(hash, true), s2, s3, t);
    LeadsBy(hash, s1, read, t);
    LeadsBy(hash, s, find, t);
    StartIsInv(hash, s, n);
    var m := RunGrows(hash, s, n, t);
    OneMore(hash, s, n, t, m);
  }

  lemma OneMore(hash: EntryHasher, s: State, n: nat, t: State, m: nat)
    requires Inv(hash, s, n) && Inv(hash, t, m) && t.chain.log.Keys == s.chain.log.Keys + {n}
    ensures m == n + 1
  {
    hide EntryOk, AP.Knows;
    assert forall k: nat :: k in t.chain.log <==> k < n || k == n;
    assert m > n + 1 ==> n + 1 in t.chain.log;
  }

  lemma BehindStep(hash: EntryHasher, s: State, n: nat, step: Step)
    requires IgnoresMarks(hash) && SurvivesStorage(hash)
    requires Behind(hash, s, n) && Enabled(hash, s, step) && Timely(s, step) && !Resets(step)
    ensures Behind(hash, Next(hash, s, step), n) && Next(hash, s, step).chain.log == s.chain.log
  {
    hide ChainInv, AP.Next, AP.Enabled, AP.Timely;
    StepKeepsInv(hash, s, n, step);
    if step.Initialise? {
      InitialisationKeepsInv(hash, s, n, step);
    } else if AP.OwnerOwes(s.chain) {
      StaleStep(hash, s.chain, n, step.append);
    } else {
      IdleStep(hash, s.chain, n, step.append);
    }
  }

  lemma IdleStep(hash: EntryHasher, s: AP.State, n: nat, step: AP.Step)
    requires ChainInv(hash, s, n) && AP.Timely(s, step) && AP.Enabled(s, step)
    requires !AP.OwnerOwes(s) && s.counter < n
    ensures AP.LengthAfter(s, n, step) == n
    ensures AP.Next(hash, s, step).log == s.log && Short(AP.Next(hash, s, step), n)
  {
    hide BuildEntry, BoundaryQuery, WellChained, AP.Inv;
    assert forall c :: AP.Owing(s.At(c)) ==> AP.Protected(s, c);
    if step.Allocate? {
      assert AP.Protected(s, step.c);
    }
  }

  /** A counter that is behind stays behind, and no append adds an entry, until an
      initialisation sets it. */
  lemma BehindStays(hash: EntryHasher, s: State, n: nat, t: State)
    requires IgnoresMarks(hash) && SurvivesStorage(hash)
    requires Behind(hash, s, n) && Leads(hash, false, s, t)
    ensures Behind(hash, t, n) && t.chain.log == s.chain.log
  {
    hide Behind, Next, Enabled, Timely, Runs.Leads;
    var log, inv := s.chain.log, (u: State) => Behind(hash, u, n) && u.chain.log == s.chain.log;
    forall u, v | inv(u) && Moves(hash, false, u, v) ensures inv(v) {
      var step :| Enabled(hash, u, step) && Timely(u, step) && (Resets(step) ==> false) && v == Next(hash, u, step);
      BehindStep(hash, u, n, step);
    }
    Runs.LeadsKeeps(By(hash, false), inv, s, t);
  }

  /** When nobody owes an entry, appends can go on without another initialisation if and only
      if the counter is in place. */
  lemma AppendsGoOnIff(sha: Sha, s: State, n: nat)
    requires Inv(HasherOf(sha), s, n) && !AP.OwnerOwes(s.chain)
    ensures (exists t :: Leads(HasherOf(sha), false, s, t) && t.chain.log.Keys != s.chain.log.Keys)
       <==> s.chain.counter == n
  {
    hide EntryHash, EntryOk, Runs.Leads, Moves, Late.Leads, AP.Knows;
    var hash := HasherOf(sha);
    Sha256SurvivesStorage(sha);
    if s.chain.counter == n {
      assert forall c :: AP.Owing(s.chain.At(c)) ==> AP.Protected(s.chain, c);
      var appended := Late.AppendAfterLock(hash, {}, s.chain);
      AppendsLead(hash, false, s, appended);
      var t := s.(chain := appended);
      assert n in t.chain.log.Keys && n !in s.chain.log.Keys;
    } else {
      assert Behind(hash, s, n);
      forall t | Leads(hash, false, s, t) ensures t.chain.log == s.chain.log { BehindStays(hash, s, n, t); }
    }
  }

  /** What the next initialisation does: it restores the whole invariant of the appends if and
      only if nothing was appended since it read the log and no call owes an entry. */
  lemma FollowRestoresIff(hash: EntryHasher, s: State, n: nat, c: Genesis.Call)
    requires Inv(hash, s, n) && s.At(c).Following?
    ensures AP.Inv(hash, Next(hash, s, Initialise(Genesis.Follow(c))).chain, n)
       <==> s.At(c).next == n && !AP.OwnerOwes(s.chain)
  {
    hide WellChained, AP.Knows;
    var t := Next(hash, s, Initialise(Genesis.Follow(c))).chain;
    assert Finding(s.At(c), n);
    assert forall d :: t.At(d) == s.chain.At(d);
    if s.At(c).next == n && !AP.OwnerOwes(s.chain) {
      assert t == s.chain.(counter := Expected(s.chain, n));
    }
  }
}
