/**
 Any number of `initialize_chain` calls at once (backend/audit/chain/commands.py:57-130), with
 their database calls interleaved, but with no append among them.
 */
module Genesis {
  import opened Wrappers
  import opened Timestamps
  import opened Hashing
  import opened ChainVerification
  import opened ChainRules
  import AppendProtocol
  import ChainStore

  type Call = nat

  datatype Pc =
    | Idle
    | ReadingMax
    | Following(next: nat)
    | Allocating
    | Zeroing
    | Upserting
    | Counting
    | Done

  datatype State = State(log: Log, counter: nat, calls: map<Call, Pc>)
  {
    function At(c: Call): Pc { if c in calls then calls[c] else Idle }

    function Go(c: Call, pc: Pc): State { this.(calls := calls[c := pc]) }
  }

  datatype Step =
    | FindGenesis(c: Call)
    | ReadMax(c: Call, latest: nat)
    | Follow(c: Call)
    | Allocate(c: Call)
    | Zero(c: Call)
    | Upsert(c: Call, genesis: Entry)
    | Count(c: Call)

  /** A genesis entry as `initialize_chain` builds it. */
  ghost predicate IsGenesis(hash: EntryHasher, size: nat, g: Entry) {
    exists time: RealTime, tenantId, actor, version ::
      time.offset == Some(0) && 1000 <= time.year
      && g == ChainStore.GenesisEntry(hash, time, tenantId, actor, version, size)
  }

  ghost predicate Enabled(hash: EntryHasher, size: nat, s: State, step: Step) {
    match step
    case FindGenesis(c) => s.At(c).Idle?
    case ReadMax(c, latest) => s.At(c).ReadingMax? && IsLatest(s.log, latest)
    case Follow(c) => s.At(c).Following?
    case Allocate(c) => s.At(c).Allocating?
    case Zero(c) => s.At(c).Zeroing?
    case Upsert(c, g) => s.At(c).Upserting? && IsGenesis(hash, size, g)
    case Count(c) => s.At(c).Counting?
  }

  ghost function Next(hash: EntryHasher, size: nat, s: State, step: Step): State
    requires Enabled(hash, size, s, step)
  {
    match step
    case FindGenesis(c) => s.Go(c, if 0 in s.log then ReadingMax else Allocating)
    case ReadMax(c, latest) => s.Go(c, Following(latest + 1))
    case Follow(c) => s.(counter := s.At(c).next).Go(c, Done)
    case Allocate(c) => s.(counter := s.counter + 1).Go(c, if s.counter != 0 then Zeroing else Upserting)
    case Zero(c) => s.(counter := 0).Go(c, Upserting)
    case Upsert(c, g) =>
      if 0 in s.log || !g.timestamp.Moment? then s.Go(c, Counting)
      else s.(log := s.log[0 := Stored(g)]).Go(c, Counting)
    case Count(c) => s.(counter := 1).Go(c, Done)
  }

  /** A call that found no genesis and has still to set the counter. */
  predicate Creating(pc: Pc) { pc.Allocating? || pc.Zeroing? || pc.Upserting? || pc.Counting? }

  predicate KnowsGenesis(pc: Pc) { pc.ReadingMax? || pc.Following? || pc.Counting? || pc.Done? }

  /** The log has `n` entries, `n0` of them from before the calls. */
  ghost predicate Inv(hash: EntryHasher, size: nat, s: State, log0: Log, n0: nat, n: nat) {
    && WellChained(hash, s.log, n, size)
    && (if n0 == 0 then n <= 1 else n == n0 && s.log == log0)
    && (forall c :: KnowsGenesis(s.At(c)) ==> n > 0)
    && (forall c :: s.At(c).Following? ==> s.At(c).next == n)
    && (forall c :: Creating(s.At(c)) ==> n0 == 0)
    && ((exists c :: s.At(c).Done?) ==> s.counter == n || exists c :: Creating(s.At(c)))
  }

  function LengthAfter(n: nat, step: Step): nat { if step.Upsert? && n == 0 then 1 else n }

  lemma UpsertExtends(hash: EntryHasher, size: nat, log: Log, n: nat, g: Entry)
    requires SurvivesStorage(hash) && IsGenesis(hash, size, g) && WellChained(hash, log, n, size)
    ensures g.timestamp.Moment?
    ensures n == 0 ==> 0 !in log && WellChained(hash, log[0 := Stored(g)], 1, size)
    ensures n > 0 ==> 0 in log
  {
    hide EntryOk;
    var time: RealTime, tenantId, actor, version :|
      time.offset == Some(0) && 1000 <= time.year
      && g == ChainStore.GenesisEntry(hash, time, tenantId, actor, version, size);
    ChainStore.GenesisStartsChain(hash, log, time, tenantId, actor, version, size, n);
  }

  lemma StepKeepsInv(hash: EntryHasher, size: nat, s: State, log0: Log, n0: nat, n: nat, step: Step)
    requires SurvivesStorage(hash)
    requires Inv(hash, size, s, log0, n0, n) && Enabled(hash, size, s, step)
    ensures Inv(hash, size, Next(hash, size, s, step), log0, n0, LengthAfter(n, step))
  {
    hide IsGenesis, EntryOk;
    var t := Next(hash, size, s, step);
    assert forall c :: c != step.c ==> t.At(c) == s.At(c);
    if step.Upsert? {
      hide WellChained;
      UpsertExtends(hash, size, s.log, n, step.genesis);
      assert Creating(t.At(step.c));
    } else {
      assert step.Allocate? || step.Zero? ==> Creating(t.At(step.c));
      assert t.log == s.log && (0 in s.log <==> n > 0);
      assert step.ReadMax? ==> n - 1 in s.log;
      if !step.Follow? && !step.Count? && !Creating(t.At(step.c)) {
        assert s.counter == t.counter && !Creating(s.At(step.c));
        assert forall c :: Creating(s.At(c)) == Creating(t.At(c)) && s.At(c).Done? == t.At(c).Done?;
      }
    }
  }

  ghost predicate IsRun(hash: EntryHasher, size: nat, states: seq<State>, steps: seq<Step>) {
    && |states| == |steps| + 1
    && forall i :: 0 <= i < |steps| ==>
         Enabled(hash, size, states[i], steps[i]) && states[i + 1] == Next(hash, size, states[i], steps[i])
  }

  lemma {:induction false} RunKeepsInv(hash: EntryHasher, size: nat, states: seq<State>, steps: seq<Step>, n0: nat,
                                       i: nat)
    returns (n: nat)
    requires SurvivesStorage(hash) && IsRun(hash, size, states, steps) && i < |states|
    requires WellChained(hash, states[0].log, n0, size) && states[0].calls == map[]
    ensures Inv(hash, size, states[i], states[0].log, n0, n)
    decreases i
  {
    if i == 0 {
      n := n0;
    } else {
      hide Inv, Next, Enabled;
      var m := RunKeepsInv(hash, size, states, steps, n0, i - 1);
      n := LengthAfter(m, steps[i - 1]);
      StepKeepsInv(hash, size, states[i - 1], states[0].log, n0, m, steps[i - 1]);
    }
  }

  /** When at least one call is done and none is half way, the log is a chain of `n` entries
      with the counter at `n`.  From an empty log that is exactly one genesis; an existing
      chain is untouched, whatever value the counter had before. */
  lemma InitialisationIsIdempotent(sha: Sha, size: nat, states: seq<State>, steps: seq<Step>, n0: nat)
    requires IsRun(HasherOf(sha), size, states, steps)
    requires WellChained(HasherOf(sha), states[0].log, n0, size) && states[0].calls == map[]
    requires exists c :: states[|steps|].At(c).Done?
    requires forall c :: states[|steps|].At(c).Done? || states[|steps|].At(c).Idle?
    ensures var s := states[|steps|];
            var n := if n0 == 0 then 1 else n0;
            && WellChained(HasherOf(sha), s.log, n, size) && s.counter == n
            && (n0 == 0 ==> s.log.Keys == {0}) && (n0 > 0 ==> s.log == states[0].log)
  {
    hide EntryHash, EntryOk, Enabled, Next;
    Sha256SurvivesStorage(sha);
    var n := RunKeepsInv(HasherOf(sha), size, states, steps, n0, |steps|);
  }

  /** After a crash of every worker in any state that appending can reach - in particular
      between allocation and insert, with the counter one ahead - the counter that restarting
      sets is the length of the log, and appending can start again. */
  lemma RestartAfterCrash(hash: EntryHasher, s: AppendProtocol.State, n: nat, latest: nat, now: int)
    requires AppendProtocol.Inv(hash, s, n) && n > 0 && IsLatest(s.log, latest)
    ensures latest + 1 == n
    ensures AppendProtocol.Start(hash, AppendProtocol.State(now, s.lock, latest + 1, s.log, map[], s.size), n)
  {
    hide EntryOk;
    assert n - 1 in s.log && latest in s.log;
  }
}
