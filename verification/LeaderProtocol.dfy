/**
 `LeaderElection` (backend/utils/leader_election.py) among many workers at once, as a second
 refinement of the abstract lease.
 */
module LeaderProtocol {
  import opened Wrappers
  import Lease

  type Process = Lease.Process
  type Doc = Lease.Doc

  datatype Pc =
    | Idle
    | Inserting(read: int)
    | Refreshing(read: int)
    | TakingOver(read: int)
    | Beating(read: int)
    | Resigning

  /** `leader` is the last answer of `try_become_leader`, until the worker resigns. */
  datatype Worker = Worker(pc: Pc, leader: bool)

  /** `written` is history: the expiry that each worker wrote last, until it resigns. */
  datatype State = State(now: int, doc: Option<Doc>, workers: map<Process, Worker>, ttl: nat,
                         written: map<Process, int>)
  {
    function At(p: Process): Worker { if p in workers then workers[p] else Worker(Idle, false) }

    function Go(p: Process, w: Worker): State { this.(workers := workers[p := w]) }

    function Write(p: Process, expires: int): State {
      this.(doc := Some(Lease.Doc(p, expires)), written := written[p := expires])
    }

    predicate OwnedBy(p: Process) { doc.Some? && doc.value.owner == p }
  }

  datatype Step =
    | Tick(now: int)
    | Reap
    | Try(p: Process)
    | InsertClaim(p: Process)
    | RefreshClaim(p: Process)
    | TakeOverClaim(p: Process)
    | Heartbeat(p: Process)
    | BeatWrite(p: Process)
    | Resign(p: Process)
    | DeleteClaim(p: Process)

  predicate Enabled(s: State, step: Step) {
    match step
    case Tick(now) => now >= s.now
    case Reap => s.doc.Some? && s.doc.value.expires <= s.now
    case Try(p) => s.At(p).pc.Idle?
    case InsertClaim(p) => s.At(p).pc.Inserting?
    case RefreshClaim(p) => s.At(p).pc.Refreshing?
    case TakeOverClaim(p) => s.At(p).pc.TakingOver?
    case Heartbeat(p) => s.At(p).pc.Idle?
    case BeatWrite(p) => s.At(p).pc.Beating?
    case Resign(p) => s.At(p).pc.Idle?
    case DeleteClaim(p) => s.At(p).pc.Resigning?
  }

  function Next(s: State, step: Step): State
    requires Enabled(s, step)
  {
    match step
    case Tick(now) => s.(now := now)
    case Reap => s.(doc := None)
    case Try(p) => s.Go(p, s.At(p).(pc := Inserting(s.now)))
    case InsertClaim(p) =>
      var read := s.At(p).pc.read;
      if s.doc.None? then s.Write(p, read + s.ttl).Go(p, Worker(Idle, true))
      else s.Go(p, s.At(p).(pc := Refreshing(read)))
    case RefreshClaim(p) =>
      var read := s.At(p).pc.read;
      if s.OwnedBy(p) then s.Write(p, read + s.ttl).Go(p, Worker(Idle, true))
      else s.Go(p, s.At(p).(pc := TakingOver(read)))
    case TakeOverClaim(p) =>
      var read := s.At(p).pc.read;
      if s.doc.Some? && s.doc.value.expires < read then s.Write(p, read + s.ttl).Go(p, Worker(Idle, true))
      else s.Go(p, Worker(Idle, false))
    case Heartbeat(p) => s.Go(p, s.At(p).(pc := Beating(s.now)))
    case BeatWrite(p) =>
      var t := if s.OwnedBy(p) then s.Write(p, s.At(p).pc.read + s.ttl) else s;
      t.Go(p, s.At(p).(pc := Idle))
    case Resign(p) => s.Go(p, s.At(p).(pc := Resigning))
    case DeleteClaim(p) =>
      s.(doc := if s.OwnedBy(p) then None else s.doc, written := s.written - {p}).Go(p, Worker(Idle, false))
  }

  function Abstract(s: State, step: Step): Option<Lease.Step>
    requires Enabled(s, step)
  {
    match step
    case Tick(now) => Some(Lease.Tick(now))
    case Reap => Some(Lease.Reap)
    case InsertClaim(p) => if s.doc.None? then Some(Lease.Insert(p, s.At(p).pc.read + s.ttl)) else None
    case RefreshClaim(p) => if s.OwnedBy(p) then Some(Lease.Refresh(p, s.At(p).pc.read + s.ttl)) else None
    case TakeOverClaim(p) =>
      var read := s.At(p).pc.read;
      if s.doc.Some? && s.doc.value.expires < read then Some(Lease.TakeOver(p, read, read + s.ttl)) else None
    case BeatWrite(p) => if s.OwnedBy(p) then Some(Lease.Refresh(p, s.At(p).pc.read + s.ttl)) else None
    case DeleteClaim(p) => Some(Lease.Release(p))
    case _ => None
  }

  function LeaseOf(s: State): Lease.State { Lease.State(s.now, s.doc, s.written) }

  predicate WorkerOk(s: State, p: Process) {
    var w := s.At(p);
    && (w.pc.Inserting? || w.pc.Refreshing? || w.pc.TakingOver? || w.pc.Beating? ==> w.pc.read <= s.now)
    && (w.leader ==> p in s.written)
  }

  ghost predicate Inv(s: State) {
    (forall p :: WorkerOk(s, p)) && Lease.Inv(LeaseOf(s))
  }

  /** Every step is a step of the abstract lease, or changes nothing of it. */
  lemma StepRefinesLease(s: State, step: Step)
    requires Inv(s) && Enabled(s, step)
    ensures var a := Abstract(s, step);
            if a.Some? then Lease.Enabled(LeaseOf(s), a.value)
                            && LeaseOf(Next(s, step)) == Lease.Next(LeaseOf(s), a.value)
            else LeaseOf(Next(s, step)) == LeaseOf(s)
  {
    hide Lease.Inv;
    if step.TakeOverClaim? { assert WorkerOk(s, step.p); }
  }

  lemma StepKeepsInv(s: State, step: Step)
    requires Inv(s) && Enabled(s, step)
    ensures Inv(Next(s, step))
  {
    hide Next, Enabled, Lease.Inv, Lease.Next, Lease.Enabled, WorkerOk;
    var a := Abstract(s, step);
    StepRefinesLease(s, step);
    if a.Some? { Lease.StepKeepsInv(LeaseOf(s), a.value); }
    forall p ensures WorkerOk(Next(s, step), p) { StepKeepsWorkers(s, step, p); }
  }

  lemma StepKeepsWorkers(s: State, step: Step, p: Process)
    requires WorkerOk(s, p) && Enabled(s, step)
    ensures WorkerOk(Next(s, step), p)
  {
  }

  ghost predicate IsRun(states: seq<State>, steps: seq<Step>) {
    && |states| == |steps| + 1
    && forall i :: 0 <= i < |steps| ==> Enabled(states[i], steps[i]) && states[i + 1] == Next(states[i], steps[i])
  }

  /** A worker that was last told to lead, before the expiry it wrote. */
  predicate Leads(s: State, p: Process) {
    s.At(p).leader && p in s.written && s.now < s.written[p]
  }

  /** Safety over all runs: there is never more than one leader, and it owns the claim. */
  lemma {:induction false} LeaderSafety(states: seq<State>, steps: seq<Step>, i: nat)
    requires IsRun(states, steps) && states[0].workers == map[] && states[0].written == map[] && i < |states|
    ensures Inv(states[i])
    ensures forall p :: Leads(states[i], p) ==> states[i].doc == Some(Lease.Doc(p, states[i].written[p]))
    ensures forall p, q :: Leads(states[i], p) && Leads(states[i], q) ==> p == q
    decreases i
  {
    hide Next, Enabled;
    if i > 0 {
      LeaderSafety(states, steps, i - 1);
      StepKeepsInv(states[i - 1], steps[i - 1]);
    }
    assert forall p :: Leads(states[i], p) ==> Lease.Live(LeaseOf(states[i]), p);
    forall p, q | Leads(states[i], p) && Leads(states[i], q) ensures p == q {
      Lease.AtMostOneLive(LeaseOf(states[i]), p, q);
    }
  }

  /** Only the clock and the reaper were at work. */
  predicate Quiet(s: State, t: State) {
    && t == s.(now := t.now, doc := t.doc) && s.now <= t.now
    && (t.doc == s.doc || (t.doc.None? && s.doc.Some? && s.doc.value.expires <= t.now))
  }

  /** An attempt with no other worker in between, in which the three operations find the
      states `s1`, `s2` and `s3`.  The worker leads afterwards if and only if there was no
      claim, or the claim was its own and was not reaped before the second operation, or
      another's that had expired when the clock was read and was not reaped before the
      third.  When the reaper is what made it fail, no claim is left, so that the next
      attempt finds none. */
  lemma UncontendedAttempt(s: State, p: Process, s1: State, s2: State, s3: State)
    requires s.At(p).pc.Idle? && Quiet(Next(s, Try(p)), s1)
    requires s1.doc.Some? ==> Quiet(Next(s1, InsertClaim(p)), s2)
    requires s1.doc.Some? && !s2.OwnedBy(p) ==> Quiet(Next(s2, RefreshClaim(p)), s3)
    ensures var end := if s1.doc.None? then Next(s1, InsertClaim(p))
                       else if s2.OwnedBy(p) then Next(s2, RefreshClaim(p)) else Next(s3, TakeOverClaim(p));
            var own, expired := s1.OwnedBy(p), s1.doc.Some? && s1.doc.value.expires < s.now;
            && (end.At(p).leader
                <==> s1.doc.None? || (own && s2.doc.Some?) || (!own && expired && s2.doc.Some? && s3.doc.Some?))
            && (end.At(p).leader ==> end.doc == Some(Lease.Doc(p, s.now + s.ttl)))
            && (!end.At(p).leader && (own || expired) ==> end.doc.None?)
  {
  }

  /** A heartbeat writes the clock reading plus the time to live on the worker's own claim, and
      leaves any other alone.  It tells the worker nothing. */
  lemma UncontendedBeat(s: State, p: Process, s1: State)
    requires s.At(p).pc.Idle? && Quiet(Next(s, Heartbeat(p)), s1)
    ensures var end := Next(s1, BeatWrite(p));
            && end.doc == (if s1.doc.Some? && s1.doc.value.owner == p then Some(Lease.Doc(p, s.now + s.ttl))
                           else s1.doc)
            && end.At(p) == s.At(p)
    ensures forall q :: q != p ==> Next(s1, BeatWrite(p)).At(q) == s.At(q)
  {
  }

  /** Resigning removes the worker's own claim, and no other. */
  lemma UncontendedResign(s: State, p: Process, s1: State)
    requires s.At(p).pc.Idle? && Quiet(Next(s, Resign(p)), s1)
    ensures var end := Next(s1, DeleteClaim(p));
            && end.doc == (if s1.doc.Some? && s1.doc.value.owner == p then None else s1.doc)
            && end.At(p) == Worker(Idle, false)
    ensures forall q :: q != p ==> Next(s1, DeleteClaim(p)).At(q) == s.At(q)
  {
  }
}
