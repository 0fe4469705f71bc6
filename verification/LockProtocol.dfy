/**
 `DistributedLock` (backend/utils/distributed_lock.py) in many processes at once: every
 database operation is one step, clock readings are taken in steps of their own, and the
 heartbeat runs beside its process.  The protocol refines the abstract lease.
 */
module LockProtocol {
  import opened Wrappers
  import Lease

  type Process = Lease.Process
  type Doc = Lease.Doc

  /** What the process itself is doing, and what its heartbeat task is doing. */
  datatype Pc = Idle | Inserting(read: int) | TakingOver(read: int) | Holding | Deleting
  datatype Beat = NoTask | Sleeping | Refreshing(read: int)

  datatype Worker = Worker(pc: Pc, beat: Beat, acquired: bool, lost: bool)

  const FRESH := Worker(Idle, NoTask, false, false)

  /** `written` is history: the expiry that each process wrote last, until it releases. */
  datatype State = State(now: int, doc: Option<Doc>, workers: map<Process, Worker>, ttl: nat,
                         written: map<Process, int>)
  {
    function At(p: Process): Worker { if p in workers then workers[p] else FRESH }

    function Go(p: Process, w: Worker): State { this.(workers := workers[p := w]) }

    function Write(p: Process, expires: int): State {
      this.(doc := Some(Lease.Doc(p, expires)), written := written[p := expires])
    }

    predicate OwnedBy(p: Process) { doc.Some? && doc.value.owner == p }
  }

  datatype Step =
    | Tick(now: int)
    | Reap
    | ReadClock(p: Process)
    | InsertDoc(p: Process)
    | TakeOverDoc(p: Process)
    | StartBeat(p: Process)
    | WakeBeat(p: Process)
    | BeatWrite(p: Process)
    | Release(p: Process)
    | DeleteDoc(p: Process)

  predicate Enabled(s: State, step: Step) {
    match step
    case Tick(now) => now >= s.now
    case Reap => s.doc.Some? && s.doc.value.expires <= s.now
    case ReadClock(p) => s.At(p).pc.Idle?
    case InsertDoc(p) => s.At(p).pc.Inserting?
    case TakeOverDoc(p) => s.At(p).pc.TakingOver?
    case StartBeat(p) => s.At(p).pc.Holding? && s.At(p).acquired && s.At(p).beat.NoTask?
    case WakeBeat(p) => s.At(p).beat.Sleeping?
    case BeatWrite(p) => s.At(p).beat.Refreshing?
    case Release(p) => s.At(p).pc.Holding?
    case DeleteDoc(p) => s.At(p).pc.Deleting?
  }

  function Next(s: State, step: Step): State
    requires Enabled(s, step)
  {
    match step
    case Tick(now) => s.(now := now)
    case Reap => s.(doc := None)
    case ReadClock(p) => s.Go(p, s.At(p).(pc := Inserting(s.now)))
    case InsertDoc(p) =>
      var read := s.At(p).pc.read;
      if s.doc.None? then s.Write(p, read + s.ttl).Go(p, s.At(p).(pc := Holding, acquired := true))
      else s.Go(p, s.At(p).(pc := TakingOver(read)))
    case TakeOverDoc(p) =>
      var read := s.At(p).pc.read;
      if s.doc.Some? && s.doc.value.expires < read
      then s.Write(p, read + s.ttl).Go(p, s.At(p).(pc := Holding, acquired := true))
      else s.Go(p, s.At(p).(pc := Idle))
    case StartBeat(p) => s.Go(p, s.At(p).(beat := Sleeping))
    case WakeBeat(p) => s.Go(p, s.At(p).(beat := Refreshing(s.now)))
    case BeatWrite(p) =>
      if s.OwnedBy(p) then s.Write(p, s.At(p).beat.read + s.ttl).Go(p, s.At(p).(beat := Sleeping))
      else s.Go(p, s.At(p).(beat := NoTask, acquired := false, lost := true))
    case Release(p) => s.Go(p, s.At(p).(beat := NoTask, pc := if s.At(p).acquired then Deleting else Idle))
    case DeleteDoc(p) =>
      s.(doc := if s.OwnedBy(p) then None else s.doc, written := s.written - {p})
       .Go(p, s.At(p).(pc := Idle, acquired := false))
  }

  /** The step that the abstract lease takes, if any. */
  function Abstract(s: State, step: Step): Option<Lease.Step>
    requires Enabled(s, step)
  {
    match step
    case Tick(now) => Some(Lease.Tick(now))
    case Reap => Some(Lease.Reap)
    case InsertDoc(p) => if s.doc.None? then Some(Lease.Insert(p, s.At(p).pc.read + s.ttl)) else None
    case TakeOverDoc(p) =>
      var read := s.At(p).pc.read;
      if s.doc.Some? && s.doc.value.expires < read then Some(Lease.TakeOver(p, read, read + s.ttl)) else None
    case BeatWrite(p) => if s.OwnedBy(p) then Some(Lease.Refresh(p, s.At(p).beat.read + s.ttl)) else None
    case DeleteDoc(p) => Some(Lease.Release(p))
    case _ => None
  }

  function LeaseOf(s: State): Lease.State { Lease.State(s.now, s.doc, s.written) }

  /** How the fields of a worker agree with each other and with what it wrote. */
  predicate WorkerOk(s: State, p: Process) {
    var w := s.At(p);
    && (w.pc.Inserting? || w.pc.TakingOver? ==> w.pc.read <= s.now)
    && (w.beat.Refreshing? ==> w.beat.read <= s.now)
    && (w.acquired ==> p in s.written && (w.pc.Holding? || w.pc.Deleting?))
    && (!w.beat.NoTask? ==> w.pc.Holding? && w.acquired)
    && (w.pc.Deleting? ==> w.acquired)
    && (w.pc.Holding? ==> w.acquired || w.lost)
  }

  ghost predicate Inv(s: State) {
    (forall p :: WorkerOk(s, p)) && Lease.Inv(LeaseOf(s))
  }

  /** Every step is a step of the abstract lease, or changes nothing of it. */
  lemma StepRefinesLease(s: State, step: Step)
    requires Inv(s) && Enabled(s, step)
    ensures var a := Abstract(s, step);
            if a.Some? then Lease.Enabled(LeaseOf(s), a.value)
                            && LeaseOf(Next(s, step)) == Lease.Next(LeaseOf(s), a.value)
            else LeaseOf(Next(s, step)) == LeaseOf(s)
  {
    hide Lease.Inv;
    if step.TakeOverDoc? { assert WorkerOk(s, step.p); }
  }

  lemma StepKeepsWorkers(s: State, step: Step, p: Process)
    requires WorkerOk(s, p) && Enabled(s, step)
    ensures WorkerOk(Next(s, step), p)
  {
    if step.Tick? || step.Reap? {
      assert Next(s, step).At(p) == s.At(p);
    } else if step.p != p {
      assert Next(s, step).At(p) == s.At(p);
    } else if step.InsertDoc? || step.TakeOverDoc? || step.BeatWrite? {
      assert Next(s, step).At(p).acquired ==> p in Next(s, step).written;
    }
  }

  lemma StepKeepsInv(s: State, step: Step)
    requires Inv(s) && Enabled(s, step)
    ensures Inv(Next(s, step))
  {
    hide WorkerOk, Next, Enabled, Lease.Inv, Lease.Next, Lease.Enabled;
    var a := Abstract(s, step);
    StepRefinesLease(s, step);
    if a.Some? { Lease.StepKeepsInv(LeaseOf(s), a.value); }
    forall p ensures WorkerOk(Next(s, step), p) { StepKeepsWorkers(s, step, p); }
  }

  /** The heartbeat reports the lock as lost only when the lease has run out. */
  lemma LostMeansExpired(s: State, p: Process)
    requires Inv(s) && Enabled(s, BeatWrite(p)) && Next(s, BeatWrite(p)).At(p).lost && !s.At(p).lost
    ensures p in s.written && s.written[p] <= s.now
  {
    assert WorkerOk(s, p);
    assert !Lease.Live(LeaseOf(s), p);
  }

  ghost predicate IsRun(states: seq<State>, steps: seq<Step>) {
    && |states| == |steps| + 1
    && forall i :: 0 <= i < |steps| ==> Enabled(states[i], steps[i]) && states[i + 1] == Next(states[i], steps[i])
  }

  /** A process that believes to hold the lock, before the expiry it wrote. */
  predicate Protected(s: State, p: Process) {
    s.At(p).acquired && p in s.written && s.now < s.written[p]
  }

  /** Safety over all runs, with whatever document a crash may have left behind: a process
      that believes to hold the lock owns the document until the expiry it wrote last, so no
      two processes do so at once. */
  lemma {:induction false} LockSafety(states: seq<State>, steps: seq<Step>, i: nat)
    requires IsRun(states, steps) && states[0].workers == map[] && states[0].written == map[] && i < |states|
    ensures Inv(states[i])
    ensures forall p :: Protected(states[i], p) ==> states[i].doc == Some(Lease.Doc(p, states[i].written[p]))
    ensures forall p, q :: Protected(states[i], p) && Protected(states[i], q) ==> p == q
    decreases i
  {
    hide WorkerOk, Next, Enabled;
    if i == 0 {
      forall p ensures WorkerOk(states[0], p) { FreshWorker(states[0], p); }
    } else {
      LockSafety(states, steps, i - 1);
      StepKeepsInv(states[i - 1], steps[i - 1]);
    }
    assert forall p :: Protected(states[i], p) ==> Lease.Live(LeaseOf(states[i]), p);
    forall p, q | Protected(states[i], p) && Protected(states[i], q) ensures p == q {
      Lease.AtMostOneLive(LeaseOf(states[i]), p, q);
    }
  }

  lemma FreshWorker(s: State, p: Process)
    requires s.workers == map[]
    ensures WorkerOk(s, p)
  {
  }

  /** Only the clock and the reaper were at work. */
  predicate Quiet(s: State, t: State) {
    && t == s.(now := t.now, doc := t.doc) && s.now <= t.now
    && (t.doc == s.doc || (t.doc.None? && s.doc.Some? && s.doc.value.expires <= t.now))
  }

  /** Whether a lock document lets an attempt with this clock reading pass. */
  predicate Expired(doc: Option<Doc>, read: int) { doc.None? || doc.value.expires < read }

  /** An attempt to acquire with no other process in between: the insert finds the state
      `s1`, and, if that holds a document, the update finds the state `s2`.  It succeeds if
      and only if the lock was free, or had expired when the clock was read and was not
      reaped between the two operations.  When it fails on an expired lock, the document is
      gone, so that the next attempt finds the lock free. */
  lemma UncontendedAttempt(s: State, p: Process, s1: State, s2: State)
    requires s.At(p).pc.Idle? && Quiet(Next(s, ReadClock(p)), s1)
    requires s1.doc.Some? ==> Quiet(Next(s1, InsertDoc(p)), s2)
    ensures var end := if s1.doc.None? then Next(s1, InsertDoc(p)) else Next(s2, TakeOverDoc(p));
            && (end.At(p).pc.Holding? <==> Expired(s1.doc, s.now) && (s1.doc.Some? ==> s2.doc == s1.doc))
            && (end.At(p).pc.Holding? ==> end.At(p).acquired && end.doc == Some(Lease.Doc(p, s.now + s.ttl)))
            && (Expired(s1.doc, s.now) && !end.At(p).pc.Holding? ==> end.At(p).pc.Idle? && end.doc.None?)
            && (Expired(s.doc, s.now) ==> Expired(s1.doc, s.now))
  {
  }

  /** A round of the heartbeat: on its own document it writes the clock reading plus the time to
      live; otherwise it leaves the document alone, reports the loss and ends. */
  lemma UncontendedBeat(s: State, p: Process, s1: State)
    requires s.At(p).beat.Sleeping? && Quiet(Next(s, WakeBeat(p)), s1)
    ensures var end := Next(s1, BeatWrite(p));
            if s1.doc.Some? && s1.doc.value.owner == p
            then end.doc == Some(Lease.Doc(p, s.now + s.ttl)) && end.At(p) == s.At(p)
            else end.doc == s1.doc && end.At(p) == s.At(p).(beat := NoTask, acquired := false, lost := true)
    ensures forall q :: q != p ==> Next(s1, BeatWrite(p)).At(q) == s.At(q)
  {
  }

  /** A release: the heartbeat ends first; then the document goes if it is still the process's
      own, and no other document does. */
  lemma UncontendedRelease(s: State, p: Process, s1: State)
    requires s.At(p).pc.Holding? && s.At(p).acquired && Quiet(Next(s, Release(p)), s1)
    ensures s1.At(p).beat.NoTask?
    ensures var end := Next(s1, DeleteDoc(p));
            && end.doc == (if s1.doc.Some? && s1.doc.value.owner == p then None else s1.doc)
            && end.At(p) == s.At(p).(pc := Idle, beat := NoTask, acquired := false)
    ensures forall q :: q != p ==> Next(s1, DeleteDoc(p)).At(q) == s.At(q)
  {
  }
}
