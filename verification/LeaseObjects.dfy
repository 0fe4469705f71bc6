/**
 The two objects that processes use, as one process runs them against the shared document
 (backend/utils/distributed_lock.py, backend/utils/leader_election.py).  Each call is proved
 to be a run of steps of LockProtocol or LeaderProtocol, so that what holds of those
 protocols, with other processes in between, holds of these objects.
 */
module LeaseObjects {
  import opened Wrappers
  import opened Lease
  import LockProtocol
  import LeaderProtocol

  /** The document of one lock, or of one election, with the single operations on it. */
  class SharedDoc {
    var doc: Option<Doc>

    predicate OwnedBy(p: Process)
      reads this
    {
      doc.Some? && doc.value.owner == p
    }

    method Insert(p: Process, expires: int) returns (ok: bool)
      modifies this
      ensures ok <==> old(doc).None?
      ensures doc == if ok then Some(Doc(p, expires)) else old(doc)
    {
      ok := doc.None?;
      if ok { doc := Some(Doc(p, expires)); }
    }

    method UpdateExpired(p: Process, now: int, expires: int) returns (ok: bool)
      modifies this
      ensures ok <==> old(doc).Some? && old(doc).value.expires < now
      ensures doc == if ok then Some(Doc(p, expires)) else old(doc)
    {
      ok := doc.Some? && doc.value.expires < now;
      if ok { doc := Some(Doc(p, expires)); }
    }

    method UpdateOwn(p: Process, expires: int) returns (ok: bool)
      modifies this
      ensures ok <==> old(OwnedBy(p))
      ensures doc == if ok then Some(Doc(p, expires)) else old(doc)
    {
      ok := OwnedBy(p);
      if ok { doc := Some(Doc(p, expires)); }
    }

    method DeleteOwn(p: Process)
      modifies this
      ensures doc == if old(OwnedBy(p)) then None else old(doc)
    {
      if OwnedBy(p) { doc := None; }
    }
  }

  // ---------------------------------------------------------------- what a call does

  /** A lock object and the document it shares with the others. */
  datatype LockView = LockView(doc: Option<Doc>, acquired: bool, beating: bool, lost: bool)

  predicate Owned(doc: Option<Doc>, p: Process) { doc.Some? && doc.value.owner == p }

  /** Free, or expired before the clock was read. */
  predicate Free(doc: Option<Doc>, now: int) { doc.None? || doc.value.expires < now }

  function AfterAcquire(v: LockView, p: Process, now: int, ttl: nat): LockView {
    if Free(v.doc, now) then v.(doc := Some(Doc(p, now + ttl)), acquired := true) else v
  }

  /** One round of the heartbeat: it extends the lock, or notices that it is lost and ends. */
  function AfterBeat(v: LockView, p: Process, now: int, ttl: nat): LockView {
    if Owned(v.doc, p) then v.(doc := Some(Doc(p, now + ttl)))
    else v.(acquired := false, beating := false, lost := true)
  }

  function AfterRelease(v: LockView, p: Process): LockView {
    v.(doc := if v.acquired && Owned(v.doc, p) then None else v.doc, acquired := false, beating := false)
  }

  function AfterTry(doc: Option<Doc>, p: Process, now: int, ttl: nat): Option<Doc> {
    if Free(doc, now) || Owned(doc, p) then Some(Doc(p, now + ttl)) else doc
  }

  function AfterHeartbeat(doc: Option<Doc>, p: Process, now: int, ttl: nat): Option<Doc> {
    if Owned(doc, p) then Some(Doc(p, now + ttl)) else doc
  }

  function AfterResign(doc: Option<Doc>, p: Process): Option<Doc> { if Owned(doc, p) then None else doc }

  // ---------------------------------------------------------------- calls are runs

  function ViewOf(s: LockProtocol.State, p: Process): LockView {
    LockView(s.doc, s.At(p).acquired, !s.At(p).beat.NoTask?, s.At(p).lost)
  }

  lemma AcquireIsARun(s: LockProtocol.State, p: Process)
    returns (states: seq<LockProtocol.State>, steps: seq<LockProtocol.Step>)
    requires s.At(p).pc.Idle?
    ensures LockProtocol.IsRun(states, steps) && states[0] == s
    ensures ViewOf(states[|steps|], p) == AfterAcquire(ViewOf(s, p), p, s.now, s.ttl)
    ensures states[|steps|].At(p).pc.Holding? <==> Free(s.doc, s.now)
  {
    var s1 := LockProtocol.Next(s, LockProtocol.ReadClock(p));
    var s2 := LockProtocol.Next(s1, LockProtocol.InsertDoc(p));
    if s.doc.None? {
      steps, states := [LockProtocol.ReadClock(p), LockProtocol.InsertDoc(p)], [s, s1, s2];
    } else {
      steps := [LockProtocol.ReadClock(p), LockProtocol.InsertDoc(p), LockProtocol.TakeOverDoc(p)];
      states := [s, s1, s2, LockProtocol.Next(s2, LockProtocol.TakeOverDoc(p))];
    }
  }

  lemma BeatIsARun(s: LockProtocol.State, p: Process)
    returns (states: seq<LockProtocol.State>, steps: seq<LockProtocol.Step>)
    requires s.At(p).beat.Sleeping?
    ensures LockProtocol.IsRun(states, steps) && states[0] == s
    ensures ViewOf(states[|steps|], p) == AfterBeat(ViewOf(s, p), p, s.now, s.ttl)
  {
    var s1 := LockProtocol.Next(s, LockProtocol.WakeBeat(p));
    steps := [LockProtocol.WakeBeat(p), LockProtocol.BeatWrite(p)];
    states := [s, s1, LockProtocol.Next(s1, LockProtocol.BeatWrite(p))];
  }

  lemma ReleaseIsARun(s: LockProtocol.State, p: Process)
    returns (states: seq<LockProtocol.State>, steps: seq<LockProtocol.Step>)
    requires s.At(p).pc.Holding?
    ensures LockProtocol.IsRun(states, steps) && states[0] == s
    ensures ViewOf(states[|steps|], p) == AfterRelease(ViewOf(s, p), p)
  {
    var s1 := LockProtocol.Next(s, LockProtocol.Release(p));
    if s.At(p).acquired {
      steps := [LockProtocol.Release(p), LockProtocol.DeleteDoc(p)];
      states := [s, s1, LockProtocol.Next(s1, LockProtocol.DeleteDoc(p))];
    } else {
      steps, states := [LockProtocol.Release(p)], [s, s1];
    }
  }

  lemma TryIsARun(s: LeaderProtocol.State, p: Process)
    returns (states: seq<LeaderProtocol.State>, steps: seq<LeaderProtocol.Step>)
    requires s.At(p).pc.Idle?
    ensures LeaderProtocol.IsRun(states, steps) && states[0] == s
    ensures states[|steps|].doc == AfterTry(s.doc, p, s.now, s.ttl)
    ensures states[|steps|].At(p).leader <==> Free(s.doc, s.now) || Owned(s.doc, p)
  {
    var s1 := LeaderProtocol.Next(s, LeaderProtocol.Try(p));
    var s2 := LeaderProtocol.Next(s1, LeaderProtocol.InsertClaim(p));
    if s.doc.None? {
      steps, states := [LeaderProtocol.Try(p), LeaderProtocol.InsertClaim(p)], [s, s1, s2];
    } else {
      var s3 := LeaderProtocol.Next(s2, LeaderProtocol.RefreshClaim(p));
      if Owned(s.doc, p) {
        steps := [LeaderProtocol.Try(p), LeaderProtocol.InsertClaim(p), LeaderProtocol.RefreshClaim(p)];
        states := [s, s1, s2, s3];
      } else {
        steps := [LeaderProtocol.Try(p), LeaderProtocol.InsertClaim(p), LeaderProtocol.RefreshClaim(p),
                  LeaderProtocol.TakeOverClaim(p)];
        states := [s, s1, s2, s3, LeaderProtocol.Next(s3, LeaderProtocol.TakeOverClaim(p))];
      }
    }
  }

  lemma HeartbeatIsARun(s: LeaderProtocol.State, p: Process)
    returns (states: seq<LeaderProtocol.State>, steps: seq<LeaderProtocol.Step>)
    requires s.At(p).pc.Idle?
    ensures LeaderProtocol.IsRun(states, steps) && states[0] == s
    ensures states[|steps|].doc == AfterHeartbeat(s.doc, p, s.now, s.ttl)
  {
    var s1 := LeaderProtocol.Next(s, LeaderProtocol.Heartbeat(p));
    steps := [LeaderProtocol.Heartbeat(p), LeaderProtocol.BeatWrite(p)];
    states := [s, s1, LeaderProtocol.Next(s1, LeaderProtocol.BeatWrite(p))];
  }

  lemma ResignIsARun(s: LeaderProtocol.State, p: Process)
    returns (states: seq<LeaderProtocol.State>, steps: seq<LeaderProtocol.Step>)
    requires s.At(p).pc.Idle?
    ensures LeaderProtocol.IsRun(states, steps) && states[0] == s
    ensures states[|steps|].doc == AfterResign(s.doc, p) && !states[|steps|].At(p).leader
  {
    var s1 := LeaderProtocol.Next(s, LeaderProtocol.Resign(p));
    steps := [LeaderProtocol.Resign(p), LeaderProtocol.DeleteClaim(p)];
    states := [s, s1, LeaderProtocol.Next(s1, LeaderProtocol.DeleteClaim(p))];
  }

  // ---------------------------------------------------------------- the objects

  class DistributedLock {
    const shared: SharedDoc
    const owner: Process
    const ttl: nat
    var acquired: bool
    var beating: bool
    var lost: bool

    function View(): LockView
      reads this, shared
    {
      LockView(shared.doc, acquired, beating, lost)
    }

    constructor (shared: SharedDoc, owner: Process, ttl: nat)
      ensures this.shared == shared && this.owner == owner && this.ttl == ttl
      ensures !acquired && !beating && !lost
    {
      this.shared, this.owner, this.ttl := shared, owner, ttl;
      acquired, beating, lost := false, false, false;
    }

    /** Succeeds exactly on a free or expired lock; even the owner cannot acquire again. */
    method Acquire(now: int) returns (ok: bool)
      modifies this`acquired, shared
      ensures ok <==> Free(old(shared.doc), now)
      ensures View() == AfterAcquire(old(View()), owner, now, ttl)
      ensures ok <==> old(shared.doc).None? || old(shared.doc).value.expires < now
      ensures ok ==> shared.doc == Some(Doc(owner, now + ttl)) && acquired
      ensures !ok ==> shared.doc == old(shared.doc) && acquired == old(acquired)
    {
      var expires := now + ttl;
      ok := shared.Insert(owner, expires);
      if ok {
        acquired := true;
        return;
      }
      ok := shared.UpdateExpired(owner, now, expires);
      if ok { acquired := true; }
    }

    /** Entering the context: false stands for the RuntimeError. */
    method Enter(now: int) returns (ok: bool)
      modifies this`acquired, this`beating, shared
      ensures ok <==> Free(old(shared.doc), now)
      ensures View() == if ok then AfterAcquire(old(View()), owner, now, ttl).(beating := true) else old(View())
    {
      ok := Acquire(now);
      if ok { beating := true; }
    }

    method Beat(now: int)
      requires beating
      modifies this, shared
      ensures View() == AfterBeat(old(View()), owner, now, ttl)
      ensures old(shared.OwnedBy(owner)) ==>
                shared.doc == Some(Doc(owner, now + ttl)) && beating && acquired == old(acquired) && lost == old(lost)
      ensures !old(shared.OwnedBy(owner)) ==> shared.doc == old(shared.doc) && lost && !acquired && !beating
    {
      var ok := shared.UpdateOwn(owner, now + ttl);
      if !ok {
        acquired, lost, beating := false, true, false;
      }
    }

    /** Removes the document only if it is still this lock's own. */
    method Release()
      modifies this`acquired, this`beating, shared
      ensures View() == AfterRelease(old(View()), owner)
      ensures shared.doc == if old(acquired) && old(shared.OwnedBy(owner)) then None else old(shared.doc)
      ensures !acquired && !beating
    {
      beating := false;
      if acquired {
        shared.DeleteOwn(owner);
        acquired := false;
      }
    }
  }

  class LeaderElection {
    const shared: SharedDoc
    const worker: Process
    const ttl: nat

    constructor (shared: SharedDoc, worker: Process, ttl: nat)
      ensures this.shared == shared && this.worker == worker && this.ttl == ttl
    {
      this.shared, this.worker, this.ttl := shared, worker, ttl;
    }

    /** Succeeds exactly when there is no claim, or an expired one, or the worker's own. */
    method TryBecomeLeader(now: int) returns (ok: bool)
      modifies shared
      ensures ok <==> Free(old(shared.doc), now) || Owned(old(shared.doc), worker)
      ensures shared.doc == AfterTry(old(shared.doc), worker, now, ttl)
      ensures ok <==> old(shared.doc).None? || old(shared.doc).value.expires < now || old(shared.OwnedBy(worker))
      ensures shared.doc == if ok then Some(Doc(worker, now + ttl)) else old(shared.doc)
    {
      var expires := now + ttl;
      ok := shared.Insert(worker, expires);
      if ok { return; }
      ok := shared.UpdateOwn(worker, expires);
      if ok { return; }
      ok := shared.UpdateExpired(worker, now, expires);
    }

    method Heartbeat(now: int)
      modifies shared
      ensures shared.doc == AfterHeartbeat(old(shared.doc), worker, now, ttl)
      ensures shared.doc == if old(shared.OwnedBy(worker)) then Some(Doc(worker, now + ttl)) else old(shared.doc)
    {
      var _ := shared.UpdateOwn(worker, now + ttl);
    }

    method Resign()
      modifies shared
      ensures shared.doc == AfterResign(old(shared.doc), worker)
      ensures shared.doc == if old(shared.OwnedBy(worker)) then None else old(shared.doc)
    {
      shared.DeleteOwn(worker);
    }
  }
}
