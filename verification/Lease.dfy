/**
 What a lock and a leader election have in common: one shared document that names an owner
 and an expiry.  Processes write it in single atomic operations, after reading the clock some
 time before; and the database may remove the document once it has expired.
 */
module Lease {
  import opened Wrappers

  type Process = nat

  datatype Doc = Doc(owner: Process, expires: int)

  /** `claims` holds, for each process, the expiry that it wrote last, until it releases. */
  datatype State = State(now: int, doc: Option<Doc>, claims: map<Process, int>)

  datatype Step =
    | Tick(now: int)
    | Reap
    | Insert(p: Process, expires: int)
    | TakeOver(p: Process, read: int, expires: int)
    | Refresh(p: Process, expires: int)
    | Release(p: Process)

  /** Each write has a condition of its own on the document; clock readings may be stale. */
  predicate Enabled(s: State, step: Step) {
    match step
    case Tick(now) => now >= s.now
    case Reap => s.doc.Some? && s.doc.value.expires <= s.now
    case Insert(_, _) => s.doc.None?
    case TakeOver(_, read, _) => s.doc.Some? && s.doc.value.expires < read <= s.now
    case Refresh(p, _) => s.doc.Some? && s.doc.value.owner == p
    case Release(_) => true
  }

  function Next(s: State, step: Step): State {
    match step
    case Tick(now) => s.(now := now)
    case Reap => s.(doc := None)
    case Insert(p, expires) => s.(doc := Some(Doc(p, expires)), claims := s.claims[p := expires])
    case TakeOver(p, _, expires) => s.(doc := Some(Doc(p, expires)), claims := s.claims[p := expires])
    case Refresh(p, expires) => s.(doc := Some(Doc(p, expires)), claims := s.claims[p := expires])
    case Release(p) =>
      s.(doc := if s.doc.Some? && s.doc.value.owner == p then None else s.doc, claims := s.claims - {p})
  }

  /** The process wrote an expiry that has not come yet, and has not released. */
  predicate Live(s: State, p: Process) { p in s.claims && s.now < s.claims[p] }

  /** A live lease is the document. */
  ghost predicate Inv(s: State) {
    forall p :: Live(s, p) ==> s.doc == Some(Doc(p, s.claims[p]))
  }

  lemma StepKeepsInv(s: State, step: Step)
    requires Inv(s) && Enabled(s, step)
    ensures Inv(Next(s, step))
  {
    var t := Next(s, step);
    forall p | Live(t, p) ensures t.doc == Some(Doc(p, t.claims[p])) {
      assert (!step.Tick? && !step.Reap? && step.p == p) || Live(s, p);
    }
  }

  lemma AtMostOneLive(s: State, p: Process, q: Process)
    requires Inv(s) && Live(s, p) && Live(s, q)
    ensures p == q
  {
    assert Doc(p, s.claims[p]) == Doc(q, s.claims[q]);
  }

  /** Neither a release nor the reaper removes the document of another process's live lease,
      and a release removes no document of another process at all. */
  lemma OthersAreSpared(s: State, step: Step, p: Process)
    requires Inv(s) && Enabled(s, step) && (step.Release? || step.Reap?)
    requires s.doc.Some? && s.doc.value.owner == p
    ensures step.Release? && step.p != p ==> Next(s, step).doc == s.doc
    ensures step.Reap? ==> !Live(s, p)
    ensures Next(s, step).doc.None? ==> !Live(Next(s, step), p)
  {
    assert Live(s, p) ==> s.doc == Some(Doc(p, s.claims[p]));
  }

  ghost predicate IsRun(states: seq<State>, steps: seq<Step>) {
    && |states| == |steps| + 1
    && forall i :: 0 <= i < |steps| ==> Enabled(states[i], steps[i]) && states[i + 1] == Next(states[i], steps[i])
  }

  /** In every state of every run, from no claims: whoever has an unexpired claim owns the
      document under that very expiry, so no two processes have one. */
  lemma {:induction false} LeaseSafety(states: seq<State>, steps: seq<Step>, i: nat)
    requires IsRun(states, steps) && states[0].claims == map[] && i < |states|
    ensures Inv(states[i])
    ensures forall p, q :: Live(states[i], p) && Live(states[i], q) ==> p == q
    decreases i
  {
    if i > 0 {
      LeaseSafety(states, steps, i - 1);
      StepKeepsInv(states[i - 1], steps[i - 1]);
    }
    forall p, q | Live(states[i], p) && Live(states[i], q) ensures p == q {
      AtMostOneLive(states[i], p, q);
    }
  }
}
