/**
 Refresh-token families (backend/domains/auth/service.py:196-380): rotation with reuse
 detection, with the database operations of any number of requests interleaved.
 */
module TokenFamilies {
  import opened Wrappers

  type Token = nat
  type Family = nat
  type Request = nat

  datatype TokenDoc = TokenDoc(family: Family, user: string, used: bool)

  /** A rotation that has consumed its token and not yet stored the next one, or that was
      refused and has not yet deleted the family. */
  datatype Rotation = Consumed(token: Token, family: Family, user: string) | Refused(family: Family)

  /** `issued` gives the family that is signed into each token ever handed out; `next` holds
      who succeeded whom.  Both are history. */
  datatype State = State(tokens: map<Token, TokenDoc>, rotations: map<Request, Rotation>,
                         issued: map<Token, Family>, next: set<(Token, Token)>)
  {
    predicate Unused(t: Token, f: Family) { t in tokens && tokens[t].family == f && !tokens[t].used }

    predicate InFlight(r: Request, f: Family) {
      r in rotations && rotations[r].Consumed? && rotations[r].family == f
    }

    ghost predicate FreshFamily(f: Family) {
      (forall t :: t in issued ==> issued[t] != f) && forall r :: !InFlight(r, f)
    }

    function WithoutFamily(f: Family): State {
      this.(tokens := map t | t in tokens && tokens[t].family != f :: tokens[t])
    }
  }

  datatype Step =
    | Login(t: Token, f: Family, user: string)
    | Consume(r: Request, t: Token)
    | Store(r: Request, t: Token)
    | PunishReuse(r: Request)
    | Abort(r: Request)
    | RevokeFamily(f: Family)
    | RevokeUser(user: string)
    | Expire(t: Token)

  /** New ids are random, so they are fresh; and a token carries the family it was signed with. */
  ghost predicate Enabled(s: State, step: Step) {
    match step
    case Login(t, f, _) => t !in s.issued && s.FreshFamily(f)
    case Consume(r, t) => r !in s.rotations && t in s.issued
    case Store(r, t) => r in s.rotations && s.rotations[r].Consumed? && t !in s.issued
    case PunishReuse(r) => r in s.rotations && s.rotations[r].Refused?
    case Abort(r) => r in s.rotations
    case RevokeFamily(_) => true
    case RevokeUser(_) => true
    case Expire(t) => t in s.tokens
  }

  ghost function Next(s: State, step: Step): State
    requires Enabled(s, step)
  {
    match step
    case Login(t, f, user) => s.(tokens := s.tokens[t := TokenDoc(f, user, false)], issued := s.issued[t := f])
    case Consume(r, t) =>
      if t in s.tokens && !s.tokens[t].used
      then s.(tokens := s.tokens[t := s.tokens[t].(used := true)],
              rotations := s.rotations[r := Consumed(t, s.issued[t], s.tokens[t].user)])
      else s.(rotations := s.rotations[r := Refused(s.issued[t])])
    case Store(r, t) =>
      var rot := s.rotations[r];
      s.(tokens := s.tokens[t := TokenDoc(rot.family, rot.user, false)], rotations := s.rotations - {r},
         issued := s.issued[t := rot.family], next := s.next + {(rot.token, t)})
    case PunishReuse(r) => s.WithoutFamily(s.rotations[r].family).(rotations := s.rotations - {r})
    case Abort(r) => s.(rotations := s.rotations - {r})
    case RevokeFamily(f) => s.WithoutFamily(f)
    case RevokeUser(user) => s.(tokens := map t | t in s.tokens && s.tokens[t].user != user :: s.tokens[t])
    case Expire(t) => s.(tokens := s.tokens - {t})
  }

  /** What each operation leaves alone: a deletion takes the tokens of its family or user and no
      others, and any other operation touches one token at most. */
  lemma OthersAreSpared(s: State, step: Step, u: Token)
    requires Enabled(s, step)
    ensures var t := Next(s, step);
            match step
            case RevokeFamily(f) => u in t.tokens <==> u in s.tokens && s.tokens[u].family != f
            case PunishReuse(r) => u in t.tokens <==> u in s.tokens && s.tokens[u].family != s.rotations[r].family
            case RevokeUser(user) => u in t.tokens <==> u in s.tokens && s.tokens[u].user != user
            case Login(v, _, _) => u != v ==> (u in t.tokens <==> u in s.tokens)
            case Store(_, v) => u != v ==> (u in t.tokens <==> u in s.tokens)
            case Expire(v) => u in t.tokens <==> u in s.tokens && u != v
            case Consume(_, _) => u in t.tokens <==> u in s.tokens
            case Abort(_) => u in t.tokens <==> u in s.tokens
    ensures u in Next(s, step).tokens && u in s.tokens ==>
              Next(s, step).tokens[u] == s.tokens[u]
              || (step.Consume? && step.t == u && Next(s, step).tokens[u] == s.tokens[u].(used := true))
              || ((step.Login? || step.Store?) && step.t == u)
  {
  }

  /** A rotation hands the family and the user of the consumed token on to the next. */
  lemma RotationHandsOn(s: State, r: Request, t: Token, u: Token)
    requires Signed(s) && Enabled(s, Consume(r, t)) && t in s.tokens && !s.tokens[t].used && u !in s.issued
    ensures var mid := Next(s, Consume(r, t));
            && Enabled(mid, Store(r, u))
            && var end := Next(mid, Store(r, u));
               && end.tokens == s.tokens[t := s.tokens[t].(used := true)]
                                        [u := TokenDoc(s.tokens[t].family, s.tokens[t].user, false)]
               && end.rotations == s.rotations && (t, u) in end.next
  {
    var end := Next(Next(s, Consume(r, t)), Store(r, u));
    assert end.rotations == s.rotations;
  }

  /** Presenting a token that is not unused ends its family, unless a rotation is in flight;
      tokens of other families stay. */
  lemma ReplayEndsFamily(s: State, r: Request, t: Token)
    requires Inv(s) && Enabled(s, Consume(r, t)) && !(t in s.tokens && !s.tokens[t].used)
    ensures var mid := Next(s, Consume(r, t));
            && mid.tokens == s.tokens && Enabled(mid, PunishReuse(r))
            && var end := Next(mid, PunishReuse(r));
               && (forall u :: u in end.tokens <==> u in s.tokens && s.tokens[u].family != s.issued[t])
               && (Dead(end, s.issued[t]) <==> forall q :: !s.InFlight(q, s.issued[t]))
  {
    var mid, f := Next(s, Consume(r, t)), s.issued[t];
    StepKeepsInv(s, Consume(r, t));
    assert t in mid.issued && mid.issued[t] == f;
    RevocationIsFinal(mid, f, PunishReuse(r));
    assert forall q :: mid.InFlight(q, f) == s.InFlight(q, f);
  }

  /** A rotation succeeds when its token is consumed. */
  predicate Succeeds(s: State, step: Step, f: Family) {
    step.Consume? && s.Unused(step.t, f)
  }

  // ---------------------------------------------------------------- the invariant

  /** A family has one bearer at most: an unused token or a rotation in flight. */
  ghost predicate OneBearer(s: State, f: Family) {
    && (forall t, u :: s.Unused(t, f) && s.Unused(u, f) ==> t == u)
    && (forall q, r :: s.InFlight(q, f) && s.InFlight(r, f) ==> q == r)
    && (forall t, r :: s.Unused(t, f) && s.InFlight(r, f) ==> false)
  }

  ghost predicate Signed(s: State) {
    && (forall t :: t in s.tokens ==> t in s.issued && s.issued[t] == s.tokens[t].family)
    && (forall r :: r in s.rotations && s.rotations[r].Consumed? ==>
          s.rotations[r].token in s.issued && s.issued[s.rotations[r].token] == s.rotations[r].family)
    && (forall e :: e in s.next ==> e.0 in s.issued && e.1 in s.issued && s.issued[e.0] == s.issued[e.1])
  }

  /** A token that may still get a successor has none. */
  ghost predicate Unsucceeded(s: State, t: Token) { forall e :: e in s.next ==> e.0 != t }

  ghost predicate Inv(s: State) {
    && Signed(s)
    && (forall f :: OneBearer(s, f))
    && (forall t :: t in s.tokens && !s.tokens[t].used ==> Unsucceeded(s, t))
    && (forall r :: r in s.rotations && s.rotations[r].Consumed? ==> Unsucceeded(s, s.rotations[r].token))
    && (forall d, e :: d in s.next && e in s.next && d.0 == e.0 ==> d == e)
  }

  lemma StepKeepsSigned(s: State, step: Step)
    requires Signed(s) && Enabled(s, step)
    ensures Signed(Next(s, step))
  {
  }

  lemma StepKeepsOneBearer(s: State, step: Step, f: Family)
    requires Signed(s) && OneBearer(s, f) && Enabled(s, step)
    ensures OneBearer(Next(s, step), f)
  {
    var t := Next(s, step);
    forall u | t.Unused(u, f)
      ensures s.Unused(u, f) || (step.Login? && u == step.t && step.f == f)
              || (step.Store? && u == step.t && s.InFlight(step.r, f))
    {
    }
    forall r | t.InFlight(r, f) ensures s.InFlight(r, f) || (step.Consume? && r == step.r && s.Unused(step.t, f)) {
    }
  }

  lemma StepKeepsSuccession(s: State, step: Step)
    requires Inv(s) && Enabled(s, step)
    ensures var t := Next(s, step);
            && (forall u :: u in t.tokens && !t.tokens[u].used ==> Unsucceeded(t, u))
            && (forall r :: r in t.rotations && t.rotations[r].Consumed? ==> Unsucceeded(t, t.rotations[r].token))
            && (forall d, e :: d in t.next && e in t.next && d.0 == e.0 ==> d == e)
  {
    if step.Store? {
      var rot := s.rotations[step.r];
      assert s.InFlight(step.r, rot.family) && OneBearer(s, rot.family);
      forall u | u in s.tokens && !s.tokens[u].used ensures u != rot.token {
        assert u == rot.token ==> s.Unused(u, rot.family);
      }
      forall r | r in s.rotations && s.rotations[r].Consumed? && r != step.r ensures s.rotations[r].token != rot.token {
        assert s.rotations[r].token == rot.token ==> s.InFlight(r, rot.family);
      }
    }
  }

  lemma StepKeepsInv(s: State, step: Step)
    requires Inv(s) && Enabled(s, step)
    ensures Inv(Next(s, step))
  {
    hide Next, Enabled, Signed, OneBearer;
    StepKeepsSigned(s, step);
    forall f ensures OneBearer(Next(s, step), f) { StepKeepsOneBearer(s, step, f); }
    StepKeepsSuccession(s, step);
  }

  ghost predicate IsRun(states: seq<State>, steps: seq<Step>) {
    && |states| == |steps| + 1
    && forall i :: 0 <= i < |steps| ==> Enabled(states[i], steps[i]) && states[i + 1] == Next(states[i], steps[i])
  }

  const EMPTY := State(map[], map[], map[], {})

  function Unuseds(s: State, f: Family): set<Token> { set t | t in s.tokens && s.Unused(t, f) }

  function Flights(s: State, f: Family): set<Request> { set r | r in s.rotations && s.InFlight(r, f) }

  lemma AtMostOne<T>(a: set<T>)
    requires forall x, y :: x in a && y in a ==> x == y
    ensures |a| <= 1
  {
    if x :| x in a {
      assert a == {x};
    }
  }

  lemma EmptyIsSigned()
    ensures Signed(EMPTY)
  {
  }

  /** In every state of every run, for every family: unused tokens and rotations in flight
      are one at most together, and no token has two successors. */
  lemma {:induction false} FamiliesDoNotFork(states: seq<State>, steps: seq<Step>, i: nat, f: Family)
    requires IsRun(states, steps) && states[0] == EMPTY && i < |states|
    ensures Inv(states[i])
    ensures |Unuseds(states[i], f)| + |Flights(states[i], f)| <= 1
    ensures forall d, e :: d in states[i].next && e in states[i].next && d.0 == e.0 ==> d.1 == e.1
    decreases i
  {
    hide Next, Enabled, Signed, Unsucceeded;
    if i == 0 {
      EmptyIsSigned();
    } else {
      FamiliesDoNotFork(states, steps, i - 1, f);
      StepKeepsInv(states[i - 1], steps[i - 1]);
    }
    var s := states[i];
    assert OneBearer(s, f);
    AtMostOne(Unuseds(s, f));
    AtMostOne(Flights(s, f));
    if t :| t in Unuseds(s, f) {
      assert Flights(s, f) == {};
    } else {
      assert Unuseds(s, f) == {};
    }
  }

  // ---------------------------------------------------------------- revocation

  /** A family that was handed out and has no bearer left. */
  ghost predicate Dead(s: State, f: Family) {
    && (exists t :: t in s.issued && s.issued[t] == f)
    && (forall t :: !s.Unused(t, f))
    && (forall r :: !s.InFlight(r, f))
  }

  lemma DeadStaysDead(s: State, step: Step, f: Family)
    requires Signed(s) && Dead(s, f) && Enabled(s, step)
    ensures Dead(Next(s, step), f) && !Succeeds(s, step, f)
  {
    var t := Next(s, step);
    var u :| u in s.issued && s.issued[u] == f;
    assert u in t.issued && t.issued[u] == f;
    forall v ensures !t.Unused(v, f) {
      assert !s.Unused(v, f);
      assert step.Store? ==> !s.InFlight(step.r, f);
    }
    forall r ensures !t.InFlight(r, f) {
      assert !s.InFlight(r, f);
      assert step.Consume? ==> !s.Unused(step.t, f);
    }
  }

  /** No rotation of a dead family ever succeeds, in any continuation. */
  lemma {:induction false} DeadForever(states: seq<State>, steps: seq<Step>, f: Family, i: nat)
    requires IsRun(states, steps) && Signed(states[0]) && Dead(states[0], f) && i < |states|
    ensures Signed(states[i]) && Dead(states[i], f)
    ensures i < |steps| ==> !Succeeds(states[i], steps[i], f)
    decreases i
  {
    hide Next, Enabled, Signed, Dead, Succeeds;
    if i > 0 {
      DeadForever(states, steps, f, i - 1);
      StepKeepsSigned(states[i - 1], steps[i - 1]);
      DeadStaysDead(states[i - 1], steps[i - 1], f);
    }
    if i < |steps| { DeadStaysDead(states[i], steps[i], f); }
  }

  /** A family that is not dead has a continuation in which a rotation of it succeeds. */
  lemma NotDeadCanRotate(s: State, f: Family, u: Token) returns (states: seq<State>, steps: seq<Step>)
    requires Inv(s) && u in s.issued && s.issued[u] == f && !Dead(s, f)
    ensures IsRun(states, steps) && states[0] == s && steps != []
    ensures Succeeds(states[|steps| - 1], steps[|steps| - 1], f)
  {
    if t :| s.Unused(t, f) {
      steps, states := ConsumeFresh(s, f, t);
    } else {
      var r :| s.InFlight(r, f);
      var t := FreshToken(s.issued.Keys);
      var stored := Next(s, Store(r, t));
      StepKeepsInv(s, Store(r, t));
      assert stored.Unused(t, f);
      steps, states := ConsumeFresh(stored, f, t);
      steps, states := [Store(r, t)] + steps, [s] + states;
    }
  }

  lemma ConsumeFresh(s: State, f: Family, t: Token) returns (steps: seq<Step>, states: seq<State>)
    requires Inv(s) && s.Unused(t, f)
    ensures IsRun(states, steps) && states[0] == s && |steps| == 1 && Succeeds(s, steps[0], f)
  {
    var r := FreshToken(s.rotations.Keys);
    steps := [Consume(r, t)];
    states := [s, Next(s, Consume(r, t))];
  }

  lemma FreshToken(used: set<nat>) returns (t: nat)
    ensures t !in used
  {
    t := Bound(used);
  }

  lemma {:induction false} Bound(used: set<nat>) returns (t: nat)
    ensures forall u :: u in used ==> u < t
    decreases |used|
  {
    if used == {} {
      t := 0;
    } else {
      var u :| u in used;
      t := Bound(used - {u});
      if t <= u { t := u + 1; }
      assert forall v :: v in used ==> v == u || v in used - {u};
    }
  }

  /** Deleting a family - on reuse, at logout, when its session is revoked - is final if and
      only if no rotation of that family is in flight. */
  lemma RevocationIsFinal(s: State, f: Family, step: Step)
    requires Inv(s) && Enabled(s, step) && (exists t :: t in s.issued && s.issued[t] == f)
    requires step == RevokeFamily(f) || (step.PunishReuse? && s.rotations[step.r].family == f)
    ensures Dead(Next(s, step), f) <==> forall r :: !s.InFlight(r, f)
  {
    var t := Next(s, step);
    assert t.issued == s.issued;
    assert forall r :: t.InFlight(r, f) == s.InFlight(r, f);
    assert forall u :: !t.Unused(u, f);
  }

  /** Deleting the tokens of a user is final for a family if and only if its unused token, if
      any, is the user's, and no rotation of the family is in flight. */
  lemma UserRevocationIsFinal(s: State, f: Family, user: string)
    requires Inv(s) && (exists t :: t in s.issued && s.issued[t] == f)
    ensures Dead(Next(s, RevokeUser(user)), f)
       <==> (forall r :: !s.InFlight(r, f)) && forall t :: s.Unused(t, f) ==> s.tokens[t].user == user
  {
    var t := Next(s, RevokeUser(user));
    assert t.issued == s.issued;
    assert forall r :: t.InFlight(r, f) == s.InFlight(r, f);
    assert forall u :: t.Unused(u, f) <==> s.Unused(u, f) && s.tokens[u].user != user;
  }

  /** A log-in, a refresh that has consumed its token when the family is deleted, and then
      stores the next one: the deletion was not final, and the next refresh succeeds. */
  lemma RevokedFamilyComesBack(user: string) returns (states: seq<State>, steps: seq<Step>)
    ensures steps == [Login(0, 0, user), Consume(0, 0), RevokeFamily(0), Store(0, 1), Consume(0, 1)]
    ensures IsRun(states, steps) && states[0] == EMPTY
    ensures (forall t :: !states[3].Unused(t, 0)) && Succeeds(states[4], steps[4], 0)
  {
    var s1 := State(map[0 := TokenDoc(0, user, false)], map[], map[0 := 0], {});
    var s2 := State(map[0 := TokenDoc(0, user, true)], map[0 := Consumed(0, 0, user)], map[0 := 0], {});
    var s3 := s2.(tokens := map[]);
    var s4 := State(map[1 := TokenDoc(0, user, false)], map[], map[0 := 0, 1 := 0], {(0, 1)});
    steps := [Login(0, 0, user), Consume(0, 0), RevokeFamily(0), Store(0, 1), Consume(0, 1)];
    states := [EMPTY, s1, s2, s3, s4, Next(s4, Consume(0, 1))];
    assert Next(EMPTY, steps[0]) == s1;
    assert Next(s1, steps[1]) == s2;
    assert Next(s2, steps[2]) == s3;
    assert Next(s3, steps[3]) == s4;
  }
}
