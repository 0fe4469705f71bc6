/**
 One call of `append_chained_entry` by itself (backend/audit/chain/commands.py:173-259): when
 no other call comes between, the steps of AppendProtocol add up to what the methods of
 ChainStore do.  So what is proved of interleaved steps is about those very commands.
 */
module AppendCalls {
  import opened Wrappers
  import opened Hashing
  import opened ChainVerification
  import opened ChainRules
  import opened AppendProtocol
  import Late = LateAppends
  import ChainStore
  import Runs

  /** Only this call moves, and no time passes. */
  predicate IsOwn(c: Call, step: Step) { !step.Tick? && !step.Reap? && step.c == c }

  ghost function Own(c: Call): Late.Policy { (s, step) => IsOwn(c, step) }

  /** An attempt to take the lock succeeds if and only if the lock is free or had expired when
      the clock was read, and holds it for thirty seconds from then. */
  lemma AttemptAlone(hash: EntryHasher, s: State, c: Call) returns (t: State)
    requires s.size >= 1 && s.At(c).Idle?
    ensures Late.Leads(hash, Own(c), s, t)
    ensures if s.lock.None? || s.lock.value.expires < s.now
            then t == s.(lock := Some(LockDoc(c, s.now + 30_000_000))).Go(c, Held(s.now + 30_000_000))
            else t == s.Go(c, Idle)
  {
    hide Runs.Leads;
    var s1 := Next(hash, s, ReadClock(c));
    var s2 := Next(hash, s1, InsertLock(c));
    if s.lock.None? {
      t := s2;
      Runs.LeadsToItself(Late.By(hash, Own(c)), t);
      assert s1.calls[c := s2.At(c)] == s.calls[c := s2.At(c)];
    } else {
      t := Next(hash, s2, TakeOver(c));
      Runs.LeadsToItself(Late.By(hash, Own(c)), t);
      Late.LeadsBy(hash, Own(c), s2, TakeOver(c), t);
      assert s2.calls[c := t.At(c)] == s.calls[c := t.At(c)];
    }
    Late.LeadsBy(hash, Own(c), s1, InsertLock(c), t);
    Late.LeadsBy(hash, Own(c), s, ReadClock(c), t);
  }

  /** Releasing removes the lock document if it is still the call's own. */
  lemma ReleaseAlone(hash: EntryHasher, s: State, c: Call)
    requires s.size >= 1 && s.At(c).Releasing?
    ensures Enabled(s, Release(c))
    ensures var own := s.lock.Some? && s.lock.value.owner == c;
            Next(hash, s, Release(c)) == s.(lock := if own then None else s.lock).Go(c, Finished)
  {
  }

  /** The two attempts to insert, and giving the number back. */
  lemma InsertAlone(hash: EntryHasher, s: State, c: Call, up: (bool, bool)) returns (t: State)
    requires s.size >= 1 && s.At(c).Writing? && s.At(c).attempt == 0
    requires s.At(c).entry.sequence >= 0 && s.At(c).entry.timestamp.Moment?
    ensures Late.Leads(hash, Own(c), s, t)
    ensures var e := s.At(c).entry;
            var ok := (up.0 || up.1) && e.sequence !in s.log;
            t == s.(log := if ok then s.log[e.sequence := Stored(e)] else s.log,
                    counter := if ok then s.counter else e.sequence).Go(c, Releasing(s.At(c).until))
  {
    hide Runs.Leads;
    var u, e := s.At(c).until, s.At(c).entry;
    var s1 := Next(hash, s, Insert(c, up.0));
    if up.0 && e.sequence !in s.log {
      t := s1;
      Runs.LeadsToItself(Late.By(hash, Own(c)), t);
    } else {
      var s2 := Next(hash, s1, Insert(c, up.1));
      if up.1 && e.sequence !in s.log {
        t := s2;
        Runs.LeadsToItself(Late.By(hash, Own(c)), t);
      } else {
        t := Next(hash, s2, RollBack(c));
        Runs.LeadsToItself(Late.By(hash, Own(c)), t);
        Late.LeadsBy(hash, Own(c), s2, RollBack(c), t);
      }
      assert t.calls == s.calls[c := Releasing(u)];
      Late.LeadsBy(hash, Own(c), s1, Insert(c, up.1), t);
    }
    Late.LeadsBy(hash, Own(c), s, Insert(c, up.0), t);
  }

  /** From the lock to the release: the number, the closing of the epoch, the link, the entry,
      two attempts, and the number given back in vain - exactly as `Store.WriteChainedEntry`. */
  lemma WriteIsARun(hash: EntryHasher, s: State, c: Call, d: Draft, up: (bool, bool), boundary: Option<nat>)
    returns (t: State)
    requires s.size >= 1 && s.At(c).Held? && FromUtcNow(d)
    requires IsBoundary(s.counter, s.size) ==> BoundaryQuery(s.log, s.counter / s.size - 1, boundary)
    ensures Late.Leads(hash, Own(c), s, t)
    ensures var q, closed := s.counter, ChainStore.Closed(s.log, s.counter, s.size, boundary);
            var peh := if IsBoundary(q, s.size) then HashOf(s.log, boundary) else None;
            var e := BuildEntry(hash, d, q, s.size, peh, LinkFor(closed, q));
            var ok := (up.0 || up.1) && q !in s.log;
            t == s.(log := if ok then closed[q := Stored(e)] else closed, counter := if ok then q + 1 else q)
                  .Go(c, Releasing(s.At(c).until))
  {
    hide Runs.Leads, BoundaryQuery;
    var u, q := s.At(c).until, s.counter;
    var s1 := Next(hash, s, Allocate(c));
    if IsBoundary(q, s.size) {
      var s2 := Next(hash, s1, FindBoundary(c, boundary));
      var s3 := Next(hash, s2, MarkEnd(c));
      var s4 := Next(hash, s3, ReadLink(c, d));
      t := InsertAlone(hash, s4, c, up);
      assert t.calls == s.calls[c := Releasing(u)];
      Late.LeadsBy(hash, Own(c), s3, ReadLink(c, d), t);
      Late.LeadsBy(hash, Own(c), s2, MarkEnd(c), t);
      Late.LeadsBy(hash, Own(c), s1, FindBoundary(c, boundary), t);
    } else {
      var s4 := Next(hash, s1, ReadLink(c, d));
      t := InsertAlone(hash, s4, c, up);
      assert t.calls == s.calls[c := Releasing(u)];
      Late.LeadsBy(hash, Own(c), s1, ReadLink(c, d), t);
    }
    Late.LeadsBy(hash, Own(c), s, Allocate(c), t);
  }
}
