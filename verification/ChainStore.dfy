/**
 The append and initialisation commands as one worker runs them, step by step on the stored
 state (backend/audit/chain/commands.py, backend/audit/chain/repository.py).  The interleaved
 forms are in AppendProtocol and Genesis.
 */
module ChainStore {
  import opened Wrappers
  import opened CanonicalJson
  import opened Timestamps
  import opened Hashing
  import opened ChainVerification
  import opened ChainRules

  const MAX_LOCK_ATTEMPTS := 10

  /** `LockNotAcquired` and `WriteFailed` are the two ChainIntegrityErrors of an append. */
  datatype AppendOutcome = Appended(entry: Entry) | LockNotAcquired | WriteFailed(sequence: nat)

  /** An entry made from a draft. */
  predicate CarriesDraft(e: Entry, d: Draft) {
    && e.timestamp == Moment(d.time) && e.domain == d.domain && e.action == d.action && e.actor == d.actor
    && e.status == d.status && e.summary == d.summary && e.details == d.details && e.tenantId == d.tenantId
  }

  /** The length of a chain is not yet used; and removing an unused number changes nothing. */
  lemma WellChainedLog(hash: EntryHasher, log: Log, n: nat, size: nat)
    requires WellChained(hash, log, n, size)
    ensures size >= 1 && n !in log && log - {n} == log && SameButMarks(log, log)
  {
  }

  const CHAIN_ALGORITHM := "SHA-256"

  /** The genesis entry of `initialize_chain`. */
  function GenesisEntry(hash: EntryHasher, time: RealTime, tenantId: Option<string>, actor: string, version: string,
                        size: nat): Entry
  {
    var details := Object(Member("chain_algorithm", Str(CHAIN_ALGORITHM), Member("epoch_size", Number(size),
                          Member("initialized_by", Str(actor), Member("sentora_version", Str(version),
                          Member("tenant_id", OptionalText(tenantId), NoMembers))))));
    var e := Entry(0, 0, Moment(time), "system", "system.genesis", actor, "info", "Audit hash-chain initialized",
                   details, tenantId, None, None, true, false, None);
    e.(hash := Some(hash(e, None)))
  }

  /** The fields of the genesis entry, and its details by key. */
  lemma GenesisFields(hash: EntryHasher, time: RealTime, tenantId: Option<string>, actor: string, version: string,
                      size: nat)
    ensures var e := GenesisEntry(hash, time, tenantId, actor, version, size);
            && e.sequence == 0 && e.epoch == 0 && e.timestamp == Moment(time) && e.domain == "system"
            && e.action == "system.genesis" && e.actor == actor && e.status == "info"
            && e.summary == "Audit hash-chain initialized" && e.tenantId == tenantId
            && e.previousHash == None && e.previousEpochHash == None && e.isEpochStart && !e.isEpochEnd
            && e.hash == Some(hash(e.(hash := None), None))
            && e.details.Object? && Ascending(e.details.members) && |AsMap(e.details.members)| == 5
            && Has(e.details.members, "chain_algorithm", Str("SHA-256"))
            && Has(e.details.members, "epoch_size", Number(size))
            && Has(e.details.members, "initialized_by", Str(actor))
            && Has(e.details.members, "sentora_version", Str(version))
            && Has(e.details.members, "tenant_id", if tenantId.None? then Null else Str(tenantId.value))
  {
    var m0 := GenesisEntry(hash, time, tenantId, actor, version, size).details.members;
    var m1 := m0.rest;
    var m2 := m1.rest;
    var m3 := m2.rest;
    var m4 := m3.rest;
    DetailNamesAscend();
    hide Precedes, AsMap, Ascending, Has;
    NoMoreMembers();
    PushMember(m4);
    PushMember(m3);
    PushMember(m2);
    PushMember(m1);
    PushMember(m0);
  }

  lemma DetailNamesAscend()
    ensures Precedes("chain_algorithm", "epoch_size") && Precedes("epoch_size", "initialized_by")
    ensures Precedes("initialized_by", "sentora_version") && Precedes("sentora_version", "tenant_id")
  {
    hide Precedes;
    PrecedesAt("chain_algorithm", "epoch_size", 0);
    PrecedesAt("epoch_size", "initialized_by", 0);
    PrecedesAt("initialized_by", "sentora_version", 0);
    PrecedesAt("sentora_version", "tenant_id", 0);
  }

  lemma GenesisIsAppendable(hash: EntryHasher, time: RealTime, tenantId: Option<string>, actor: string, version: string,
                            size: nat)
    requires SurvivesStorage(hash) && time.offset == Some(0) && 1000 <= time.year && size >= 1
    ensures Appendable(hash, map[], 0, size, GenesisEntry(hash, time, tenantId, actor, version, size))
  {
    var g := GenesisEntry(hash, time, tenantId, actor, version, size);
    var bare := g.(hash := None);
    assert HasUtcTime(bare);
    assert hash(Stored(bare.(hash := Some(hash(bare, None)))), None) == hash(bare, None);
  }

  lemma GenesisStartsChain(hash: EntryHasher, log: Log, time: RealTime, tenantId: Option<string>, actor: string,
                           version: string, size: nat, n: nat)
    requires SurvivesStorage(hash) && time.offset == Some(0) && 1000 <= time.year && WellChained(hash, log, n, size)
    ensures n == 0 ==> 0 !in log
                       && WellChained(hash, log[0 := Stored(GenesisEntry(hash, time, tenantId, actor, version, size))],
                                      1, size)
    ensures n > 0 ==> 0 in log && IsLatest(log, n - 1)
  {
    if n == 0 {
      assert log == map[];
      GenesisIsAppendable(hash, time, tenantId, actor, version, size);
      WriteExtendsChain(hash, log, 0, size, GenesisEntry(hash, time, tenantId, actor, version, size));
    }
  }

  /** The log after an append has closed the epoch before a boundary, if it is at one. */
  ghost function Closed(log: Log, sequence: nat, size: nat, boundary: Option<nat>): Log
    requires size >= 1
  {
    if IsBoundary(sequence, size) then Marked(log, boundary) else log
  }

  class Store {
    const hash: EntryHasher
    var log: Log
    var counter: nat
    var epochSize: nat

    /** The stored state is a chain of `n` entries. */
    ghost predicate Chain(n: nat)
      reads this
    {
      WellChained(hash, log, n, epochSize)
    }

    method GetNextSequence() returns (sequence: nat)
      modifies this`counter
      ensures sequence == old(counter) && counter == old(counter) + 1
    {
      counter := counter + 1;
      sequence := counter - 1;
    }

    method ResetSequenceTo(value: nat)
      modifies this`counter
      ensures counter == value
    {
      counter := value;
    }

    method GetPreviousHash(sequence: nat) returns (h: Option<string>)
      ensures h == LinkFor(log, sequence)
      ensures h == if sequence > 0 && sequence - 1 in log then log[sequence - 1].hash else None
    {
      if sequence == 0 { return None; }
      if sequence - 1 !in log { return None; }
      return log[sequence - 1].hash;
    }

    /** The query for the last entry of an epoch. */
    method GetEpochBoundaryEntry(epoch: int) returns (found: Option<nat>)
      ensures BoundaryQuery(log, epoch, found)
    {
      found := None;
      var keys := log.Keys;
      while keys != {}
        invariant keys <= log.Keys
        invariant found.Some? ==> found.value in log && found.value !in keys && log[found.value].epoch == epoch
        invariant forall t :: t in log && t !in keys && log[t].epoch == epoch ==> found.Some? && t <= found.value
        decreases keys
      {
        var t :| t in keys;
        keys := keys - {t};
        if log[t].epoch == epoch && (found.None? || t > found.value) {
          found := Some(t);
        }
      }
    }

    /** The query for the highest sequence number. */
    method GetLatest() returns (latest: Option<nat>)
      ensures LatestQuery(log, latest)
    {
      latest := None;
      var keys := log.Keys;
      while keys != {}
        invariant keys <= log.Keys
        invariant latest.Some? ==> latest.value in log && latest.value !in keys
        invariant forall t :: t in log && t !in keys ==> latest.Some? && t <= latest.value
        decreases keys
      {
        var t :| t in keys;
        keys := keys - {t};
        if latest.None? || t > latest.value {
          latest := Some(t);
        }
      }
      assert latest.None? ==> log.Keys == {} && log == map[];
    }

    method MarkEpochEnd(s: nat)
      requires s in log
      modifies this`log
      ensures log == Marked(old(log), Some(s)) == old(log)[s := old(log)[s].(isEpochEnd := true)]
    {
      log := log[s := log[s].(isEpochEnd := true)];
    }

    /** One attempt to insert, which may fail for reasons of its own (`up` is false), and
        does fail when the unique index on `sequence` objects. */
    method InsertOne(e: Entry, up: bool) returns (ok: bool)
      requires e.sequence >= 0 && e.timestamp.Moment?
      modifies this`log
      ensures ok == (up && e.sequence !in old(log))
      ensures log == if ok then old(log)[e.sequence := Stored(e)] else old(log)
    {
      ok := up && e.sequence !in log;
      if ok {
        log := log[e.sequence := Stored(e)];
      }
    }

    /** The part of `append_chained_entry` that runs with the lock held.  `up` says which of
        the two attempts to insert the database accepts.  An append that fails gives its
        number back; all that can remain of it is the mark on the last entry of the epoch
        that it would have followed. */
    method WriteChainedEntry(d: Draft, up: (bool, bool)) returns (r: Option<Entry>, ghost boundary: Option<nat>)
      requires epochSize >= 1
      modifies this`log, this`counter
      ensures IsBoundary(old(counter), epochSize)
              ==> BoundaryQuery(old(log), old(counter) / epochSize - 1, boundary)
      ensures r.Some? <==> (up.0 || up.1) && old(counter) !in old(log)
      ensures r.Some? ==>
                var closed := Closed(old(log), old(counter), epochSize, boundary);
                var link := LinkFor(closed, old(counter));
                var peh := if IsBoundary(old(counter), epochSize) then HashOf(old(log), boundary) else None;
                && counter == old(counter) + 1
                && r.value == BuildEntry(hash, d, old(counter), epochSize, peh, link)
                && log == closed[old(counter) := Stored(r.value)]
      ensures r.None? ==> counter == old(counter) && log == Closed(old(log), old(counter), epochSize, boundary)
    {
      boundary := None;
      var sequence := GetNextSequence();
      var epoch := sequence / epochSize;
      var prevEpochHash: Option<string> := None;
      var isEpochStart := false;
      if sequence > 0 && sequence % epochSize == 0 {
        isEpochStart := true;
        var lastEntry := GetEpochBoundaryEntry(epoch - 1);
        boundary := lastEntry;
        if lastEntry.Some? {
          prevEpochHash := log[lastEntry.value].hash;
          MarkEpochEnd(lastEntry.value);
        }
      }
      var previousHash := GetPreviousHash(sequence);
      var e := Entry(sequence, epoch, Moment(d.time), d.domain, d.action, d.actor, d.status, d.summary, d.details,
                     d.tenantId, previousHash, None, isEpochStart, false, prevEpochHash);
      e := e.(hash := Some(hash(e, previousHash)));
      var ok := InsertOne(e, up.0);
      if !ok {
        ok := InsertOne(e, up.1);
      }
      if ok { return Some(e), boundary; }
      ResetSequenceTo(sequence);
      r := None;
    }

    /** A chain whose counter agrees with it, a hash as `compute_entry_hash`, and a time from
        the clock. */
    ghost predicate Ready(d: Draft)
      reads this
    {
      IgnoresMarks(hash) && SurvivesStorage(hash) && FromUtcNow(d) && Chain(counter)
    }

    /** `append_chained_entry`.  `free` says which attempts to take the lock succeed.  However
        it ends, a chain whose counter agrees with it stays one, its earlier entries stay as
        they were, end marks aside, and it is one entry longer exactly on success. */
    method AppendChainedEntry(d: Draft, free: nat -> bool, up: (bool, bool)) returns (r: AppendOutcome)
      requires epochSize >= 1
      modifies this`log, this`counter
      ensures r.LockNotAcquired? <==> forall i: nat :: i < MAX_LOCK_ATTEMPTS ==> !free(i)
      ensures r.LockNotAcquired? ==> log == old(log) && counter == old(counter)
      ensures !r.LockNotAcquired? ==> (r.Appended? <==> (up.0 || up.1) && old(counter) !in old(log))
      ensures r.WriteFailed? ==> counter == old(counter) && r.sequence == counter
      ensures r.Appended? ==> counter == old(counter) + 1 && CarriesDraft(r.entry, d)
                              && r.entry.sequence == old(counter) && r.entry.epoch == old(counter) / epochSize
                              && old(counter) in log && log[old(counter)] == Stored(r.entry)
      ensures old(Ready(d)) ==> Chain(counter) && SameButMarks(old(log), log - {old(counter)})
      ensures old(Ready(d)) ==> old(counter) !in old(log)
    {
      hide WellChained, IgnoresMarks, SurvivesStorage, Closed, SameButMarks, BoundaryQuery;
      ghost var before, n, ready := log, counter, Ready(d);
      var acquired := false;
      var attempt := 0;
      while attempt < MAX_LOCK_ATTEMPTS && !acquired
        invariant attempt <= MAX_LOCK_ATTEMPTS
        invariant acquired ==> exists i: nat :: i < MAX_LOCK_ATTEMPTS && free(i)
        invariant !acquired ==> forall i: nat :: i < attempt ==> !free(i)
      {
        acquired := free(attempt);
        attempt := attempt + 1;
      }
      if ready { WellChainedLog(hash, log, counter, epochSize); }
      if !acquired {
        return LockNotAcquired;
      }
      ghost var boundary: Option<nat>;
      var written: Option<Entry>;
      written, boundary := WriteChainedEntry(d, up);
      if ready { OutcomeOfWrite(hash, before, n, epochSize, d, boundary); }
      r := if written.Some? then Appended(written.value) else WriteFailed(counter);
    }

    /** `initialize_chain`.  With a genesis in place only the counter changes: it is set to
        follow the highest sequence, whatever it was.  Otherwise the genesis is written.  So
        an empty store becomes a chain of one entry; and on a chain, whatever value a crash has
        left in the counter, the counter is restored and no entry changes, provided that the
        epoch size, which is overwritten without a check, is the one the chain was built with. */
    method InitializeChain(time: RealTime, tenantId: Option<string>, actor: string, size: nat, version: string)
      returns (r: Entry)
      modifies this
      ensures epochSize == size
      ensures 0 in old(log) ==> log == old(log) && r == log[0] && counter > 0 && IsLatest(log, counter - 1)
      ensures 0 !in old(log) ==>
                && log == old(log)[0 := Stored(GenesisEntry(hash, time, tenantId, actor, version, size))]
                && counter == 1 && r == log[0]
      ensures SurvivesStorage(hash) && time.offset == Some(0) && 1000 <= time.year
              ==> forall n: nat :: WellChained(hash, old(log), n, size) ==>
                    Chain(counter) && counter == (if n == 0 then 1 else n) && (n > 0 ==> log == old(log))
    {
      ghost var before := log;
      if SurvivesStorage(hash) && time.offset == Some(0) && 1000 <= time.year {
        forall n: nat | WellChained(hash, before, n, size)
          ensures n == 0 ==>
                    && 0 !in before
                    && WellChained(hash, before[0 := Stored(GenesisEntry(hash, time, tenantId, actor, version, size))],
                                   1, size)
          ensures n > 0 ==> 0 in before && IsLatest(before, n - 1)
        {
          GenesisStartsChain(hash, before, time, tenantId, actor, version, size, n);
        }
      }
      epochSize := size;
      if 0 in log {
        var latest := GetLatest();
        if latest.Some? {
          ResetSequenceTo(latest.value + 1);
        }
        return log[0];
      }
      var sequence := GetNextSequence();
      if sequence != 0 {
        ResetSequenceTo(0);
        sequence := 0;
      }
      var g := GenesisEntry(hash, time, tenantId, actor, version, size);
      if 0 !in log {
        log := log[0 := Stored(g)];
      }
      ResetSequenceTo(1);
      return log[0];
    }
  }

  /** What an append does to a chain of `n` entries, whether or not the entry gets in. */
  lemma OutcomeOfWrite(hash: EntryHasher, log: Log, n: nat, size: nat, d: Draft, boundary: Option<nat>)
    requires IgnoresMarks(hash) && SurvivesStorage(hash) && FromUtcNow(d)
    requires WellChained(hash, log, n, size)
    requires IsBoundary(n, size) ==> BoundaryQuery(log, n / size - 1, boundary)
    ensures var closed := Closed(log, n, size, boundary);
            var peh := if IsBoundary(n, size) then HashOf(log, boundary) else None;
            var e := BuildEntry(hash, d, n, size, peh, LinkFor(closed, n));
            && n !in log && n !in closed && SameButMarks(log, closed)
            && WellChained(hash, closed, n, size)
            && WellChained(hash, closed[n := Stored(e)], n + 1, size)
            && closed - {n} == closed && closed[n := Stored(e)] - {n} == closed
  {
    hide EntryOk, BuildEntry, Appendable;
    var closed := Closed(log, n, size, boundary);
    if IsBoundary(n, size) {
      BoundaryIsPrevious(hash, log, n, size, boundary);
      MarkKeepsChain(hash, log, n, size);
    }
    var link := LinkFor(closed, n);
    var e := BuildEntry(hash, d, n, size, if IsBoundary(n, size) then link else None, link);
    BuiltIsAppendable(hash, closed, n, size, d);
    WriteExtendsChain(hash, closed, n, size, e);
  }
}
