/**
 The shape that appending gives to the log, and the single database operations that append
 it (backend/audit/chain/repository.py, backend/audit/chain/commands.py:188-224).
 */
module ChainRules {
  import opened Wrappers
  import opened CanonicalJson
  import opened Timestamps
  import opened Hashing
  import opened ChainVerification

  /** What the caller of an append supplies, and the time of the append. */
  datatype Draft = Draft(time: RealTime, domain: string, action: string, actor: string, status: string,
                         summary: string, details: Json, tenantId: Option<string>)

  predicate FromUtcNow(d: Draft) { d.time.offset == Some(0) && 1000 <= d.time.year }

  predicate IsBoundary(sequence: nat, size: nat)
    requires size >= 1
  {
    sequence > 0 && sequence % size == 0
  }

  /** `get_previous_hash` */
  function LinkFor(log: Log, sequence: nat): Option<string> {
    if sequence == 0 || sequence - 1 !in log then None else log[sequence - 1].hash
  }

  function BuildEntry(hash: EntryHasher, d: Draft, sequence: nat, size: nat, previousEpochHash: Option<string>,
                      previousHash: Option<string>): Entry
    requires size >= 1
  {
    var e := Entry(sequence, sequence / size, Moment(d.time), d.domain, d.action, d.actor, d.status, d.summary,
                   d.details, d.tenantId, previousHash, None, IsBoundary(sequence, size), false, previousEpochHash);
    e.(hash := Some(hash(e, previousHash)))
  }

  /** The fields of a new entry: the caller's, the number and what follows from it, and the hash
      over all of them. */
  lemma BuiltFields(hash: EntryHasher, d: Draft, sequence: nat, size: nat, previousEpochHash: Option<string>,
                    previousHash: Option<string>)
    requires size >= 1
    ensures var e := BuildEntry(hash, d, sequence, size, previousEpochHash, previousHash);
            && e.timestamp == Moment(d.time) && e.domain == d.domain && e.action == d.action && e.actor == d.actor
            && e.status == d.status && e.summary == d.summary && e.details == d.details && e.tenantId == d.tenantId
            && e.sequence == sequence && e.epoch == sequence / size
            && e.previousHash == previousHash && e.previousEpochHash == previousEpochHash
            && (e.isEpochStart <==> sequence > 0 && sequence % size == 0) && !e.isEpochEnd
            && e.hash == Some(hash(e.(hash := None), previousHash))
  {
  }

  predicate IsLastOfEpoch(log: Log, epoch: int, s: nat) {
    s in log && log[s].epoch == epoch && forall t :: t in log && log[t].epoch == epoch ==> t <= s
  }

  /** `get_epoch_boundary_entry(..., last=True)` */
  ghost predicate BoundaryQuery(log: Log, epoch: int, found: Option<nat>) {
    if found.Some? then IsLastOfEpoch(log, epoch, found.value) else forall t :: t in log ==> log[t].epoch != epoch
  }

  /** `mark_epoch_end`, when there is an entry to mark. */
  function Marked(log: Log, found: Option<nat>): Log {
    if found.Some? && found.value in log
    then log[found.value := log[found.value].(isEpochEnd := true)] else log
  }

  function HashOf(log: Log, found: Option<nat>): Option<string> {
    if found.Some? && found.value in log then log[found.value].hash else None
  }

  // ---------------------------------------------------------------- the invariant of the log

  ghost predicate HasSequences(log: Log, n: nat) { forall s: nat :: s in log <==> s < n }

  /** Entry `s` of a log of `n` entries: numbered, linked, hashed and marked as it should be. */
  ghost predicate EntryOk(hash: EntryHasher, log: Log, n: nat, size: nat, s: nat)
    requires size >= 1 && HasSequences(log, n) && s < n
  {
    var e := log[s];
    && e.sequence == s
    && e.epoch == s / size
    && e.previousHash == LinkFor(log, s)
    && e.hash == Some(hash(e, e.previousHash))
    && (s > 0 ==> e.isEpochStart == IsBoundary(s, size))
    && e.previousEpochHash == (if IsBoundary(s, size) then LinkFor(log, s) else None)
    && HasUtcTime(e)
    && (e.isEpochEnd ==> s % size == size - 1)
    && (s % size == size - 1 && s + 1 < n ==> e.isEpochEnd)
  }

  ghost predicate WellChained(hash: EntryHasher, log: Log, n: nat, size: nat) {
    size >= 1 && HasSequences(log, n) && forall s: nat :: s < n ==> EntryOk(hash, log, n, size, s)
  }

  /** An entry that may be written as entry `n`. */
  predicate Appendable(hash: EntryHasher, log: Log, n: nat, size: nat, e: Entry)
    requires size >= 1
  {
    && e.sequence == n
    && e.epoch == n / size
    && HasUtcTime(e)
    && e.previousHash == LinkFor(log, n)
    && Some(hash(Stored(e), e.previousHash)) == e.hash
    && (n > 0 ==> e.isEpochStart == IsBoundary(n, size))
    && e.previousEpochHash == (if IsBoundary(n, size) then LinkFor(log, n) else None)
    && !e.isEpochEnd
  }

  /** Closing the epoch marks the entry before the boundary, and nothing else changes. */
  lemma MarkKeepsChain(hash: EntryHasher, log: Log, n: nat, size: nat)
    requires IgnoresMarks(hash) && WellChained(hash, log, n, size) && IsBoundary(n, size)
    ensures n - 1 in log && WellChained(hash, Marked(log, Some(n - 1)), n, size)
    ensures Marked(log, Some(n - 1))[n - 1].isEpochEnd
    ensures forall s: nat :: LinkFor(Marked(log, Some(n - 1)), s) == LinkFor(log, s)
  {
    var marked := Marked(log, Some(n - 1));
    BeforeBoundary(n, size);
    assert EntryOk(hash, log, n, size, n - 1);
    assert marked[n - 1] == log[n - 1].(isEpochEnd := true);
    forall s: nat | s < n ensures EntryOk(hash, marked, n, size, s) {
      assert EntryOk(hash, log, n, size, s);
      assert LinkFor(marked, s) == LinkFor(log, s);
      assert hash(marked[s], marked[s].previousHash) == hash(log[s], log[s].previousHash);
    }
  }

  lemma BeforeBoundary(n: nat, size: nat)
    requires size >= 1 && IsBoundary(n, size)
    ensures (n - 1) % size == size - 1 && (n - 1) / size == n / size - 1
  {
    var k := n / size;
    assert n == k * size;
    DivModIs(n - 1, size, k - 1, size - 1);
  }

  lemma ProductAtLeast(k: int, b: int)
    ensures k >= 1 && b > 0 ==> k * b >= b
    ensures k <= -1 && b > 0 ==> k * b <= -b
  {
    if k >= 1 && b > 0 {
      assert (k - 1) * b >= 0;
    } else if k <= -1 && b > 0 {
      assert (-k - 1) * b >= 0;
    }
  }

  lemma QuotientIsUnique(b: int, q: int, r: int, p: int, s: int)
    requires b > 0 && 0 <= r < b && 0 <= s < b && q * b + r == p * b + s
    ensures q == p
  {
    assert (q - p) * b == s - r;
    ProductAtLeast(q - p, b);
  }

  lemma DivModIs(a: int, b: int, q: int, r: int)
    requires b > 0 && 0 <= r < b && a == q * b + r
    ensures a / b == q && a % b == r
  {
    var p, s := a / b, a % b;
    assert a == p * b + s;
    QuotientIsUnique(b, q, r, p, s);
  }

  /** The boundary query finds entry `n - 1`. */
  lemma BoundaryIsPrevious(hash: EntryHasher, log: Log, n: nat, size: nat, found: Option<nat>)
    requires WellChained(hash, log, n, size) && IsBoundary(n, size)
    requires BoundaryQuery(log, n / size - 1, found)
    ensures found == Some(n - 1) && HashOf(log, found) == LinkFor(log, n)
  {
    BeforeBoundary(n, size);
    assert EntryOk(hash, log, n, size, n - 1);
    assert found.Some? ==> EntryOk(hash, log, n, size, found.value);
  }

  /** Writing an appendable entry extends the chain, provided a closed epoch was marked. */
  lemma WriteExtendsChain(hash: EntryHasher, log: Log, n: nat, size: nat, e: Entry)
    requires WellChained(hash, log, n, size) && Appendable(hash, log, n, size, e)
    requires IsBoundary(n, size) ==> log[n - 1].isEpochEnd
    ensures WellChained(hash, log[n := Stored(e)], n + 1, size)
  {
    var longer, m := log[n := Stored(e)], n + 1;
    forall s: nat | s < m ensures EntryOk(hash, longer, m, size, s) {
      assert LinkFor(longer, s) == LinkFor(log, s);
      if s < n {
        assert EntryOk(hash, log, n, size, s);
        if s + 1 == n && s % size == size - 1 {
          AfterEpochEnd(s, size);
        }
      }
    }
  }

  lemma AfterEpochEnd(s: nat, size: nat)
    requires size >= 1 && s % size == size - 1
    ensures IsBoundary(s + 1, size)
  {
    DivModIs(s + 1, size, s / size + 1, 0);
  }

  lemma BuiltIsAppendable(hash: EntryHasher, log: Log, n: nat, size: nat, d: Draft)
    requires SurvivesStorage(hash) && size >= 1 && FromUtcNow(d)
    ensures var link := LinkFor(log, n);
            Appendable(hash, log, n, size,
                       BuildEntry(hash, d, n, size, if IsBoundary(n, size) then link else None, link))
  {
    var link := LinkFor(log, n);
    var peh := if IsBoundary(n, size) then link else None;
    var e := Entry(n, n / size, Moment(d.time), d.domain, d.action, d.actor, d.status, d.summary,
                   d.details, d.tenantId, link, None, IsBoundary(n, size), false, peh);
    assert HasUtcTime(e);
    assert hash(Stored(e.(hash := Some(hash(e, link)))), link) == hash(e, link);
  }

  // ---------------------------------------------------------------- another epoch size

  lemma FirstEpoch(s: nat, size: nat)
    requires s < size
    ensures s / size == 0 && s % size == s
  {
    DivModIs(s, size, 0, s);
  }

  /** The first entry of the second epoch by the smaller size is in the first by the larger;
      so a chain by both has no such entry. */
  lemma SizesAgreeBriefly(hash: EntryHasher, log: Log, n: nat, small: nat, large: nat)
    requires small < large && WellChained(hash, log, n, small) && WellChained(hash, log, n, large)
    ensures n <= small
  {
    FirstEpoch(small, large);
    DivModIs(small, small, 1, 0);
    assert small < n ==> EntryOk(hash, log, n, small, small) && EntryOk(hash, log, n, large, small);
  }

  /** A chain that was built under one epoch size is one under another size if and only if it
      has not got beyond the first epoch of either, and no end mark has been set. */
  lemma ChainUnderAnotherSize(hash: EntryHasher, log: Log, n: nat, a: nat, b: nat)
    requires WellChained(hash, log, n, a) && b >= 1 && a != b
    ensures WellChained(hash, log, n, b)
       <==> n <= a && n <= b && (n == a ==> !log[n - 1].isEpochEnd)
  {
    hide EntryOk, WellChained;
    if WellChained(hash, log, n, b) {
      if a < b { SizesAgreeBriefly(hash, log, n, a, b); } else { SizesAgreeBriefly(hash, log, n, b, a); }
    }
    if n <= a && n <= b {
      ShortChainUnderAnotherSize(hash, log, n, a, b);
    }
  }

  lemma ShortChainUnderAnotherSize(hash: EntryHasher, log: Log, n: nat, a: nat, b: nat)
    requires WellChained(hash, log, n, a) && b >= 1 && a != b && n <= a && n <= b
    ensures WellChained(hash, log, n, b) <==> (n == a ==> !log[n - 1].isEpochEnd)
  {
    hide EntryOk;
    forall s: nat | s < n ensures EntryOk(hash, log, n, b, s) <==> (s == a - 1 ==> !log[s].isEpochEnd) {
      ShortChainEntry(hash, log, n, a, b, s);
    }
  }

  lemma ShortChainEntry(hash: EntryHasher, log: Log, n: nat, a: nat, b: nat, s: nat)
    requires a >= 1 && b >= 1 && a != b && s < n <= a && n <= b
    requires HasSequences(log, n) && EntryOk(hash, log, n, a, s)
    ensures EntryOk(hash, log, n, b, s) <==> (s == a - 1 ==> !log[s].isEpochEnd)
  {
    FirstEpoch(s, a);
    FirstEpoch(s, b);
  }

  // ---------------------------------------------------------------- what the invariant gives

  /** A well-chained log verifies, in one pass and in batches of any size. */
  lemma WellChainedVerifies(hash: EntryHasher, log: Log, n: nat, size: nat, batch: nat)
    requires WellChained(hash, log, n, size) && n > 0 && batch >= 1
    ensures IsLatest(log, n - 1) && KeyedBySequence(log)
    ensures AllGood(hash, Range(log, 0, n), 0, None, false)
    ensures var v := FullVerification(hash, log, n - 1, batch);
            v.status == VALID && v.verified == n && v.brokenAt == None
  {
    forall s: nat | s < n ensures log[s].sequence == s {
      assert EntryOk(hash, log, n, size, s);
    }
    forall i: nat | i < |Range(log, 0, n)| ensures GoodAt(hash, Range(log, 0, n), i, 0, None, false) {
      RangeAt(log, 0, n, i);
      assert EntryOk(hash, log, n, size, i);
      if i > 0 { RangeAt(log, 0, n, i - 1); }
    }
    BatchResultMeaning(hash, Range(log, 0, n), 0, None, false);
    BatchedIsOnePass(hash, log, n - 1, batch);
  }
}
