/**
 Verification of a stored chain (backend/audit/chain/queries.py:135-274): one batch, one
 epoch, and the whole chain in batches of one epoch size.
 */
module ChainVerification {
  import opened Wrappers
  import opened CanonicalJson
  import opened Timestamps
  import opened Hashing

  datatype ChainStatus = VALID | BROKEN | GAP_DETECTED
  datatype BrokenReason = HASH_MISMATCH | SEQUENCE_GAP

  datatype Fault = Fault(status: ChainStatus, brokenAt: int, checked: nat, reason: BrokenReason)

  datatype Verification = Verification(status: ChainStatus, verified: int, first: int, last: int, epochs: int,
                                       brokenAt: Option<int>, reason: Option<BrokenReason>)

  // ---------------------------------------------------------------- one batch

  /** Entry `i` carries the right sequence number, links to the entry before it, and hashes
      to what is stored. */
  predicate GoodAt(hash: EntryHasher, es: seq<Entry>, i: nat, start: int, prev: Option<string>, skipFirst: bool)
    requires i < |es|
  {
    && es[i].sequence == start + i
    && LinkedAt(es, i, prev, skipFirst)
    && HashedAt(hash, es, i)
  }

  predicate LinkedAt(es: seq<Entry>, i: nat, prev: Option<string>, skipFirst: bool)
    requires i < |es|
  {
    (skipFirst && i == 0) || es[i].previousHash == if i == 0 then prev else es[i - 1].hash
  }

  predicate HashedAt(hash: EntryHasher, es: seq<Entry>, i: nat)
    requires i < |es|
  {
    es[i].hash == Some(hash(es[i], es[i].previousHash))
  }

  predicate AllGood(hash: EntryHasher, es: seq<Entry>, start: int, prev: Option<string>, skipFirst: bool) {
    forall i :: 0 <= i < |es| ==> GoodAt(hash, es, i, start, prev, skipFirst)
  }

  /** How a bad entry is reported: a wrong sequence number takes precedence. */
  function FaultAt(es: seq<Entry>, i: nat, start: int): Fault
    requires i < |es|
  {
    if es[i].sequence != start + i then Fault(GAP_DETECTED, start + i, i, SEQUENCE_GAP)
    else Fault(BROKEN, start + i, i, HASH_MISMATCH)
  }

  /** The first bad entry at or after `i`, or the number of entries. */
  function FirstBad(hash: EntryHasher, es: seq<Entry>, start: int, prev: Option<string>, skipFirst: bool, i: nat)
    : (k: nat)
    requires i <= |es|
    ensures i <= k <= |es|
    ensures forall j :: i <= j < k ==> GoodAt(hash, es, j, start, prev, skipFirst)
    ensures k < |es| ==> !GoodAt(hash, es, k, start, prev, skipFirst)
    decreases |es| - i
  {
    if i == |es| || !GoodAt(hash, es, i, start, prev, skipFirst) then i
    else FirstBad(hash, es, start, prev, skipFirst, i + 1)
  }

  /** The verdict on a batch: no fault, or the fault of the first bad entry. */
  function BatchResult(hash: EntryHasher, es: seq<Entry>, start: int, prev: Option<string>, skipFirst: bool)
    : Option<Fault>
  {
    var k := FirstBad(hash, es, start, prev, skipFirst, 0);
    if k == |es| then None else Some(FaultAt(es, k, start))
  }

  /** What the verdict means: no fault exactly if every entry is good; otherwise it names an
      entry that is bad while all before it are good, and says whether its number is wrong. */
  lemma BatchResultMeaning(hash: EntryHasher, es: seq<Entry>, start: int, prev: Option<string>, skipFirst: bool)
    ensures var r := BatchResult(hash, es, start, prev, skipFirst);
            && (r.None? <==> AllGood(hash, es, start, prev, skipFirst))
            && (r.Some? ==> var k := r.value.checked;
                  && k < |es| && !GoodAt(hash, es, k, start, prev, skipFirst) && r.value.brokenAt == start + k
                  && (r.value.status == GAP_DETECTED <==> es[k].sequence != start + k)
                  && (r.value.status == BROKEN <==> es[k].sequence == start + k)
                  && (r.value.reason == SEQUENCE_GAP <==> es[k].sequence != start + k)
                  && forall j :: 0 <= j < k ==> GoodAt(hash, es, j, start, prev, skipFirst))
  {
  }

  lemma AllGoodMeans(hash: EntryHasher, es: seq<Entry>, start: int, prev: Option<string>, skipFirst: bool)
    requires AllGood(hash, es, start, prev, skipFirst)
    ensures forall i :: 0 <= i < |es| ==>
              && es[i].sequence == start + i
              && ((skipFirst && i == 0) || es[i].previousHash == if i == 0 then prev else es[i - 1].hash)
              && es[i].hash == Some(hash(es[i], es[i].previousHash))
  {
    forall i | 0 <= i < |es|
      ensures es[i].sequence == start + i
      ensures (skipFirst && i == 0) || es[i].previousHash == if i == 0 then prev else es[i - 1].hash
      ensures es[i].hash == Some(hash(es[i], es[i].previousHash))
    {
      assert GoodAt(hash, es, i, start, prev, skipFirst);
    }
  }

  lemma FaultIsNotValid(hash: EntryHasher, es: seq<Entry>, start: int, prev: Option<string>, skipFirst: bool)
    ensures var r := BatchResult(hash, es, start, prev, skipFirst);
            r.Some? ==> r.value.status != VALID
  {
  }

  /** These facts about a verdict determine it. */
  lemma BatchResultIs(hash: EntryHasher, es: seq<Entry>, start: int, prev: Option<string>, skipFirst: bool, k: nat)
    requires k <= |es|
    requires forall j :: 0 <= j < k ==> GoodAt(hash, es, j, start, prev, skipFirst)
    requires k < |es| ==> !GoodAt(hash, es, k, start, prev, skipFirst)
    ensures BatchResult(hash, es, start, prev, skipFirst) == if k == |es| then None else Some(FaultAt(es, k, start))
  {
  }

  method VerifyBatch(hash: EntryHasher, entries: seq<Entry>, expectedStart: int, expectedPrevHash: Option<string>,
                     skipFirstPrevCheck: bool)
    returns (r: Option<Fault>)
    ensures r == BatchResult(hash, entries, expectedStart, expectedPrevHash, skipFirstPrevCheck)
    ensures r.None? ==>
              forall i :: 0 <= i < |entries| ==>
                && entries[i].sequence == expectedStart + i
                && ((skipFirstPrevCheck && i == 0)
                    || entries[i].previousHash == if i == 0 then expectedPrevHash else entries[i - 1].hash)
                && entries[i].hash == Some(hash(entries[i], entries[i].previousHash))
    ensures r.Some? ==>
              var f, k := r.value, r.value.checked;
              && k < |entries| && f.brokenAt == expectedStart + k
              && if entries[k].sequence != f.brokenAt then f.status == GAP_DETECTED && f.reason == SEQUENCE_GAP
                 else
                   && f.status == BROKEN && f.reason == HASH_MISMATCH
                   && (entries[k].hash != Some(hash(entries[k], entries[k].previousHash))
                       || ((!skipFirstPrevCheck || k > 0)
                           && entries[k].previousHash != if k == 0 then expectedPrevHash else entries[k - 1].hash))
  {
    BatchResultMeaning(hash, entries, expectedStart, expectedPrevHash, skipFirstPrevCheck);
    var prevHash := expectedPrevHash;
    for i := 0 to |entries|
      invariant forall j :: 0 <= j < i ==> GoodAt(hash, entries, j, expectedStart, expectedPrevHash, skipFirstPrevCheck)
      invariant prevHash == if i == 0 then expectedPrevHash else entries[i - 1].hash
    {
      var entry := entries[i];
      var expectedSeq := expectedStart + i;
      if entry.sequence != expectedSeq {
        BatchResultIs(hash, entries, expectedStart, expectedPrevHash, skipFirstPrevCheck, i);
        return Some(Fault(GAP_DETECTED, expectedSeq, i, SEQUENCE_GAP));
      }
      if (!skipFirstPrevCheck || i > 0) && entry.previousHash != prevHash {
        BatchResultIs(hash, entries, expectedStart, expectedPrevHash, skipFirstPrevCheck, i);
        return Some(Fault(BROKEN, entry.sequence, i, HASH_MISMATCH));
      }
      var recomputed := hash(entry, entry.previousHash);
      if Some(recomputed) != entry.hash {
        BatchResultIs(hash, entries, expectedStart, expectedPrevHash, skipFirstPrevCheck, i);
        return Some(Fault(BROKEN, entry.sequence, i, HASH_MISMATCH));
      }
      prevHash := entry.hash;
    }
    AllGoodMeans(hash, entries, expectedStart, expectedPrevHash, skipFirstPrevCheck);
    return None;
  }

  lemma GoodInFront(hash: EntryHasher, a: seq<Entry>, b: seq<Entry>, i: nat, start: int, prev: Option<string>)
    requires i < |a|
    ensures GoodAt(hash, a + b, i, start, prev, false) == GoodAt(hash, a, i, start, prev, false)
  {
    assert (a + b)[i] == a[i] && (i > 0 ==> (a + b)[i - 1] == a[i - 1]);
  }

  lemma GoodBehind(hash: EntryHasher, a: seq<Entry>, b: seq<Entry>, i: nat, start: int, prev: Option<string>)
    requires a != [] && |a| <= i < |a| + |b|
    ensures GoodAt(hash, a + b, i, start, prev, false)
         == GoodAt(hash, b, i - |a|, start + |a|, a[|a| - 1].hash, false)
  {
    assert (a + b)[i] == b[i - |a|];
    assert (a + b)[i - 1] == if i == |a| then a[|a| - 1] else b[i - |a| - 1];
  }

  /** A batch can be verified in two parts. */
  lemma BatchInTwoParts(hash: EntryHasher, a: seq<Entry>, b: seq<Entry>, start: int, prev: Option<string>)
    requires a != []
    ensures BatchResult(hash, a, start, prev, false).Some?
            ==> BatchResult(hash, a + b, start, prev, false) == BatchResult(hash, a, start, prev, false)
    ensures BatchResult(hash, a, start, prev, false).None?
            ==> var whole := BatchResult(hash, a + b, start, prev, false);
                var rest := BatchResult(hash, b, start + |a|, a[|a| - 1].hash, false);
                && (rest.None? ==> whole.None?)
                && (rest.Some? ==> whole == Some(rest.value.(checked := rest.value.checked + |a|)))
  {
    var inA := FirstBad(hash, a, start, prev, false, 0);
    if inA < |a| {
      forall j | 0 <= j <= inA
        ensures GoodAt(hash, a + b, j, start, prev, false) == GoodAt(hash, a, j, start, prev, false)
      {
        GoodInFront(hash, a, b, j, start, prev);
      }
      BatchResultIs(hash, a + b, start, prev, false, inA);
    } else {
      var inB := FirstBad(hash, b, start + |a|, a[|a| - 1].hash, false, 0);
      forall j | 0 <= j < inB + |a| ensures GoodAt(hash, a + b, j, start, prev, false) {
        if j < |a| { GoodInFront(hash, a, b, j, start, prev); } else { GoodBehind(hash, a, b, j, start, prev); }
      }
      if inB < |b| { GoodBehind(hash, a, b, inB + |a|, start, prev); }
      BatchResultIs(hash, a + b, start, prev, false, inB + |a|);
    }
  }

  // ---------------------------------------------------------------- the stored log

  /** The chained documents of the audit log; the unique index on `sequence` makes it a map. */
  type Log = map<nat, Entry>

  predicate KeyedBySequence(log: Log) { forall s :: s in log ==> log[s].sequence == s }

  predicate IsLatest(log: Log, max: nat) { max in log && forall s :: s in log ==> s <= max }

  predicate GapFree(log: Log, lo: nat, hi: nat) { forall s :: lo <= s < hi ==> s in log }

  /** The stored entries with `lo <= sequence < hi`, in order. */
  function Range(log: Log, lo: nat, hi: nat): (es: seq<Entry>)
    requires lo <= hi
    ensures |es| <= hi - lo
    ensures |es| == hi - lo <==> GapFree(log, lo, hi)
    decreases hi - lo
  {
    if lo == hi then [] else (if lo in log then [log[lo]] else []) + Range(log, lo + 1, hi)
  }

  lemma {:induction false} RangeAt(log: Log, lo: nat, hi: nat, i: nat)
    requires lo <= hi && GapFree(log, lo, hi) && i < hi - lo
    ensures |Range(log, lo, hi)| == hi - lo && Range(log, lo, hi)[i] == log[lo + i]
    decreases hi - lo
  {
    if i > 0 {
      RangeAt(log, lo + 1, hi, i - 1);
    }
  }

  lemma {:induction false} RangeInTwoParts(log: Log, lo: nat, mid: nat, hi: nat)
    requires lo <= mid <= hi
    ensures Range(log, lo, hi) == Range(log, lo, mid) + Range(log, mid, hi)
    decreases mid - lo
  {
    if lo < mid {
      RangeInTwoParts(log, lo + 1, mid, hi);
    }
  }

  lemma {:induction false} RangeLast(log: Log, lo: nat, hi: nat)
    requires lo < hi && hi - 1 in log
    ensures Range(log, lo, hi) != [] && Range(log, lo, hi)[|Range(log, lo, hi)| - 1] == log[hi - 1]
  {
    RangeInTwoParts(log, lo, hi - 1, hi);
    assert Range(log, hi - 1, hi) == [log[hi - 1]] + Range(log, hi, hi);
  }

  /** What the query for the entry with the highest sequence returns. */
  predicate LatestQuery(log: Log, latest: Option<nat>) {
    if latest.Some? then IsLatest(log, latest.value) else log == map[]
  }

  // ---------------------------------------------------------------- the whole chain

  /** The last sequence number of the batch that begins at `start`. */
  function BatchEnd(start: nat, size: nat, max: nat): (end: nat)
    requires size >= 1 && start <= max
    ensures start <= end <= max
  {
    if start + size - 1 < max then start + size - 1 else max
  }

  /** Batches have `size` numbers, but for the last one. */
  lemma BatchesAreFull(start: nat, size: nat, max: nat)
    requires size >= 1 && start <= max
    ensures BatchEnd(start, size, max) + 1 - start <= size
    ensures BatchEnd(start, size, max) == max || BatchEnd(start, size, max) + 1 - start == size
  {
  }

  /** The variables that the loop over the batches carries along. */
  datatype Progress = Progress(previousHash: Option<string>, verified: int, epochs: int)

  function Advance(p: Progress, es: seq<Entry>, end: nat, max: nat): Progress {
    if es == [] then p
    else
      var e := es[|es| - 1];
      Progress(e.hash, p.verified + |es|, if e.isEpochEnd || end == max then e.epoch + 1 else p.epochs)
  }

  function Stopped(f: Fault, p: Progress): Verification {
    Verification(f.status, p.verified + f.checked, 0, f.brokenAt, p.epochs, Some(f.brokenAt), Some(f.reason))
  }

  function Finished(p: Progress, max: nat): Verification {
    Verification(VALID, p.verified, 0, max, p.epochs, None, None)
  }

  /** The rest of a batched verification, from sequence `start` on. */
  function FullCheck(hash: EntryHasher, log: Log, max: nat, size: nat, start: nat, p: Progress): Verification
    requires size >= 1 && start <= max + 1
    decreases max + 1 - start
  {
    if start > max then Finished(p, max)
    else
      var end := BatchEnd(start, size, max);
      var es := Range(log, start, end + 1);
      var r := BatchResult(hash, es, start, p.previousHash, false);
      if r.Some? then Stopped(r.value, p) else FullCheck(hash, log, max, size, end + 1, Advance(p, es, end, max))
  }

  function FullVerification(hash: EntryHasher, log: Log, max: nat, size: nat): Verification
    requires size >= 1
  {
    FullCheck(hash, log, max, size, 0, Progress(None, 0, 0))
  }

  lemma FullCheckDone(hash: EntryHasher, log: Log, max: nat, size: nat, p: Progress)
    requires size >= 1
    ensures FullCheck(hash, log, max, size, max + 1, p) == Finished(p, max)
  {
  }

  lemma FullCheckStep(hash: EntryHasher, log: Log, max: nat, size: nat, start: nat, p: Progress,
                      es: seq<Entry>, r: Option<Fault>)
    requires size >= 1 && start <= max
    requires es == Range(log, start, BatchEnd(start, size, max) + 1)
    requires r == BatchResult(hash, es, start, p.previousHash, false)
    ensures FullCheck(hash, log, max, size, start, p)
         == if r.Some? then Stopped(r.value, p)
            else var end := BatchEnd(start, size, max);
                 FullCheck(hash, log, max, size, end + 1, Advance(p, es, end, max))
  {
    hide BatchResult, Advance, Stopped;
  }

  method VerifyFullChain(hash: EntryHasher, log: Log, latest: Option<nat>, epochSize: nat) returns (v: Verification)
    requires epochSize >= 1 && LatestQuery(log, latest)
    ensures latest.None? ==> v == Verification(VALID, 0, 0, 0, 0, None, None)
    ensures latest.Some? ==> v == FullVerification(hash, log, latest.value, epochSize)
    ensures v.first == 0
    ensures v.status == VALID ==> v.last == latest.GetOr(0) && v.brokenAt == None && v.reason == None
    ensures v.status == GAP_DETECTED ==> v.brokenAt == Some(v.last) && v.reason == Some(SEQUENCE_GAP)
    ensures v.status == BROKEN ==> v.brokenAt == Some(v.last) && v.reason == Some(HASH_MISMATCH)
  {
    if latest.None? {
      return Verification(VALID, 0, 0, 0, 0, None, None);
    }
    v := VerifyBatches(hash, log, latest.value, epochSize);
    if v.status == VALID {
      FullCheckCounts(hash, log, latest.value, epochSize, 0, Progress(None, 0, 0));
    } else {
      var start, k := FaultOfFullCheck(hash, log, latest.value, epochSize, 0, Progress(None, 0, 0));
    }
  }

  /** The loop of the full verification. */
  method VerifyBatches(hash: EntryHasher, log: Log, maxSequence: nat, epochSize: nat) returns (v: Verification)
    requires epochSize >= 1
    ensures v == FullVerification(hash, log, maxSequence, epochSize)
  {
    hide BatchResult, FullCheck, Range;
    var totalVerified, epochsVerified := 0, 0;
    var previousHash: Option<string> := None;
    var batchStart := 0;
    ghost var p := Progress(None, 0, 0);
    while batchStart <= maxSequence
      invariant batchStart <= maxSequence + 1
      invariant p == Progress(previousHash, totalVerified, epochsVerified)
      invariant FullCheck(hash, log, maxSequence, epochSize, batchStart, p)
             == FullVerification(hash, log, maxSequence, epochSize)
    {
      var batchEnd := BatchEnd(batchStart, epochSize, maxSequence);
      var entries := Range(log, batchStart, batchEnd + 1);
      var result := VerifyBatch(hash, entries, batchStart, previousHash, false);
      FullCheckStep(hash, log, maxSequence, epochSize, batchStart, p, entries, result);
      if result.Some? {
        return Verification(result.value.status, totalVerified + result.value.checked, 0, result.value.brokenAt,
                            epochsVerified, Some(result.value.brokenAt), Some(result.value.reason));
      }
      totalVerified := totalVerified + |entries|;
      if entries != [] {
        var last := entries[|entries| - 1];
        previousHash := last.hash;
        if last.isEpochEnd || batchEnd == maxSequence {
          epochsVerified := last.epoch + 1;
        }
      }
      batchStart := batchEnd + 1;
      p := Advance(p, entries, batchEnd, maxSequence);
    }
    FullCheckDone(hash, log, maxSequence, epochSize, p);
    return Verification(VALID, totalVerified, 0, maxSequence, epochsVerified, None, None);
  }

  /** One pass over everything that is stored. */
  function OnePass(hash: EntryHasher, log: Log, max: nat): Option<Fault> {
    BatchResult(hash, Range(log, 0, max + 1), 0, None, false)
  }

  lemma RangeIsFull(log: Log, lo: nat, mid: nat, hi: nat)
    requires lo <= mid <= hi && GapFree(log, lo, hi)
    ensures |Range(log, lo, mid)| == mid - lo && |Range(log, lo, hi)| == hi - lo && GapFree(log, mid, hi)
  {
    assert GapFree(log, lo, mid);
  }

  /** When nothing is missing from `start` on, the batches find what one pass finds. */
  lemma {:induction false} FullCheckGapFree(hash: EntryHasher, log: Log, max: nat, size: nat, start: nat, p: Progress)
    requires size >= 1 && start <= max + 1 && GapFree(log, start, max + 1)
    ensures Agrees(FullCheck(hash, log, max, size, start, p),
                   BatchResult(hash, Range(log, start, max + 1), start, p.previousHash, false),
                   p.verified, p.verified + (max + 1 - start))
    decreases max + 1 - start
  {
    hide BatchResult, FullCheck, GoodAt, GapFree, Range;
    if start > max {
      RangeIsFull(log, start, start, max + 1);
      BatchResultMeaning(hash, [], start, p.previousHash, false);
      FullCheckDone(hash, log, max, size, p);
    } else {
      var end := BatchEnd(start, size, max);
      var es, rest := Range(log, start, end + 1), Range(log, end + 1, max + 1);
      RangeIsFull(log, start, end + 1, max + 1);
      RangeInTwoParts(log, start, end + 1, max + 1);
      BatchInTwoParts(hash, es, rest, start, p.previousHash);
      FullCheckStep(hash, log, max, size, start, p, es, BatchResult(hash, es, start, p.previousHash, false));
      if BatchResult(hash, es, start, p.previousHash, false).None? {
        FullCheckGapFree(hash, log, max, size, end + 1, Advance(p, es, end, max));
      }
    }
  }

  /** A batched result against the verdict of one pass: same status, same place, and a
      count that goes up to the fault, or to the end. */
  predicate Agrees(v: Verification, r: Option<Fault>, before: int, all: int) {
    && (r.None? ==> v.status == VALID && v.verified == all && v.brokenAt == None)
    && (r.Some? ==> v.status == r.value.status && v.verified == before + r.value.checked
                    && v.brokenAt == Some(r.value.brokenAt) && v.reason == Some(r.value.reason))
  }

  /** A batched VALID counts exactly the entries that are stored. */
  lemma {:induction false} FullCheckCounts(hash: EntryHasher, log: Log, max: nat, size: nat, start: nat, p: Progress)
    requires size >= 1 && start <= max + 1
    ensures var v := FullCheck(hash, log, max, size, start, p);
            v.status == VALID ==> v.verified == p.verified + |Range(log, start, max + 1)|
                                  && v.first == 0 && v.last == max && v.brokenAt == None && v.reason == None
    decreases max + 1 - start
  {
    hide BatchResult, FullCheck;
    if start > max {
      FullCheckDone(hash, log, max, size, p);
    } else {
      var end := BatchEnd(start, size, max);
      var es := Range(log, start, end + 1);
      RangeInTwoParts(log, start, end + 1, max + 1);
      FaultIsNotValid(hash, es, start, p.previousHash, false);
      FullCheckStep(hash, log, max, size, start, p, es, BatchResult(hash, es, start, p.previousHash, false));
      if BatchResult(hash, es, start, p.previousHash, false).None? {
        FullCheckCounts(hash, log, max, size, end + 1, Advance(p, es, end, max));
      }
    }
  }

  /** What a batched verification names when it fails: the entry in place `k` of the batch from
      `b` on.  Everything stored before it was counted, and the status says whether its number
      is wrong or its link or hash. */
  lemma {:induction false} FaultOfFullCheck(hash: EntryHasher, log: Log, max: nat, size: nat, start: nat, p: Progress)
    returns (b: nat, k: nat)
    requires size >= 1 && start <= max + 1 && FullCheck(hash, log, max, size, start, p).status != VALID
    ensures start <= b <= max && k < size
    ensures var v, es := FullCheck(hash, log, max, size, start, p), Range(log, b, BatchEnd(b, size, max) + 1);
            && k < |es| && v.verified == p.verified + |Range(log, start, b)| + k
            && v.first == 0 && v.last == b + k && v.brokenAt == Some(b + k)
            && (if es[k].sequence != b + k then v.status == GAP_DETECTED && v.reason == Some(SEQUENCE_GAP)
                else v.status == BROKEN && v.reason == Some(HASH_MISMATCH))
    decreases max + 1 - start
  {
    hide BatchResult, FullCheck, GoodAt;
    if start > max {
      b, k := 0, 0;
      FullCheckDone(hash, log, max, size, p);
    } else {
      var end := BatchEnd(start, size, max);
      var es := Range(log, start, end + 1);
      var r := BatchResult(hash, es, start, p.previousHash, false);
      FullCheckStep(hash, log, max, size, start, p, es, r);
      BatchResultMeaning(hash, es, start, p.previousHash, false);
      if r.Some? {
        b, k := start, r.value.checked;
      } else {
        b, k := FaultOfFullCheck(hash, log, max, size, end + 1, Advance(p, es, end, max));
        RangeInTwoParts(log, start, end + 1, b);
      }
    }
  }

  /** The first `n` entries are numbered, and where an epoch ends it is marked. */
  predicate EpochsMarked(log: Log, n: nat, size: nat)
    requires size >= 1
  {
    forall s: nat :: s < n ==> s in log && log[s].epoch == s / size && (s % size == size - 1 ==> log[s].isEpochEnd)
  }

  lemma SomeEpochs(d: int, size: nat)
    requires d >= 1
    ensures d * size >= size
  {
    assert (d - 1) * size >= 0;
  }

  lemma EpochsApart(j: nat, k: nat, size: nat)
    ensures j < k ==> j * size + size <= k * size
  {
    if j < k { SomeEpochs(k - j, size); }
  }

  /** A verification that fails in epoch `k` has counted the `k` epochs before it. */
  lemma {:induction false} EpochsBeforeFault(hash: EntryHasher, log: Log, max: nat, size: nat, j: nat, start: nat,
                                             k: nat, p: Progress)
    requires size >= 1 && start == j * size && start <= max + 1 && p.epochs == j && EpochsMarked(log, k * size, size)
    requires FullCheck(hash, log, max, size, start, p).status != VALID
    requires k * size <= FullCheck(hash, log, max, size, start, p).last < k * size + size
    ensures FullCheck(hash, log, max, size, start, p).epochs == k
    decreases max + 1 - start
  {
    hide BatchResult, FullCheck, GoodAt, EpochsMarked, Range, Advance;
    var b, i := FaultOfFullCheck(hash, log, max, size, start, p);
    var end := BatchEnd(start, size, max);
    var es := Range(log, start, end + 1);
    var r := BatchResult(hash, es, start, p.previousHash, false);
    FullCheckStep(hash, log, max, size, start, p, es, r);
    BatchResultMeaning(hash, es, start, p.previousHash, false);
    EpochsApart(j, k, size);
    EpochsApart(k, j, size);
    if r.None? {
      var q := Advance(p, es, end, max);
      var c, m := FaultOfFullCheck(hash, log, max, size, end + 1, q);
      assert j < k;
      EpochEndAdvances(log, max, size, j, start, k, p);
      EpochsBeforeFault(hash, log, max, size, j + 1, end + 1, k, q);
    }
  }

  lemma EpochEndAdvances(log: Log, max: nat, size: nat, j: nat, start: nat, k: nat, p: Progress)
    requires size >= 1 && start == j * size && start + size <= k * size && start + size <= max
    requires EpochsMarked(log, k * size, size)
    ensures var end := BatchEnd(start, size, max);
            && end + 1 == start + size == (j + 1) * size
            && Advance(p, Range(log, start, end + 1), end, max).epochs == j + 1
  {
    var end := BatchEnd(start, size, max);
    RangeLast(log, start, end + 1);
    PlaceInEpoch(j, size);
  }

  lemma PlaceInEpoch(j: nat, size: nat)
    requires size >= 1
    ensures var end := j * size + size - 1; end / size == j && end % size == size - 1
  {
    var end := j * size + size - 1;
    EpochsApart(j, end / size, size);
    EpochsApart(end / size, j, size);
    assert end == end / size * size + end % size;
  }

  /** On a gap-free log the batched verifier reports the status, the place and the count
      that one pass over the whole log reports, for every epoch size. */
  lemma BatchedIsOnePass(hash: EntryHasher, log: Log, max: nat, size: nat)
    requires size >= 1 && IsLatest(log, max) && GapFree(log, 0, max + 1)
    ensures Agrees(FullVerification(hash, log, max, size), OnePass(hash, log, max), 0, max + 1)
  {
    hide BatchResult, FullCheck;
    FullCheckGapFree(hash, log, max, size, 0, Progress(None, 0, 0));
  }

  /** A one-pass verdict without fault leaves no gap. */
  lemma OnePassIsGapFree(hash: EntryHasher, log: Log, max: nat)
    requires IsLatest(log, max) && KeyedBySequence(log) && OnePass(hash, log, max).None?
    ensures GapFree(log, 0, max + 1)
  {
    RangeLast(log, 0, max + 1);
    var es := Range(log, 0, max + 1);
    BatchResultMeaning(hash, es, 0, None, false);
    assert GoodAt(hash, es, |es| - 1, 0, None, false);
  }

  /** On any log whatever: VALID together with a full count is exactly a clean single pass. */
  lemma BatchedValidAndComplete(hash: EntryHasher, log: Log, max: nat, size: nat)
    requires size >= 1 && IsLatest(log, max) && KeyedBySequence(log)
    ensures var v := FullVerification(hash, log, max, size);
            v.status == VALID && v.verified == v.last + 1 <==> OnePass(hash, log, max).None?
  {
    hide BatchResult, FullCheck;
    FaultIsNotValid(hash, Range(log, 0, max + 1), 0, None, false);
    FullCheckCounts(hash, log, max, size, 0, Progress(None, 0, 0));
    if OnePass(hash, log, max).None? {
      OnePassIsGapFree(hash, log, max);
    }
    if GapFree(log, 0, max + 1) {
      FullCheckGapFree(hash, log, max, size, 0, Progress(None, 0, 0));
    }
  }

  /** So the status alone can be trusted exactly on logs without gaps: a VALID is what one pass
      would say if and only if nothing is missing. */
  lemma ValidIsTrueIfGapFree(hash: EntryHasher, log: Log, max: nat, size: nat)
    requires size >= 1 && IsLatest(log, max) && KeyedBySequence(log)
    requires FullVerification(hash, log, max, size).status == VALID
    ensures OnePass(hash, log, max).None? <==> GapFree(log, 0, max + 1)
  {
    hide BatchResult, FullCheck;
    FaultIsNotValid(hash, Range(log, 0, max + 1), 0, None, false);
    if OnePass(hash, log, max).None? {
      OnePassIsGapFree(hash, log, max);
    }
    if GapFree(log, 0, max + 1) {
      BatchedIsOnePass(hash, log, max, size);
    }
  }

  // ---------------------------------------------------------------- status alone is not enough

  function PlainEntry(sha: Sha, sequence: nat, previousHash: Option<string>): (e: Entry)
    ensures e.sequence == sequence && e.previousHash == previousHash
    ensures e.hash == Some(EntryHash(sha, e, previousHash))
  {
    var e := Entry(sequence, 0, Text(""), "", "", "", "", "", Null, None, previousHash, None, false, false, None);
    e.(hash := Some(EntryHash(sha, e, previousHash)))
  }

  /** Entry 1 is missing, and entry 2 was re-linked to entry 0. */
  function TailCutLog(sha: Sha): Log {
    var first := PlainEntry(sha, 0, None);
    map[0 := first, 2 := PlainEntry(sha, 2, first.hash)]
  }

  /** A batch may lack its tail: with batches of two, the log above is reported VALID, and
      only the count of two entries up to sequence 2 gives it away. */
  lemma MissingTailGoesUnnoticed(sha: Sha)
    ensures IsLatest(TailCutLog(sha), 2) && KeyedBySequence(TailCutLog(sha))
    ensures FullVerification(HasherOf(sha), TailCutLog(sha), 2, 2).status == VALID
    ensures FullVerification(HasherOf(sha), TailCutLog(sha), 2, 2).verified == 2
    ensures OnePass(HasherOf(sha), TailCutLog(sha), 2) == Some(Fault(GAP_DETECTED, 1, 1, SEQUENCE_GAP))
  {
    var log := TailCutLog(sha);
    var first, second := log[0], log[2];
    TailCutRanges(sha);
    BatchResultIs(HasherOf(sha), [first], 0, None, false, 1);
    BatchResultIs(HasherOf(sha), [second], 2, first.hash, false, 1);
    BatchResultIs(HasherOf(sha), [first, second], 0, None, false, 1);
    hide BatchResult;
    var p := Progress(first.hash, 1, 0);
    assert FullCheck(HasherOf(sha), log, 2, 2, 2, p)
        == FullCheck(HasherOf(sha), log, 2, 2, 3, Progress(second.hash, 2, 1));
  }

  lemma TailCutRanges(sha: Sha)
    ensures Range(TailCutLog(sha), 0, 2) == [TailCutLog(sha)[0]]
    ensures Range(TailCutLog(sha), 2, 3) == [TailCutLog(sha)[2]]
    ensures Range(TailCutLog(sha), 0, 3) == [TailCutLog(sha)[0], TailCutLog(sha)[2]]
  {
    var log := TailCutLog(sha);
    assert Range(log, 2, 3) == [log[2]] + Range(log, 3, 3);
    assert Range(log, 1, 3) == [] + Range(log, 2, 3);
    assert Range(log, 1, 2) == [] + Range(log, 2, 2);
  }

  // ---------------------------------------------------------------- one epoch

  function EpochOnly(es: seq<Entry>, epoch: int): (r: seq<Entry>)
    ensures forall e :: e in r ==> e in es && e.epoch == epoch
  {
    if es == [] then [] else (if es[0].epoch == epoch then [es[0]] else []) + EpochOnly(es[1..], epoch)
  }

  /** The stored entries of one epoch, in order of sequence. */
  function EpochEntries(log: Log, latest: Option<nat>, epoch: int): seq<Entry> {
    if latest.None? then [] else EpochOnly(Range(log, 0, latest.value + 1), epoch)
  }

  datatype EpochOutcome = EpochNotFound | EpochChecked(v: Verification)

  /** The verdict on one epoch: the link of the first entry is taken on trust. */
  function EpochVerification(hash: EntryHasher, es: seq<Entry>): Verification
    requires es != []
  {
    var first := es[0].sequence;
    var r := BatchResult(hash, es, first, es[0].previousHash, true);
    if r.Some?
    then Verification(r.value.status, r.value.checked, first, r.value.brokenAt, 0,
                      Some(r.value.brokenAt), Some(r.value.reason))
    else Verification(VALID, |es|, first, es[|es| - 1].sequence, 1, None, None)
  }

  method VerifySingleEpoch(hash: EntryHasher, log: Log, latest: Option<nat>, epoch: int) returns (o: EpochOutcome)
    requires LatestQuery(log, latest)
    ensures o == var es := EpochEntries(log, latest, epoch);
                 if es == [] then EpochNotFound else EpochChecked(EpochVerification(hash, es))
    ensures o.EpochChecked? ==>
              var es, v := EpochEntries(log, latest, epoch), o.v;
              && es != [] && v.first == es[0].sequence
              && (v.status == VALID ==> v.verified == |es| && v.last == es[|es| - 1].sequence && v.epochs == 1
                                        && v.brokenAt == None && v.reason == None)
              && (v.status != VALID ==>
                    && 0 <= v.verified < |es| && v.epochs == 0
                    && v.last == v.first + v.verified && v.brokenAt == Some(v.last)
                    && if es[v.verified].sequence != v.last
                       then v.status == GAP_DETECTED && v.reason == Some(SEQUENCE_GAP)
                       else v.status == BROKEN && v.reason == Some(HASH_MISMATCH))
  {
    var entries := EpochEntries(log, latest, epoch);
    if entries == [] { return EpochNotFound; }
    var firstSeq, lastSeq := entries[0].sequence, entries[|entries| - 1].sequence;
    var result := VerifyBatch(hash, entries, firstSeq, entries[0].previousHash, true);
    if result.Some? {
      return EpochChecked(Verification(result.value.status, result.value.checked, firstSeq, result.value.brokenAt, 0,
                                       Some(result.value.brokenAt), Some(result.value.reason)));
    }
    return EpochChecked(Verification(VALID, |entries|, firstSeq, lastSeq, 1, None, None));
  }

  // ---------------------------------------------------------------- end marks

  /** The same log except for epoch end marks. */
  predicate SameButMarks(a: Log, b: Log) {
    a.Keys == b.Keys && forall s :: s in a ==> b[s] == a[s].(isEpochEnd := b[s].isEpochEnd)
  }

  lemma {:induction false} RangesDifferInMarks(a: Log, b: Log, lo: nat, hi: nat)
    requires lo <= hi && SameButMarks(a, b)
    ensures |Range(a, lo, hi)| == |Range(b, lo, hi)|
    ensures forall i :: 0 <= i < |Range(a, lo, hi)| ==>
              Range(b, lo, hi)[i] == Range(a, lo, hi)[i].(isEpochEnd := Range(b, lo, hi)[i].isEpochEnd)
    decreases hi - lo
  {
    if lo < hi {
      RangesDifferInMarks(a, b, lo + 1, hi);
    }
  }

  lemma BatchIgnoresMarks(hash: EntryHasher, es: seq<Entry>, fs: seq<Entry>, start: int, prev: Option<string>,
                          skipFirst: bool)
    requires IgnoresMarks(hash)
    requires |es| == |fs|
    requires forall i :: 0 <= i < |es| ==> fs[i] == es[i].(isEpochEnd := fs[i].isEpochEnd)
    ensures BatchResult(hash, fs, start, prev, skipFirst) == BatchResult(hash, es, start, prev, skipFirst)
  {
    forall i | 0 <= i < |es|
      ensures GoodAt(hash, fs, i, start, prev, skipFirst) == GoodAt(hash, es, i, start, prev, skipFirst)
    {
        assert fs[i] == es[i].(isEpochEnd := fs[i].isEpochEnd);
    }
    BatchResultIs(hash, fs, start, prev, skipFirst, FirstBad(hash, es, start, prev, skipFirst, 0));
  }

  /** Marking the end of an epoch never changes what a verification finds, on any log:
      only the number of epochs counted so far can depend on it. */
  lemma {:induction false} MarksDoNotMatter(hash: EntryHasher, a: Log, b: Log, max: nat, size: nat, start: nat,
                                            p: Progress, q: Progress)
    requires IgnoresMarks(hash) && size >= 1 && start <= max + 1 && SameButMarks(a, b)
    requires q == p.(epochs := q.epochs)
    ensures var v, w := FullCheck(hash, a, max, size, start, p), FullCheck(hash, b, max, size, start, q);
            w == v.(epochs := w.epochs)
    decreases max + 1 - start
  {
    hide BatchResult, FullCheck;
    if start > max {
      FullCheckDone(hash, a, max, size, p);
      FullCheckDone(hash, b, max, size, q);
    } else {
      var end := BatchEnd(start, size, max);
      RangesDifferInMarks(a, b, start, end + 1);
      var es, fs := Range(a, start, end + 1), Range(b, start, end + 1);
      BatchIgnoresMarks(hash, es, fs, start, p.previousHash, false);
      var r := BatchResult(hash, es, start, p.previousHash, false);
      FullCheckStep(hash, a, max, size, start, p, es, r);
      FullCheckStep(hash, b, max, size, start, q, fs, r);
      if r.None? {
        MarksDoNotMatter(hash, a, b, max, size, end + 1, Advance(p, es, end, max), Advance(q, fs, end, max));
      }
    }
  }
}
