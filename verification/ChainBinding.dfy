/**
 Tamper evidence: the hash of the last entry binds the whole history.  SHA-256 is not
 assumed to be free of collisions; instead, two different histories that end in the same
 hash are turned into two different texts with the same digest.
 */
module ChainBinding {
  import opened Wrappers
  import opened CanonicalJson
  import opened Hashing
  import opened ChainVerification

  /** Agreement on the hashed fields, the link and the stored hash. */
  predicate SameContent(e: Entry, f: Entry) {
    SameHashedFields(e, f) && e.previousHash == f.previousHash && e.hash == f.hash
  }

  predicate SameHistory(a: seq<Entry>, b: seq<Entry>) {
    |a| == |b| && forall i :: 0 <= i < |a| ==> SameContent(a[i], b[i])
  }

  lemma LinkIsDigest(d: Digest, q: Option<string>)
    requires q.Some? && IsDigest(q.value) && LinkText(Some(d)) == LinkText(q)
    ensures q == Some(d)
  {
  }

  lemma PrefixIsGood(hash: EntryHasher, es: seq<Entry>, n: nat)
    requires n <= |es| && AllGood(hash, es, 0, None, false)
    ensures AllGood(hash, es[..n], 0, None, false)
  {
    forall i: nat | i < n ensures GoodAt(hash, es[..n], i, 0, None, false) {
      assert GoodAt(hash, es, i, 0, None, false);
    }
  }

  /** One step back: if the last texts do not collide, the last entries agree, and so do the
      hashes before them. */
  lemma LastEntriesAgree(sha: Sha, a: seq<Entry>, b: seq<Entry>)
    requires a != [] && AllGood(HasherOf(sha), a, 0, None, false)
    requires b != [] && AllGood(HasherOf(sha), b, 0, None, false)
    requires a[|a| - 1].hash == b[|b| - 1].hash
    requires !Collision(sha, LastText(a), LastText(b))
    ensures |a| == |b| && SameContent(a[|a| - 1], b[|a| - 1])
    ensures |a| > 1 ==> a[|a| - 2].hash == b[|a| - 2].hash
  {
    hide EntryHash, EntryText;
    var m, n := |a| - 1, |b| - 1;
    assert GoodAt(HasherOf(sha), a, m, 0, None, false) && GoodAt(HasherOf(sha), b, n, 0, None, false);
    EntryHashBinds(sha, a[m], a[m].previousHash, b[n], b[n].previousHash);
    if m > 0 {
      assert GoodAt(HasherOf(sha), a, m - 1, 0, None, false) && GoodAt(HasherOf(sha), b, n - 1, 0, None, false);
      LinkIsDigest(EntryHash(sha, a[m - 1], a[m - 1].previousHash), b[n].previousHash);
    }
  }

  function LastText(es: seq<Entry>): string
    requires es != []
  {
    EntryText(es[|es| - 1], es[|es| - 1].previousHash)
  }

  lemma SameHistoryByLast(a: seq<Entry>, b: seq<Entry>, m: nat)
    requires |a| == |b| == m + 1 && SameHistory(a[..m], b[..m]) && SameContent(a[m], b[m])
    ensures SameHistory(a, b)
  {
    forall i | 0 <= i < |a| ensures SameContent(a[i], b[i]) {
      assert i < m ==> SameContent(a[..m][i], b[..m][i]);
    }
  }

  /** Two chains that verify from genesis and end in the same hash are the same chain, or a
      collision can be read off them: walk back from the end until two hashed texts differ. */
  lemma {:induction false} SameEndSameHistory(sha: Sha, a: seq<Entry>, b: seq<Entry>) returns (x: string, y: string)
    requires a != [] && AllGood(HasherOf(sha), a, 0, None, false)
    requires b != [] && AllGood(HasherOf(sha), b, 0, None, false)
    requires a[|a| - 1].hash == b[|b| - 1].hash
    ensures SameHistory(a, b) || Collision(sha, x, y)
    decreases |a|
  {
    hide LastText, SameContent;
    x, y := LastText(a), LastText(b);
    if !Collision(sha, x, y) {
      var m := |a| - 1;
      LastEntriesAgree(sha, a, b);
      if m > 0 {
        PrefixIsGood(HasherOf(sha), a, m);
        PrefixIsGood(HasherOf(sha), b, m);
        x, y := SameEndSameHistory(sha, a[..m], b[..m]);
      }
      if SameHistory(a[..m], b[..m]) {
        SameHistoryByLast(a, b, m);
      }
    }
  }

  /** The same for two stored logs, judged by the batched verifier with whatever epoch
      sizes: if both are reported VALID with a full count and their latest hashes agree,
      then they hold the same history, or a collision is found. */
  lemma LatestHashBindsLog(sha: Sha, a: Log, maxA: nat, sizeA: nat, b: Log, maxB: nat, sizeB: nat)
    returns (x: string, y: string)
    requires KeyedBySequence(a) && IsLatest(a, maxA) && sizeA >= 1
    requires KeyedBySequence(b) && IsLatest(b, maxB) && sizeB >= 1
    requires CleanVerdict(FullVerification(HasherOf(sha), a, maxA, sizeA))
    requires CleanVerdict(FullVerification(HasherOf(sha), b, maxB, sizeB))
    requires a[maxA].hash == b[maxB].hash
    ensures (a.Keys == b.Keys && forall s :: s in a ==> SameContent(a[s], b[s])) || Collision(sha, x, y)
  {
    hide FullCheck, BatchResult, EntryHash;
    CleanLog(sha, a, maxA, sizeA);
    CleanLog(sha, b, maxB, sizeB);
    var ra, rb := Range(a, 0, maxA + 1), Range(b, 0, maxB + 1);
    RangeAt(a, 0, maxA + 1, maxA);
    RangeAt(b, 0, maxB + 1, maxB);
    x, y := SameEndSameHistory(sha, ra, rb);
    if SameHistory(ra, rb) {
      SameRangesSameLog(a, b, maxA, maxB);
    }
  }

  lemma SameRangesSameLog(a: Log, b: Log, maxA: nat, maxB: nat)
    requires IsLatest(a, maxA) && GapFree(a, 0, maxA + 1) && IsLatest(b, maxB) && GapFree(b, 0, maxB + 1)
    requires SameHistory(Range(a, 0, maxA + 1), Range(b, 0, maxB + 1))
    ensures a.Keys == b.Keys && forall s :: s in a ==> SameContent(a[s], b[s])
  {
    hide SameContent;
    RangeAt(a, 0, maxA + 1, maxA);
    RangeAt(b, 0, maxB + 1, maxB);
    forall s | s in a ensures s in b && SameContent(a[s], b[s]) {
      RangeAt(a, 0, maxA + 1, s);
      RangeAt(b, 0, maxB + 1, s);
    }
    assert a.Keys == b.Keys;
  }

  predicate CleanVerdict(v: Verification) { v.status == VALID && v.verified == v.last + 1 }

  lemma CleanLog(sha: Sha, log: Log, max: nat, size: nat)
    requires KeyedBySequence(log) && IsLatest(log, max) && size >= 1
    requires CleanVerdict(FullVerification(HasherOf(sha), log, max, size))
    ensures GapFree(log, 0, max + 1)
    ensures AllGood(HasherOf(sha), Range(log, 0, max + 1), 0, None, false)
  {
    hide FullCheck, BatchResult;
    BatchedValidAndComplete(HasherOf(sha), log, max, size);
    OnePassIsGapFree(HasherOf(sha), log, max);
    BatchResultMeaning(HasherOf(sha), Range(log, 0, max + 1), 0, None, false);
  }
}
