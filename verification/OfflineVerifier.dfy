/**
 The air-gapped verifier (tools/sentora_verify/verifier.py) and its agreement with the
 verifier in the server.
 */
module OfflineVerifier {
  import opened Wrappers
  import opened CanonicalJson
  import opened Timestamps
  import opened Hashing
  import opened ChainVerification

  datatype ExportFile = ExportFile(exportHash: Option<string>, entries: seq<Entry>)

  datatype Reason = NoEntries | SequenceGap | HashMismatch | ExportHashMismatch | MissingEpochLink | EpochLinkMismatch

  /** `Raised` stands for the TypeError of slicing a hash that is missing, which the program
      does when it words the message of a mismatch. */
  datatype Outcome =
    | Accepted(checked: nat)
    | Rejected(checked: nat, brokenAt: Option<int>, why: Reason)
    | Raised

  type ExportHasher = seq<Entry> -> Digest

  /** `compute_export_hash` as the verifier sees it. */
  function ExportHasherOf(sha: Sha): ExportHasher { entries => sha(ExportText(entries)) }

  // ---------------------------------------------------------------- one file

  predicate InSequence(es: seq<Entry>, i: nat)
    requires i < |es|
  {
    es[i].sequence == es[0].sequence + i
  }

  predicate Chained(hash: EntryHasher, es: seq<Entry>, i: nat)
    requires i < |es|
  {
    HashedAt(hash, es, i) && LinkedAt(es, i, None, true)
  }

  function FirstGap(es: seq<Entry>, i: nat): (k: nat)
    requires i <= |es|
    ensures i <= k <= |es|
    ensures forall j :: i <= j < k ==> InSequence(es, j)
    ensures k < |es| ==> !InSequence(es, k)
    decreases |es| - i
  {
    if i == |es| || !InSequence(es, i) then i else FirstGap(es, i + 1)
  }

  function FirstUnchained(hash: EntryHasher, es: seq<Entry>, i: nat): (k: nat)
    requires i <= |es|
    ensures i <= k <= |es|
    ensures forall j :: i <= j < k ==> Chained(hash, es, j)
    ensures k < |es| ==> !Chained(hash, es, k)
    decreases |es| - i
  {
    if i == |es| || !Chained(hash, es, i) then i else FirstUnchained(hash, es, i + 1)
  }

  /** Reporting a broken entry: the hash is looked at before the link. */
  function BrokenEntry(hash: EntryHasher, es: seq<Entry>, i: nat): Outcome
    requires i < |es|
  {
    if (if HashedAt(hash, es, i) then es[i].previousHash.None? else es[i].hash.None?) then Raised
    else Rejected(i, Some(es[i].sequence), HashMismatch)
  }

  predicate ExportHashOk(digest: ExportHasher, f: ExportFile) {
    f.exportHash.None? || f.exportHash.value == "" || f.exportHash.value == digest(f.entries)
  }

  /** The verdict of the three passes, one after the other. */
  function FileResult(hash: EntryHasher, digest: ExportHasher, f: ExportFile): Outcome {
    var es := f.entries;
    if es == [] then Rejected(0, None, NoEntries)
    else
      var gap := FirstGap(es, 0);
      var broken := FirstUnchained(hash, es, 0);
      if gap < |es| then Rejected(gap, Some(es[0].sequence + gap), SequenceGap)
      else if broken < |es| then BrokenEntry(hash, es, broken)
      else if !ExportHashOk(digest, f) then Rejected(|es|, None, ExportHashMismatch)
      else Accepted(|es|)
  }

  lemma FirstGapIs(es: seq<Entry>, k: nat)
    requires k <= |es|
    requires forall j :: 0 <= j < k ==> InSequence(es, j)
    requires k < |es| ==> !InSequence(es, k)
    ensures FirstGap(es, 0) == k
  {
  }

  lemma FirstUnchainedIs(hash: EntryHasher, es: seq<Entry>, k: nat)
    requires k <= |es|
    requires forall j :: 0 <= j < k ==> Chained(hash, es, j)
    requires k < |es| ==> !Chained(hash, es, k)
    ensures FirstUnchained(hash, es, 0) == k
  {
  }

  method VerifyEpoch(hash: EntryHasher, digest: ExportHasher, f: ExportFile) returns (o: Outcome)
    ensures o == FileResult(hash, digest, f)
    ensures f.entries == [] <==> o == Rejected(0, None, NoEntries)
    ensures o.Accepted? ==> o.checked == |f.entries| && (f.exportHash in {None, Some(""), Some(digest(f.entries))})
    ensures o.Rejected? && f.entries != [] ==>
              var es, k := f.entries, o.checked;
              var gapFree := forall j :: 0 <= j < |es| ==> es[j].sequence == es[0].sequence + j;
              && o.why in {SequenceGap, HashMismatch, ExportHashMismatch}
              && (o.why == SequenceGap <==> !gapFree)
              && (o.why == SequenceGap ==>
                    k < |es| && es[k].sequence != es[0].sequence + k && o.brokenAt == Some(es[0].sequence + k)
                    && forall j :: 0 <= j < k ==> es[j].sequence == es[0].sequence + j)
              && (o.why == HashMismatch ==>
                    k < |es| && o.brokenAt == Some(es[k].sequence)
                    && (es[k].hash != Some(hash(es[k], es[k].previousHash))
                        || (k > 0 && es[k].previousHash != es[k - 1].hash)))
              && (o.why == ExportHashMismatch ==>
                    k == |es| && o.brokenAt == None && f.exportHash !in {None, Some(""), Some(digest(es))})
  {
    var entries := f.entries;
    if entries == [] {
      return Rejected(0, None, NoEntries);
    }
    var firstSeq := entries[0].sequence;
    for i := 0 to |entries|
      invariant forall j :: 0 <= j < i ==> InSequence(entries, j)
      invariant forall j :: 0 <= j < i ==> entries[j].sequence == firstSeq + j
    {
      var expectedSeq := firstSeq + i;
      if entries[i].sequence != expectedSeq {
        FirstGapIs(entries, i);
        return Rejected(i, Some(expectedSeq), SequenceGap);
      }
    }
    FirstGapIs(entries, |entries|);
    assert forall j :: 0 <= j < |entries| ==> entries[j].sequence == entries[0].sequence + j;
    for i := 0 to |entries|
      invariant forall j :: 0 <= j < i ==> Chained(hash, entries, j)
    {
      var entry := entries[i];
      var recomputed := hash(entry, entry.previousHash);
      if Some(recomputed) != entry.hash {
        FirstUnchainedIs(hash, entries, i);
        if entry.hash.None? { return Raised; }
        return Rejected(i, Some(entry.sequence), HashMismatch);
      }
      if i > 0 {
        var prevEntryHash := entries[i - 1].hash;
        if entry.previousHash != prevEntryHash {
          FirstUnchainedIs(hash, entries, i);
          assert Chained(hash, entries, i - 1);
          if entry.previousHash.None? || prevEntryHash.None? { return Raised; }
          return Rejected(i, Some(entry.sequence), HashMismatch);
        }
      }
    }
    FirstUnchainedIs(hash, entries, |entries|);
    if f.exportHash.Some? && f.exportHash.value != "" {
      if digest(entries) != f.exportHash.value {
        return Rejected(|entries|, None, ExportHashMismatch);
      }
    }
    return Accepted(|entries|);
  }

  // ---------------------------------------------------------------- agreement with the server

  /** The server's check of an entry is the conjunction of the two offline checks. */
  lemma GoodIsBoth(hash: EntryHasher, es: seq<Entry>, i: nat)
    requires i < |es|
    ensures GoodAt(hash, es, i, es[0].sequence, es[0].previousHash, true)
       <==> InSequence(es, i) && Chained(hash, es, i)
  {
  }

  function FirstObjection(hash: EntryHasher, es: seq<Entry>): (k: nat)
    ensures k <= |es|
  {
    var gap, broken := FirstGap(es, 0), FirstUnchained(hash, es, 0);
    if gap < broken then gap else broken
  }

  /** The server stops at the first entry that either pass would object to. */
  lemma ServerStopsAt(hash: EntryHasher, es: seq<Entry>)
    requires es != []
    ensures var k := FirstObjection(hash, es);
            BatchResult(hash, es, es[0].sequence, es[0].previousHash, true)
            == if k == |es| then None else Some(FaultAt(es, k, es[0].sequence))
  {
    var k := FirstObjection(hash, es);
    forall j: nat | j < |es|
      ensures GoodAt(hash, es, j, es[0].sequence, es[0].previousHash, true)
         <==> InSequence(es, j) && Chained(hash, es, j)
    {
      GoodIsBoth(hash, es, j);
    }
    BatchResultIs(hash, es, es[0].sequence, es[0].previousHash, true, k);
  }

  /** Both verifiers accept the same epochs, the export hash aside, on any input: an entry
      whose hash is missing makes one of them raise and the other report it, but neither
      accepts. */
  lemma VerifiersAcceptTheSame(hash: EntryHasher, digest: ExportHasher, f: ExportFile)
    requires f.entries != []
    ensures FileResult(hash, digest, f).Accepted?
       <==> EpochVerification(hash, f.entries).status == VALID && ExportHashOk(digest, f)
  {
    ServerStopsAt(hash, f.entries);
    FaultIsNotValid(hash, f.entries, f.entries[0].sequence, f.entries[0].previousHash, true);
  }

  /** They name the same place, with the same count, exactly when no gap hides behind an
      earlier broken entry: the offline verifier looks for gaps in the whole file first. */
  lemma VerifiersNameTheSamePlace(hash: EntryHasher, digest: ExportHasher, f: ExportFile)
    requires f.entries != [] && EpochVerification(hash, f.entries).status != VALID
    requires FileResult(hash, digest, f).Rejected?
    ensures var server, offline := EpochVerification(hash, f.entries), FileResult(hash, digest, f);
            var same := FirstGap(f.entries, 0) == |f.entries|
                        || FirstGap(f.entries, 0) <= FirstUnchained(hash, f.entries, 0);
            && (offline.brokenAt == server.brokenAt <==> same) && (offline.checked == server.verified <==> same)
  {
    ServerStopsAt(hash, f.entries);
    var k := FirstObjection(hash, f.entries);
    assert k < FirstGap(f.entries, 0) ==> InSequence(f.entries, k);
  }

  /** On input without gaps the offline verifier raises exactly when the entry it objects to
      has no stored hash, or has the right hash but no link; otherwise it names the place
      that the server names. */
  lemma WhenVerifierRaises(hash: EntryHasher, digest: ExportHasher, f: ExportFile)
    requires f.entries != [] && FirstGap(f.entries, 0) == |f.entries|
    requires EpochVerification(hash, f.entries).status != VALID
    ensures var k := FirstUnchained(hash, f.entries, 0);
            && k < |f.entries|
            && EpochVerification(hash, f.entries).brokenAt == Some(f.entries[k].sequence)
            && (FileResult(hash, digest, f).Raised?
                <==> f.entries[k].hash.None? || (HashedAt(hash, f.entries, k) && f.entries[k].previousHash.None?))
            && (!FileResult(hash, digest, f).Raised?
                ==> FileResult(hash, digest, f) == Rejected(k, Some(f.entries[k].sequence), HashMismatch))
  {
    var es := f.entries;
    ServerStopsAt(hash, es);
    var k := FirstUnchained(hash, es, 0);
    assert k < |es|;
    assert InSequence(es, k);
  }

  // ---------------------------------------------------------------- epoch after epoch

  function CrossEpoch(current: ExportFile, previous: ExportFile): Outcome {
    if current.entries == [] || previous.entries == [] then Rejected(0, None, NoEntries)
    else
      var prevFinalHash := previous.entries[|previous.entries| - 1].hash;
      var first := current.entries[0];
      if first.previousEpochHash.None? then
        if first.previousHash == prevFinalHash then Accepted(1) else Rejected(1, None, MissingEpochLink)
      else if first.previousEpochHash != prevFinalHash then
        if prevFinalHash.None? then Raised else Rejected(1, None, EpochLinkMismatch)
      else Accepted(1)
  }

  /** What the cross-epoch check says: with an epoch link it looks at nothing else, without one
      at the chain link; and it raises when there is a link but no hash to compare it with. */
  lemma CrossEpochMeans(current: ExportFile, previous: ExportFile)
    requires current.entries != [] && previous.entries != []
    ensures var o, first := CrossEpoch(current, previous), current.entries[0];
            var last := previous.entries[|previous.entries| - 1].hash;
            && (o.Raised? <==> first.previousEpochHash.Some? && last.None?)
            && (o.Accepted? <==> (first.previousEpochHash.None? && first.previousHash == last)
                                 || (first.previousEpochHash.Some? && first.previousEpochHash == last))
            && (o.Accepted? ==> o.checked == 1)
            && (o.Rejected? ==> o.checked == 1 && o.brokenAt == None
                                && o.why == if first.previousEpochHash.None? then MissingEpochLink
                                            else EpochLinkMismatch)
  {
  }

  /** Non-empty files whose sequence ranges follow one another, from 0 on. */
  predicate Consecutive(files: seq<ExportFile>) {
    && (forall k :: 0 <= k < |files| ==> files[k].entries != [])
    && (files != [] ==> files[0].entries[0].sequence == 0)
    && forall k :: 0 < k < |files| ==>
         files[k].entries[0].sequence == files[k - 1].entries[|files[k - 1].entries| - 1].sequence + 1
  }

  /** Each later epoch begins with an entry whose epoch link, if present, repeats its chain link. */
  predicate EpochLinksRepeat(files: seq<ExportFile>) {
    forall k :: 0 < k < |files| && files[k].entries != [] ==>
      files[k].entries[0].previousEpochHash in {None, files[k].entries[0].previousHash}
  }

  predicate AllAccepted(hash: EntryHasher, digest: ExportHasher, files: seq<ExportFile>) {
    && (forall k :: 0 <= k < |files| ==> FileResult(hash, digest, files[k]).Accepted?)
    && (forall k :: 0 < k < |files| ==> CrossEpoch(files[k], files[k - 1]).Accepted?)
  }

  predicate AllExportHashesOk(digest: ExportHasher, files: seq<ExportFile>) {
    forall k :: 0 <= k < |files| ==> ExportHashOk(digest, files[k])
  }

  function Joined(files: seq<ExportFile>): seq<Entry> {
    if files == [] then [] else Joined(files[..|files| - 1]) + files[|files| - 1].entries
  }

  lemma AllGoodInTwoParts(hash: EntryHasher, a: seq<Entry>, b: seq<Entry>, start: int, prev: Option<string>)
    requires a != []
    ensures AllGood(hash, a + b, start, prev, false)
       <==> AllGood(hash, a, start, prev, false) && AllGood(hash, b, start + |a|, a[|a| - 1].hash, false)
  {
    var mid, link := start + |a|, a[|a| - 1].hash;
    if AllGood(hash, a + b, start, prev, false) {
      forall i: nat | i < |a| ensures GoodAt(hash, a, i, start, prev, false) {
        GoodInFront(hash, a, b, i, start, prev);
      }
      forall i: nat | i < |b| ensures GoodAt(hash, b, i, mid, link, false) {
        GoodBehind(hash, a, b, i + |a|, start, prev);
      }
    } else if AllGood(hash, a, start, prev, false) && AllGood(hash, b, mid, link, false) {
      forall i: nat | i < |a + b| ensures GoodAt(hash, a + b, i, start, prev, false) {
        if i < |a| { GoodInFront(hash, a, b, i, start, prev); } else { GoodBehind(hash, a, b, i, start, prev); }
      }
    }
  }

  /** What acceptance of a file says about its entries. */
  lemma AcceptedFile(hash: EntryHasher, digest: ExportHasher, f: ExportFile)
    requires f.entries != []
    ensures FileResult(hash, digest, f).Accepted?
       <==> AllGood(hash, f.entries, f.entries[0].sequence, f.entries[0].previousHash, false) && ExportHashOk(digest, f)
  {
    var es := f.entries;
    VerifiersAcceptTheSame(hash, digest, f);
    BatchResultMeaning(hash, es, es[0].sequence, es[0].previousHash, true);
    FaultIsNotValid(hash, es, es[0].sequence, es[0].previousHash, true);
    forall i: nat | i < |es|
      ensures GoodAt(hash, es, i, es[0].sequence, es[0].previousHash, true)
           == GoodAt(hash, es, i, es[0].sequence, es[0].previousHash, false)
    {
    }
  }

  /** The next file continues a good chain exactly when it is accepted by itself and its
      cross-epoch check passes. */
  lemma NextFile(hash: EntryHasher, digest: ExportHasher, chain: seq<Entry>, last: ExportFile, f: ExportFile)
    requires chain != [] && last.entries != [] && f.entries != []
    requires chain[|chain| - 1] == last.entries[|last.entries| - 1]
    requires chain[|chain| - 1].hash.Some?
    requires f.entries[0].sequence == |chain|
    requires f.entries[0].previousEpochHash in {None, f.entries[0].previousHash}
    ensures FileResult(hash, digest, f).Accepted? && CrossEpoch(f, last).Accepted?
       <==> AllGood(hash, f.entries, |chain|, chain[|chain| - 1].hash, false) && ExportHashOk(digest, f)
  {
    hide FileResult;
    AcceptedFile(hash, digest, f);
    var es := f.entries;
    assert CrossEpoch(f, last).Accepted? <==> es[0].previousHash == chain[|chain| - 1].hash;
    if AllGood(hash, es, |chain|, chain[|chain| - 1].hash, false) {
      assert GoodAt(hash, es, 0, |chain|, chain[|chain| - 1].hash, false);
    }
  }

  /** Epoch composition: for files with consecutive ranges whose genesis has no predecessor
      and whose epoch links repeat the chain links, every file and every pair of neighbours
      passes exactly when the concatenation of all entries verifies in one pass, the export
      hashes aside. */
  lemma {:induction false} EpochsCompose(hash: EntryHasher, digest: ExportHasher, files: seq<ExportFile>)
    requires files != [] && Consecutive(files) && EpochLinksRepeat(files)
    requires files[0].entries[0].previousHash.None?
    ensures Joined(files) != []
    ensures Joined(files)[|Joined(files)| - 1]
         == files[|files| - 1].entries[|files[|files| - 1].entries| - 1]
    ensures AllAccepted(hash, digest, files)
       <==> AllGood(hash, Joined(files), 0, None, false) && AllExportHashesOk(digest, files)
    decreases |files|
  {
    hide FileResult, CrossEpoch;
    var n := |files| - 1;
    var f := files[n];
    if n == 0 {
      assert Joined([]) + f.entries == f.entries;
      assert Joined(files) == f.entries;
      AcceptedFile(hash, digest, f);
    } else {
      var front := files[..n];
      EpochsCompose(hash, digest, front);
      SplitOffLast(hash, digest, files);
      OneMoreFile(hash, digest, Joined(front), files[n - 1], f);
    }
  }

  lemma OneMoreFile(hash: EntryHasher, digest: ExportHasher, chain: seq<Entry>, last: ExportFile, f: ExportFile)
    requires chain != [] && last.entries != [] && f.entries != []
    requires chain[|chain| - 1] == last.entries[|last.entries| - 1]
    requires f.entries[0].sequence == chain[|chain| - 1].sequence + 1
    requires f.entries[0].previousEpochHash in {None, f.entries[0].previousHash}
    ensures AllGood(hash, chain + f.entries, 0, None, false) ==> AllGood(hash, chain, 0, None, false)
    ensures AllGood(hash, chain, 0, None, false) ==>
              (FileResult(hash, digest, f).Accepted? && CrossEpoch(f, last).Accepted?
               <==> AllGood(hash, chain + f.entries, 0, None, false) && ExportHashOk(digest, f))
  {
    hide FileResult, CrossEpoch;
    AllGoodInTwoParts(hash, chain, f.entries, 0, None);
    if AllGood(hash, chain, 0, None, false) {
      assert GoodAt(hash, chain, |chain| - 1, 0, None, false);
      NextFile(hash, digest, chain, last, f);
    }
  }

  lemma SplitOffLast(hash: EntryHasher, digest: ExportHasher, files: seq<ExportFile>)
    requires |files| > 1
    ensures AllAccepted(hash, digest, files)
       <==> AllAccepted(hash, digest, files[..|files| - 1]) && FileResult(hash, digest, files[|files| - 1]).Accepted?
            && CrossEpoch(files[|files| - 1], files[|files| - 2]).Accepted?
    ensures AllExportHashesOk(digest, files)
       <==> AllExportHashesOk(digest, files[..|files| - 1]) && ExportHashOk(digest, files[|files| - 1])
  {
    hide FileResult, CrossEpoch, ExportHashOk;
    var n := |files| - 1;
    var front := files[..n];
    assert forall k :: 0 <= k < n ==> front[k] == files[k];
    if AllAccepted(hash, digest, front) && FileResult(hash, digest, files[n]).Accepted?
       && CrossEpoch(files[n], files[n - 1]).Accepted? {
      forall k | 0 < k < |files| ensures CrossEpoch(files[k], files[k - 1]).Accepted? {
        assert k < n ==> CrossEpoch(front[k], front[k - 1]).Accepted?;
      }
    }
    if AllAccepted(hash, digest, files) {
      forall k | 0 < k < n ensures CrossEpoch(front[k], front[k - 1]).Accepted? {
        assert CrossEpoch(files[k], files[k - 1]).Accepted?;
      }
    }
  }

  lemma {:induction false} JoinedEnds(files: seq<ExportFile>)
    requires files != [] && forall k :: 0 <= k < |files| ==> files[k].entries != []
    ensures Joined(files) != []
    ensures var last := files[|files| - 1].entries; Joined(files)[|Joined(files)| - 1] == last[|last| - 1]
  {
  }

  function LastHash(f: ExportFile): Option<string>
    requires f.entries != []
  {
    f.entries[|f.entries| - 1].hash
  }

  /** In a good concatenation each file's first entry links to the last entry of the file
      before it. */
  lemma {:induction false} GoodMeansLinked(hash: EntryHasher, files: seq<ExportFile>, k: nat)
    requires forall i :: 0 <= i < |files| ==> files[i].entries != []
    requires AllGood(hash, Joined(files), 0, None, false) && 0 < k < |files|
    ensures files[k].entries[0].previousHash == LastHash(files[k - 1])
    decreases |files|
  {
    var n := |files| - 1;
    var front, es := files[..n], files[n].entries;
    JoinedEnds(front);
    AllGoodInTwoParts(hash, Joined(front), es, 0, None);
    if k == n {
      assert GoodAt(hash, es, 0, |Joined(front)|, LastHash(files[n - 1]), false);
    } else {
      GoodMeansLinked(hash, front, k);
    }
  }

  /** The exact condition for composition: when all files and all pairs have passed, they form
      one good chain if and only if every epoch link that is present repeats the chain link
      beside it. */
  lemma AcceptedFilesFormAChain(hash: EntryHasher, digest: ExportHasher, files: seq<ExportFile>)
    requires files != [] && Consecutive(files) && files[0].entries[0].previousHash.None?
    requires AllAccepted(hash, digest, files)
    ensures AllGood(hash, Joined(files), 0, None, false) <==> EpochLinksRepeat(files)
  {
    hide FileResult, AllGood, Joined;
    if EpochLinksRepeat(files) {
      EpochsCompose(hash, digest, files);
    } else if AllGood(hash, Joined(files), 0, None, false) {
      forall k: nat | 0 < k < |files|
        ensures files[k].entries[0].previousEpochHash in {None, files[k].entries[0].previousHash}
      {
        GoodMeansLinked(hash, files, k);
        assert CrossEpoch(files[k], files[k - 1]).Accepted?;
      }
    }
  }

  /** Without that condition composition fails: the epoch link is not hashed, and when it is
      present the cross-epoch check looks at nothing else.  Here the second epoch does not
      continue the first, but each file and the pair of them pass. */
  lemma EpochLinkIsNotEnough(sha: Sha, digest: ExportHasher) returns (files: seq<ExportFile>)
    ensures files != [] && Consecutive(files) && files[0].entries[0].previousHash.None?
    ensures AllAccepted(HasherOf(sha), digest, files) && AllExportHashesOk(digest, files)
    ensures !AllGood(HasherOf(sha), Joined(files), 0, None, false)
  {
    hide EntryHash;
    var hash := HasherOf(sha);
    var genesis := PlainEntry(sha, 0, None);
    var forged := PlainEntry(sha, 1, Some("another chain")).(previousEpochHash := genesis.hash);
    PreviousEpochHashIsNotHashed(sha, PlainEntry(sha, 1, Some("another chain")), genesis.hash, Some("another chain"));
    files := [ExportFile(None, [genesis]), ExportFile(None, [forged])];
    AcceptedFile(hash, digest, files[0]);
    AcceptedFile(hash, digest, files[1]);
    assert GoodAt(hash, [genesis], 0, 0, None, false);
    assert GoodAt(hash, [forged], 0, 1, Some("another chain"), false);
    assert files[..1] == [files[0]] && [files[0]][..0] == [];
    assert Joined([]) + [genesis] == [genesis];
    assert Joined(files) == [genesis] + [forged];
    assert LinkedAt([genesis] + [forged], 1, None, false) ==> Some("another chain") == genesis.hash;
    assert !GoodAt(hash, Joined(files), 1, 0, None, false);
  }

  lemma PreviousEpochHashIsNotHashed(sha: Sha, e: Entry, link: Option<string>, p: Option<string>)
    ensures EntryHash(sha, e.(previousEpochHash := link), p) == EntryHash(sha, e, p)
  {
    assert Hashable(e.(previousEpochHash := link), p) == Hashable(e, p);
  }
}
