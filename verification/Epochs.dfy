/**
 Epochs of a chain: listing, exporting and counting them
 (backend/audit/chain/queries.py:171-188, 310-433), over every log that appending can build.
 */
module Epochs {
  import opened Wrappers
  import opened CanonicalJson
  import opened Timestamps
  import opened Hashing
  import opened ChainVerification
  import opened ChainRules
  import opened OfflineVerifier

  // ---------------------------------------------------------------- which entries an epoch has

  lemma EpochOf(s: nat, k: int, size: nat)
    requires size >= 1
    ensures s / size == k <==> k * size <= s < k * size + size
  {
    var q, r := s / size, s % size;
    assert s == q * size + r;
    if k * size <= s < k * size + size {
      DivModIs(s, size, k, s - k * size);
    }
  }

  lemma {:induction false} EpochOnlyConcat(a: seq<Entry>, b: seq<Entry>, k: int)
    ensures EpochOnly(a + b, k) == EpochOnly(a, k) + EpochOnly(b, k)
  {
    if a == [] {
      assert a + b == b;
    } else {
      assert (a + b)[1..] == a[1..] + b;
      EpochOnlyConcat(a[1..], b, k);
    }
  }

  lemma {:induction false} EpochOnlyNone(es: seq<Entry>, k: int)
    requires forall e :: e in es ==> e.epoch != k
    ensures EpochOnly(es, k) == []
  {
    if es != [] { EpochOnlyNone(es[1..], k); }
  }

  lemma {:induction false} EpochOnlyAll(es: seq<Entry>, k: int)
    requires forall e :: e in es ==> e.epoch == k
    ensures EpochOnly(es, k) == es
  {
    if es != [] { EpochOnlyAll(es[1..], k); }
  }

  /** Where epoch `k` of a log of `n` entries ends. */
  function EpochStop(k: nat, size: nat, n: nat): nat {
    if k * size + size <= n then k * size + size else n
  }

  lemma RangeEpochs(hash: EntryHasher, log: Log, n: nat, size: nat, lo: nat, hi: nat)
    requires WellChained(hash, log, n, size) && lo <= hi <= n
    ensures forall e :: e in Range(log, lo, hi) ==> lo <= e.sequence < hi && e.epoch == e.sequence / size
  {
    forall i: nat | i < |Range(log, lo, hi)|
      ensures var e := Range(log, lo, hi)[i]; lo <= e.sequence < hi && e.epoch == e.sequence / size
    {
      RangeAt(log, lo, hi, i);
      assert EntryOk(hash, log, n, size, lo + i);
    }
  }

  /** The query for an epoch yields exactly its range of sequence numbers. */
  lemma EpochIsRange(hash: EntryHasher, log: Log, n: nat, size: nat, k: int)
    requires WellChained(hash, log, n, size) && n > 0
    ensures k >= 0 && k * size < n
            ==> EpochEntries(log, Some(n - 1), k) == Range(log, k * size, EpochStop(k, size, n))
    ensures k < 0 || k * size >= n ==> EpochEntries(log, Some(n - 1), k) == []
  {
    hide EntryOk, WellChained;
    if k >= 0 && k * size < n {
      var lo: nat, hi := k * size, EpochStop(k, size, n);
      var before, mine, after := Range(log, 0, lo), Range(log, lo, hi), Range(log, hi, n);
      RangeInTwoParts(log, 0, lo, n);
      RangeInTwoParts(log, lo, hi, n);
      EpochOnlyConcat(before, mine + after, k);
      EpochOnlyConcat(mine, after, k);
      RangeOutside(hash, log, n, size, 0, lo, k);
      RangeOutside(hash, log, n, size, hi, n, k);
      RangeInside(hash, log, n, size, lo, hi, k);
    } else {
      RangeOutside(hash, log, n, size, 0, n, k);
    }
  }

  lemma RangeOutside(hash: EntryHasher, log: Log, n: nat, size: nat, lo: nat, hi: nat, k: int)
    requires WellChained(hash, log, n, size) && lo <= hi <= n
    requires hi <= k * size || k * size + size <= lo || k < 0 || lo == hi
    ensures EpochOnly(Range(log, lo, hi), k) == []
  {
    hide EntryOk;
    RangeEpochs(hash, log, n, size, lo, hi);
    forall e | e in Range(log, lo, hi) ensures e.epoch != k { EpochOf(e.sequence, k, size); }
    EpochOnlyNone(Range(log, lo, hi), k);
  }

  lemma RangeInside(hash: EntryHasher, log: Log, n: nat, size: nat, lo: nat, hi: nat, k: int)
    requires WellChained(hash, log, n, size) && lo <= hi <= n && k * size <= lo && hi <= k * size + size
    ensures EpochOnly(Range(log, lo, hi), k) == Range(log, lo, hi)
  {
    hide EntryOk;
    RangeEpochs(hash, log, n, size, lo, hi);
    forall e | e in Range(log, lo, hi) ensures e.epoch == k { EpochOf(e.sequence, k, size); }
    EpochOnlyAll(Range(log, lo, hi), k);
  }

  // ---------------------------------------------------------------- exporting

  datatype Metadata = Metadata(about: About, epoch: int, epochSize: nat, first: int, last: int, firstTime: string,
                               lastTime: string, count: nat, previousEpochHash: Option<string>,
                               finalHash: Option<string>, exportHash: Digest)

  /** The fields of the metadata that come with the request, and the time of the export. */
  datatype About = About(version: string, tenantId: Option<string>, tenantName: Option<string>, exportedBy: string,
                         exportedAt: string, algorithm: string)

  /** A timestamp in the metadata: ISO text of a time, and any other value as it is. */
  function TimeText(t: Timestamp): string {
    match t
    case Moment(d) => IsoFormat(d)
    case Text(s) => s
  }

  datatype Export = NotFound | NotComplete(soFar: nat) | Archive(metadata: Metadata, entries: seq<Entry>)

  /** An epoch is refused only if it is the current one and its last entry is not marked. */
  predicate InProgress(log: Log, latest: Option<nat>, es: seq<Entry>, epoch: int) {
    es != [] && !es[|es| - 1].isEpochEnd && latest.Some? && latest.value in log && log[latest.value].epoch == epoch
  }

  lemma EpochNeedsLatest(log: Log, latest: Option<nat>, epoch: int)
    ensures latest.None? ==> EpochEntries(log, latest, epoch) == []
  {
  }

  function MetadataOf(sha: Sha, about: About, es: seq<Entry>, epoch: int, epochSize: nat): Metadata
    requires es != []
  {
    var first, last := es[0], es[|es| - 1];
    Metadata(about, epoch, epochSize, first.sequence, last.sequence, TimeText(first.timestamp),
             TimeText(last.timestamp), |es|, first.previousEpochHash, last.hash, sha(ExportText(es)))
  }

  /** The metadata, field by field: from the first and the last entry, their number, and the
      digest of the documents as they are stored. */
  lemma MetadataMeans(sha: Sha, about: About, es: seq<Entry>, epoch: int, epochSize: nat)
    requires es != []
    ensures var m, first, last := MetadataOf(sha, about, es, epoch, epochSize), es[0], es[|es| - 1];
            && m.about == about && m.epoch == epoch && m.epochSize == epochSize && m.count == |es|
            && m.first == first.sequence && m.last == last.sequence
            && m.firstTime == (if first.timestamp.Text? then first.timestamp.text
                               else IsoFormat(first.timestamp.moment))
            && m.lastTime == (if last.timestamp.Text? then last.timestamp.text
                              else IsoFormat(last.timestamp.moment))
            && m.previousEpochHash == first.previousEpochHash && m.finalHash == last.hash
            && m.exportHash == sha(ExportText(es))
  {
    hide IsoFormat, ExportText;
  }

  /** An exported entry differs from the stored one in its timestamp only, which is ISO text. */
  lemma ExportedMeans(es: seq<Entry>, i: nat)
    requires i < |es|
    ensures |ExportedAll(es)| == |es|
    ensures var e := es[i];
            ExportedAll(es)[i]
            == if e.timestamp.Text? then e else e.(timestamp := Text(IsoFormat(e.timestamp.moment)))
  {
    hide IsoFormat;
  }

  /** The archive of an epoch, or why there is none; and the set of exported epochs, to which
      a successful export adds. */
  method ExportEpoch(sha: Sha, about: About, log: Log, latest: Option<nat>, epochSize: nat, epoch: int,
                     exported: set<int>)
    returns (x: Export, recorded: set<int>)
    requires LatestQuery(log, latest)
    ensures var es := EpochEntries(log, latest, epoch);
            && (x.NotFound? <==> es == [])
            && (x.NotComplete? <==> InProgress(log, latest, es, epoch))
            && (x.NotComplete? ==> x.soFar == |es|)
            && (x.Archive? ==>
                  x.entries == ExportedAll(es) && x.metadata == MetadataOf(sha, about, es, epoch, epochSize))
    ensures recorded == if x.Archive? then exported + {epoch} else exported
    ensures x.NotComplete? <==>
              var es := EpochEntries(log, latest, epoch);
              es != [] && !es[|es| - 1].isEpochEnd && latest.Some? && log[latest.value].epoch == epoch
  {
    hide EpochEntries, ExportText, Exported, TimeText;
    var entries := EpochEntries(log, latest, epoch);
    EpochNeedsLatest(log, latest, epoch);
    if entries == [] { return NotFound, exported; }
    var lastEntry := entries[|entries| - 1];
    if !lastEntry.isEpochEnd {
      if latest.Some? && log[latest.value].epoch == epoch { return NotComplete(|entries|), exported; }
    }
    var firstEntry := entries[0];
    var exportHash := ComputeExportHash(sha, entries);
    var serialised: seq<Entry> := [];
    for i := 0 to |entries|
      invariant serialised == ExportedAll(entries)[..i]
    {
      serialised := serialised + [Exported(entries[i])];
    }
    var metadata := Metadata(about, epoch, epochSize, firstEntry.sequence, lastEntry.sequence,
                             TimeText(firstEntry.timestamp), TimeText(lastEntry.timestamp), |entries|,
                             firstEntry.previousEpochHash, lastEntry.hash, exportHash);
    return Archive(metadata, serialised), exported + {epoch};
  }

  /** What can be exported of a chain: exactly the epochs whose entries are all there and
      whose last entry is marked, and then all of their entries and no others. */
  lemma OnlyFullEpochsAreExported(hash: EntryHasher, log: Log, n: nat, size: nat, k: int)
    requires WellChained(hash, log, n, size) && n > 0
    ensures var es := EpochEntries(log, Some(n - 1), k);
            && (es != [] && !InProgress(log, Some(n - 1), es, k)
                <==> k >= 0 && k * size + size <= n && log[k * size + size - 1].isEpochEnd)
            && (es != [] && !InProgress(log, Some(n - 1), es, k)
                ==> es == Range(log, k * size, k * size + size) && |es| == size)
            && (es == [] <==> k < 0 || n <= k * size)
  {
    hide EntryOk, WellChained, Range, EpochEntries;
    EpochIsRange(hash, log, n, size, k);
    if k >= 0 && k * size < n {
      var lo: nat, hi := k * size, EpochStop(k, size, n);
      SizeIsPositive(hash, log, n, size);
      LastInStretch(hash, log, n, size, lo, hi);
      LastPlace(hash, log, n, size, k, hi);
    }
  }

  lemma LastInStretch(hash: EntryHasher, log: Log, n: nat, size: nat, lo: nat, hi: nat)
    requires WellChained(hash, log, n, size) && lo < hi <= n
    ensures var es := Range(log, lo, hi);
            |es| == hi - lo && hi - 1 in log && es[|es| - 1] == log[hi - 1]
  {
    RangeAt(log, lo, hi, hi - 1 - lo);
  }

  /** The last entry of an epoch: it is marked only if the epoch is full, and unmarked only
      if the epoch is the newest. */
  lemma LastPlace(hash: EntryHasher, log: Log, n: nat, size: nat, k: nat, hi: nat)
    requires WellChained(hash, log, n, size) && k * size < n && hi == EpochStop(k, size, n)
    ensures n - 1 in log && k * size < hi && hi - 1 in log
    ensures log[hi - 1].isEpochEnd ==> hi == k * size + size
    ensures !log[hi - 1].isEpochEnd ==> log[n - 1].epoch == k
    ensures log[n - 1].epoch == k ==> hi == n
  {
    assert EntryOk(hash, log, n, size, hi - 1);
    assert EntryOk(hash, log, n, size, n - 1);
    LastOfEpoch(hi - 1, k, size);
    EpochOf(n - 1, k, size);
  }

  /** Only the last place of an epoch can carry an end mark. */
  lemma LastOfEpoch(s: nat, k: nat, size: nat)
    requires size >= 1 && k * size <= s < k * size + size
    ensures s % size == size - 1 <==> s == k * size + size - 1
  {
    DivModIs(s, size, k, s - k * size);
  }

  /** Every complete epoch that has a successor can be exported; the last one can as soon as
      an append has tried to follow it, even in vain. */
  lemma CompleteEpochsAreMarked(hash: EntryHasher, log: Log, n: nat, size: nat, k: nat)
    requires WellChained(hash, log, n, size) && k * size + size < n
    ensures log[k * size + size - 1].isEpochEnd
  {
    LastOfEpoch(k * size + size - 1, k, size);
    assert EntryOk(hash, log, n, size, k * size + size - 1);
  }

  // ---------------------------------------------------------------- listing

  datatype EpochSummary = EpochSummary(epoch: int, first: int, last: int, count: int, firstTime: Timestamp,
                                       lastTime: Timestamp, finalHash: Option<string>,
                                       previousEpochHash: Option<string>, exported: bool)

  /** `get_completed_epochs`: the marked entries, by epoch. */
  predicate CompletedQuery(log: Log, completed: seq<nat>) {
    && (forall i :: 0 <= i < |completed| ==> completed[i] in log && log[completed[i]].isEpochEnd)
    && (forall s :: s in log && log[s].isEpochEnd ==> s in completed)
    && (forall i, j :: 0 <= i < j < |completed| ==>
          completed[i] != completed[j] && log[completed[i]].epoch <= log[completed[j]].epoch)
  }

  function SummaryOf(end: Entry, first: Entry, exported: set<int>): EpochSummary {
    EpochSummary(end.epoch, first.sequence, end.sequence, end.sequence - first.sequence + 1, first.timestamp,
                 end.timestamp, end.hash, first.previousEpochHash, end.epoch in exported)
  }

  lemma {:induction false} EpochOnlyHas(es: seq<Entry>, e: Entry)
    requires e in es
    ensures EpochOnly(es, e.epoch) != []
  {
    if es[0] != e { EpochOnlyHas(es[1..], e); }
  }

  lemma {:induction false} RangeHas(log: Log, lo: nat, hi: nat, s: nat)
    requires lo <= s < hi && s in log
    ensures log[s] in Range(log, lo, hi)
    decreases hi - lo
  {
    if lo < s {
      RangeHas(log, lo + 1, hi, s);
    }
  }

  /** An entry's own epoch is never empty. */
  lemma EpochOfEntry(log: Log, latest: nat, s: nat)
    requires IsLatest(log, latest) && s in log
    ensures EpochEntries(log, Some(latest), log[s].epoch) != []
  {
    RangeHas(log, 0, latest + 1, s);
    EpochOnlyHas(Range(log, 0, latest + 1), log[s]);
  }

  method ListEpochs(log: Log, latest: Option<nat>, completed: seq<nat>, exported: set<int>)
    returns (summaries: seq<EpochSummary>)
    requires LatestQuery(log, latest) && CompletedQuery(log, completed)
    ensures |summaries| == |completed|
    ensures forall i :: 0 <= i < |completed| ==>
              var end := log[completed[i]];
              var es := EpochEntries(log, latest, end.epoch);
              es != [] && summaries[i] == SummaryOf(end, es[0], exported)
    ensures forall i :: 0 <= i < |completed| ==>
              var end, s := log[completed[i]], summaries[i];
              var es := EpochEntries(log, latest, end.epoch);
              && es != [] && s.epoch == end.epoch && s.first == es[0].sequence && s.last == end.sequence
              && s.count == end.sequence - es[0].sequence + 1
              && s.firstTime == es[0].timestamp && s.lastTime == end.timestamp
              && s.finalHash == end.hash && s.previousEpochHash == es[0].previousEpochHash
              && (s.exported <==> end.epoch in exported)
  {
    hide EpochEntries;
    summaries := [];
    for i := 0 to |completed|
      invariant |summaries| == i
      invariant forall j :: 0 <= j < i ==>
                  var end := log[completed[j]];
                  var es := EpochEntries(log, latest, end.epoch);
                  es != [] && summaries[j] == SummaryOf(end, es[0], exported)
    {
      var epochEnd := log[completed[i]];
      EpochOfEntry(log, latest.value, completed[i]);
      var entries := EpochEntries(log, latest, epochEnd.epoch);
      if entries == [] { continue; }
      summaries := summaries + [SummaryOf(epochEnd, entries[0], exported)];
    }
  }

  /** The place of the end mark of epoch `k`. */
  function EndOf(k: nat, size: nat): int { k * size + size - 1 }

  lemma MarkedPlace(hash: EntryHasher, log: Log, n: nat, size: nat, s: nat)
    requires WellChained(hash, log, n, size) && s in log && log[s].isEpochEnd
    ensures s < n && log[s].epoch >= 0 && s == EndOf(log[s].epoch, size)
  {
    assert EntryOk(hash, log, n, size, s);
    EpochOf(s, s / size, size);
    LastOfEpoch(s, s / size, size);
  }

  lemma EarlierEpoch(j: nat, k: nat, size: nat)
    requires j < k && size >= 1
    ensures j * size + size <= k * size
  {
    assert (j + 1) * size <= k * size;
  }

  /** If epoch `i` is among the completed ones, and those before place `i` are the epochs
      before it, then the one at place `i` is no later epoch. */
  lemma AtMostItsPlace(log: Log, completed: seq<nat>, i: nat, e: nat)
    requires CompletedQuery(log, completed) && i < |completed|
    requires forall j :: 0 <= j < i ==> log[completed[j]].epoch == j
    ensures e in completed && log[e].epoch == i ==> log[completed[i]].epoch <= i
  {
    if e in completed && log[e].epoch == i {
      var j :| 0 <= j < |completed| && completed[j] == e;
      assert i <= j;
    }
  }

  lemma EndIsNatural(k: nat, size: nat)
    requires size >= 1
    ensures EndOf(k, size) >= 0
  {
    assert k * size >= 0;
  }

  /** The `i`-th completed epoch is epoch `i`. */
  lemma {:induction false} CompletedInOrder(hash: EntryHasher, log: Log, n: nat, size: nat, completed: seq<nat>, i: nat)
    requires WellChained(hash, log, n, size) && CompletedQuery(log, completed) && i < |completed|
    ensures log[completed[i]].epoch == i && completed[i] == EndOf(i, size) && completed[i] < n
    decreases i
  {
    hide EntryOk, WellChained, EndOf;
    var k := log[completed[i]].epoch;
    MarkedPlace(hash, log, n, size, completed[i]);
    forall j: nat | j < i ensures log[completed[j]].epoch == j && EndOf(j, size) != EndOf(k, size) {
      CompletedInOrder(hash, log, n, size, completed, j);
      assert completed[j] != completed[i];
    }
    SizeIsPositive(hash, log, n, size);
    EndIsNatural(i, size);
    EpochBeforeIsMarked(hash, log, n, size, i, k, completed[i]);
    AtMostItsPlace(log, completed, i, EndOf(i, size));
  }

  /** Every epoch before a marked one is marked itself. */
  lemma EpochBeforeIsMarked(hash: EntryHasher, log: Log, n: nat, size: nat, i: nat, k: nat, s: nat)
    requires WellChained(hash, log, n, size) && s == EndOf(k, size) && s < n
    ensures i < k ==> EndOf(i, size) >= 0 && EndOf(i, size) in log && log[EndOf(i, size)].isEpochEnd
                      && log[EndOf(i, size)].epoch == i
  {
    if i < k {
      EarlierEpoch(i, k, size);
      CompleteEpochsAreMarked(hash, log, n, size, i);
      assert EntryOk(hash, log, n, size, EndOf(i, size));
      EpochOf(EndOf(i, size), i, size);
    }
  }

  /** The summary of a full epoch: its whole range, and the hashes that link it. */
  function FullSummary(log: Log, size: nat, i: nat, exported: set<int>): EpochSummary {
    var start: nat := i * size;
    EpochSummary(i, start, start + size - 1, size, TimeAt(log, start), TimeAt(log, start + size - 1),
                 LinkFor(log, start + size), if i == 0 then None else LinkFor(log, start), i in exported)
  }

  function TimeAt(log: Log, s: int): Timestamp {
    if s >= 0 && s in log then log[s].timestamp else Text("")
  }

  /** Over a chain, the list has the epochs 0, 1, 2, ... in order, each with all of its
      entries and the hashes that link it to its neighbours, and it leaves out at most the
      newest epoch. */
  lemma ListedEpochsAreFull(hash: EntryHasher, log: Log, n: nat, size: nat, completed: seq<nat>, exported: set<int>,
                            i: nat)
    requires WellChained(hash, log, n, size) && n > 0 && CompletedQuery(log, completed) && i < |completed|
    ensures EpochEntries(log, Some(n - 1), log[completed[i]].epoch) != []
    ensures SummaryOf(log[completed[i]], EpochEntries(log, Some(n - 1), log[completed[i]].epoch)[0], exported)
            == FullSummary(log, size, i, exported)
  {
    hide EntryOk, WellChained, LinkFor, EpochEntries, CompletedQuery, Range;
    CompletedInOrder(hash, log, n, size, completed, i);
    MarkedIsThere(log, completed, i);
    OnlyFullEpochsAreExported(hash, log, n, size, i);
    SizeIsPositive(hash, log, n, size);
    FullEpochEnds(hash, log, n, size, i);
  }

  lemma MarkedIsThere(log: Log, completed: seq<nat>, i: nat)
    requires CompletedQuery(log, completed) && i < |completed|
    ensures completed[i] in log && log[completed[i]].isEpochEnd
  {
  }

  lemma FullEpochEnds(hash: EntryHasher, log: Log, n: nat, size: nat, i: nat)
    requires WellChained(hash, log, n, size) && i * size + size <= n
    ensures var lo: nat := i * size;
            && size >= 1 && |Range(log, lo, lo + size)| == size && lo + size - 1 in log
            && lo in log && Range(log, lo, lo + size)[0] == log[lo]
            && Range(log, lo, lo + size)[0].sequence == lo && log[lo + size - 1].sequence == lo + size - 1
            && log[lo + size - 1].hash == LinkFor(log, lo + size)
            && Range(log, lo, lo + size)[0].previousEpochHash == if i == 0 then None else LinkFor(log, lo)
  {
    var lo: nat := i * size;
    RangeAt(log, lo, lo + size, 0);
    assert EntryOk(hash, log, n, size, lo);
    assert EntryOk(hash, log, n, size, lo + size - 1);
    DivModIs(lo, size, i, 0);
    if i > 0 { EarlierEpoch(0, i, size); }
  }

  lemma NextEpochIsMarked(hash: EntryHasher, log: Log, n: nat, size: nat, c: nat)
    requires WellChained(hash, log, n, size)
    ensures c * size + size < n ==> var s: nat := c * size + size - 1; s in log && log[s].isEpochEnd && c * size <= s
  {
    if c * size + size < n { CompleteEpochsAreMarked(hash, log, n, size, c); }
  }

  lemma AllButTheNewestAreListed(hash: EntryHasher, log: Log, n: nat, size: nat, completed: seq<nat>)
    requires WellChained(hash, log, n, size) && CompletedQuery(log, completed)
    ensures |completed| * size <= n <= |completed| * size + size
  {
    var c := |completed|;
    if c > 0 {
      CompletedInOrder(hash, log, n, size, completed, c - 1);
      assert c * size == (c - 1) * size + size;
    }
    forall j | 0 <= j < c ensures completed[j] < c * size {
      CompletedInOrder(hash, log, n, size, completed, j);
      EarlierEpoch(j, c, size);
    }
    NextEpochIsMarked(hash, log, n, size, c);
  }

  // ---------------------------------------------------------------- exports verify elsewhere

  lemma {:induction false} ExportedIsGood(sha: Sha, es: seq<Entry>, start: int, prev: Option<string>)
    requires AllGood(HasherOf(sha), es, start, prev, false) && forall e :: e in es ==> HasUtcTime(e)
    ensures AllGood(HasherOf(sha), ExportedAll(es), start, prev, false)
  {
    hide EntryHash;
    var out := ExportedAll(es);
    forall i: nat | i < |es| ensures GoodAt(HasherOf(sha), out, i, start, prev, false) {
      assert GoodAt(HasherOf(sha), es, i, start, prev, false) && HasUtcTime(es[i]);
      HashSurvivesStorage(sha, es[i], es[i].previousHash);
    }
  }

  /** A stretch of a chain, exported, is good by the hash of what stands in the file. */
  lemma RangeExportsGood(sha: Sha, log: Log, n: nat, size: nat, lo: nat, hi: nat)
    requires WellChained(HasherOf(sha), log, n, size) && lo < hi <= n
    ensures var out := ExportedAll(Range(log, lo, hi));
            && |out| == hi - lo && out[0].sequence == lo && out[0].previousHash == LinkFor(log, lo)
            && AllGood(HasherOf(sha), out, lo, LinkFor(log, lo), false)
            && (forall i :: 0 <= i < |out| ==> out[i] == Exported(log[lo + i]))
  {
    hide EntryHash;
    var es := Range(log, lo, hi);
    RangeAt(log, lo, hi, 0);
    forall i: nat | i < |es|
      ensures GoodAt(HasherOf(sha), es, i, lo, LinkFor(log, lo), false) && HasUtcTime(es[i]) && es[i] == log[lo + i]
    {
      RangeAt(log, lo, hi, i);
      assert EntryOk(HasherOf(sha), log, n, size, lo + i);
      if i > 0 { RangeAt(log, lo, hi, i - 1); }
    }
    assert EntryOk(HasherOf(sha), log, n, size, lo);
    ExportedIsGood(sha, es, lo, LinkFor(log, lo));
  }

  /** The entries from `lo` up to `hi` as an export file, with or without an export hash. */
  function FileOf(log: Log, lo: nat, hi: nat, exportHash: Option<string>): ExportFile
    requires lo <= hi
  {
    ExportFile(exportHash, ExportedAll(Range(log, lo, hi)))
  }

  function EpochFile(log: Log, k: nat, size: nat): ExportFile {
    FileOf(log, k * size, k * size + size, None)
  }

  lemma AcceptedCount(hash: EntryHasher, digest: ExportHasher, f: ExportFile)
    requires FileResult(hash, digest, f).Accepted?
    ensures FileResult(hash, digest, f) == Accepted(|f.entries|)
  {
  }

  /** Round trip: what is exported of a chain passes the offline verifier, the export hash
      aside. */
  lemma ExportVerifies(sha: Sha, digest: ExportHasher, log: Log, n: nat, size: nat, lo: nat, hi: nat)
    requires WellChained(HasherOf(sha), log, n, size) && lo < hi <= n
    ensures FileResult(HasherOf(sha), digest, FileOf(log, lo, hi, None)) == Accepted(hi - lo)
  {
    hide EntryHash, WellChained, FileResult;
    RangeExportsGood(sha, log, n, size, lo, hi);
    AcceptedFile(HasherOf(sha), digest, FileOf(log, lo, hi, None));
    AcceptedCount(HasherOf(sha), digest, FileOf(log, lo, hi, None));
  }

  lemma WrongExportHash(hash: EntryHasher, digest: ExportHasher, f: ExportFile, exportHash: Digest)
    requires f.exportHash == None && FileResult(hash, digest, f).Accepted? && exportHash != digest(f.entries)
    ensures FileResult(hash, digest, f.(exportHash := Some(exportHash)))
         == Rejected(|f.entries|, None, ExportHashMismatch)
  {
  }

  /** But with the export hash that `export_epoch` computes, the same file is rejected for
      that hash, unless the two hashed texts collide: the hash is taken while the timestamps
      are still times, and they are text in the file. */
  lemma HonestExportHashMismatch(sha: Sha, log: Log, n: nat, size: nat, lo: nat, hi: nat)
    requires WellChained(HasherOf(sha), log, n, size) && lo < hi <= n
    ensures var es := Range(log, lo, hi);
            var honest: Digest := sha(ExportText(es));
            FileResult(HasherOf(sha), ExportHasherOf(sha), FileOf(log, lo, hi, Some(honest)))
              == Rejected(hi - lo, None, ExportHashMismatch)
            || Collision(sha, ExportText(es), ExportText(ExportedAll(es)))
  {
    hide EntryHash, WellChained, ExportText, FileResult;
    var es := Range(log, lo, hi);
    var honest := sha(ExportText(es));
    RangeExportsGood(sha, log, n, size, lo, hi);
    ExportVerifies(sha, ExportHasherOf(sha), log, n, size, lo, hi);
    FirstIsMoment(HasherOf(sha), log, n, size, lo, hi);
    ExportHashedBeforeConversion(es);
    if honest != sha(ExportText(ExportedAll(es))) {
      WrongExportHash(HasherOf(sha), ExportHasherOf(sha), FileOf(log, lo, hi, None), honest);
    }
  }

  lemma FirstIsMoment(hash: EntryHasher, log: Log, n: nat, size: nat, lo: nat, hi: nat)
    requires WellChained(hash, log, n, size) && lo < hi <= n
    ensures Range(log, lo, hi) != [] && Range(log, lo, hi)[0].timestamp.Moment?
  {
    RangeAt(log, lo, hi, 0);
    assert EntryOk(hash, log, n, size, lo);
  }

  /** The first `count` epochs of a chain as files. */
  function EpochFiles(log: Log, count: nat, size: nat): (files: seq<ExportFile>)
    ensures |files| == count && forall k :: 0 <= k < count ==> files[k] == EpochFile(log, k, size)
  {
    seq(count, k requires 0 <= k < count => EpochFile(log, k, size))
  }

  lemma EpochBefore(k: nat, count: nat, size: nat, n: nat)
    requires k < count && count * size <= n
    ensures k * size + size <= n && (k > 0 ==> k * size == (k - 1) * size + size)
  {
    assert (k + 1) * size <= count * size;
    assert (k + 1) * size == k * size + size;
  }

  lemma StretchFacts(sha: Sha, digest: ExportHasher, log: Log, n: nat, size: nat, lo: nat, hi: nat)
    requires WellChained(HasherOf(sha), log, n, size) && lo < hi <= n
    ensures var es := FileOf(log, lo, hi, None).entries;
            && |es| == hi - lo
            && FileResult(HasherOf(sha), digest, FileOf(log, lo, hi, None)).Accepted?
            && es[0].sequence == lo && es[hi - lo - 1].sequence == hi - 1
            && es[0].previousHash == LinkFor(log, lo) && Some(es[hi - lo - 1].hash) == Some(LinkFor(log, hi))
            && es[0].previousEpochHash in {None, es[0].previousHash}
  {
    hide EntryHash, FileResult;
    RangeExportsGood(sha, log, n, size, lo, hi);
    ExportVerifies(sha, digest, log, n, size, lo, hi);
    assert EntryOk(HasherOf(sha), log, n, size, lo);
    assert EntryOk(HasherOf(sha), log, n, size, hi - 1);
  }

  /** Neighbouring stretches pass the cross-epoch check. */
  lemma NeighboursPass(sha: Sha, digest: ExportHasher, log: Log, n: nat, size: nat, lo: nat, mid: nat, hi: nat)
    requires WellChained(HasherOf(sha), log, n, size) && lo < mid < hi <= n
    ensures CrossEpoch(FileOf(log, mid, hi, None), FileOf(log, lo, mid, None)).Accepted?
  {
    hide EntryHash, WellChained, FileResult, FileOf;
    StretchFacts(sha, digest, log, n, size, lo, mid);
    StretchFacts(sha, digest, log, n, size, mid, hi);
  }

  lemma EpochFileFacts(sha: Sha, digest: ExportHasher, log: Log, n: nat, size: nat, k: nat, count: nat)
    requires WellChained(HasherOf(sha), log, n, size) && k < count && count * size <= n
    ensures var es := EpochFile(log, k, size).entries;
            && FileResult(HasherOf(sha), digest, EpochFile(log, k, size)).Accepted?
            && es != [] && es[0].sequence == k * size && es[|es| - 1].sequence == k * size + size - 1
            && (k == 0 ==> es[0].previousHash == None)
            && es[0].previousEpochHash in {None, es[0].previousHash}
    ensures k > 0 ==> k * size == (k - 1) * size + size
                      && CrossEpoch(EpochFile(log, k, size), EpochFile(log, k - 1, size)).Accepted?
  {
    hide EntryHash, WellChained, FileResult, FileOf, CrossEpoch;
    SizeIsPositive(HasherOf(sha), log, n, size);
    EpochBefore(k, count, size, n);
    StretchFacts(sha, digest, log, n, size, k * size, k * size + size);
    if k > 0 {
      NeighboursPass(sha, digest, log, n, size, (k - 1) * size, k * size, k * size + size);
    }
  }

  lemma SizeIsPositive(hash: EntryHasher, log: Log, n: nat, size: nat)
    requires WellChained(hash, log, n, size)
    ensures size >= 1
  {
  }

  /** Appending establishes what epoch composition assumes, so that the exports of the first
      epochs pass one by one and pair by pair, and together they are the verified beginning of
      the chain. */
  lemma EpochExportsCompose(sha: Sha, digest: ExportHasher, log: Log, n: nat, size: nat, count: nat)
    requires WellChained(HasherOf(sha), log, n, size) && 0 < count && count * size <= n
    ensures var files := EpochFiles(log, count, size);
            && Consecutive(files) && EpochLinksRepeat(files) && files[0].entries[0].previousHash.None?
            && AllAccepted(HasherOf(sha), digest, files)
            && AllGood(HasherOf(sha), Joined(files), 0, None, false)
  {
    hide EntryHash, WellChained, FileResult, CrossEpoch, EpochFile, Joined;
    var files := EpochFiles(log, count, size);
    forall k: nat | k < count
      ensures FileResult(HasherOf(sha), digest, files[k]).Accepted?
      ensures files[k].entries != [] && files[k].entries[0].sequence == k * size
      ensures k == 0 ==> files[k].entries[0].previousHash == None
      ensures files[k].entries[0].previousEpochHash in {None, files[k].entries[0].previousHash}
    {
      EpochFileFacts(sha, digest, log, n, size, k, count);
    }
    forall k: nat | 0 < k < count
      ensures CrossEpoch(files[k], files[k - 1]).Accepted?
      ensures files[k].entries[0].sequence == files[k - 1].entries[|files[k - 1].entries| - 1].sequence + 1
    {
      EpochFileFacts(sha, digest, log, n, size, k, count);
      EpochFileFacts(sha, digest, log, n, size, k - 1, count);
    }
    EpochsCompose(HasherOf(sha), digest, files);
  }

  // ---------------------------------------------------------------- counting epochs

  lemma {:induction false} FullCheckEpochs(hash: EntryHasher, log: Log, max: nat, batch: nat, start: nat, p: Progress)
    requires batch >= 1 && start <= max && GapFree(log, start, max + 1)
    ensures var v := FullCheck(hash, log, max, batch, start, p);
            v.status == VALID ==> v.epochs == log[max].epoch + 1
    decreases max + 1 - start
  {
    hide BatchResult, FullCheck;
    var end := BatchEnd(start, batch, max);
    var es := Range(log, start, end + 1);
    var r := BatchResult(hash, es, start, p.previousHash, false);
    FaultIsNotValid(hash, es, start, p.previousHash, false);
    FullCheckStep(hash, log, max, batch, start, p, es, r);
    if r.None? {
      if end < max {
        FullCheckEpochs(hash, log, max, batch, end + 1, Advance(p, es, end, max));
      } else {
        RangeLast(log, start, end + 1);
        FullCheckDone(hash, log, max, batch, Advance(p, es, end, max));
      }
    }
  }

  /** The verifier counts `ceil(n / size)` epochs in a chain of `n` entries, in batches of any
      size and with or without end marks. */
  lemma EpochsVerified(hash: EntryHasher, log: Log, n: nat, size: nat, batch: nat)
    requires WellChained(hash, log, n, size) && n > 0 && batch >= 1
    ensures FullVerification(hash, log, n - 1, batch).status == VALID
    ensures FullVerification(hash, log, n - 1, batch).epochs == (n + size - 1) / size
  {
    hide FullCheck;
    WellChainedVerifies(hash, log, n, size, batch);
    FullCheckEpochs(hash, log, n - 1, batch, 0, Progress(None, 0, 0));
    assert EntryOk(hash, log, n, size, n - 1);
    var q, r := (n - 1) / size, (n - 1) % size;
    DivModIs(n + size - 1, size, q + 1, r);
  }
}
