/**
 What an audit entry's hash and an export file's hash are computed over
 (backend/audit/chain/hasher.py, of which tools/sentora_verify/hasher.py is a copy).
 SHA-256 is a parameter: nothing is assumed about it except that it yields 64 lower-case
 hexadecimal characters.
 */
module Hashing {
  import opened Wrappers
  import opened CanonicalJson
  import opened Timestamps

  predicate IsDigest(s: string) {
    |s| == 64 && forall i :: 0 <= i < |s| ==> IsDigit(s[i]) || 'a' <= s[i] <= 'f'
  }

  type Digest = s: string | IsDigest(s) witness seq(64, _ => '0')

  type Sha = string -> Digest

  /** One document of the audit log.  `hash` and `previousHash` are what is stored, which
      after tampering may be anything, or missing. */
  datatype Entry = Entry(sequence: int, epoch: int, timestamp: Timestamp, domain: string, action: string,
                         actor: string, status: string, summary: string, details: Json, tenantId: Option<string>,
                         previousHash: Option<string>, hash: Option<string>,
                         isEpochStart: bool, isEpochEnd: bool, previousEpochHash: Option<string>)

  const GENESIS_SENTINEL := "GENESIS"

  /** `previous_hash or GENESIS_SENTINEL` */
  function LinkText(previousHash: Option<string>): string {
    if previousHash.None? || previousHash.value == "" then GENESIS_SENTINEL else previousHash.value
  }

  function OptionalText(s: Option<string>): Json { if s.Some? then Str(s.value) else Null }

  /** The fields that are hashed, in key order. */
  function Hashable(e: Entry, previousHash: Option<string>): Json {
    Object(
      Member("action", Str(e.action), Member("actor", Str(e.actor), Member("details", e.details,
      Member("domain", Str(e.domain), Member("epoch", Number(e.epoch),
      Member("previous_hash", Str(LinkText(previousHash)), Member("sequence", Number(e.sequence),
      Member("status", Str(e.status), Member("summary", Str(e.summary),
      Member("tenant_id", OptionalText(e.tenantId),
      Member("timestamp", Str(Normalize(e.timestamp)), NoMembers))))))))))))
  }

  /** The names of the fields, in the order of `sort_keys`. */
  lemma NamesAscend()
    ensures Precedes("action", "actor")
    ensures Precedes("actor", "details")
    ensures Precedes("details", "domain")
    ensures Precedes("domain", "epoch")
    ensures Precedes("epoch", "previous_hash")
    ensures Precedes("previous_hash", "sequence")
    ensures Precedes("sequence", "status")
    ensures Precedes("status", "summary")
    ensures Precedes("summary", "tenant_id")
    ensures Precedes("tenant_id", "timestamp")
  {
    hide Precedes;
    PrecedesAt("action", "actor", 3);
    PrecedesAt("actor", "details", 0);
    PrecedesAt("details", "domain", 1);
    PrecedesAt("domain", "epoch", 0);
    PrecedesAt("epoch", "previous_hash", 0);
    PrecedesAt("previous_hash", "sequence", 0);
    PrecedesAt("sequence", "status", 1);
    PrecedesAt("status", "summary", 1);
    PrecedesAt("summary", "tenant_id", 0);
    PrecedesAt("tenant_id", "timestamp", 1);
  }

  lemma OtherNamesAscend()
    ensures Precedes("epoch", "hash")
    ensures Precedes("hash", "is_epoch_end")
    ensures Precedes("is_epoch_end", "is_epoch_start")
    ensures Precedes("is_epoch_start", "previous_epoch_hash")
    ensures Precedes("previous_epoch_hash", "previous_hash")
  {
    hide Precedes;
    PrecedesAt("epoch", "hash", 0);
    PrecedesAt("hash", "is_epoch_end", 0);
    PrecedesAt("is_epoch_end", "is_epoch_start", 9);
    PrecedesAt("is_epoch_start", "previous_epoch_hash", 0);
    PrecedesAt("previous_epoch_hash", "previous_hash", 9);
  }

  /** The last five members of both records. */
  lemma CommonTail(e: Entry, time: string, m0: Members)
    requires m0 == Member("sequence", Number(e.sequence), Member("status", Str(e.status),
                   Member("summary", Str(e.summary), Member("tenant_id", OptionalText(e.tenantId),
                   Member("timestamp", Str(time), NoMembers)))))
    ensures Ascending(m0) && |AsMap(m0)| == 5
    ensures Has(m0, "sequence", Number(e.sequence)) && Has(m0, "status", Str(e.status))
    ensures Has(m0, "summary", Str(e.summary)) && Has(m0, "tenant_id", OptionalText(e.tenantId))
    ensures Has(m0, "timestamp", Str(time))
  {
    var m1 := m0.rest;
    var m2 := m1.rest;
    var m3 := m2.rest;
    var m4 := m3.rest;
    hide Precedes, AsMap, Ascending, Has, OptionalText;
    NamesAscend();
    NoMoreMembers();
    PushMember(m4);
    PushMember(m3);
    PushMember(m2);
    PushMember(m1);
    PushMember(m0);
  }

  /** The hashed record, key by key: eleven members under the names of the fields, in the order
      of `sort_keys`, with the sentinel in place of a missing or empty link. */
  lemma HashableByKey(e: Entry, p: Option<string>)
    ensures Hashable(e, p).Object? && Ascending(Hashable(e, p).members) && |AsMap(Hashable(e, p).members)| == 11
    ensures var m := Hashable(e, p).members;
            && Has(m, "sequence", Number(e.sequence)) && Has(m, "epoch", Number(e.epoch))
            && Has(m, "timestamp", Str(Normalize(e.timestamp))) && Has(m, "domain", Str(e.domain))
            && Has(m, "action", Str(e.action)) && Has(m, "actor", Str(e.actor))
            && Has(m, "status", Str(e.status)) && Has(m, "summary", Str(e.summary)) && Has(m, "details", e.details)
            && Has(m, "tenant_id", if e.tenantId.None? then Null else Str(e.tenantId.value))
            && Has(m, "previous_hash", Str(if p == None || p == Some("") then "GENESIS" else p.value))
  {
    var m0 := Hashable(e, p).members;
    var m1 := m0.rest;
    var m2 := m1.rest;
    var m3 := m2.rest;
    var m4 := m3.rest;
    var m5 := m4.rest;
    var m6 := m5.rest;
    hide Precedes, AsMap, Ascending, Has, Normalize;
    NamesAscend();
    CommonTail(e, Normalize(e.timestamp), m6);
    PushMember(m5);
    PushMember(m4);
    PushMember(m3);
    PushMember(m2);
    PushMember(m1);
    PushMember(m0);
  }

  function EntryText(e: Entry, previousHash: Option<string>): string {
    Dumps(Hashable(e, previousHash))
  }

  function EntryHash(sha: Sha, e: Entry, previousHash: Option<string>): Digest {
    sha(EntryText(e, previousHash))
  }

  /** `compute_entry_hash` as the verifiers and the append protocol see it. */
  type EntryHasher = (Entry, Option<string>) -> Digest

  function HasherOf(sha: Sha): EntryHasher { (e, previousHash) => EntryHash(sha, e, previousHash) }

  /** Epoch end marks do not enter the hash. */
  ghost predicate IgnoresMarks(hasher: EntryHasher) {
    forall e: Entry, p: Option<string>, isEnd: bool {:trigger hasher(e.(isEpochEnd := isEnd), p)} ::
      hasher(e.(isEpochEnd := isEnd), p) == hasher(e, p)
  }

  /** Neither does the `hash` field, nor what storage does to a fresh timestamp. */
  ghost predicate SurvivesStorage(hasher: EntryHasher) {
    forall e: Entry, p: Option<string>, h: Option<string> {:trigger hasher(Stored(e.(hash := h)), p)} ::
      HasUtcTime(e) ==> hasher(Stored(e.(hash := h)), p) == hasher(e, p)
  }

  /** `compute_entry_hash` has both properties. */
  lemma Sha256SurvivesStorage(sha: Sha)
    ensures IgnoresMarks(HasherOf(sha)) && SurvivesStorage(HasherOf(sha))
  {
    var hasher := HasherOf(sha);
    forall e: Entry, p: Option<string>, isEnd: bool
      ensures hasher(e.(isEpochEnd := isEnd), p) == hasher(e, p)
    {
      assert Hashable(e.(isEpochEnd := isEnd), p) == Hashable(e, p);
    }
    forall e: Entry, p: Option<string>, h: Option<string> | HasUtcTime(e)
      ensures hasher(Stored(e.(hash := h)), p) == hasher(e, p)
    {
      HashSurvivesStorage(sha, e.(hash := h), p);
      assert Hashable(e.(hash := h), p) == Hashable(e, p);
    }
  }

  /** Two different inputs with the same digest. */
  ghost predicate Collision(sha: Sha, x: string, y: string) { x != y && sha(x) == sha(y) }

  /** Agreement on every field that the hash covers. */
  predicate SameHashedFields(e: Entry, f: Entry) {
    && e.sequence == f.sequence && e.epoch == f.epoch && Normalize(e.timestamp) == Normalize(f.timestamp)
    && e.domain == f.domain && e.action == f.action && e.actor == f.actor && e.status == f.status
    && e.summary == f.summary && e.details == f.details && e.tenantId == f.tenantId
  }

  lemma HashableDetermines(e: Entry, p: Option<string>, f: Entry, q: Option<string>)
    requires Hashable(e, p) == Hashable(f, q)
    ensures e.sequence == f.sequence && e.epoch == f.epoch && Normalize(e.timestamp) == Normalize(f.timestamp)
    ensures e.domain == f.domain && e.action == f.action && e.actor == f.actor && e.status == f.status
    ensures e.summary == f.summary && e.details == f.details && e.tenantId == f.tenantId
    ensures SameHashedFields(e, f) && LinkText(p) == LinkText(q)
  {
    var m, n := Hashable(e, p).members, Hashable(f, q).members;
    assert m.rest.rest.rest == n.rest.rest.rest;
    assert m.rest.rest.rest.rest.rest.rest == n.rest.rest.rest.rest.rest.rest;
  }

  /** Equal entry hashes mean equal hashed fields, or the two hashed texts are a collision. */
  lemma EntryHashBinds(sha: Sha, e: Entry, p: Option<string>, f: Entry, q: Option<string>)
    requires EntryHash(sha, e, p) == EntryHash(sha, f, q)
    ensures (SameHashedFields(e, f) && LinkText(p) == LinkText(q))
            || Collision(sha, EntryText(e, p), EntryText(f, q))
  {
    if EntryText(e, p) == EntryText(f, q) {
      DumpsInjective(Hashable(e, p), Hashable(f, q));
      HashableDetermines(e, p, f, q);
    }
  }

  /** An entry whose timestamp is a time in UTC, as `utc_now` makes it. */
  predicate HasUtcTime(e: Entry) {
    e.timestamp.Moment? && e.timestamp.moment.Utc() && 1000 <= e.timestamp.moment.year
  }

  /** What the database keeps of an entry. */
  function Stored(e: Entry): Entry
    requires e.timestamp.Moment?
  {
    CutIsValid(e.timestamp.moment);
    e.(timestamp := Moment(e.timestamp.moment.Stored()))
  }

  /** What an export file holds: `isoformat()` applied to timestamps that have it. */
  function Exported(e: Entry): Entry {
    if e.timestamp.Moment? then e.(timestamp := Text(IsoFormat(e.timestamp.moment))) else e
  }

  /** A hash computed from the fresh entry is still right for the stored entry, for its
      export, and for an export made from the fresh entry. */
  lemma HashSurvivesStorage(sha: Sha, e: Entry, p: Option<string>)
    requires HasUtcTime(e)
    ensures HasUtcTime(Stored(e))
    ensures EntryHash(sha, Stored(e), p) == EntryHash(sha, e, p)
    ensures EntryHash(sha, Exported(e), p) == EntryHash(sha, e, p)
    ensures EntryHash(sha, Exported(Stored(e)), p) == EntryHash(sha, e, p)
  {
    var d := e.timestamp.moment;
    NormalizeIsInvariant(d);
    var n := Normalize(e.timestamp);
    assert Normalize(Stored(e).timestamp) == n;
    assert Normalize(Exported(e).timestamp) == n;
    assert Normalize(Exported(Stored(e)).timestamp) == n;
  }

  /** What dropped offsets mean for binding: writing another offset into the timestamp of an
      exported entry changes the text and the instant it names, but not the entry's hash. */
  lemma OffsetIsNotHashed(sha: Sha, e: Entry, d: DateTime, o: Option<int>, p: Option<string>)
    requires d.Valid() && d.(offset := o).Valid() && 1000 <= d.year && o != d.offset
    ensures var before, after := Text(IsoFormat(d)), Text(IsoFormat(d.(offset := o)));
            && before != after
            && EntryHash(sha, e.(timestamp := after), p) == EntryHash(sha, e.(timestamp := before), p)
  {
    OtherOffsetOtherText(d, o);
    OffsetDoesNotMatter(d, o);
    var before, after := Text(IsoFormat(d)), Text(IsoFormat(d.(offset := o)));
    assert Normalize(before) == Normalize(after);
    assert Hashable(e.(timestamp := after), p) == Hashable(e.(timestamp := before), p);
  }

  // ---------------------------------------------------------------- export files

  function TimestampText(t: Timestamp): string {
    match t
    case Text(s) => s
    case Moment(d) => StrFormat(d)
  }

  /** A whole document, as it is serialised for the export hash. */
  function Document(e: Entry): Json {
    Object(
      Member("action", Str(e.action), Member("actor", Str(e.actor), Member("details", e.details,
      Member("domain", Str(e.domain), Member("epoch", Number(e.epoch), Member("hash", OptionalText(e.hash),
      Member("is_epoch_end", Bool(e.isEpochEnd), Member("is_epoch_start", Bool(e.isEpochStart),
      Member("previous_epoch_hash", OptionalText(e.previousEpochHash),
      Member("previous_hash", OptionalText(e.previousHash), Member("sequence", Number(e.sequence),
      Member("status", Str(e.status), Member("summary", Str(e.summary),
      Member("tenant_id", OptionalText(e.tenantId),
      Member("timestamp", Str(TimestampText(e.timestamp)), NoMembers))))))))))))))))
  }

  /** The serialised document, key by key. */
  lemma DocumentByKey(e: Entry)
    ensures Document(e).Object? && Ascending(Document(e).members) && |AsMap(Document(e).members)| == 15
    ensures var m := Document(e).members;
            && Has(m, "sequence", Number(e.sequence)) && Has(m, "epoch", Number(e.epoch))
            && Has(m, "timestamp", Str(if e.timestamp.Text? then e.timestamp.text else StrFormat(e.timestamp.moment)))
            && Has(m, "domain", Str(e.domain)) && Has(m, "action", Str(e.action)) && Has(m, "actor", Str(e.actor))
            && Has(m, "status", Str(e.status)) && Has(m, "summary", Str(e.summary)) && Has(m, "details", e.details)
            && Has(m, "tenant_id", if e.tenantId.None? then Null else Str(e.tenantId.value))
            && Has(m, "previous_hash", if e.previousHash.None? then Null else Str(e.previousHash.value))
            && Has(m, "hash", if e.hash.None? then Null else Str(e.hash.value))
            && Has(m, "is_epoch_start", Bool(e.isEpochStart)) && Has(m, "is_epoch_end", Bool(e.isEpochEnd))
            && Has(m, "previous_epoch_hash",
                   if e.previousEpochHash.None? then Null else Str(e.previousEpochHash.value))
  {
    var m0 := Document(e).members;
    var m1 := m0.rest;
    var m2 := m1.rest;
    var m3 := m2.rest;
    var m4 := m3.rest;
    var m5 := m4.rest;
    var m6 := m5.rest;
    var m7 := m6.rest;
    var m8 := m7.rest;
    var m9 := m8.rest;
    var m10 := m9.rest;
    hide Precedes, AsMap, Ascending, Has, StrFormat;
    NamesAscend();
    OtherNamesAscend();
    CommonTail(e, TimestampText(e.timestamp), m10);
    PushMember(m9);
    PushMember(m8);
    PushMember(m7);
    PushMember(m6);
    PushMember(m5);
    PushMember(m4);
    PushMember(m3);
    PushMember(m2);
    PushMember(m1);
    PushMember(m0);
  }

  function ExportText(entries: seq<Entry>): string {
    if entries == [] then "" else Dumps(Document(entries[0])) + ExportText(entries[1..])
  }

  lemma {:induction false} ExportTextAppend(entries: seq<Entry>, e: Entry)
    ensures ExportText(entries + [e]) == ExportText(entries) + Dumps(Document(e))
  {
    if entries == [] {
      assert [e][1..] == [];
      assert Dumps(Document(e)) + "" == Dumps(Document(e)) && "" + Dumps(Document(e)) == Dumps(Document(e));
    } else {
      assert (entries + [e])[1..] == entries[1..] + [e];
      ExportTextAppend(entries[1..], e);
      Assoc(Dumps(Document(entries[0])), ExportText(entries[1..]), Dumps(Document(e)));
    }
  }

  method ComputeExportHash(sha: Sha, entries: seq<Entry>) returns (r: Digest)
    ensures r == sha(ExportText(entries))
  {
    hide Document, Dumps;
    var fed := "";
    for i := 0 to |entries|
      invariant fed == ExportText(entries[..i])
    {
      var canonical := Dumps(Document(entries[i]));
      ExportTextAppend(entries[..i], entries[i]);
      assert entries[..i + 1] == entries[..i] + [entries[i]];
      fed := fed + canonical;
    }
    assert entries[..|entries|] == entries;
    r := sha(fed);
  }

  lemma ExportTextStarts(entries: seq<Entry>)
    ensures NoDigitFirst(ExportText(entries))
    ensures entries == [] <==> ExportText(entries) == ""
  {
    if entries != [] {
      DumpsStarts(Document(entries[0]));
    }
  }

  /** The concatenation of the documents determines each of them. */
  lemma {:induction false} ExportTextDetermines(a: seq<Entry>, b: seq<Entry>)
    requires ExportText(a) == ExportText(b)
    ensures |a| == |b| && forall i :: 0 <= i < |a| ==> Document(a[i]) == Document(b[i])
  {
    hide Document, Dumps;
    ExportTextStarts(a);
    ExportTextStarts(b);
    if a != [] {
      ExportTextStarts(a[1..]);
      ExportTextStarts(b[1..]);
      DumpsReadable(Document(a[0]), ExportText(a[1..]), Document(b[0]), ExportText(b[1..]));
      ExportTextDetermines(a[1..], b[1..]);
      forall i | 0 <= i < |a| ensures Document(a[i]) == Document(b[i]) {
        if i > 0 {
          assert a[i] == a[1..][i - 1] && b[i] == b[1..][i - 1];
        }
      }
    }
  }

  /** Changing any field of any entry of an export changes the export hash, up to collision. */
  lemma ExportHashBinds(sha: Sha, a: seq<Entry>, b: seq<Entry>)
    requires sha(ExportText(a)) == sha(ExportText(b))
    ensures (|a| == |b| && forall i :: 0 <= i < |a| ==> Document(a[i]) == Document(b[i]))
            || Collision(sha, ExportText(a), ExportText(b))
  {
    if ExportText(a) == ExportText(b) {
      ExportTextDetermines(a, b);
    }
  }

  function ExportedAll(entries: seq<Entry>): (r: seq<Entry>)
    ensures |r| == |entries| && forall i :: 0 <= i < |entries| ==> r[i] == Exported(entries[i])
  {
    seq(|entries|, i requires 0 <= i < |entries| => Exported(entries[i]))
  }

  lemma IsoSeparator(d: DateTime)
    requires d.Valid()
    ensures |IsoFormat(d)| > 10 && IsoFormat(d)[10] == 'T' && StrFormat(d) != IsoFormat(d)
  {
    var s := IsoFormat(d);
    assert s[4..] == ClockText(d, IsoFraction(d) + OffsetText(d));
    assert s[4..][6] == s[10];
    assert StrFormat(d)[10] == ' ';
  }

  lemma DocumentTimestamp(e: Entry, f: Entry)
    requires Document(e) == Document(f)
    ensures TimestampText(e.timestamp) == TimestampText(f.timestamp)
  {
    var m, n := Document(e).members, Document(f).members;
    assert m.rest.rest.rest.rest.rest == n.rest.rest.rest.rest.rest;
    assert m.rest.rest.rest.rest.rest.rest.rest.rest.rest.rest == n.rest.rest.rest.rest.rest.rest.rest.rest.rest.rest;
  }

  /** `export_epoch` hashes the documents before it turns their timestamps into text, and
      the offline verifier hashes them after.  The two hashed texts are the same exactly
      when every timestamp was text already. */
  lemma ExportHashedBeforeConversion(entries: seq<Entry>)
    ensures ExportText(ExportedAll(entries)) == ExportText(entries)
       <==> forall i :: 0 <= i < |entries| ==> entries[i].timestamp.Text?
  {
    hide Document, IsoFormat, StrFormat;
    if forall i :: 0 <= i < |entries| ==> entries[i].timestamp.Text? {
      assert ExportedAll(entries) == entries;
    } else if ExportText(ExportedAll(entries)) == ExportText(entries) {
      var i :| 0 <= i < |entries| && entries[i].timestamp.Moment?;
      ExportTextDetermines(ExportedAll(entries), entries);
      assert Document(ExportedAll(entries)[i]) == Document(entries[i]);
      DocumentTimestamp(Exported(entries[i]), entries[i]);
      IsoSeparator(entries[i].timestamp.moment);
      assert false;
    }
  }
}
