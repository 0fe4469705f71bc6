# Sentora: a verified model of its protocols

Sentora inventories the software of a fleet of agents, classifies the agents, checks them
against compliance frameworks, and keeps a tamper-evident audit log.  This project models the
parts of it that have to be right in combination - across workers, across two verifiers,
across a fast form and the simple one it stands for - and proves them in Dafny 4.11.

    dafny verify dfyconfig.toml

## What is modelled

**The audit chain.** Workers append to one log under a lease lock.  `CanonicalJson`,
`Timestamps` and `Hashing` say what an entry's hash is computed over, down to the characters.
`ChainVerification` is the server's verifier, `OfflineVerifier` the air-gapped one, and
`ChainBinding` the sense in which a hash binds the history.  `ChainRules` is the shape of a
log that appending builds; `ChainStore` the commands as one worker runs them; `AppendProtocol`
and `Genesis` the same commands with the database calls of any number of workers interleaved,
and `Restarts` both together; `AppendCalls` proves one call, undisturbed, to be the command in
`ChainStore`; `LateAppends` says when exactly the append lock is enough;
`Epochs` what listing and exporting make of the result; and `ChainGuarantees` puts them
together.

**Leases.** `Lease` is one shared document with an owner and an expiry.  `LockProtocol` and
`LeaderProtocol` refine it, with stale clock readings, takeovers, heartbeats and the TTL
reaper, and so does the lock inside `AppendProtocol`; `LeaseObjects` has the two classes as
one process uses them.

**Refresh tokens and sessions.** `TokenFamilies` interleaves single database operations,
following the rotation technique of section 4.14.2 of RFC 9700; `AuthSessions` takes whole
requests on both collections.

**Fast forms and the simple ones they stand for.** `RateLimit` and `ApiKeyLimits` (pruned and
evicted limiters against the full history), `Classification` (the best five against all
scores), `KeysetScan` (pages against a collection that changes meanwhile), `ComplianceEngine`
(deduplicated against plain execution), and `AppSummary` (the materialised summary against the
live query).

## How to read it

SHA-256 is a parameter.  Nothing is assumed about it, so that statements about binding end in
"or here are two different texts with the same digest".  Everything else outside the program -
clock readings, the outcome of an insert, a failed read, what other workers do to a collection
- is a parameter too, or a step that may come at any time.

What the program computes is specified by functions, and beside them stand laws that say what
they mean: a record by its keys, a text by the places of its fields, a deletion by what stays.

A *timely* run is one in which every call allocates its number within the lease it wrote, and
inserts its entry or gives the number back within that lease.  A call may be late, or crash,
before it allocates and after it inserts.  The lock is taken without a heartbeat, so the code
relies on that.

Where the code does not do what its documentation says, or what one would expect, the model
follows the code, and a lemma says exactly when the expectation holds:

- The append lock keeps the log a chain if and only if no call that owes an entry has outlived
  its lease (`ChainIffInTime`, `ChainIffNoneLate`), which includes that numbers are allocated
  within the lease (`ChainIffAllocatedInTime`); `OutlivedLeaseBreaksTheChain` is a run from a
  log with a genesis only.
- `initialize_chain` may run at the same time as appends if and only if the genesis is there
  (`ChainIffGenesis`).  The log then stays a chain, but the counter can fall behind it
  (`FallsBehind`); appends fail from then on (`AppendsGoOnIff`, `BehindStays`) until an
  initialisation that no append comes between (`FollowRestoresIff`).
- `compute_export_hash` is taken before timestamps become text, so the exported file does not
  reproduce it, unless every timestamp was text already (`ExportHashedBeforeConversion`,
  `HonestExportHashMismatch`).
- `_normalize_timestamp` drops an offset instead of applying it, although its documentation
  calls the result UTC: one instant gets one normal form if and only if the offsets are equal
  (`OffsetsAreNotApplied`, `OneInstantOneStringIff`, `OneInstantTwoStrings`).  Neither clock
  nor database produces another offset than zero; a text in an export file can carry one, and
  the entry hash does not bind it (`OffsetIsNotHashed`).
- A batch may lack its last entries and still pass (`MissingTailGoesUnnoticed`).  A VALID is
  true if and only if nothing is missing (`ValidIsTrueIfGapFree`), and the count tells
  (`BatchedValidAndComplete`).
- The offline verifier looks for gaps in the whole file first, and raises on a missing hash
  (`VerifiersNameTheSamePlace`, `WhenVerifierRaises`).
- `previous_epoch_hash` is not hashed and, when present, is all that the cross-epoch check
  looks at (`EpochLinkIsNotEnough`).  Files that have passed form one chain if and only if
  every such link repeats the chain link beside it (`AcceptedFilesFormAChain`).
- The epoch size is overwritten at start-up without a check; a chain stays one under another
  size only within its first epoch (`ChainUnderAnotherSize`).
- An attempt on an expired lease can fail without any competitor, if and only if the TTL
  reaper removes the document between two of its operations (`UncontendedAttempt`).
- Deleting a token family, or the tokens of a user, is final if and only if no rotation is in
  flight (`RevocationIsFinal`, `UserRevocationIsFinal`, `RevokedFamilyComesBack`).
- Eviction of hour limiters goes by the look-up, not by the hit: the hour limit is kept for an
  hour less the lag between the two, and for a whole hour only without a lag
  (`WindowsAreBounded`, `Spans`, `LateHitIsForgotten`).
- The suggested group depends on the order of the fingerprints, unless the gap threshold is
  positive or a threshold is out of reach (`OrderIsFreeIff`).
- A lone fingerprint that is clear but does not beat the gap by itself makes an ambiguous
  verdict without any reason (`WhenUnexplained`).

## Model

| member | source | states |
|---|---|---|
| `CanonicalJson.DumpsReadable` | backend/audit/chain/hasher.py:45-45 | the canonical JSON text is uniquely readable, even as a prefix: equal texts with continuations that do not begin with a digit come from equal values |
| `CanonicalJson.DumpsInjective` | backend/audit/chain/hasher.py:45-45 | two different JSON values never have the same canonical text, so a collision of entry hashes is a collision of SHA-256 |
| `CanonicalJson.EscapeMeans` | backend/audit/chain/hasher.py:45-45 | what each character is written as in ASCII-only JSON: itself, a short escape, or the number of its UTF-16 code unit or surrogate pair |
| `CanonicalJson.QuoteMeans` | backend/audit/chain/hasher.py:45-45 | the text of a string is the escapes of its characters, one after the other, between quotes |
| `CanonicalJson.DigitsReadBack` | backend/audit/chain/hasher.py:45-45 | numbers are written in base ten without leading zeros, and read back as themselves |
| `CanonicalJson.DumpsExample` | backend/audit/chain/hasher.py:45-45 | separators, brackets and literals at concrete values |
| `Hashing.HashableByKey` | backend/audit/chain/hasher.py:116-143 | the hashed record has exactly eleven members in sorted order, and under each name stands the value of that field, the link under its sentinel if missing or empty |
| `Hashing.DocumentByKey` | backend/audit/chain/hasher.py:62-66 | the serialised document has fifteen members in sorted order, and under each name stands the value of that field |
| `Hashing.HashableDetermines` | backend/audit/chain/hasher.py:116-143 | two records with the same members agree on each of the ten hashed fields and on the text of the link |
| `Hashing.EntryHashBinds` | backend/audit/chain/hasher.py:26-46 | equal entry hashes mean equal hashed fields and links, or the two hashed texts are a collision |
| `Hashing.HashSurvivesStorage` | backend/audit/chain/hasher.py:70-113 | the hash of a fresh UTC entry is also the hash of the stored entry, of its export, and of an export made before storage |
| `Hashing.Sha256SurvivesStorage` | backend/audit/chain/commands.py:188-226 | the hash ignores end marks and the `hash` field, and survives what storage does to a fresh timestamp |
| `Hashing.ComputeExportHash` | backend/audit/chain/hasher.py:49-67 | the running hash over the entries is the digest of the concatenation of their whole documents |
| `Hashing.ExportTextDetermines` | backend/audit/chain/hasher.py:49-67 | the concatenation, which has no separators, still determines how many documents there are and what each of them is |
| `Hashing.ExportHashBinds` | backend/audit/chain/hasher.py:49-67 | equal export hashes mean equal documents at every place, or a collision |
| `Hashing.ExportHashedBeforeConversion` | backend/audit/chain/queries.py:396-428 | the text hashed by an export and the text hashed from its file are equal if and only if every timestamp was text already |
| `Timestamps.NormalizeIsInvariant` | backend/audit/chain/hasher.py:70-113 | for a UTC time in the years 1000 to 9999, the fresh microsecond value, its stored form, the ISO text of either, and the canonical text all normalise to the same string, through the six formats tried in order |
| `Timestamps.StoredNormalizes` | backend/audit/chain/hasher.py:92-95 | what storage cuts off and forgets does not enter the normal form |
| `Timestamps.CanonicalReadsBack` | backend/audit/chain/hasher.py:96-113 | normalising is idempotent: a canonical text normalises to itself |
| `Timestamps.IsoReadsBack` | backend/audit/chain/hasher.py:96-113 | ISO text, naive or with any offset, with a fraction or without, normalises like the time it was printed from |
| `Timestamps.FormatInjective` | backend/audit/chain/hasher.py:92-95 | two times with the same normal form agree on every field down to the millisecond |
| `Timestamps.NormalShows` | backend/audit/chain/hasher.py:92-95 | where each field stands in the canonical string, as `YYYY-MM-DDTHH:MM:SS.fffZ`, with the milliseconds cut and not rounded |
| `Timestamps.IsoShows` | backend/audit/chain/queries.py:422-428 | where each field, the fraction and the offset stand in ISO text |
| `Timestamps.StoredMeans` | backend/audit/chain/hasher.py:92-93 | storage keeps whole milliseconds, forgets the zone, and changes nothing else |
| `Timestamps.OtherSpellings` | backend/audit/chain/hasher.py:101-107 | offsets are also read without the colon and as Z, and letters in either case |
| `Timestamps.UnreadableStays` | backend/audit/chain/hasher.py:112-113 | a text that none of the six formats matches is left as it is |
| `Timestamps.OffsetsAreNotApplied` | backend/audit/chain/hasher.py:101-110 | two ISO texts that normalise alike name one instant if and only if they have the same offset |
| `Timestamps.OneInstantOneStringIff` | backend/audit/chain/hasher.py:101-110 | two ISO texts of one instant normalise alike if and only if they have the same offset |
| `Timestamps.OneInstantTwoStrings` | backend/audit/chain/hasher.py:101-110 | at concrete texts: noon at +02:00 and ten o'clock at +00:00 are one instant and normalise differently |
| `Timestamps.OffsetDoesNotMatter` | backend/audit/chain/hasher.py:101-110 | another offset in the text gives the same normal form |
| `Hashing.OffsetIsNotHashed` | backend/audit/chain/hasher.py:116-143 | so the offset in the timestamp of an exported entry can be changed without changing the entry hash |
| `ChainVerification.VerifyBatch` | backend/audit/chain/queries.py:231-274 | on every input: no fault only if every entry is numbered, linked and hashed right; otherwise the first that is not, reported as GAP_DETECTED and SEQUENCE_GAP exactly if its number is wrong, and as BROKEN and HASH_MISMATCH at its own number if its link or hash is |
| `ChainVerification.BatchResultMeaning` | backend/audit/chain/queries.py:231-274 | no fault if and only if every entry is good; otherwise the first that is not, and whether it is its number that is wrong |
| `ChainVerification.BatchInTwoParts` | backend/audit/chain/queries.py:155-180 | a batch can be verified in two parts, carrying the last hash over, with the same fault and count |
| `ChainVerification.VerifyFullChain` | backend/audit/chain/queries.py:135-188 | terminates for every epoch size from 1 and returns the batched verification; an empty log is valid with zero counts; status, reason, first, last and broken place belong together |
| `ChainVerification.FaultOfFullCheck` | backend/audit/chain/queries.py:155-171 | a failing verification names the entry at a place of a batch, has counted everything stored before it, and reports a gap exactly if that entry has a wrong number |
| `ChainVerification.EpochsBeforeFault` | backend/audit/chain/queries.py:158-182 | a verification in batches of the epoch size that fails in epoch k has counted the k marked epochs before it |
| `ChainVerification.VerifyBatches` | backend/audit/chain/queries.py:150-188 | the loop over batches computes the recursive batched verification from sequence 0 |
| `ChainVerification.BatchedIsOnePass` | backend/audit/chain/queries.py:155-188 | on a gap-free log the batched verifier reports the status, the broken place, the reason and the count of one pass over everything |
| `ChainVerification.FullCheckCounts` | backend/audit/chain/queries.py:173-188 | on any log, a batched VALID counts exactly the stored entries |
| `ChainVerification.BatchedValidAndComplete` | backend/audit/chain/queries.py:135-188 | on any log, VALID with `verified_entries` = `last_sequence` + 1 holds if and only if the one-pass check passes |
| `ChainVerification.ValidIsTrueIfGapFree` | backend/audit/chain/queries.py:135-188 | a VALID is what one pass would say if and only if nothing is missing from the log |
| `ChainVerification.MissingTailGoesUnnoticed` | backend/audit/chain/queries.py:158-180 | VALID alone is not enough: a concrete log with an entry missing at the end of a batch is reported VALID |
| `ChainVerification.VerifySingleEpoch` | backend/audit/chain/queries.py:191-228 | not found for an epoch without entries, otherwise the verdict on its entries with the first link taken on trust: range, count, one epoch if valid, and otherwise the broken place and whether its number is wrong |
| `ChainVerification.MarksDoNotMatter` | backend/audit/chain/repository.py:177-187 | on any log, end marks change nothing of a verification but the running epoch count |
| `OfflineVerifier.VerifyEpoch` | tools/sentora_verify/verifier.py:26-121 | the three passes: a gap anywhere first, then the first wrong hash or link, then the export hash, each with its place, count and reason; and the TypeError on a missing hash |
| `OfflineVerifier.CrossEpochMeans` | tools/sentora_verify/verifier.py:124-190 | exactly when the cross-epoch check passes, raises, and rejects with which reason |
| `OfflineVerifier.VerifiersAcceptTheSame` | tools/sentora_verify/verifier.py:48-105 | on every non-empty file the offline verifier accepts if and only if the server accepts the epoch and the export hash is right or absent |
| `OfflineVerifier.VerifiersNameTheSamePlace` | tools/sentora_verify/verifier.py:48-95 | both name the same place with the same count if and only if no gap lies behind an earlier broken entry |
| `OfflineVerifier.WhenVerifierRaises` | tools/sentora_verify/verifier.py:69-95 | on input without gaps it raises if and only if the entry it objects to has no stored hash, or the right hash but no link; otherwise it names the place the server names |
| `OfflineVerifier.AcceptedFile` | tools/sentora_verify/verifier.py:26-121 | a file is accepted if and only if its entries are a good chain from where they start and the export hash is right or absent |
| `OfflineVerifier.NextFile` | tools/sentora_verify/verifier.py:124-190 | a file and its cross-epoch check pass if and only if its entries continue the chain before it |
| `OfflineVerifier.EpochsCompose` | tools/sentora_verify/verifier.py:124-190 | for consecutive files from 0 with a genesis without link and epoch links that repeat the chain links, all files and all pairs pass if and only if the concatenation verifies in one pass, the export hashes aside |
| `OfflineVerifier.GoodMeansLinked` | tools/sentora_verify/verifier.py:148-176 | in a good concatenation the first entry of each file links to the last of the file before |
| `OfflineVerifier.AcceptedFilesFormAChain` | tools/sentora_verify/verifier.py:124-190 | when all files and pairs have passed, they form one good chain if and only if every epoch link that is present repeats the chain link beside it |
| `OfflineVerifier.EpochLinkIsNotEnough` | tools/sentora_verify/verifier.py:148-176 | the condition can fail: two concrete files pass singly and as a pair although the second does not continue the first |
| `ChainBinding.LastEntriesAgree` | backend/audit/chain/queries.py:252-274 | two verified chains with the same last hash agree on the last entry and the hash before it, unless the two last texts collide |
| `ChainBinding.SameEndSameHistory` | backend/audit/chain/queries.py:252-274 | two chains that verify from genesis and end in the same hash have the same length and agree on every hashed field at every place, or a collision is returned |
| `ChainBinding.LatestHashBindsLog` | backend/audit/chain/queries.py:135-188 | the same for two stored logs that the batched verifier reports VALID with a full count, under any two epoch sizes |
| `ChainRules.MarkKeepsChain` | backend/audit/chain/repository.py:177-187 | marking the entry before a boundary keeps the chain and every link |
| `ChainRules.BoundaryIsPrevious` | backend/audit/chain/repository.py:190-209 | the query for the last entry of the epoch before a boundary finds the entry just before it |
| `ChainRules.WriteExtendsChain` | backend/audit/chain/commands.py:208-233 | writing an entry built for the end of the chain makes a chain that is one longer |
| `ChainRules.BuiltIsAppendable` | backend/audit/chain/commands.py:208-226 | the entry that an append builds is numbered, linked, hashed and marked as a next entry has to be, also after storage |
| `ChainRules.BuiltFields` | backend/audit/chain/commands.py:208-226 | every field of a new entry: those of the caller, the number, epoch, links and marks, and the hash over them |
| `ChainRules.WellChainedVerifies` | backend/audit/chain/queries.py:135-188 | a chain verifies in one pass and in batches of any size, with a full count |
| `ChainRules.ChainUnderAnotherSize` | backend/audit/chain/commands.py:57-57 | a chain built under one epoch size is one under another if and only if it has not got beyond the first epoch of either and carries no end mark |
| `ChainStore.Store.GetNextSequence` | backend/audit/chain/repository.py:21-44 | allocates the value of the counter and increments it |
| `ChainStore.Store.GetPreviousHash` | backend/audit/chain/repository.py:62-81 | the hash of the entry before, and none for the first number or a missing entry |
| `ChainStore.Store.GetEpochBoundaryEntry` | backend/audit/chain/repository.py:190-209 | the highest sequence of an epoch, and none if and only if the epoch has no entry |
| `ChainStore.Store.WriteChainedEntry` | backend/audit/chain/commands.py:188-259 | the exact new log and counter for success, retry and double failure, with the boundary branch |
| `ChainStore.Store.AppendChainedEntry` | backend/audit/chain/commands.py:133-262 | a chain whose counter agrees with it stays one however the append ends; earlier entries keep everything but end marks; it is one longer exactly on success |
| `ChainStore.Store.InitializeChain` | backend/audit/chain/commands.py:30-130 | exactly one genesis and counter 1 from an empty store; on a chain of n entries, whatever the counter was, counter n and no entry changed |
| `ChainStore.GenesisFields` | backend/audit/chain/commands.py:78-106 | every field of the genesis entry, and its details by key |
| `AppendProtocol.MutualExclusion` | backend/audit/chain/commands.py:173-186 | two calls are never in the critical section together, unless one is late and owes no entry |
| `AppendProtocol.LockStepKeepsLockInv` | backend/utils/distributed_lock.py:56-112 | insert, takeover, release, reaper, clock and stale clock readings keep the lock document with the call that owes an entry or is within its lease |
| `AppendProtocol.AppendRefinesLease` | backend/utils/distributed_lock.py:56-112 | every step of an append, timely or not, is a step of the abstract lease or leaves it unchanged |
| `AppendProtocol.LiveHoldersOwnTheLock` | backend/utils/distributed_lock.py:56-112 | in every state of every run, with or without calls that outlive their leases, a call that believes to hold the lock under an expiry still to come owns the document, so there is at most one |
| `AppendProtocol.StepKeepsInv` | backend/audit/chain/commands.py:173-259 | every atomic step of every call keeps the invariant of log, counter, lock and program counters |
| `AppendProtocol.RunKeepsInv` | backend/audit/chain/commands.py:173-259 | the invariant holds in every state of every timely run, and the log only grows |
| `AppendProtocol.CounterTellsWhoOwes` | backend/audit/chain/commands.py:189-259 | the counter is the length of the log, or one more exactly while some call sits between allocation and insert |
| `AppendProtocol.AppendersBuildAChain` | backend/audit/chain/commands.py:133-262 | after any timely run of any number of appenders, late and crashed ones that owe nothing included, the log is 0..n-1, linked and hashed, old entries are untouched except for end marks, the counter agrees, and the log verifies for every batch size |
| `AppendProtocol.OutlivedLeaseBreaksTheChain` | backend/audit/chain/commands.py:173-176 | a concrete run from a log with a genesis only, in which one call outlives its lease between allocation and insert and the next one writes behind the gap: the log is no chain of any length |
| `AppendCalls.AttemptAlone` | backend/utils/distributed_lock.py:56-97 | undisturbed, an attempt takes the lock for thirty seconds if and only if it is free or had expired when the clock was read |
| `AppendCalls.WriteIsARun` | backend/audit/chain/commands.py:187-259 | undisturbed, the steps of a call from lock to release have exactly the effect of `Store.WriteChainedEntry`: one retry, and the number given back in vain |
| `AppendCalls.ReleaseAlone` | backend/utils/distributed_lock.py:98-110 | a release removes the lock document if it is still the call's own |
| `LateAppends.ChainIffInTime` | backend/audit/chain/commands.py:173-259 | from any state with the invariant, every way to go on in which no time passes and numbers are allocated within the lease leaves a chain, if and only if no call that owes an entry has outlived its lease |
| `LateAppends.ChainIffNoneLate` | backend/audit/chain/commands.py:173-259 | the same with time passing: every way to go on in which no further call is late leaves a chain, if and only if none is late already |
| `LateAppends.ChainIffAllocatedInTime` | backend/audit/chain/commands.py:187-189 | when a call allocates its number and then no further call is late, every run leaves a chain if and only if it allocated within its lease |
| `LateAppends.LateCallBreaks` | backend/audit/chain/commands.py:173-259 | for every late call that owes an entry, at every length and epoch size, there is a run without further delay that leaves no chain |
| `Genesis.StepKeepsInv` | backend/audit/chain/commands.py:57-130 | every database step of every `initialize_chain` call keeps the invariant |
| `Genesis.InitialisationIsIdempotent` | backend/audit/chain/commands.py:57-130 | when the calls are through, an empty log has become exactly one genesis with counter 1, and an existing chain is unchanged with its counter restored |
| `Genesis.RestartAfterCrash` | backend/audit/chain/commands.py:59-71 | from every state that appending can reach, the counter set on restart is the length of the log, and appending can start again |
| `Restarts.StepKeepsInv` | backend/audit/chain/commands.py:57-262 | every database step of appends and initialisations at the same time keeps the log a chain and the counter not beyond its place; a call with a taken number changes nothing |
| `Restarts.ChainSurvives` | backend/audit/chain/commands.py:57-262 | after any timely run of appends and initialisations from a log with its genesis, the log is a chain that extends the old one and verifies for every batch size, and the counter is at most in place |
| `Restarts.ChainIffGenesis` | backend/audit/chain/commands.py:59-89 | appends and initialisations at the same time always leave a chain if and only if the genesis was there before |
| `Restarts.AppendBeforeGenesis` | backend/audit/chain/commands.py:73-120 | on an empty log a run of one initialisation and one append leaves an entry 1 that does not link to the genesis |
| `Restarts.FallsBehind` | backend/audit/chain/commands.py:59-71 | from every start with a genesis, one append between read and write of an initialisation leaves the counter one behind |
| `Restarts.BehindStays` | backend/audit/chain/commands.py:228-259 | a counter that is behind stays behind, and no append adds an entry, until an initialisation sets it |
| `Restarts.AppendsGoOnIff` | backend/audit/chain/commands.py:189-259 | when no call owes an entry, some append can still succeed without an initialisation if and only if the counter is in place |
| `Restarts.FollowRestoresIff` | backend/audit/chain/commands.py:61-71 | the counter that an initialisation sets restores the invariant of appends if and only if nothing was appended since it read the log and no call owes an entry |
| `Epochs.EpochIsRange` | backend/audit/chain/repository.py:125-146 | the entries of epoch k of a chain are exactly the sequences from kE up to (k+1)E |
| `Epochs.ExportEpoch` | backend/audit/chain/queries.py:347-433 | not found, not complete and exported in exactly these cases, with all metadata, the converted entries, and the record of exported epochs |
| `Epochs.MetadataMeans` | backend/audit/chain/queries.py:396-420 | the metadata of an export, field by field |
| `Epochs.ExportedMeans` | backend/audit/chain/queries.py:422-428 | an exported entry differs from the stored one in its timestamp only, which is ISO text |
| `Epochs.OnlyFullEpochsAreExported` | backend/audit/chain/queries.py:376-391 | an epoch of a chain can be exported if and only if all its E entries are there and the last is marked, and then exactly those entries are |
| `Epochs.CompleteEpochsAreMarked` | backend/audit/chain/commands.py:197-204 | every complete epoch that has a successor is marked at its end |
| `Epochs.ListEpochs` | backend/audit/chain/queries.py:310-344 | one summary per marked entry, with the numbers, times and hashes of it and of the first entry of its epoch |
| `Epochs.ListedEpochsAreFull` | backend/audit/chain/queries.py:324-342 | over a chain the i-th summary is epoch i with E entries, its range, its times and the hashes that link it |
| `Epochs.AllButTheNewestAreListed` | backend/audit/chain/repository.py:212-236 | the list lacks at most the newest epoch |
| `Epochs.ExportVerifies` | backend/audit/chain/queries.py:422-433 | what is exported of a chain passes the offline verifier, the export hash aside |
| `Epochs.HonestExportHashMismatch` | backend/audit/chain/queries.py:396-428 | with the export hash that the export computes the same file is rejected for it, or the two hashed texts collide |
| `Epochs.EpochExportsCompose` | backend/audit/chain/commands.py:197-223 | appending establishes what epoch composition assumes, so the exports pass singly and in pairs and join to one good chain |
| `Epochs.EpochsVerified` | backend/audit/chain/queries.py:173-188 | the verifier counts ceil(n/E) epochs in a chain of n entries, in batches of any size |
| `ChainGuarantees.AppendedChainsExport` | backend/audit/chain/commands.py:133-262 | after any timely run the server verifies the log and counts its epochs right, and the exports of complete epochs pass offline and compose |
| `Lease.StepKeepsInv` | backend/utils/distributed_lock.py:56-143 | every atomic operation, with a stale clock reading, keeps the document with whoever has an unexpired claim |
| `Lease.OthersAreSpared` | backend/utils/distributed_lock.py:107-112 | a release removes no document of another owner, and the reaper none of a live lease |
| `Lease.LeaseSafety` | backend/utils/distributed_lock.py:56-143 | in every state of every run an unexpired claim owns the document under that expiry, so at most one is live |
| `LockProtocol.StepRefinesLease` | backend/utils/distributed_lock.py:56-143 | every step of the lock protocol is a step of the abstract lease or leaves it unchanged |
| `LockProtocol.LockSafety` | backend/utils/distributed_lock.py:56-143 | in every run, a process that believes to hold the lock owns the document until the expiry it wrote last, so no two do |
| `LockProtocol.LostMeansExpired` | backend/utils/distributed_lock.py:125-141 | the heartbeat reports the lock lost only after the expiry written last |
| `LockProtocol.UncontendedAttempt` | backend/utils/distributed_lock.py:56-97 | with no other process in between, an attempt succeeds if and only if the lock was free, or expired and not reaped between the two operations; after such a failure the lock is free |
| `LockProtocol.UncontendedBeat` | backend/utils/distributed_lock.py:112-140 | a heartbeat writes its clock reading plus the time to live on its own document; on any other it changes nothing, reports the loss and ends |
| `LockProtocol.UncontendedRelease` | backend/utils/distributed_lock.py:98-110 | a release ends the heartbeat and removes the document if it is still the process's own |
| `LeaderProtocol.StepRefinesLease` | backend/utils/leader_election.py:47-141 | every step of the election is a step of the abstract lease or leaves it unchanged |
| `LeaderProtocol.LeaderSafety` | backend/utils/leader_election.py:47-141 | in every run there is at most one leader before the expiry it wrote, and it owns the claim |
| `LeaderProtocol.UncontendedAttempt` | backend/utils/leader_election.py:47-113 | with no other worker in between, the worker leads if and only if there was no claim, its own, or an expired one, not reaped before its turn |
| `LeaderProtocol.UncontendedBeat` | backend/utils/leader_election.py:113-127 | a leader heartbeat writes its clock reading plus the time to live on an own claim and leaves any other |
| `LeaderProtocol.UncontendedResign` | backend/utils/leader_election.py:129-141 | resigning removes an own claim and no other |
| `LeaseObjects.AcquireIsARun` | backend/utils/distributed_lock.py:56-97 | what `acquire` does is a run of the lock protocol, so its safety covers the object |
| `LeaseObjects.BeatIsARun` | backend/utils/distributed_lock.py:123-141 | so is a round of the heartbeat |
| `LeaseObjects.ReleaseIsARun` | backend/utils/distributed_lock.py:99-112 | and `release` |
| `LeaseObjects.TryIsARun` | backend/utils/leader_election.py:47-113 | what `try_become_leader` does is a run of the election protocol, with the same answer |
| `LeaseObjects.HeartbeatIsARun` | backend/utils/leader_election.py:115-126 | so is a leader heartbeat |
| `LeaseObjects.ResignIsARun` | backend/utils/leader_election.py:128-141 | and `resign` |
| `LeaseObjects.DistributedLock.Acquire` | backend/utils/distributed_lock.py:56-97 | succeeds exactly on a free or expired lock, and sets the document and `_acquired` accordingly |
| `LeaseObjects.DistributedLock.Enter` | backend/utils/distributed_lock.py:145-156 | acquires and starts the heartbeat, or raises and changes nothing |
| `LeaseObjects.DistributedLock.Beat` | backend/utils/distributed_lock.py:123-141 | one round extends the own document, or sets `lost` and gives up |
| `LeaseObjects.DistributedLock.Release` | backend/utils/distributed_lock.py:99-112 | removes the document only if acquired and still the own one |
| `LeaseObjects.LeaderElection.TryBecomeLeader` | backend/utils/leader_election.py:47-113 | succeeds exactly without a claim, on the own claim and on an expired one |
| `LeaseObjects.LeaderElection.Heartbeat` | backend/utils/leader_election.py:115-126 | extends the own claim and touches no other |
| `LeaseObjects.LeaderElection.Resign` | backend/utils/leader_election.py:128-141 | removes the own claim and no other |
| `TokenFamilies.StepKeepsOneBearer` | backend/domains/auth/service.py:298-326 | every single database operation keeps unused tokens and rotations in flight of a family at one in all |
| `TokenFamilies.FamiliesDoNotFork` | backend/domains/auth/service.py:196-328 | in every state of every interleaving, unused tokens plus rotations in flight of a family are one at most, and no token has two successors |
| `TokenFamilies.DeadForever` | backend/domains/auth/service.py:303-310 | in no continuation does a rotation succeed in a family that has neither |
| `TokenFamilies.NotDeadCanRotate` | backend/domains/auth/service.py:298-326 | from any other family there is a continuation in which one succeeds |
| `TokenFamilies.OthersAreSpared` | backend/domains/auth/service.py:298-380 | a deletion takes the tokens of its family or user and no others; any other operation touches one token at most |
| `TokenFamilies.RotationHandsOn` | backend/domains/auth/service.py:298-326 | a rotation marks its token used and stores one unused token of the same family and user |
| `TokenFamilies.ReplayEndsFamily` | backend/domains/auth/service.py:303-310 | presenting a token that is not unused ends its family unless a rotation is in flight, and spares all others |
| `TokenFamilies.RevocationIsFinal` | backend/domains/auth/service.py:303-310 | deleting a family kills it if and only if no rotation of it is in flight |
| `TokenFamilies.UserRevocationIsFinal` | backend/domains/auth/service.py:331-346 | deleting the tokens of a user kills a family if and only if its unused token, if any, is the user's and no rotation of it is in flight |
| `TokenFamilies.RevokedFamilyComesBack` | backend/domains/auth/service.py:298-326 | the other case is reachable: a run from the empty store in which a refresh succeeds after its family was deleted |
| `AuthSessions.RequestKeepsValid` | backend/domains/auth/session_service.py:181-278 | every request keeps tokens and sessions in step |
| `AuthSessions.RunKeepsValid` | backend/domains/auth/router.py:152-180 | after any run of whole requests every unused token's family has an active session of its user |
| `AuthSessions.WhatKills` | backend/domains/auth/service.py:303-310 | replay, session revocation, family deletion and user deletion each leave no unused token in the family |
| `AuthSessions.DeadForever` | backend/domains/auth/service.py:248-328 | after that, no refresh in the family succeeds in any run |
| `AuthSessions.NoSessionNoToken` | backend/domains/auth/session_service.py:220-278 | revoking all sessions of a user leaves the user no unused token |
| `AuthSessions.AuthStore.CreateRefreshToken` | backend/domains/auth/service.py:196-245 | a fresh unused token, in a fresh family or the given one |
| `AuthSessions.AuthStore.LogIn` | backend/domains/auth/router.py:152-180 | a new family with one unused token and one active session |
| `AuthSessions.AuthStore.Rotate` | backend/domains/auth/service.py:248-328 | succeeds exactly for an unused token, which it marks and follows with one of the same family and user; any other costs its family, whose tokens are deleted while those of all others stay; the access token names the active session |
| `AuthSessions.AuthStore.RevokeSession` | backend/domains/auth/session_service.py:181-217 | exactly an active session is revoked, and its family with it; every other session and family stays |
| `AuthSessions.AuthStore.RevokeAllUserSessions` | backend/domains/auth/session_service.py:220-278 | the active sessions of the user, all or all but one, and exactly their families; the excluded session and all others stay; returns how many |
| `AuthSessions.AuthStore.LogOut` | backend/domains/auth/router.py:350-386 | the family is dead afterwards and its session inactive; other families and sessions stay |
| `AuthSessions.AuthStore.RevokeFamily` | backend/domains/auth/service.py:349-380 | deletes exactly the tokens of the family, leaves the others as they are, and returns how many |
| `AuthSessions.AuthStore.RevokeUserTokens` | backend/domains/auth/service.py:331-346 | deletes exactly the tokens of the user and returns how many |
| `RateLimit.AcceptKeepsBounded` | backend/utils/rate_limit.py:90-98 | accepting below the limit keeps every window, also those that end later, within the limit |
| `RateLimit.InWindowIsRecent` | backend/utils/rate_limit.py:93-95 | a window that begins after the cutoff has no more hits than there are after the cutoff |
| `RateLimit.PruneKeepsOk` | backend/utils/rate_limit.py:93-93 | pruning forgets nothing that a later request can ask about |
| `RateLimit.ForgetKeepsOk` | backend/utils/rate_limit.py:126-131 | neither does dropping an address whose newest hit has left the window |
| `RateLimit.RateLimiter.IsLimited` | backend/utils/rate_limit.py:78-105 | rejects exactly when the full accepted history of the address has the maximum in the window; other addresses are unaffected; no window exceeds the maximum |
| `RateLimit.RateLimiter.Cleanup` | backend/utils/rate_limit.py:126-131 | drops exactly the addresses without a hit in the window |
| `RateLimit.CleanedMeans` | backend/utils/rate_limit.py:126-131 | an address survives a cleanup exactly if its newest hit is later than the cutoff, with all its hits |
| `ApiKeyLimits.StaleIsAbsent` | backend/domains/api_keys/middleware.py:68-76 | a limiter can be dropped when its window and the lag between look-up and hit have passed since its last look-up |
| `ApiKeyLimits.NewIsPresent` | backend/domains/api_keys/middleware.py:90-93 | and a new one can take its place |
| `ApiKeyLimits.LimiterStore.Evict` | backend/domains/api_keys/middleware.py:68-76 | drops exactly the limiters not looked up for an hour, and no decision changes |
| `ApiKeyLimits.SweptMeans` | backend/domains/api_keys/middleware.py:68-88 | every hundredth access drops exactly the limiters not looked up for 3600 seconds |
| `ApiKeyLimits.OwnHitsDecide` | backend/domains/api_keys/middleware.py:184-184 | what a decision by a limiter's own hits means for the whole history of the key |
| `ApiKeyLimits.LimiterStore.Get` | backend/domains/api_keys/middleware.py:98-109 | the limiter of the key, made if there is none or if the limit has changed, with the hits that it remembers, and touched |
| `ApiKeyLimits.LimiterStore.IsLimited` | backend/domains/api_keys/middleware.py:184-184 | decides exactly by the hits of the limiter looked up, and thereby by the key's history in the window, up to the lag |
| `ApiKeyLimits.KeyLimiters.GetMinuteLimiter` | backend/domains/api_keys/middleware.py:79-95 | every hundredth look-up sweeps both dictionaries first |
| `ApiKeyLimits.KeyLimiters.Admit` | backend/domains/api_keys/middleware.py:179-189 | with a clock reading per step, any lag between look-ups and hits, and limits that may change: accepts exactly if the hits remembered after the sweep leave room in both windows; the whole history then leaves room in both spans, and after a rejection it leaves none in one of the windows; a request that only the hour limiter rejects still counts for the minute |
| `ApiKeyLimits.KeyLimiters.WindowsAreBounded` | backend/domains/api_keys/middleware.py:179-189 | no minute has more accepted requests than the minute limit, no hour, less the lag between look-up and hit, more than the hour limit |
| `ApiKeyLimits.LateHitIsForgotten` | backend/domains/api_keys/middleware.py:68-88 | the lag matters: for every positive one there is a run of a hundred requests whose last look-up sweeps, and an hour holds two accepted requests under a limit of one |
| `Classification.ScoreFingerprint` | backend/domains/classification/classifier.py:121-161 | the scoring loops compute the weighted share of the markers found, zero without weight, and name exactly the found markers as matched and the others as missing |
| `Classification.FoundMeans` | backend/domains/classification/classifier.py:136-144 | a marker is found if some application matches it: by the matcher if the pattern has wildcards, without regard to case otherwise |
| `Classification.WeightsAdd` | backend/domains/classification/classifier.py:127-151 | total and matched weight, and both lists of names, add up over the markers |
| `Classification.WeightsOfOne` | backend/domains/classification/classifier.py:145-151 | a found marker adds its weight and its name to what is matched, any other its name to what is missing |
| `Classification.FullShareIff` | backend/domains/classification/classifier.py:145-151 | with positive weights the whole weight is matched if and only if every marker is found |
| `Classification.ScoreInUnitRange` | backend/domains/classification/classifier.py:127-157 | with non-negative weights a score lies in [0, 1] |
| `Classification.ScoreGrows` | backend/domains/classification/classifier.py:137-151 | more installed applications never lower a score |
| `Classification.SortIsSorted` | backend/domains/classification/classifier.py:164-164 | the stable sort gives a descending permutation |
| `Classification.SortIsStable` | backend/domains/classification/classifier.py:164-164 | fingerprints with equal scores keep their order |
| `Classification.BestFive` | backend/domains/classification/classifier.py:164-165 | the scores kept are five at most, and no other fingerprint scores more than the last of them |
| `Classification.TopFiveIsEnough` | backend/domains/classification/classifier.py:164-217 | the verdict from the best five is the one defined over the bag of all scores: best score, and its margin over every other or over zero |
| `Classification.VerdictIsUnique` | backend/domains/classification/classifier.py:191-200 | with a positive gap the definition admits one verdict and one suggestion |
| `Classification.OrderDoesNotMatter` | backend/domains/classification/classifier.py:121-217 | with a positive gap, verdict and suggestion do not depend on the order of the fingerprints |
| `Classification.OrderMattersWithoutGap` | backend/domains/classification/classifier.py:191-200 | without one they do, as soon as a full score reaches the thresholds |
| `Classification.OrderIsFreeIff` | backend/domains/classification/classifier.py:164-200 | the order never matters if and only if the gap is positive or a threshold is above every score |
| `Classification.WhenUnexplained` | backend/domains/classification/classifier.py:172-217 | a verdict other than correct has no reason if and only if a lone fingerprint is clear without beating the gap by itself |
| `Classification.ReasonsMean` | backend/domains/classification/classifier.py:172-217 | exactly which reasons a verdict comes with, and the figures in them |
| `Classification.ClassifySingleAgent` | backend/domains/classification/classifier.py:60-232 | the whole method: the five best scores, the verdict that is meant, and the reasons, for the denormalised applications or the live ones |
| `KeysetScan.FetchPage` | backend/domains/classification/classifier.py:392-403 | the next ids in order after the cursor, at most a batch of them |
| `KeysetScan.ProcessBatch` | backend/domains/classification/classifier.py:417-466 | classified plus errors is the size of the batch; nothing is classified if the write raises, and otherwise what it stored of the agents that could be classified |
| `KeysetScan.StoredBounds` | backend/domains/classification/classifier.py:417-466 | over all batches: if writes succeed, all that can be classified is counted as classified, and if they all raise, nothing |
| `KeysetScan.PageExtendsScan` | backend/domains/classification/classifier.py:391-470 | the next page keeps the order and the coverage, whatever was inserted or deleted in between |
| `KeysetScan.RunClassification` | backend/domains/classification/classifier.py:305-505 | terminates; ids strictly increase; every agent there throughout is processed exactly once if no read fails; the counters add up, and one more for a failed read |
| `ComplianceEngine.KeyJsonDetermines` | backend/domains/compliance/engine.py:209-213 | the text of a cache key determines check type, parameters and scope |
| `ComplianceEngine.KeyMeans` | backend/domains/compliance/engine.py:209-214 | the key record by key, and the key: the first sixteen characters of its digest |
| `ComplianceEngine.PlainMeans` | backend/domains/compliance/engine.py:325-348 | a control gets what its executor returns for its scope, or an error result under its own identity with zero counts |
| `ComplianceEngine.ActiveMeans` | backend/domains/compliance/engine.py:281-290 | exactly the controls with an executor take part |
| `ComplianceEngine.GroupResultsMean` | backend/domains/compliance/engine.py:325-355 | the first of a group has its own result, and the others its finding under their identity |
| `ComplianceEngine.CopyIsPlain` | backend/domains/compliance/engine.py:217-243 | where keys do not collide, a copied result, errors included, is the one the control would have got by itself |
| `ComplianceEngine.GroupControls` | backend/domains/compliance/engine.py:278-300 | the groups hold every control with an executor once, under its key, and the primaries are their first members |
| `ComplianceEngine.RunIsPlain` | backend/domains/compliance/engine.py:325-355 | deduplicated results are a permutation of the plain ones |
| `ComplianceEngine.RunComplianceChecks` | backend/domains/compliance/engine.py:246-368 | one execution per distinct key, one result per control with an executor, group after group, and a permutation of the plain run |
| `AppSummary.OneMoreExact` | backend/domains/agents/app_cache.py:54-60 | an exact pattern extends the tables of the matcher as the look-up rule demands, replacing an earlier equal one |
| `AppSummary.FirstGlob` | backend/domains/agents/app_cache.py:67-69 | scanning the glob table finds the first glob of the catalogue that matches |
| `AppSummary.TaxonomyMatcher.constructor` | backend/domains/agents/app_cache.py:46-60 | the tables hold all patterns of the catalogue in order |
| `AppSummary.TaxonomyMatcher.Match` | backend/domains/agents/app_cache.py:62-70 | the last equal exact pattern before any glob, then the first glob that matches, else nothing |
| `AppSummary.RulesAdd` | backend/domains/agents/app_cache.py:51-54 | the rules of the catalogue are those of its entries in order |
| `AppSummary.RulesMean` | backend/domains/agents/app_cache.py:46-60 | one rule for each pattern in order, in lower case, with the category and its display name |
| `AppSummary.HitsMean` | backend/domains/agents/app_cache.py:57-60 | patterns with one of three characters are matched, all others are compared |
| `AppSummary.MatchIsUnique` | backend/domains/agents/app_cache.py:62-70 | the rule admits one answer |
| `AppSummary.FirstsAreAgents` | backend/domains/agents/app_cache.py:209-233 | grouping by agent and name and counting gives the same agents as the live set of agents, each once |
| `AppSummary.FirstsAreFirst` | backend/domains/agents/app_cache.py:209-233 | the grouping keeps the first active record of each agent, in the order of the records |
| `AppSummary.Tally` | backend/domains/agents/app_cache.py:276-287 | every label gets the number of its occurrences, and the counts add up to all of them |
| `AppSummary.TopLabel` | backend/domains/agents/app_cache.py:288-288 | the most frequent label, and of several the first |
| `AppSummary.TopIsUnique` | backend/domains/agents/app_cache.py:288-288 | there is one such label |
| `AppSummary.BreakDown` | backend/domains/agents/app_cache.py:290-312 | every group or site gets the number of its agents, and the counts add up to the agents with a known one |
| `AppSummary.Summarise` | backend/domains/agents/app_cache.py:272-337 | one summary in terms of the stored records and agents: the number of agents with an active record, name and publisher of the first, versions and risks of the first records counted by label, groups by group id and sites by site id |
| `AppSummary.SummaryStore.Rebuild` | backend/domains/agents/app_cache.py:183-354 | after a rebuild with an active record there is one summary per name with an active record, and each is as the row above says; without one, the old summaries stay |

## Left out

Assumed absent, because each breaks a property by design:

- Retention: the TTL index that deletes old audit entries (backend/db_indexes.py:173-175).
- The clearing of sync, library and backup locks at start-up (backend/main.py:498-523).
- A change of the epoch size between appends; `ChainUnderAnotherSize` says what it breaks.
- Expiry of tokens and sessions in `AuthSessions`; `TokenFamilies` has the expiry of tokens.

Not captured by the model:

- An insert that raises is taken to have had no effect, and a call that crashed is one that
  takes no further step.  Errors of other database calls inside an append are left out.
- Entries always have all their fields; a document without `sequence` or `epoch` is outside
  the model.  `details` is a JSON value with its members in order, without floating-point
  numbers and without times inside.
- Time parsing knows ASCII digits, two-digit fields and whole minutes of offset; lone digits,
  seconds in an offset and years before 1000, which the platform prints unpadded, are left out.
- AppendProtocol.AppendersBuildAChain: needs timely runs, as `ChainIffNoneLate` says; the ten
  lock attempts of a call are any number here, and are counted in `ChainStore`.
- ChainStore.Store.AppendChainedEntry: the lock attempts are given as a function of their
  number; the lock itself is in `LockProtocol`.
- LockProtocol.LockSafety: a heartbeat write that is cancelled takes no effect; a driver may
  still deliver it.  One worker runs one operation of a lock or an election at a time, apart
  from the heartbeat.
- TokenFamilies.FamiliesDoNotFork: new ids are fresh, and only tokens that were issued can be
  presented, which stands for the signature check.
- AuthSessions.AuthStore.Rotate: roles are left out of tokens, and the access token is its
  claims.
- ApiKeyLimits.KeyLimiters.Admit: look-ups and hits of one request are not interleaved with
  those of another, since nothing is awaited between them.
- RateLimit.RateLimiter.IsLimited: `reset` and the HTTP wrapping are left out.
- Classification.ScoreInUnitRange: weights and sums are real numbers, and rounding is any
  monotone function that keeps 0 and 1.
- Classification.ClassifySingleAgent: run id, host name and time, which are only passed on, and
  the wording of the reasons, are left out.
- KeysetScan.RunClassification: loading the configuration and the fingerprints, the texts of
  the error log, the run record, and the taking and giving back of the run lock, are left out;
  the distributed lock of a run has no liveness property to prove.
- ComplianceEngine.RunComplianceChecks: the merging of overrides that resolves the controls,
  and the storing of the results, are left out; the order of concurrent executions does not
  matter, since outcomes are given.
- AppSummary.Summarise: names of groups and sites, and the sorting and the cut at fifty of the
  lists for display, are left out.  Counts are of the full lists.
- AppSummary.SummaryStore.Rebuild: the temporary collection, its indexes and the rename that
  replaces the old collection are one assignment.
- The database pipelines (the query for a page, the grouping stages, the boundary queries)
  stand as functions or short scans with the meaning of the query.

Not modelled at all, because they would add easy members or foreign functions:

- SHA-256, password hashing, encryption at rest, token signatures, TOTP, OIDC and SAML.
- Unchained audit writes and their retry queue; the chain never sees them.
- Glob matching of fingerprints and of the catalogue, which is a parameter.
- Paging of the unified violations list, which merges in an order other than its sources'.
- Enforcement counts, configuration, CRUD, DTOs, dashboards, backups, webhooks, logging and
  the HTTP layer.
