/**
 From concurrent appends to air-gapped verification: what holds of the log after any run of
 the append protocol, from the clock readings of the lock down to the files of the offline
 verifier.
 */
module ChainGuarantees {
  import opened Wrappers
  import opened Hashing
  import opened ChainVerification
  import opened ChainRules
  import opened OfflineVerifier
  import opened Epochs
  import AP = AppendProtocol

  /** After any timely run, every complete epoch exports to a file that the offline verifier
      accepts, the files of the complete epochs compose to one verified chain, and the server
      verifies the whole log and counts its epochs right, in batches of any size. */
  lemma AppendedChainsExport(sha: Sha, digest: ExportHasher, states: seq<AP.State>, steps: seq<AP.Step>, n0: nat,
                             batch: nat, count: nat) returns (n: nat)
    requires AP.IsRun(HasherOf(sha), states, steps) && AP.Start(HasherOf(sha), states[0], n0)
    requires AP.AllTimely(states, steps) && n0 > 0 && batch >= 1
    ensures var s := states[|steps|];
            && n0 <= n && WellChained(HasherOf(sha), s.log, n, s.size)
            && FullVerification(HasherOf(sha), s.log, n - 1, batch).status == VALID
            && FullVerification(HasherOf(sha), s.log, n - 1, batch).epochs == (n + s.size - 1) / s.size
            && (0 < count && count * s.size <= n ==>
                  AllAccepted(HasherOf(sha), digest, EpochFiles(s.log, count, s.size))
                  && AllGood(HasherOf(sha), Joined(EpochFiles(s.log, count, s.size)), 0, None, false))
  {
    hide EntryHash, AP.Enabled, AP.Next, AP.Start, AP.AllTimely, WellChained, AllAccepted, AllGood, Joined, EpochFiles,
         FullVerification;
    n := AP.AppendersBuildAChain(sha, states, steps, n0, batch);
    var s := states[|steps|];
    SizeIsPositive(HasherOf(sha), s.log, n, s.size);
    EpochsVerified(HasherOf(sha), s.log, n, s.size, batch);
    if 0 < count && count * s.size <= n {
      EpochExportsCompose(sha, digest, s.log, n, s.size, count);
    }
  }
}
