/**
 What each reply and each event does to the monitor of `Monitor`, told without its callbacks: which tree heads are
 taken, which trees are accepted, what a failed scan, a failed request and a restart leave, and how scans and batches
 alternate in every run.
 */
module MonitorEvents {
  import opened Options
  import opened TreeHashing
  import opened Verifiers
  import opened Monitor
  import opened HonestLog

  // ---------- Tree heads ----------

  /** `verify_sth_consistency`: a ValueError exactly for tree heads that are not in order of time; an alarm for two
      sizes at one time, for a log that shrank, and for two hashes of one size; and otherwise the verdict about the
      proof. */
  lemma SthVerdictExactly(h: TreeHasher, a: Sth, b: Sth, proof: seq<Bytes>)
    ensures SthVerdict(h, a, b, proof) == BadSizes <==> a.timestamp > b.timestamp
    ensures a.timestamp == b.timestamp && a.size != b.size ==> SthVerdict(h, a, b, proof) == Inconsistent
    ensures a.timestamp < b.timestamp && a.size > b.size ==> SthVerdict(h, a, b, proof) == Inconsistent
    ensures a.timestamp <= b.timestamp && a.size == b.size ==>
      SthVerdict(h, a, b, proof) == if a.root == b.root then Accepted(proof) else Inconsistent
    ensures a.timestamp < b.timestamp && a.size < b.size ==>
      SthVerdict(h, a, b, proof) == Verdicts(h, a.size, b.size, a.root, b.root, proof)
  {
    hide Verdicts;
    SizesDecide(h, a.size, b.size, a.root, b.root, proof);
  }

  /** The state after an update has got a tree head, and a proof if it asked for one. */
  function Answered(h: TreeHasher, m: Monitor, sth: Sth, signed: bool, proof: seq<Bytes>): Outcome {
    var o := RunFrom(h, m, [Update, SthReply(sth, signed)]);
    if o.Ok? && o.m.phase.AskedProof? then Apply(h, o.m, ProofReply(proof)) else o
  }

  /** A tree head is considered only if it is well-formed, well signed, and newer than the verified one. */
  predicate Considered(h: TreeHasher, m: Monitor, sth: Sth, signed: bool) {
    signed && |sth.root| == h.digestSize && sth.timestamp > m.verifiedSth.timestamp
  }

  /** From every idle state with nothing pending, for every tree head and every proof: a proof is asked for exactly if
      the tree head is well-formed, well signed, and neither known nor older; a larger tree head becomes pending
      exactly if it is considered and the proof shows it consistent with the verified tree; one of the same size
      becomes the verified one exactly if it is considered and has the same hash; otherwise nothing changes. */
  lemma HeadExactly(h: TreeHasher, m: Monitor, sth: Sth, signed: bool, proof: seq<Bytes>)
    requires h.Valid() && Inv(h, m) && m.phase == Idle && m.pending.None?
    ensures var o := Answered(h, m, sth, signed, proof);
      var ok := Considered(h, m, sth, signed);
      && var first := RunFrom(h, m, [Update, SthReply(sth, signed)]);
      && first.Ok?
      && (first.m.phase.AskedProof? <==>
            signed && |sth.root| == h.digestSize
            && (m.hasVerified ==> sth != m.verifiedSth && sth.timestamp >= m.verifiedSth.timestamp))
      && o.Ok? && o.m.verified == m.verified && o.m.unverified == m.unverified && o.m.leftScans == m.leftScans
      && if ok && sth.size > |m.verified|
            && Verdicts(h, |m.verified|, sth.size, m.verifiedSth.root, sth.root, proof).Accepted? then
           o.m.pending == Some(sth) && o.m.verifiedSth == m.verifiedSth && o.m.phase ==
             if sth.size > |m.unverified| then Fetching(|m.unverified|, sth.size, m.unverified, false)
             else Verifying(m.unverified, sth)
         else if ok && sth.size == |m.verified| && sth.root == m.verifiedSth.root then
           o.m.verifiedSth == sth && o.m.hasVerified && o.m.pending.None? && o.m.phase == Idle
         else o.m == m.(signed := o.m.signed)
  {
    hide Mth, RunFrom, Check;
    var m1 := m.(phase := AskedSth);
    RunTwo(h, m, Update, SthReply(sth, signed), m1, TakeSth(h, m1, sth, signed));
  }

  // ---------- Trees ----------

  /** In every state in which a tree is being verified, for every proof: it is accepted exactly if it has the size and
      the hash of the pending tree head, and then it is the verified tree; otherwise the unverified entries are
      dropped, and the pending tree head and the verified tree stay. */
  lemma TreeExactly(h: TreeHasher, m: Monitor, proof: seq<Bytes>)
    requires h.Valid() && Inv(h, m) && m.phase.Verifying?
    ensures var o := Apply(h, m, ProofReply(proof)); var tree, head := m.phase.tree, m.phase.head;
      && o.Ok? && o.m.phase == Idle && o.m.leftScans == m.leftScans
      && if |tree| == head.size && Mth(h, tree) == head.root then
           && o.m.verified == tree && o.m.verifiedSth == head && o.m.hasVerified && o.m.pending.None?
           && o.m.unverified == m.unverified
         else
           && o.m.verified == m.verified && o.m.verifiedSth == m.verifiedSth && o.m.pending == m.pending
           && o.m.unverified == m.verified
  {
    hide Mth, Check;
  }

  // ---------- Scans, failures and restarts ----------

  /** After a failed scan nothing is left of the entries that are not verified, in memory and in the state file, and the
      update is over if the scan was its own. */
  lemma FailedScanDrops(h: TreeHasher, m: Monitor)
    ensures var own, left := Apply(h, m, ScanEnds(false)), Apply(h, m, LeftScanEnds(false));
      && (own.Ok? <==> m.phase.Fetching? && m.phase.scanning) && (left.Ok? <==> m.leftScans > 0)
      && (own.Ok? ==> own.m.unverified == m.verified == own.m.disk.unverified && own.m.phase == Idle)
      && (left.Ok? ==> left.m.unverified == m.verified == left.m.disk.unverified && left.m.phase == m.phase)
  {
  }

  /** A failed request ends the update and changes nothing else, except that a scan under way is left behind; a restart
      from the state file also forgets those, and nothing else. */
  lemma FailureKeeps(h: TreeHasher, m: Monitor)
    requires Inv(h, m)
    ensures Apply(h, m, Restart) == Ok(m.(phase := Idle, leftScans := 0))
    ensures m.phase == Idle ==> Apply(h, m, RequestFails) == NotEnabled
    ensures m.phase != Idle ==>
      var left := if m.phase.Fetching? && m.phase.scanning then 1 else 0;
      Apply(h, m, RequestFails) == Ok(m.(phase := Idle, leftScans := m.leftScans + left))
  {
  }

  /** The last batch has been followed by no end of its scan, no failure and no restart. */
  predicate Scanning(steps: seq<Step>) {
    if steps == [] then false
    else
      var step := steps[|steps| - 1];
      if step.Batch? then true
      else if step.ScanEnds? || step.RequestFails? || step.Restart? then false
      else Scanning(steps[..|steps| - 1])
  }

  /** How many scans were left behind by failed requests since the last restart, without those that have ended. */
  function LeftBehind(steps: seq<Step>): int {
    if steps == [] then 0
    else
      var before, step := steps[..|steps| - 1], steps[|steps| - 1];
      if step.Restart? then 0
      else if step.RequestFails? && Scanning(before) then LeftBehind(before) + 1
      else if step.LeftScanEnds? then LeftBehind(before) - 1
      else LeftBehind(before)
  }

  /** In every run the scans under way and left behind are those that the steps say. */
  lemma {:induction false} ScansInSteps(h: TreeHasher, steps: seq<Step>)
    requires Run(h, steps).Ok?
    ensures var m := Run(h, steps).m;
      (Scanning(steps) <==> m.phase.Fetching? && m.phase.scanning) && m.leftScans == LeftBehind(steps)
  {
    hide Apply;
    if steps != [] {
      var last := |steps| - 1;
      ScansInSteps(h, steps[..last]);
      ScanStep(h, Run(h, steps[..last]).m, steps[last]);
    }
  }

  lemma ScanStep(h: TreeHasher, m: Monitor, step: Step)
    requires Apply(h, m, step).Ok?
    ensures var m' := Apply(h, m, step).m; var scanning := m.phase.Fetching? && m.phase.scanning;
      && (m'.phase.Fetching? && m'.phase.scanning <==>
            step.Batch? || (scanning && !step.ScanEnds? && !step.RequestFails? && !step.Restart?))
      && m'.leftScans == (
           if step.Restart? then 0
           else if step.RequestFails? && scanning then m.leftScans + 1
           else if step.LeftScanEnds? then m.leftScans - 1
           else m.leftScans)
  {
    hide Mth, SthVerdict, Passes;
  }

  /** In every run a batch is taken exactly while entries are missing, and the fetch ends exactly when none are; both
      wait for the scan of the last batch. */
  lemma ScanBeforeNext(h: TreeHasher, steps: seq<Step>, entries: seq<Bytes>)
    requires h.Valid() && Run(h, steps).Ok?
    ensures var m := Run(h, steps).m;
      && (Apply(h, m, Batch(entries)).Ok? <==>
            m.phase.Fetching? && !Scanning(steps) && m.pending.Some? && |m.phase.tree| < m.pending.value.size)
      && (Apply(h, m, FetchDone).Ok? <==>
            m.phase.Fetching? && !Scanning(steps) && m.pending.Some? && |m.phase.tree| >= m.pending.value.size)
  {
    hide Run, Mth, Verdicts;
    RunIsSafe(h, steps);
    ScansInSteps(h, steps);
  }
}
