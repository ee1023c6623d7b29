/**
 `Monitor` and `EntryConsumer` of python/ct/client/monitor.py as a state machine. A step is one callback: a reply of
 the log, the end of a scan, or a restart of the process from its state file. Replies are arbitrary: any tree head,
 any proof, any entries. One call of `update` runs at a time.

 A compact tree is given by the leaf hashes it stands for (module PythonCompactTree). The hash of a tree head that was
 never set is the empty string. A scan of a batch is awaited before the next batch; when a request fails meanwhile,
 the scan is left behind and may still fail at any later time.
 */
module Monitor {
  import opened Options
  import opened TreeHashing
  import opened Verifiers

  datatype Sth = Sth(timestamp: nat, size: nat, root: Bytes)

  /** The state file. */
  datatype Saved = Saved(
    hasVerified: bool, verifiedSth: Sth, pending: Option<Sth>, verified: seq<Bytes>, unverified: seq<Bytes>)

  datatype Phase =
    | Idle
    | AskedSth
    | AskedProof(was: Sth, head: Sth)
    | Fetching(start: nat, wanted: nat, tree: seq<Bytes>, scanning: bool)
    | Verifying(tree: seq<Bytes>, head: Sth)

  /** The monitor: its two trees, what else is in memory, the state file, and the scans left behind. The last two fields
      are history: the proof with which the pending tree head was accepted, and all tree heads that passed
      `verify_sth`. */
  datatype Monitor = Monitor(
    hasVerified: bool, verifiedSth: Sth, pending: Option<Sth>, verified: seq<Bytes>, unverified: seq<Bytes>,
    disk: Saved, phase: Phase, leftScans: nat, evidence: seq<Bytes>, signed: set<Sth>)

  const NO_STH := Sth(0, 0, [])

  const EMPTY_FILE := Saved(false, NO_STH, None, [], [])

  const FIRST_RUN := Monitor(false, NO_STH, None, [], [], EMPTY_FILE, Idle, 0, [], {})

  datatype Step =
    | Update
    | SthReply(sth: Sth, signed: bool)
    | ProofReply(proof: seq<Bytes>)
    | RequestFails
    | Batch(entries: seq<Bytes>)
    | ScanEnds(good: bool)
    | FetchDone
    | LeftScanEnds(good: bool)
    | Restart

  datatype Outcome = NotEnabled | Crash | Ok(m: Monitor)

  // ---------- Parts of the callbacks ----------

  /** `verify_sth_consistency`; `BadSizes` stands for every ValueError. */
  function SthVerdict(h: TreeHasher, a: Sth, b: Sth, proof: seq<Bytes>): Verdict {
    if a.timestamp > b.timestamp then BadSizes
    else if a.timestamp == b.timestamp && a.size != b.size then Inconsistent
    else if a.timestamp < b.timestamp && a.size > b.size then Inconsistent
    else Verdicts(h, a.size, b.size, a.root, b.root, proof)
  }

  /** `__update_state`. */
  function Written(m: Monitor): Monitor {
    m.(disk := Saved(m.hasVerified, m.verifiedSth, m.pending, m.verified, m.unverified))
  }

  /** `_update_unverified_data`, with the verified tree. */
  function Discarded(m: Monitor): Monitor {
    Written(m.(unverified := m.verified))
  }

  /** `_update_entries`. */
  function Entries(m: Monitor): Monitor {
    if m.pending.None? then m.(phase := Idle)
    else if m.pending.value.size > |m.unverified| then
      m.(phase := Fetching(|m.unverified|, m.pending.value.size, m.unverified, false))
    else m.(phase := Verifying(m.unverified, m.pending.value))
  }

  /** `_set_pending_sth`, after an accepted proof, and what follows. */
  function SetPending(m: Monitor, sth: Sth, proof: seq<Bytes>): Monitor {
    if sth.size < m.verifiedSth.size || sth.timestamp <= m.verifiedSth.timestamp then m.(phase := Idle)
    else if sth.size > m.verifiedSth.size then Entries(Written(m.(pending := Some(sth), evidence := proof)))
    else Entries(Written(m.(hasVerified := true, verifiedSth := sth)))
  }

  /** The tree head that `_compute_projected_sth_from_tree` makes up. */
  function Projected(h: TreeHasher, tree: seq<Bytes>): Sth {
    Sth(0, |tree|, Mth(h, tree))
  }

  function PendingOrNone(m: Monitor): Sth {
    if m.pending.Some? then m.pending.value else NO_STH
  }

  /** `_set_verified_tree`. */
  function SetVerified(h: TreeHasher, m: Monitor, tree: seq<Bytes>): Outcome {
    var p := PendingOrNone(m);
    if p.size < |tree| then Crash
    else if p.size == |tree| then
      if p.root != Mth(h, tree) then Crash
      else Ok(Written(m.(verified := tree, hasVerified := true, verifiedSth := p, pending := None, phase := Idle)))
    else Ok(Written(m.(verified := tree, phase := Idle)))
  }

  /** The end of `_verify_new_tree`. */
  function VerifyTree(h: TreeHasher, m: Monitor, tree: seq<Bytes>, head: Sth, proof: seq<Bytes>): Outcome {
    match SthVerdict(h, Projected(h, tree), head, proof)
    case Accepted(_) => SetVerified(h, m, tree)
    case BadSizes => Ok(m.(phase := Idle))
    case _ => Ok(Discarded(m).(phase := Idle))
  }

  /** `verify_sth`: the hash has the length of a digest, and the signature is right. */
  predicate Passes(h: TreeHasher, sth: Sth, signed: bool) {
    |sth.root| == h.digestSize && signed
  }

  /** `__update_sth_callback`, up to the request for a proof. */
  function TakeSth(h: TreeHasher, m: Monitor, sth: Sth, signed: bool): Monitor {
    if m.hasVerified && sth == m.verifiedSth then Entries(m)
    else if m.hasVerified && sth.timestamp < m.verifiedSth.timestamp then m.(phase := Idle)
    else if !Passes(h, sth, signed) then m.(phase := Idle)
    else Received(m, sth).(phase := AskedProof(m.verifiedSth, sth))
  }

  function Received(m: Monitor, sth: Sth): Monitor {
    m.(signed := m.signed + {sth})
  }

  function TakeProof(h: TreeHasher, m: Monitor, proof: seq<Bytes>): Outcome {
    match m.phase
    case AskedProof(a, b) =>
      Ok(if SthVerdict(h, a, b, proof).Accepted? then SetPending(m, b, proof) else m.(phase := Idle))
    case Verifying(tree, head) => VerifyTree(h, m, tree, head, proof)
    case _ => NotEnabled
  }

  /** `consume`. */
  function TakeBatch(h: TreeHasher, m: Monitor, entries: seq<Bytes>): Outcome {
    if !m.phase.Fetching? || m.phase.scanning || |m.phase.tree| >= m.phase.wanted then NotEnabled
    else
      var tree := m.phase.tree + h.HashLeaves(entries);
      Ok(Written(m.(unverified := tree, phase := m.phase.(tree := tree, scanning := true))))
  }

  function Apply(h: TreeHasher, m: Monitor, step: Step): Outcome {
    match step
    case Update =>
      if m.phase != Idle then NotEnabled
      else Ok(if m.pending.Some? then Entries(m) else m.(phase := AskedSth))
    case SthReply(sth, signed) => if m.phase != AskedSth then NotEnabled else Ok(TakeSth(h, m, sth, signed))
    case ProofReply(proof) => TakeProof(h, m, proof)
    case RequestFails =>
      if m.phase == Idle then NotEnabled
      else Ok(m.(phase := Idle, leftScans := m.leftScans + if m.phase.Fetching? && m.phase.scanning then 1 else 0))
    case Batch(entries) => TakeBatch(h, m, entries)
    case ScanEnds(good) =>
      if !m.phase.Fetching? || !m.phase.scanning then NotEnabled
      else if good then Ok(m.(phase := m.phase.(scanning := false)))
      else Ok(Discarded(m).(phase := Idle))
    case FetchDone =>
      if !m.phase.Fetching? || m.phase.scanning || |m.phase.tree| < m.phase.wanted || m.pending.None? then NotEnabled
      else Ok(m.(phase := Verifying(m.phase.tree, m.pending.value)))
    case LeftScanEnds(good) =>
      if m.leftScans == 0 then NotEnabled
      else Ok((if good then m else Discarded(m)).(leftScans := m.leftScans - 1))
    case Restart =>
      var d := m.disk;
      Ok(Monitor(d.hasVerified, d.verifiedSth, d.pending, d.verified, d.unverified, d, Idle, 0, m.evidence, m.signed))
  }

  // ---------- What every step keeps ----------

  /** A verified tree head was signed, and speaks about the verified tree, which is not empty. */
  ghost predicate HeadMatches(h: TreeHasher, m: Monitor) {
    && m.verifiedSth.size == |m.verified|
    && (m.hasVerified <==> m.verified != [])
    && if m.hasVerified then m.verifiedSth in m.signed && m.verifiedSth.root == Mth(h, m.verified)
       else m.verifiedSth == NO_STH
  }

  /** The pending tree head is newer, larger, and proved consistent with the verified one. */
  ghost predicate PendingMatches(h: TreeHasher, m: Monitor) {
    m.pending.Some? ==>
      var p, v := m.pending.value, m.verifiedSth;
      && p in m.signed && p.timestamp > v.timestamp && p.size > v.size
      && Verdicts(h, v.size, p.size, v.root, p.root, m.evidence).Accepted?
  }

  ghost predicate PhaseMatches(h: TreeHasher, m: Monitor) {
    match m.phase
    case Idle => true
    case AskedSth => m.pending.None?
    case AskedProof(a, b) => m.pending.None? && a == m.verifiedSth && b in m.signed
    case Fetching(_, wanted, tree, _) => m.pending.Some? && wanted == m.pending.value.size && h.Digests(tree)
    case Verifying(tree, head) => m.pending == Some(head) && |tree| >= head.size && h.Digests(tree)
  }

  ghost predicate Inv(h: TreeHasher, m: Monitor) {
    && m.disk == Saved(m.hasVerified, m.verifiedSth, m.pending, m.verified, m.unverified)
    && h.Digests(m.verified) && h.Digests(m.unverified)
    && (forall sth :: sth in m.signed ==> |sth.root| == h.digestSize)
    && HeadMatches(h, m) && PendingMatches(h, m) && PhaseMatches(h, m)
  }

  /** What one step may do to what the monitor has verified. */
  ghost predicate Advances(h: TreeHasher, m: Monitor, m': Monitor) {
    && (m'.verifiedSth == m.verifiedSth || m'.verifiedSth.timestamp > m.verifiedSth.timestamp)
    && (m'.verifiedSth == m.verifiedSth ==> m'.verified == m.verified)
    && |m.verified| <= |m'.verified|
    && (m.verified <= m'.verified || CollisionAmong(h, ConsistencyInputs(h, m.verified, m'.verified, m.evidence)))
  }

  lemma EntriesKeeps(h: TreeHasher, m: Monitor)
    requires Inv(h, m.(phase := Idle))
    ensures Inv(h, Entries(m))
  {
    hide Mth, Verdicts;
  }

  lemma SetPendingKeeps(h: TreeHasher, m: Monitor, sth: Sth, proof: seq<Bytes>)
    requires h.Valid() && Inv(h, m) && m.pending.None? && sth in m.signed
    requires SthVerdict(h, m.verifiedSth, sth, proof).Accepted?
    ensures Inv(h, SetPending(m, sth, proof)) && Advances(h, m, SetPending(m, sth, proof))
  {
    hide Mth, Check, ConsistencyInputs;
    var v := m.verifiedSth;
    if v.size <= sth.size && v.timestamp < sth.timestamp {
      if sth.size > v.size {
        EntriesKeeps(h, Written(m.(pending := Some(sth), evidence := proof)));
      } else {
        assert sth.root == v.root;
        EntriesKeeps(h, Written(m.(hasVerified := true, verifiedSth := sth)));
      }
    }
  }

  /** Accepted trees are as large as the pending tree head, have its hash, and continue the verified tree. */
  lemma AcceptedTree(h: TreeHasher, m: Monitor, tree: seq<Bytes>, head: Sth, proof: seq<Bytes>)
    requires h.Valid() && Inv(h, m) && m.phase == Verifying(tree, head)
    requires SthVerdict(h, Projected(h, tree), head, proof).Accepted?
    ensures |tree| == head.size && head.root == Mth(h, tree)
    ensures m.verified <= tree || CollisionAmong(h, ConsistencyInputs(h, m.verified, tree, m.evidence))
  {
    hide Mth, Check, CollisionAmong, ConsistencyInputs;
    assert head.timestamp > 0;
    if m.verified == [] {
      assert m.verified <= tree;
    } else {
      ConsistencySound(h, m.evidence, m.verified, tree);
    }
  }

  lemma VerifyTreeKeeps(h: TreeHasher, m: Monitor, tree: seq<Bytes>, head: Sth, proof: seq<Bytes>)
    requires h.Valid() && Inv(h, m) && m.phase == Verifying(tree, head)
    ensures var o := VerifyTree(h, m, tree, head, proof); o.Ok? && Inv(h, o.m) && Advances(h, m, o.m)
  {
    hide Mth, Check, CollisionAmong, ConsistencyInputs;
    if SthVerdict(h, Projected(h, tree), head, proof).Accepted? {
      AcceptedTree(h, m, tree, head, proof);
    }
  }

  lemma TakeSthKeeps(h: TreeHasher, m: Monitor, sth: Sth, signed: bool)
    requires h.Valid() && Inv(h, m) && m.phase == AskedSth
    ensures Inv(h, TakeSth(h, m, sth, signed)) && Advances(h, m, TakeSth(h, m, sth, signed))
  {
    hide Mth, Verdicts, CollisionAmong, ConsistencyInputs;
    EntriesKeeps(h, m);
  }

  lemma TakeProofKeeps(h: TreeHasher, m: Monitor, proof: seq<Bytes>)
    requires h.Valid() && Inv(h, m)
    ensures var o := TakeProof(h, m, proof); !o.Crash? && (o.Ok? ==> Inv(h, o.m) && Advances(h, m, o.m))
  {
    hide Mth, SthVerdict, Verdicts, CollisionAmong, ConsistencyInputs, VerifyTree, SetPending;
    match m.phase
    case AskedProof(a, b) => if SthVerdict(h, a, b, proof).Accepted? { SetPendingKeeps(h, m, b, proof); }
    case Verifying(tree, head) => VerifyTreeKeeps(h, m, tree, head, proof);
    case _ =>
  }

  lemma TakeBatchKeeps(h: TreeHasher, m: Monitor, entries: seq<Bytes>)
    requires h.Valid() && Inv(h, m)
    ensures var o := TakeBatch(h, m, entries); !o.Crash? && (o.Ok? ==> Inv(h, o.m) && Advances(h, m, o.m))
  {
    hide Mth, Verdicts, CollisionAmong, ConsistencyInputs;
  }

  /** No step breaks an assertion, and every step keeps the invariant and only moves forward. */
  lemma StepIsSafe(h: TreeHasher, m: Monitor, step: Step)
    requires h.Valid() && Inv(h, m)
    ensures !Apply(h, m, step).Crash?
    ensures Apply(h, m, step).Ok? ==> Inv(h, Apply(h, m, step).m) && Advances(h, m, Apply(h, m, step).m)
  {
    hide Mth, Verdicts, CollisionAmong, ConsistencyInputs, TakeSth, TakeProof, TakeBatch;
    match step
    case Update => if m.phase == Idle && m.pending.Some? { EntriesKeeps(h, m); }
    case SthReply(sth, signed) => if m.phase == AskedSth { TakeSthKeeps(h, m, sth, signed); }
    case ProofReply(proof) => TakeProofKeeps(h, m, proof);
    case Batch(entries) => TakeBatchKeeps(h, m, entries);
    case _ =>
  }

  // ---------- Runs ----------

  function RunFrom(h: TreeHasher, m: Monitor, steps: seq<Step>): Outcome {
    if steps == [] then Ok(m)
    else
      var before := RunFrom(h, m, steps[..|steps| - 1]);
      if before.Ok? then Apply(h, before.m, steps[|steps| - 1]) else before
  }

  /** A run from the first start of the monitor. */
  function Run(h: TreeHasher, steps: seq<Step>): Outcome {
    RunFrom(h, FIRST_RUN, steps)
  }

  /** All that the trees and the accepted proofs of a run hash. */
  ghost function RunInputs(h: TreeHasher, steps: seq<Step>): set<Bytes> {
    if steps == [] then {}
    else
      var before, after := Run(h, steps[..|steps| - 1]), Run(h, steps);
      RunInputs(h, steps[..|steps| - 1])
      + if before.Ok? && after.Ok? then ConsistencyInputs(h, before.m.verified, after.m.verified, before.m.evidence)
        else {}
  }

  lemma StartHolds(h: TreeHasher)
    ensures Inv(h, FIRST_RUN)
  {
  }

  /** No run breaks an assertion, and the invariant holds at the end of every run. */
  lemma {:induction false} RunIsSafe(h: TreeHasher, steps: seq<Step>)
    requires h.Valid()
    ensures !Run(h, steps).Crash?
    ensures Run(h, steps).Ok? ==> Inv(h, Run(h, steps).m)
  {
    hide Inv, Apply;
    if steps == [] {
      StartHolds(h);
    } else {
      var before := Run(h, steps[..|steps| - 1]);
      RunIsSafe(h, steps[..|steps| - 1]);
      if before.Ok? {
        StepIsSafe(h, before.m, steps[|steps| - 1]);
      }
    }
  }

  /** In every run, every tree head that counts as signed came in a reply with a good signature. */
  lemma {:induction false} SignedInReplies(h: TreeHasher, steps: seq<Step>, sth: Sth)
    requires Run(h, steps).Ok? && sth in Run(h, steps).m.signed
    ensures SthReply(sth, true) in steps && |sth.root| == h.digestSize
  {
    hide Apply;
    if steps != [] {
      var last := |steps| - 1;
      var before := Run(h, steps[..last]).m;
      if sth in before.signed {
        SignedInReplies(h, steps[..last], sth);
      } else {
        NewlySigned(h, before, steps[last], sth);
      }
    }
  }

  lemma NewlySigned(h: TreeHasher, m: Monitor, step: Step, sth: Sth)
    requires Apply(h, m, step).Ok? && sth in Apply(h, m, step).m.signed && sth !in m.signed
    ensures step == SthReply(sth, true) && |sth.root| == h.digestSize
  {
    hide Mth, SthVerdict;
  }

  /** In every run: the state file agrees with the memory; a verified tree head came in a reply with a good signature
      and has the size and the root hash of the verified tree, which is not empty. */
  lemma VerifiedHead(h: TreeHasher, steps: seq<Step>)
    requires h.Valid() && Run(h, steps).Ok? && Run(h, steps).m.hasVerified
    ensures var m := Run(h, steps).m;
      && m.verified != [] && SthReply(m.verifiedSth, true) in steps
      && m.verifiedSth.size == |m.verified| && m.verifiedSth.root == Mth(h, m.verified)
      && m.disk == Saved(true, m.verifiedSth, m.pending, m.verified, m.unverified)
  {
    hide Run, Mth, PendingMatches, PhaseMatches;
    RunIsSafe(h, steps);
    SignedInReplies(h, steps, Run(h, steps).m.verifiedSth);
  }

  /** In every run: a pending tree head came in a reply with a good signature, is newer and larger than the verified
      one, and was proved consistent with it. */
  lemma PendingHead(h: TreeHasher, steps: seq<Step>)
    requires h.Valid() && Run(h, steps).Ok? && Run(h, steps).m.pending.Some?
    ensures var m := Run(h, steps).m; var p := m.pending.value;
      && SthReply(p, true) in steps && p.timestamp > m.verifiedSth.timestamp && p.size > |m.verified|
      && Verdicts(h, |m.verified|, p.size, m.verifiedSth.root, p.root, m.evidence).Accepted?
  {
    hide Run, Mth, Verdicts, PhaseMatches;
    RunIsSafe(h, steps);
    SignedInReplies(h, steps, Run(h, steps).m.pending.value);
  }

  /** The tree head of an empty log is never accepted: in every run, whatever its hash, timestamp and signature and
      whatever the proof, the reply leaves the monitor without a verified or pending tree head, as it was. */
  lemma EmptyLogNeverAccepted(h: TreeHasher, steps: seq<Step>, sth: Sth, signed: bool, proof: seq<Bytes>)
    requires h.Valid() && Run(h, steps).Ok? && Run(h, steps).m.phase == AskedSth && sth.size == 0
    ensures var m := Run(h, steps).m; var o := Apply(h, m, SthReply(sth, signed));
      && o.Ok? && o.m == (if o.m.phase.AskedProof? then Received(m, sth).(phase := o.m.phase) else m.(phase := Idle))
      && (o.m.phase.AskedProof? ==> Apply(h, o.m, ProofReply(proof)) == Ok(o.m.(phase := Idle)))
      && (m.hasVerified ==> m.verifiedSth.size > 0) && (m.pending.Some? ==> m.pending.value.size > 0)
  {
    hide Run, Mth, Check;
    RunIsSafe(h, steps);
  }

  /** In every run, between any two moments: the timestamp of the verified tree head strictly increases with every
      change, its size never shrinks, and the later verified entries continue the earlier ones, or two inputs that
      were hashed during the run collide. */
  lemma {:induction false} RunAdvances(h: TreeHasher, steps: seq<Step>, k: nat)
    requires h.Valid() && k <= |steps| && Run(h, steps).Ok?
    ensures Run(h, steps[..k]).Ok?
    ensures var a, b := Run(h, steps[..k]).m, Run(h, steps).m;
      && (b.verifiedSth == a.verifiedSth || b.verifiedSth.timestamp > a.verifiedSth.timestamp)
      && (b.verifiedSth == a.verifiedSth ==> b.verified == a.verified)
      && a.verifiedSth.size <= b.verifiedSth.size
      && (a.verified <= b.verified || CollisionAmong(h, RunInputs(h, steps)))
  {
    hide Apply, CollisionAmong, ConsistencyInputs;
    if k == |steps| {
      assert steps[..k] == steps;
    } else {
      var last := |steps| - 1;
      assert steps[..last][..k] == steps[..k];
      RunAdvances(h, steps[..last], k);
      RunIsSafe(h, steps[..last]);
      RunIsSafe(h, steps);
      var m, m' := Run(h, steps[..last]).m, Run(h, steps).m;
      StepIsSafe(h, m, steps[last]);
      MoreCollisions(h, RunInputs(h, steps[..last]), RunInputs(h, steps));
      MoreCollisions(h, ConsistencyInputs(h, m.verified, m'.verified, m.evidence), RunInputs(h, steps));
    }
  }

  // ---------- Unverified entries ----------

  /** A scan left behind has failed since the last batch, start, proof or restart. */
  predicate Late(steps: seq<Step>) {
    if steps == [] then false
    else
      var step := steps[|steps| - 1];
      if step == LeftScanEnds(false) then true
      else if step.Batch? || step.Update? || step.ProofReply? || step.Restart? then false
      else Late(steps[..|steps| - 1])
  }

  /** What is unverified while entries are fetched or verified: the tree that is being built, or nothing new. */
  ghost predicate Knows(m: Monitor, late: bool) {
    m.phase.Fetching? || m.phase.Verifying? ==> m.unverified == if late then m.verified else m.phase.tree
  }

  lemma StepKnows(h: TreeHasher, m: Monitor, step: Step, late: bool, late': bool)
    requires Inv(h, m) && Knows(m, late) && Apply(h, m, step).Ok?
    requires late' == if step == LeftScanEnds(false) then true
                      else if step.Batch? || step.Update? || step.ProofReply? || step.Restart? then false else late
    ensures Knows(Apply(h, m, step).m, late')
  {
    hide Mth, Verdicts;
  }

  lemma {:induction false} RunKnows(h: TreeHasher, steps: seq<Step>)
    requires h.Valid() && Run(h, steps).Ok?
    ensures Knows(Run(h, steps).m, Late(steps))
  {
    hide Apply, Knows, Inv;
    if steps == [] {
      StartKnows();
    } else {
      var last := |steps| - 1;
      RunKnows(h, steps[..last]);
      RunIsSafe(h, steps[..last]);
      StepKnows(h, Run(h, steps[..last]).m, steps[last], Late(steps[..last]), Late(steps));
    }
  }

  lemma StartKnows()
    ensures Knows(FIRST_RUN, false)
  {
  }

  /** The step installs a new verified tree. */
  predicate Accepts(h: TreeHasher, m: Monitor, step: Step) {
    && m.phase.Verifying? && step.ProofReply?
    && SthVerdict(h, Projected(h, m.phase.tree), m.phase.head, step.proof).Accepted?
  }

  /** In every run, accepting a tree leaves the verified entries a prefix of the unverified ones exactly when no
      scan left behind has failed since the last batch of that tree arrived or its verification began. */
  lemma TidyExactly(h: TreeHasher, steps: seq<Step>, proof: seq<Bytes>)
    requires h.Valid() && Run(h, steps).Ok? && Accepts(h, Run(h, steps).m, ProofReply(proof))
    ensures var o := Apply(h, Run(h, steps).m, ProofReply(proof));
      o.Ok? && (o.m.verified <= o.m.unverified <==> !Late(steps))
  {
    hide Run, Mth, Verdicts;
    RunIsSafe(h, steps);
    RunKnows(h, steps);
    var m := Run(h, steps).m;
    AcceptedTree(h, m, m.phase.tree, m.phase.head, proof);
  }

  ghost predicate Tidy(m: Monitor) {
    && m.verified <= m.unverified
    && (m.phase.Fetching? || m.phase.Verifying? ==> m.verified <= m.phase.tree)
  }

  lemma TakeSthTidy(h: TreeHasher, m: Monitor, sth: Sth, signed: bool)
    requires Tidy(m)
    ensures Tidy(TakeSth(h, m, sth, signed))
  {
  }

  lemma TakeProofTidy(h: TreeHasher, m: Monitor, proof: seq<Bytes>, late: bool)
    requires Tidy(m) && Knows(m, late) && TakeProof(h, m, proof).Ok? && !(late && Accepts(h, m, ProofReply(proof)))
    ensures Tidy(TakeProof(h, m, proof).m)
  {
    hide Mth, SthVerdict, SetPending;
    if m.phase.AskedProof? {
      SetPendingTidy(m, m.phase.head, proof);
    }
  }

  lemma SetPendingTidy(m: Monitor, sth: Sth, proof: seq<Bytes>)
    requires Tidy(m)
    ensures Tidy(SetPending(m, sth, proof))
  {
  }

  lemma TakeBatchTidy(h: TreeHasher, m: Monitor, entries: seq<Bytes>)
    requires Tidy(m) && TakeBatch(h, m, entries).Ok?
    ensures Tidy(TakeBatch(h, m, entries).m)
  {
  }

  lemma StepTidy(h: TreeHasher, m: Monitor, step: Step, late: bool)
    requires h.Valid() && Inv(h, m) && Tidy(m) && Knows(m, late) && Apply(h, m, step).Ok?
    requires !(late && Accepts(h, m, step))
    ensures Tidy(Apply(h, m, step).m)
  {
    hide Mth, SthVerdict, HeadMatches, PendingMatches, PhaseMatches, TakeSth, TakeProof, TakeBatch, Accepts;
    match step
    case SthReply(sth, signed) => if m.phase == AskedSth { TakeSthTidy(h, m, sth, signed); }
    case ProofReply(proof) => TakeProofTidy(h, m, proof, late);
    case Batch(entries) => TakeBatchTidy(h, m, entries);
    case _ =>
  }

  /** A tree is accepted in step k although a scan left behind has failed since its last batch. */
  predicate AcceptsLate(h: TreeHasher, steps: seq<Step>, k: nat)
    requires k < |steps|
  {
    Run(h, steps[..k]).Ok? && Late(steps[..k]) && Accepts(h, Run(h, steps[..k]).m, steps[k])
  }

  ghost predicate NeverLate(h: TreeHasher, steps: seq<Step>) {
    forall k :: 0 <= k < |steps| ==> !AcceptsLate(h, steps, k)
  }

  ghost predicate PrefixAt(h: TreeHasher, steps: seq<Step>, k: nat)
    requires k <= |steps|
  {
    Run(h, steps[..k]).Ok? ==> Run(h, steps[..k]).m.verified <= Run(h, steps[..k]).m.unverified
  }

  lemma {:induction false} RunTidy(h: TreeHasher, steps: seq<Step>)
    requires h.Valid() && Run(h, steps).Ok? && NeverLate(h, steps)
    ensures Tidy(Run(h, steps).m)
  {
    hide Apply, Inv, Knows, Accepts, Late;
    if steps != [] {
      var last := |steps| - 1;
      forall k | 0 <= k < last
        ensures !AcceptsLate(h, steps[..last], k)
      {
        assert steps[..last][..k] == steps[..k] && !AcceptsLate(h, steps, k);
      }
      RunTidy(h, steps[..last]);
      RunIsSafe(h, steps[..last]);
      RunKnows(h, steps[..last]);
      assert !AcceptsLate(h, steps, last);
      StepTidy(h, Run(h, steps[..last]).m, steps[last], Late(steps[..last]));
    }
  }

  /** A run keeps the verified entries a prefix of the unverified ones at every moment exactly when it never accepts a
      tree after a scan left behind has failed. */
  lemma RunTidyExactly(h: TreeHasher, steps: seq<Step>)
    requires h.Valid() && Run(h, steps).Ok?
    ensures (forall k :: 0 <= k <= |steps| ==> PrefixAt(h, steps, k)) <==> NeverLate(h, steps)
  {
    hide Run, Apply, Late, Accepts;
    if NeverLate(h, steps) {
      forall k | 0 <= k <= |steps|
        ensures PrefixAt(h, steps, k)
      {
        NeverLatePrefix(h, steps, k);
      }
    } else {
      var k :| 0 <= k < |steps| && AcceptsLate(h, steps, k);
      LateBreaks(h, steps, k);
    }
  }

  lemma NeverLatePrefix(h: TreeHasher, steps: seq<Step>, k: nat)
    requires h.Valid() && k <= |steps| && NeverLate(h, steps)
    ensures PrefixAt(h, steps, k)
  {
    hide Run, Accepts, Late;
    if Run(h, steps[..k]).Ok? {
      forall j | 0 <= j < k
        ensures !AcceptsLate(h, steps[..k], j)
      {
        assert steps[..k][..j] == steps[..j] && !AcceptsLate(h, steps, j);
      }
      RunTidy(h, steps[..k]);
    }
  }

  lemma LateBreaks(h: TreeHasher, steps: seq<Step>, k: nat)
    requires h.Valid() && k < |steps| && AcceptsLate(h, steps, k)
    ensures !PrefixAt(h, steps, k + 1)
  {
    hide Apply, Late;
    TidyExactly(h, steps[..k], steps[k].proof);
    assert steps[..k + 1][..k] == steps[..k];
  }

  /** A run in which a scan of an abandoned fetch fails while the next fetch is being verified. */
  function LateScan(head: Sth, a: Bytes, b: Bytes): seq<Step> {
    [Update, SthReply(head, true), ProofReply([]), Batch([a]), RequestFails,
     Update, Batch([b]), ScanEnds(true), FetchDone, LeftScanEnds(false), ProofReply([])]
  }

  /** One more step of a run. */
  lemma Then(h: TreeHasher, start: Monitor, steps: seq<Step>, i: nat, m: Monitor, m': Monitor)
    requires i < |steps| && RunFrom(h, start, steps[..i]) == Ok(m) && Apply(h, m, steps[i]) == Ok(m')
    ensures RunFrom(h, start, steps[..i + 1]) == Ok(m')
  {
    hide Apply;
    assert steps[..i + 1][..i] == steps[..i];
  }

  lemma LateScanStarts(h: TreeHasher, head: Sth, a: Bytes, b: Bytes, m: Monitor)
    requires head.size == 2 && head.timestamp == 1 && |head.root| == h.digestSize
    requires m == FIRST_RUN.(pending := Some(head), unverified := h.HashLeaves([a]), leftScans := 1, signed := {head},
                            disk := Saved(false, NO_STH, Some(head), [], h.HashLeaves([a])))
    ensures RunFrom(h, FIRST_RUN, LateScan(head, a, b)[..5]) == Ok(m)
  {
    hide RunFrom, Check;
    var steps := LateScan(head, a, b);
    var m1 := FIRST_RUN.(phase := AskedSth);
    var m2 := FIRST_RUN.(phase := AskedProof(NO_STH, head), signed := {head});
    var m3 := m2.(pending := Some(head), phase := Fetching(0, 2, [], false),
                    disk := EMPTY_FILE.(pending := Some(head)));
    var m4 := m.(phase := Fetching(0, 2, h.HashLeaves([a]), true), leftScans := 0);
    assert [] + h.HashLeaves([a]) == h.HashLeaves([a]);
    RunNothing(h, FIRST_RUN, steps);
    Then(h, FIRST_RUN, steps, 0, FIRST_RUN, m1);
    Then(h, FIRST_RUN, steps, 1, m1, m2);
    Then(h, FIRST_RUN, steps, 2, m2, m3);
    Then(h, FIRST_RUN, steps, 3, m3, m4);
    Then(h, FIRST_RUN, steps, 4, m4, m);
  }

  lemma LateScanFetches(h: TreeHasher, head: Sth, a: Bytes, b: Bytes, m: Monitor)
    requires head.size == 2 && m.pending == Some(head) && m.phase == Idle && m.unverified == h.HashLeaves([a])
    requires m.disk == Saved(m.hasVerified, m.verifiedSth, m.pending, m.verified, m.unverified)
    requires RunFrom(h, FIRST_RUN, LateScan(head, a, b)[..5]) == Ok(m)
    ensures var tree := h.HashLeaves([a, b]);
      RunFrom(h, FIRST_RUN, LateScan(head, a, b)[..9])
      == Ok(m.(unverified := tree, phase := Verifying(tree, head), disk := m.disk.(unverified := tree)))
  {
    hide RunFrom;
    var one, tree := h.HashLeaves([a]), h.HashLeaves([a, b]);
    assert one + h.HashLeaves([b]) == tree;
    var steps := LateScan(head, a, b);
    var m6 := m.(phase := Fetching(1, 2, one, false));
    var m7 := m.(unverified := tree, phase := Fetching(1, 2, tree, true), disk := m.disk.(unverified := tree));
    var m8 := m7.(phase := Fetching(1, 2, tree, false));
    Then(h, FIRST_RUN, steps, 5, m, m6);
    Then(h, FIRST_RUN, steps, 6, m6, m7);
    Then(h, FIRST_RUN, steps, 7, m7, m8);
    Then(h, FIRST_RUN, steps, 8, m8, m7.(phase := Verifying(tree, head)));
  }

  lemma RunNothing(h: TreeHasher, m: Monitor, steps: seq<Step>)
    ensures RunFrom(h, m, steps[..0]) == Ok(m)
  {
  }

  lemma MthDigest(h: TreeHasher, leaves: seq<Bytes>)
    requires h.Valid() && h.Digests(leaves)
    ensures |Mth(h, leaves)| == h.digestSize
  {
  }

  /** After that run the two entries are verified, and nothing is left unverified. */
  lemma LateScanLoses(h: TreeHasher, a: Bytes, b: Bytes)
    requires h.Valid()
    ensures var o := Run(h, LateScan(Sth(1, 2, Mth(h, h.HashLeaves([a, b]))), a, b));
      o.Ok? && o.m.verified == h.HashLeaves([a, b]) && o.m.unverified == []
  {
    hide RunFrom, Mth, Check;
    var one, tree := h.HashLeaves([a]), h.HashLeaves([a, b]);
    var head := Sth(1, 2, Mth(h, tree));
    var steps := LateScan(head, a, b);
    var m5 := FIRST_RUN.(pending := Some(head), unverified := one, leftScans := 1, signed := {head},
                        disk := Saved(false, NO_STH, Some(head), [], one));
    MthDigest(h, tree);
    LateScanStarts(h, head, a, b, m5);
    LateScanFetches(h, head, a, b, m5);
    var m9 := m5.(unverified := tree, phase := Verifying(tree, head), disk := m5.disk.(unverified := tree));
    var m10 := m9.(unverified := [], leftScans := 0, disk := m5.disk.(unverified := []));
    var m11 := FIRST_RUN.(signed := {head}, hasVerified := true, verifiedSth := head, verified := tree,
                          disk := Saved(true, head, None, tree, []));
    Then(h, FIRST_RUN, steps, 9, m9, m10);
    Then(h, FIRST_RUN, steps, 10, m10, m11);
    assert steps[..11] == steps;
  }
}
