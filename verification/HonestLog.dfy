/**
 The monitor of `Monitor` and an honest log: true replies always bring it up to date, wherever it was interrupted.
 */
module HonestLog {
  import opened Options
  import opened TreeHashing
  import opened Verifiers
  import opened Monitor

  // ---------- Runs ----------

  /** A run in two parts. */
  lemma {:induction false} RunAppend(h: TreeHasher, m: Monitor, a: seq<Step>, b: seq<Step>)
    ensures var first := RunFrom(h, m, a);
      RunFrom(h, m, a + b) == if first.Ok? then RunFrom(h, first.m, b) else first
  {
    hide Apply;
    if b == [] {
      assert a + b == a;
    } else {
      var last := |b| - 1;
      RunAppend(h, m, a, b[..last]);
      assert (a + b)[..|a + b| - 1] == a + b[..last];
    }
  }

  lemma NothingRuns(h: TreeHasher, m: Monitor)
    ensures RunFrom(h, m, []) == Ok(m)
  {
  }

  lemma RunTwo(h: TreeHasher, m: Monitor, x: Step, y: Step, m1: Monitor, m2: Monitor)
    requires Apply(h, m, x) == Ok(m1) && Apply(h, m1, y) == Ok(m2)
    ensures RunFrom(h, m, [x, y]) == Ok(m2)
  {
    hide Apply;
    RunOne(h, m, x, m1);
    assert [x, y][..1] == [x];
  }

  lemma RunOne(h: TreeHasher, m: Monitor, x: Step, m1: Monitor)
    requires Apply(h, m, x) == Ok(m1)
    ensures RunFrom(h, m, [x]) == Ok(m1)
  {
    hide Apply;
    assert [x][..0] == [];
    NothingRuns(h, m);
  }

  // ---------- The replies ----------

  /** The tree head is that of the first entries of the log. */
  ghost predicate TrueHead(h: TreeHasher, data: seq<Bytes>, sth: Sth) {
    sth.size <= |data| && sth.root == Mth(h, h.HashLeaves(data)[..sth.size])
  }

  /** All that the monitor knows comes from the log: it may have stopped anywhere. */
  ghost predicate Belongs(h: TreeHasher, m: Monitor, data: seq<Bytes>) {
    && m.verified <= h.HashLeaves(data) && m.unverified <= h.HashLeaves(data)
    && (m.pending.Some? ==> TrueHead(h, data, m.pending.value))
  }

  /** The tree head that this update works for: the pending one, or a new one for all entries. */
  function Goal(h: TreeHasher, m: Monitor, data: seq<Bytes>, timestamp: nat): Sth {
    if m.pending.Some? then m.pending.value else Sth(timestamp, |data|, Mth(h, h.HashLeaves(data)))
  }

  function TrueProof(h: TreeHasher, m: Monitor, data: seq<Bytes>): seq<Bytes>
    requires |m.verified| <= |data|
  {
    if m.verified == [] then [] else Proof(h, |m.verified|, h.HashLeaves(data))
  }

  function Opening(h: TreeHasher, m: Monitor, data: seq<Bytes>, timestamp: nat): seq<Step>
    requires |m.verified| <= |data|
  {
    if m.pending.Some? then [Update]
    else [Update, SthReply(Goal(h, m, data, timestamp), true), ProofReply(TrueProof(h, m, data))]
  }

  /** Batches, each with a scan that succeeds. */
  function Fetches(batches: seq<seq<Bytes>>): seq<Step> {
    if batches == [] then [] else [Batch(batches[0]), ScanEnds(true)] + Fetches(batches[1..])
  }

  /** The proof for two trees of one size is not looked at. */
  function Closing(fetched: bool, any: seq<Bytes>): seq<Step> {
    if fetched then [FetchDone, ProofReply(any)] else [ProofReply(any)]
  }

  function Join(batches: seq<seq<Bytes>>): seq<Bytes> {
    if batches == [] then [] else batches[0] + Join(batches[1..])
  }

  /** The batches split the entries from one index to another. */
  ghost predicate Splits(batches: seq<seq<Bytes>>, data: seq<Bytes>, from: nat, to: nat) {
    && from <= to <= |data| && Join(batches) == data[from..to]
    && forall i :: 0 <= i < |batches| ==> batches[i] != []
  }

  // ---------- Opening ----------

  /** The state after the opening. */
  function Opened(h: TreeHasher, m: Monitor, data: seq<Bytes>, timestamp: nat): Monitor
    requires |m.verified| <= |data|
  {
    if m.pending.Some? then Entries(m)
    else
      var head := Goal(h, m, data, timestamp);
      Entries(Written(Received(m, head).(pending := Some(head), evidence := TrueProof(h, m, data))))
  }

  lemma OpeningWorks(h: TreeHasher, m: Monitor, data: seq<Bytes>, timestamp: nat)
    requires h.Valid() && Inv(h, m) && m.phase == Idle && Belongs(h, m, data)
    requires m.pending.None? ==> |m.verified| < |data| && timestamp > m.verifiedSth.timestamp
    ensures |m.verified| <= |data|
    ensures RunFrom(h, m, Opening(h, m, data, timestamp)) == Ok(Opened(h, m, data, timestamp))
  {
    hide RunFrom, Mth, Proof, SthVerdict;
    if m.pending.Some? {
      RunOne(h, m, Update, Entries(m));
    } else {
      var head, proof := Goal(h, m, data, timestamp), TrueProof(h, m, data);
      var m1, m2 := m.(phase := AskedSth), Received(m, head).(phase := AskedProof(m.verifiedSth, head));
      MthDigest(h, h.HashLeaves(data));
      HonestProof(h, m, data, head);
      RunTwo(h, m, Update, SthReply(head, true), m1, m2);
      RunOne(h, m2, ProofReply(proof), Opened(h, m, data, timestamp));
      RunAppend(h, m, [Update, SthReply(head, true)], [ProofReply(proof)]);
      assert Opening(h, m, data, timestamp) == [Update, SthReply(head, true)] + [ProofReply(proof)];
    }
  }

  lemma HonestProof(h: TreeHasher, m: Monitor, data: seq<Bytes>, head: Sth)
    requires h.Valid() && Inv(h, m) && |m.verified| < |data| && m.verified <= h.HashLeaves(data)
    requires head == Sth(head.timestamp, |data|, Mth(h, h.HashLeaves(data))) && head.timestamp > m.verifiedSth.timestamp
    ensures SthVerdict(h, m.verifiedSth, head, TrueProof(h, m, data)).Accepted?
  {
    hide Mth, Proof, Check;
    var leaves := h.HashLeaves(data);
    if m.verified != [] {
      assert m.verified == leaves[..|m.verified|];
      ConsistencyComplete(h, |m.verified|, leaves, []);
      assert TrueProof(h, m, data) + [] == TrueProof(h, m, data);
    }
  }

  // ---------- Fetching ----------

  /** The state after a batch whose scan succeeded. */
  function WithTree(m: Monitor, tree: seq<Bytes>): Monitor
    requires m.phase.Fetching?
  {
    Written(m.(unverified := tree, phase := Fetching(m.phase.start, m.phase.wanted, tree, false)))
  }

  lemma {:induction false} FetchingWorks(
      h: TreeHasher, m: Monitor, data: seq<Bytes>, k: nat, to: nat, batches: seq<seq<Bytes>>)
    requires Splits(batches, data, k, to) && m.phase.Fetching? && !m.phase.scanning && m.phase.wanted == to
    requires m.phase.tree == h.HashLeaves(data)[..k]
    ensures RunFrom(h, m, Fetches(batches))
         == Ok(if batches == [] then m else WithTree(m, h.HashLeaves(data)[..to]))
    ensures batches == [] <==> k == to
    decreases |batches|
  {
    hide RunFrom, Apply;
    if batches == [] {
      NothingRuns(h, m);
    } else {
      var b := batches[0];
      var next := k + |b|;
      SplitsTail(batches, data, k, to);
      OneFetch(h, m, data, k, to, b);
      FetchingWorks(h, WithTree(m, h.HashLeaves(data)[..next]), data, next, to, batches[1..]);
      RunAppend(h, m, [Batch(b), ScanEnds(true)], Fetches(batches[1..]));
    }
  }

  lemma SplitsTail(batches: seq<seq<Bytes>>, data: seq<Bytes>, k: nat, to: nat)
    requires Splits(batches, data, k, to) && batches != []
    ensures var next := k + |batches[0]|;
      k < next <= to && batches[0] == data[k..next] && Splits(batches[1..], data, next, to)
  {
    var b, rest := batches[0], Join(batches[1..]);
    assert |data[k..to]| == |b| + |rest|;
    assert b == data[k..to][..|b|] && rest == data[k..to][|b|..];
  }

  lemma OneFetch(h: TreeHasher, m: Monitor, data: seq<Bytes>, k: nat, to: nat, b: seq<Bytes>)
    requires k < to <= |data| && k + |b| <= to && b == data[k..k + |b|]
    requires m.phase.Fetching? && !m.phase.scanning && m.phase.wanted == to && m.phase.tree == h.HashLeaves(data)[..k]
    ensures RunFrom(h, m, [Batch(b), ScanEnds(true)]) == Ok(WithTree(m, h.HashLeaves(data)[..k + |b|]))
  {
    hide RunFrom;
    var tree := h.HashLeaves(data)[..k + |b|];
    assert m.phase.tree + h.HashLeaves(b) == tree;
    var m1 := Written(m.(unverified := tree, phase := Fetching(m.phase.start, to, tree, true)));
    RunTwo(h, m, Batch(b), ScanEnds(true), m1, WithTree(m, tree));
  }

  // ---------- Closing ----------

  /** The state in which the tree is verified. */
  function Closed(m: Monitor, tree: seq<Bytes>, head: Sth): Monitor {
    Written(m.(verified := tree, hasVerified := true, verifiedSth := head, pending := None, phase := Idle))
  }

  lemma ClosingWorks(h: TreeHasher, m: Monitor, tree: seq<Bytes>, head: Sth, fetched: bool, any: seq<Bytes>)
    requires m.pending == Some(head) && head.timestamp > 0 && |tree| == head.size && head.root == Mth(h, tree)
    requires if fetched then m.phase.Fetching? && !m.phase.scanning && m.phase.wanted == head.size
      && m.phase.tree == tree
             else m.phase == Verifying(tree, head)
    ensures RunFrom(h, m, Closing(fetched, any)) == Ok(Closed(m, tree, head))
  {
    hide RunFrom, Mth, Check;
    var m1 := m.(phase := Verifying(tree, head));
    assert Apply(h, m1, ProofReply(any)) == Ok(Closed(m, tree, head));
    if fetched {
      RunTwo(h, m, FetchDone, ProofReply(any), m1, Closed(m, tree, head));
    } else {
      RunOne(h, m, ProofReply(any), Closed(m, tree, head));
    }
  }

  // ---------- The update ----------

  /** From any idle state that an honest log has left the monitor in, with a pending tree head or none, with entries
      fetched or lost, and for any split of the missing entries into batches: true replies to one update end with the
      pending tree head verified, or, if there was none, with all entries of the log verified. */
  lemma HonestUpdate(
      h: TreeHasher, m: Monitor, data: seq<Bytes>, timestamp: nat, batches: seq<seq<Bytes>>, any: seq<Bytes>)
    requires h.Valid() && Inv(h, m) && m.phase == Idle && Belongs(h, m, data)
    requires m.pending.None? ==> |m.verified| < |data| && timestamp > m.verifiedSth.timestamp
    requires Splits(batches, data, |m.unverified|, Goal(h, m, data, timestamp).size)
    ensures |m.verified| <= |data|
    ensures var head := Goal(h, m, data, timestamp);
      var o := RunFrom(h, m, Opening(h, m, data, timestamp) + Fetches(batches) + Closing(batches != [], any));
      && o.Ok? && o.m.phase == Idle && o.m.pending.None? && o.m.verifiedSth == head
      && o.m.verified == h.HashLeaves(data)[..head.size] && o.m.unverified == o.m.verified
  {
    hide RunFrom, Mth, Proof, Check, Apply, Fetches;
    var head := Goal(h, m, data, timestamp);
    var tree := h.HashLeaves(data)[..head.size];
    assert m.pending.None? ==> tree == h.HashLeaves(data);
    OpeningWorks(h, m, data, timestamp);
    var m1 := Opened(h, m, data, timestamp);
    assert m.unverified == h.HashLeaves(data)[..|m.unverified|];
    var opening, fetches := Opening(h, m, data, timestamp), Fetches(batches);
    RunAppend(h, m, opening, fetches);
    RunAppend(h, m, opening + fetches, Closing(batches != [], any));
    if |m.unverified| < head.size {
      FetchingWorks(h, m1, data, |m.unverified|, head.size, batches);
      ClosingWorks(h, WithTree(m1, tree), tree, head, true, any);
    } else {
      NoBatches(h, m1, batches, data, head.size);
      ClosingWorks(h, m1, tree, head, false, any);
    }
  }

  /** With all entries of the log verified and nothing pending, a newer tree head for them becomes the verified one at
      once, whatever the proof is, and nothing is fetched. */
  lemma HonestRefresh(h: TreeHasher, m: Monitor, data: seq<Bytes>, timestamp: nat, any: seq<Bytes>)
    requires h.Valid() && Inv(h, m) && m.phase == Idle && m.pending.None? && data != []
    requires m.verified == h.HashLeaves(data) && timestamp > m.verifiedSth.timestamp
    ensures var head := Sth(timestamp, |data|, Mth(h, h.HashLeaves(data)));
      var o := RunFrom(h, m, [Update, SthReply(head, true), ProofReply(any)]);
      && o.Ok? && o.m.phase == Idle && o.m.pending.None? && o.m.verifiedSth == head == o.m.disk.verifiedSth
      && o.m.verified == m.verified && o.m.unverified == m.unverified
  {
    hide RunFrom, Mth;
    var head := Sth(timestamp, |data|, Mth(h, h.HashLeaves(data)));
    var m1, m2 := m.(phase := AskedSth), Received(m, head).(phase := AskedProof(m.verifiedSth, head));
    var m3 := Written(Received(m, head).(hasVerified := true, verifiedSth := head));
    MthDigest(h, h.HashLeaves(data));
    RunTwo(h, m, Update, SthReply(head, true), m1, m2);
    RunOne(h, m2, ProofReply(any), m3);
    RunAppend(h, m, [Update, SthReply(head, true)], [ProofReply(any)]);
    assert [Update, SthReply(head, true), ProofReply(any)] == [Update, SthReply(head, true)] + [ProofReply(any)];
  }

  lemma NoBatches(h: TreeHasher, m: Monitor, batches: seq<seq<Bytes>>, data: seq<Bytes>, to: nat)
    requires Splits(batches, data, to, to)
    ensures batches == [] && RunFrom(h, m, Fetches(batches)) == Ok(m)
  {
    if batches != [] {
      SplitsTail(batches, data, to, to);
    }
  }

  /** More unverified entries than the pending tree head has: one update drops them, whatever the proof, and keeps the
      rest, so that the next one starts from the verified entries. */
  lemma TooManyDropped(h: TreeHasher, m: Monitor, any: seq<Bytes>)
    requires Inv(h, m) && m.phase == Idle && m.pending.Some? && |m.unverified| > m.pending.value.size
    ensures RunFrom(h, m, [Update, ProofReply(any)]) == Ok(Discarded(m))
    ensures |Discarded(m).unverified| < m.pending.value.size
  {
    hide RunFrom, Mth, Verdicts;
    RunTwo(h, m, Update, ProofReply(any), m.(phase := Verifying(m.unverified, m.pending.value)), Discarded(m));
  }
}
