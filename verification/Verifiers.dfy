/**
 Verification of inclusion and consistency proofs: what a verdict proves, when a true proof
 is accepted, and when the alarm for an inconsistent log can be false.

 The verdicts are functions here; the loops that compute them in Python and in C++ are in
 `PythonVerifier` and `CppVerifier`.
 */
module Verifiers {
  import opened TreeHashing
  import opened Levels
  import opened AuditWalk

  /** How a consistency check ends. `rest` holds the proof nodes that were not used. */
  datatype Verdict =
    | Accepted(rest: seq<Bytes>)
    | BadProof
    | Inconsistent
    | BadSizes

  /** The check for sizes 0 < m < n. An even m is a full level: both trees move up together. */
  function Check(h: TreeHasher, m: nat, n: nat, root1: Bytes, root2: Bytes, proof: seq<Bytes>): Verdict
    requires 0 < m < n
    decreases m
  {
    if m % 2 == 0 then Check(h, m / 2, (n + 1) / 2, root1, root2, proof)
    else if m == 1 then CheckWalk(h, 0, n - 1, root1, proof, root1, root2)
    else if proof == [] then BadProof
    else CheckWalk(h, m - 1, n - 1, proof[0], proof[1..], root1, root2)
  }

  /** Compare both ends of the walk that starts with hash x with the two roots. */
  function CheckWalk(
      h: TreeHasher, node: nat, last: nat, x: Bytes, proof: seq<Bytes>, root1: Bytes, root2: Bytes): Verdict
  {
    match WalkUp(h, node, last, x, proof)
    case TooShort => BadProof
    case Walked(root, rest) =>
      if root != root2 then BadProof
      else if OldWalkUp(h, node, last, x, proof) != root1 then Inconsistent
      else Accepted(rest)
  }

  /** The verdict for any two sizes. */
  function Verdicts(h: TreeHasher, m: int, n: int, root1: Bytes, root2: Bytes, proof: seq<Bytes>): Verdict {
    if m < 0 || n < 0 || m > n then BadSizes
    else if m == n then
      if root1 == root2 then Accepted(proof) else Inconsistent
    else if m == 0 then Accepted(proof)
    else Check(h, m, n, root1, root2, proof)
  }

  /** The inputs that a consistency check hashes. */
  ghost function CheckInputs(h: TreeHasher, m: nat, n: nat, root1: Bytes, proof: seq<Bytes>): set<Bytes>
    requires 0 < m < n
    decreases m
  {
    if m % 2 == 0 then CheckInputs(h, m / 2, (n + 1) / 2, root1, proof)
    else if m == 1 then BothInputs(h, 0, n - 1, root1, proof)
    else if proof == [] then {}
    else BothInputs(h, m - 1, n - 1, proof[0], proof[1..])
  }

  ghost function BothInputs(h: TreeHasher, node: nat, last: nat, x: Bytes, proof: seq<Bytes>): set<Bytes> {
    WalkInputs(h, node, last, x, proof) + OldWalkInputs(h, node, last, x, proof)
  }

  // ---------- Completeness ----------

  lemma {:induction false} CheckLevelUp(h: TreeHasher, m: nat, d: seq<Bytes>)
    requires 0 < m && 2 * m < |d|
    ensures Mth(h, LevelUp(h, d)[..m]) == Mth(h, d[..2 * m]) && Mth(h, LevelUp(h, d)) == Mth(h, d)
    ensures Proof(h, 2 * m, d) == Proof(h, m, LevelUp(h, d))
  {
    LevelUpCut(h, d, m);
    MthLevelUp(h, d[..2 * m]);
    MthLevelUp(h, d);
    ProofLevelUp(h, d, m);
  }

  lemma CheckWalkComplete(h: TreeHasher, d: seq<Bytes>, index: nat, extra: seq<Bytes>)
    requires index < |d|
    ensures CheckWalk(h, index, |d| - 1, d[index], Path(h, index, d) + extra, Mth(h, d[..index + 1]), Mth(h, d))
         == Accepted(extra)
  {
    hide Path, Mth, WalkUp, OldWalkUp, LevelMth, LevelPath;
    PathByLevel(h, d, index);
    MthByLevel(h, d);
    MthByLevel(h, d[..index + 1]);
    WalkComplete(h, d, index, |d| - 1, extra);
    OldWalkComplete(h, d, index, |d| - 1, d[index], extra);
    assert d[..index] + [d[index]] == d[..index + 1];
  }

  /** PROOF(m, D) is accepted for the true roots, and the nodes after it are left over. */
  lemma {:induction false} ConsistencyComplete(h: TreeHasher, m: nat, d: seq<Bytes>, extra: seq<Bytes>)
    requires 0 < m < |d|
    ensures Check(h, m, |d|, Mth(h, d[..m]), Mth(h, d), Proof(h, m, d) + extra) == Accepted(extra)
    decreases m
  {
    hide CheckWalk, Mth, Path, Proof;
    var j := m / 2;
    if m % 2 == 0 {
      assert m == 2 * j;
      CheckLevelUp(h, j, d);
      ConsistencyComplete(h, j, LevelUp(h, d), extra);
    } else {
      assert m == 2 * j + 1;
      ProofIsPath(h, d, j);
      CheckWalkComplete(h, d, m - 1, extra);
      var p := Proof(h, m, d) + extra;
      if m == 1 {
        assert p == Path(h, 0, d) + extra;
        assert Mth(h, d[..1]) == d[0] by { MthOne(h, d[..1]); }
      } else {
        assert p[0] == d[m - 1] && p[1..] == Path(h, m - 1, d) + extra;
      }
    }
  }

  // ---------- Soundness ----------

  lemma LevelMthDigest(h: TreeHasher, nodes: seq<Bytes>)
    requires h.Valid() && h.Digests(nodes)
    ensures |LevelMth(h, nodes)| == h.digestSize
    decreases |nodes|
  {
    if |nodes| > 1 {
      LevelUpDigests(h, nodes);
    }
  }

  // One step of each recursive definition, for proofs that hide the rest of it.

  lemma TreeUp(h: TreeHasher, nodes: seq<Bytes>)
    ensures LevelMth(h, LevelUp(h, nodes)) == LevelMth(h, nodes)
    ensures TreeInputs(h, nodes) == PairInputs(nodes) + TreeInputs(h, LevelUp(h, nodes))
  {
  }

  lemma LeftStep(h: TreeHasher, node: nat, last: nat, x: Bytes, proof: seq<Bytes>)
    requires node % 2 == 0 && node < last && WalkUp(h, node, last, x, proof).Walked?
    ensures proof != []
    ensures var up := h.HashChildren(x, proof[0]);
            && WalkUp(h, node, last, x, proof) == WalkUp(h, node / 2, last / 2, up, proof[1..])
            && OldWalkUp(h, node, last, x, proof) == OldWalkUp(h, node / 2, last / 2, x, proof[1..])
            && BothInputs(h, node, last, x, proof) == {NodeInput(x, proof[0])}
                 + WalkInputs(h, node / 2, last / 2, up, proof[1..])
                 + OldWalkInputs(h, node / 2, last / 2, x, proof[1..])
  {
  }

  lemma CheckEven(h: TreeHasher, m: nat, n: nat, root1: Bytes, root2: Bytes, proof: seq<Bytes>)
    requires 0 < m < n && m % 2 == 0
    ensures Check(h, m, n, root1, root2, proof) == Check(h, m / 2, (n + 1) / 2, root1, root2, proof)
    ensures CheckInputs(h, m, n, root1, proof) == CheckInputs(h, m / 2, (n + 1) / 2, root1, proof)
    ensures IsPowerOfTwo(m) == IsPowerOfTwo(m / 2)
  {
  }

  lemma CheckOdd(h: TreeHasher, m: nat, n: nat, root1: Bytes, root2: Bytes, proof: seq<Bytes>)
    requires 0 < m < n && m % 2 == 1
    ensures IsPowerOfTwo(m) <==> m == 1
    ensures m > 1 && proof == [] ==> Check(h, m, n, root1, root2, proof) == BadProof
    ensures m == 1 || proof != [] ==>
      var (x, p) := if m == 1 then (root1, proof) else (proof[0], proof[1..]);
      && Check(h, m, n, root1, root2, proof) == CheckWalk(h, m - 1, n - 1, x, p, root1, root2)
      && CheckInputs(h, m, n, root1, proof) == BothInputs(h, m - 1, n - 1, x, p)
  {
  }

  /** An accepting walk from the last node of a tree with an odd number of leaves. The starting hash may have
      any length: only the old root fixes where it ends and its sibling begins. */
  lemma CheckWalkSound(
      h: TreeHasher, index: nat, last: nat, x: Bytes, proof: seq<Bytes>,
      d1: seq<Bytes>, d2: seq<Bytes>, inputs: set<Bytes>)
    requires h.Valid() && h.Digests(d1) && h.Digests(d2)
    requires |d1| == index + 1 && index % 2 == 0 && index < last == |d2| - 1
    requires TreeInputs(h, d1) <= inputs && TreeInputs(h, d2) <= inputs
    requires BothInputs(h, index, last, x, proof) <= inputs
    requires !CollisionAmong(h, inputs)
    requires CheckWalk(h, index, last, x, proof, LevelMth(h, d1), LevelMth(h, d2)).Accepted?
    ensures d1 == d2[..index + 1] && |x| == h.digestSize
  {
    hide WalkUp, OldWalkUp, WalkInputs, OldWalkInputs, BothInputs, LevelMth, LevelPath, TreeInputs, CollisionAmong;
    hide PairInputs, NodeInput, LevelUp;
    assert WalkUp(h, index, last, x, proof).Walked?;
    LeftStep(h, index, last, x, proof);
    var x', rest, up := h.HashChildren(x, proof[0]), WalkUp(h, index, last, x, proof).rest, LevelUp(h, d2);
    LevelUpDigests(h, d1);
    LevelUpDigests(h, d2);
    TreeUp(h, d1);
    TreeUp(h, d2);
    WalkSound(h, up, index / 2, last / 2, x', proof[1..], inputs);
    assert d1 == d2[..index] + [x] by {
      OldWalkSound(h, up, index / 2, last / 2, x, rest, LevelUp(h, d1), inputs);
      OldLevelDetermined(h, d2, index, x, d1, inputs);
    }
    assert x == d1[index] && h.Digests(d1);
    assert Combine(h, index, x, proof[0]) == x' && CombineInput(index, x, proof[0]) == NodeInput(x, proof[0]);
    CombineDetermined(h, d2, index, x, proof[0], inputs);
    TakeOneMore(d2, index);
  }

  lemma TakeOneMore<T>(s: seq<T>, i: nat)
    requires i < |s|
    ensures s[..i] + [s[i]] == s[..i + 1]
  {
  }

  lemma {:induction false} CheckSound(
      h: TreeHasher, proof: seq<Bytes>, d1: seq<Bytes>, d2: seq<Bytes>, n: nat, inputs: set<Bytes>)
    requires h.Valid() && h.Digests(d1) && h.Digests(d2)
    requires 0 < |d1| < |d2| == n
    requires TreeInputs(h, d1) <= inputs && TreeInputs(h, d2) <= inputs
    requires CheckInputs(h, |d1|, n, LevelMth(h, d1), proof) <= inputs
    requires !CollisionAmong(h, inputs)
    requires Check(h, |d1|, n, LevelMth(h, d1), LevelMth(h, d2), proof).Accepted?
    ensures d1 == d2[..|d1|]
    ensures IsPowerOfTwo(|d1|) || (proof != [] && |proof[0]| == h.digestSize)
    decreases |d1|
  {
    hide Check, CheckInputs, CheckWalk, BothInputs, LevelMth, TreeInputs, PairInputs, CollisionAmong, IsPowerOfTwo;
    var m, root1, root2 := |d1|, LevelMth(h, d1), LevelMth(h, d2);
    if m % 2 == 0 {
      CheckEven(h, m, n, root1, root2, proof);
      LevelUpDigests(h, d1);
      LevelUpDigests(h, d2);
      TreeUp(h, d1);
      TreeUp(h, d2);
      CheckSound(h, proof, LevelUp(h, d1), LevelUp(h, d2), (n + 1) / 2, inputs);
      LevelUpCut(h, d2, m / 2);
      PrefixPairs(d2, m);
      LevelUpInjective(h, d1, d2[..m], inputs);
    } else if m == 1 {
      CheckOdd(h, m, n, root1, root2, proof);
      CheckWalkSound(h, 0, n - 1, root1, proof, d1, d2, inputs);
    } else {
      CheckOdd(h, m, n, root1, root2, proof);
      CheckWalkSound(h, m - 1, n - 1, proof[0], proof[1..], d1, d2, inputs);
    }
  }

  lemma PrefixPairs(nodes: seq<Bytes>, m: nat)
    requires m <= |nodes|
    ensures PairInputs(nodes[..m]) <= PairInputs(nodes)
  {
    forall x | x in PairInputs(nodes[..m])
      ensures x in PairInputs(nodes)
    {
      var j :| 0 <= j < m / 2 && x == NodeInput(nodes[..m][2 * j], nodes[..m][2 * j + 1]);
      assert x == NodeInput(nodes[2 * j], nodes[2 * j + 1]);
    }
  }

  /** All inputs hashed to compute the two roots and to check a proof against them. */
  ghost function ConsistencyInputs(h: TreeHasher, d1: seq<Bytes>, d2: seq<Bytes>, proof: seq<Bytes>): set<Bytes> {
    TreeInputs(h, d1) + TreeInputs(h, d2)
    + if 0 < |d1| < |d2| then CheckInputs(h, |d1|, |d2|, Mth(h, d1), proof) else {}
  }

  /** Accepted consistency: the old leaves are a prefix of the new leaves, or two inputs collide. No condition
      is put on the proof or on the two sizes. */
  lemma ConsistencySound(h: TreeHasher, proof: seq<Bytes>, d1: seq<Bytes>, d2: seq<Bytes>)
    requires h.Valid() && h.Digests(d1) && h.Digests(d2)
    requires Verdicts(h, |d1|, |d2|, Mth(h, d1), Mth(h, d2), proof).Accepted?
    ensures d1 <= d2 || CollisionAmong(h, ConsistencyInputs(h, d1, d2, proof))
  {
    hide Check, CheckInputs, Mth, LevelMth, TreeInputs, CollisionAmong;
    var inputs := ConsistencyInputs(h, d1, d2, proof);
    if !CollisionAmong(h, inputs) {
      MthByLevel(h, d1);
      MthByLevel(h, d2);
      if |d1| == |d2| {
        MthInjective(h, d1, d2, inputs);
      } else if 0 < |d1| {
        CheckSound(h, proof, d1, d2, |d2|, inputs);
      }
    }
  }

  // ---------- Alarms ----------

  /** The guard that keeps alarms true: no first node is taken, or it is as long as a digest. */
  predicate FirstNodeSized(h: TreeHasher, m: nat, proof: seq<Bytes>) {
    IsPowerOfTwo(m) || proof == [] || |proof[0]| == h.digestSize
  }

  lemma CheckWalkNoAlarm(
      h: TreeHasher, x: Bytes, proof: seq<Bytes>, m: nat, d: seq<Bytes>, last: nat, inputs: set<Bytes>)
    requires h.Valid() && h.Digests(d) && |x| == h.digestSize
    requires 0 < m < |d| && last == |d| - 1
    requires TreeInputs(h, d) <= inputs && WalkInputs(h, m - 1, last, x, proof) <= inputs
    requires !CollisionAmong(h, inputs)
    ensures CheckWalk(h, m - 1, last, x, proof, LevelMth(h, d[..m]), LevelMth(h, d)) != Inconsistent
  {
    hide WalkUp, OldWalkUp, LevelMth, LevelPath, TreeInputs, WalkInputs, CollisionAmong;
    var w := WalkUp(h, m - 1, last, x, proof);
    if w.Walked? && w.root == LevelMth(h, d) {
      WalkSound(h, d, m - 1, last, x, proof, inputs);
      OldWalkComplete(h, d, m - 1, last, x, w.rest);
      assert d[..m - 1] + [x] == d[..m];
    }
  }

  lemma {:induction false} CheckNoAlarm(
      h: TreeHasher, proof: seq<Bytes>, m: nat, d: seq<Bytes>, n: nat, inputs: set<Bytes>)
    requires h.Valid() && h.Digests(d)
    requires 0 < m < |d| == n
    requires TreeInputs(h, d) <= inputs
    requires CheckInputs(h, m, n, LevelMth(h, d[..m]), proof) <= inputs
    requires !CollisionAmong(h, inputs)
    requires FirstNodeSized(h, m, proof)
    ensures Check(h, m, n, LevelMth(h, d[..m]), LevelMth(h, d), proof) != Inconsistent
    decreases m
  {
    hide Check, CheckInputs, CheckWalk, LevelMth, TreeInputs, PairInputs, CollisionAmong, IsPowerOfTwo;
    var root1, root2 := LevelMth(h, d[..m]), LevelMth(h, d);
    if m % 2 == 0 {
      CheckEven(h, m, n, root1, root2, proof);
      TreeUp(h, d);
      TreeUp(h, d[..m]);
      LevelUpDigests(h, d);
      LevelUpCut(h, d, m / 2);
      CheckNoAlarm(h, proof, m / 2, LevelUp(h, d), (n + 1) / 2, inputs);
    } else if m == 1 {
      CheckOdd(h, m, n, root1, root2, proof);
      LevelMthDigest(h, d[..1]);
      CheckWalkNoAlarm(h, root1, proof, 1, d, n - 1, inputs);
    } else if proof == [] {
      CheckOdd(h, m, n, root1, root2, proof);
    } else {
      CheckOdd(h, m, n, root1, root2, proof);
      CheckWalkNoAlarm(h, proof[0], proof[1..], m, d, n - 1, inputs);
    }
  }

  /** On two true roots of one list, a proof whose new root matches raises the alarm exactly when its first
      node is taken and has the wrong length, or else two inputs collide. */
  lemma AlarmExactly(h: TreeHasher, proof: seq<Bytes>, m: nat, d: seq<Bytes>)
    requires h.Valid() && h.Digests(d)
    requires 0 < m < |d|
    ensures var verdict := Check(h, m, |d|, Mth(h, d[..m]), Mth(h, d), proof);
      || CollisionAmong(h, ConsistencyInputs(h, d[..m], d, proof))
      || verdict == BadProof
      || (verdict == Inconsistent && !FirstNodeSized(h, m, proof))
      || (verdict.Accepted? && FirstNodeSized(h, m, proof))
  {
    hide CheckInputs, Mth, CheckWalk;
    var inputs := ConsistencyInputs(h, d[..m], d, proof);
    CheckVerdicts(h, m, |d|, Mth(h, d[..m]), Mth(h, d), proof);
    if !CollisionAmong(h, inputs) {
      hide Check;
      MthByLevel(h, d[..m]);
      MthByLevel(h, d);
      if FirstNodeSized(h, m, proof) {
        CheckNoAlarm(h, proof, m, d, |d|, inputs);
      } else if Check(h, m, |d|, Mth(h, d[..m]), Mth(h, d), proof).Accepted? {
        CheckSound(h, proof, d[..m], d, |d|, inputs);
      }
    }
  }

  /** The sizes decide first. A ValueError comes exactly for sizes below 0 or in the wrong order; at one size the roots
      alone decide, with an alarm if they differ; nothing is asked of a proof from size 0. */
  lemma SizesDecide(h: TreeHasher, m: int, n: int, root1: Bytes, root2: Bytes, proof: seq<Bytes>)
    ensures Verdicts(h, m, n, root1, root2, proof) == BadSizes <==> !(0 <= m <= n)
    ensures 0 <= m == n ==>
      Verdicts(h, m, n, root1, root2, proof) == if root1 == root2 then Accepted(proof) else Inconsistent
    ensures 0 == m < n ==> Verdicts(h, m, n, root1, root2, proof) == Accepted(proof)
  {
    hide Check;
    if 0 < m < n {
      CheckVerdicts(h, m, n, root1, root2, proof);
    }
  }

  /** A split view: two different lists of one size raise the alarm with every proof, or two hashed inputs collide. */
  lemma SplitViewAlarms(h: TreeHasher, a: seq<Bytes>, b: seq<Bytes>, proof: seq<Bytes>)
    requires h.Valid() && h.Digests(a) && h.Digests(b) && |a| == |b| && a != b
    ensures || Verdicts(h, |a|, |b|, Mth(h, a), Mth(h, b), proof) == Inconsistent
            || CollisionAmong(h, TreeInputs(h, a) + TreeInputs(h, b))
  {
    hide Mth, TreeInputs, CollisionAmong;
    SizesDecide(h, |a|, |b|, Mth(h, a), Mth(h, b), proof);
    MthByLevel(h, a);
    MthByLevel(h, b);
    if !CollisionAmong(h, TreeInputs(h, a) + TreeInputs(h, b)) && Mth(h, a) == Mth(h, b) {
      MthInjective(h, a, b, TreeInputs(h, a) + TreeInputs(h, b));
    }
  }

  lemma CheckVerdicts(h: TreeHasher, m: nat, n: nat, root1: Bytes, root2: Bytes, proof: seq<Bytes>)
    requires 0 < m < n
    ensures !Check(h, m, n, root1, root2, proof).BadSizes?
    decreases m
  {
  }

  /** A proof with one byte moved from the front of the second node to the end of the first. */
  function Shifted(proof: seq<Bytes>): seq<Bytes>
    requires |proof| >= 2 && |proof[1]| >= 1
  {
    [proof[0] + proof[1][..1], proof[1][1..]] + proof[2..]
  }

  lemma ShiftedWalk(h: TreeHasher, node: nat, last: nat, proof: seq<Bytes>)
    requires node % 2 == 0 && node < last && |proof| >= 2 && |proof[1]| >= 1
    requires WalkUp(h, node, last, proof[0], proof[1..]).Walked?
    ensures var s := Shifted(proof);
            WalkUp(h, node, last, s[0], s[1..]) == WalkUp(h, node, last, proof[0], proof[1..])
  {
    var s := Shifted(proof);
    assert proof[0] + proof[1] == s[0] + s[1];
    assert NodeInput(proof[0], proof[1]) == [1] + (proof[0] + proof[1]);
    assert NodeInput(s[0], s[1]) == [1] + (s[0] + s[1]);
    assert s[1..][1..] == proof[1..][1..];
  }

  /** Shifting a true proof does not change the new root it leads to. */
  lemma {:induction false} ShiftedKeepsNewRoot(h: TreeHasher, m: nat, d: seq<Bytes>)
    requires h.Valid() && h.Digests(d)
    requires 0 < m < |d| && !IsPowerOfTwo(m)
    ensures var p := Proof(h, m, d);
      && |p| >= 2 && |p[0]| == |p[1]| == h.digestSize
      && Check(h, m, |d|, Mth(h, d[..m]), Mth(h, d), Shifted(p)) != BadProof
    decreases m
  {
    hide CheckWalk, Mth, Path, Proof, Check;
    var j, p, root1, root2 := m / 2, Proof(h, m, d), Mth(h, d[..m]), Mth(h, d);
    if m % 2 == 0 {
      assert m == 2 * j;
      CheckLevelUp(h, j, d);
      LevelUpDigests(h, d);
      ShiftedKeepsNewRoot(h, j, LevelUp(h, d));
      CheckEven(h, m, |d|, root1, root2, Shifted(p));
    } else {
      assert m == 2 * j + 1;
      ProofIsPath(h, d, j);
      PathLevelUp(h, d, m - 1);
      assert p[0] == d[m - 1] && p[1] == d[m];
      assert p[1..] == Path(h, m - 1, d);
      CheckOdd(h, m, |d|, root1, root2, Shifted(p));
      ShiftedOdd(h, m, d, p);
    }
  }

  lemma ShiftedOdd(h: TreeHasher, m: nat, d: seq<Bytes>, p: seq<Bytes>)
    requires m % 2 == 1 && 1 < m < |d| && |p| >= 2 && |p[1]| >= 1
    requires p[0] == d[m - 1] && p[1..] == Path(h, m - 1, d)
    ensures CheckWalk(h, m - 1, |d| - 1, Shifted(p)[0], Shifted(p)[1..], Mth(h, d[..m]), Mth(h, d)) != BadProof
  {
    hide WalkUp, OldWalkUp, Path, Mth, LevelMth, LevelPath, Shifted;
    assert WalkUp(h, m - 1, |d| - 1, p[0], p[1..]) == Walked(Mth(h, d), []) by {
      PathByLevel(h, d, m - 1);
      MthByLevel(h, d);
      WalkComplete(h, d, m - 1, |d| - 1, []);
      assert Path(h, m - 1, d) + [] == Path(h, m - 1, d);
    }
    ShiftedWalk(h, m - 1, |d| - 1, p);
  }

  /** For every list and every old size that is not a power of two, one wrongly split proof raises the alarm
      although both roots are true. */
  lemma FalseAlarm(h: TreeHasher, m: nat, d: seq<Bytes>)
    requires h.Valid() && h.Digests(d)
    requires 0 < m < |d| && !IsPowerOfTwo(m)
    ensures var p := Proof(h, m, d);
      && |p| >= 2 && |p[1]| >= 1
      && (|| Check(h, m, |d|, Mth(h, d[..m]), Mth(h, d), Shifted(p)) == Inconsistent
          || CollisionAmong(h, ConsistencyInputs(h, d[..m], d, Shifted(p))))
  {
    hide Check, ConsistencyInputs, CollisionAmong, Mth, IsPowerOfTwo;
    ShiftedKeepsNewRoot(h, m, d);
    AlarmExactly(h, Shifted(Proof(h, m, d)), m, d);
  }

  // ---------- Inclusion ----------

  datatype RootResult = NoRoot | RootIs(root: Bytes)

  /** The root computed from a leaf hash and a whole audit path. */
  function InclusionRoot(h: TreeHasher, leafHash: Bytes, index: nat, size: nat, path: seq<Bytes>): RootResult
    requires index < size
  {
    match WalkUp(h, index, size - 1, leafHash, path)
    case TooShort => NoRoot
    case Walked(root, rest) => if rest == [] then RootIs(root) else NoRoot
  }

  /** A root is produced exactly for paths as long as PATH(index, D), for any D of that size. */
  lemma InclusionExact(h: TreeHasher, leafHash: Bytes, index: nat, d: seq<Bytes>, path: seq<Bytes>)
    requires index < |d|
    ensures InclusionRoot(h, leafHash, index, |d|, path).RootIs? <==> |path| == |Path(h, index, d)|
    ensures |Path(h, index, d)| == WalkLength(index, |d| - 1)
  {
    hide WalkUp, Path, WalkLength;
    WalkTakes(h, index, |d| - 1, leafHash, path);
    PathByLevel(h, d, index);
    PathLength(h, d, index, |d| - 1);
  }

  /** PATH(index, D) leads from leaf `index` to MTH(D). */
  lemma InclusionComplete(h: TreeHasher, index: nat, d: seq<Bytes>)
    requires index < |d|
    ensures InclusionRoot(h, d[index], index, |d|, Path(h, index, d)) == RootIs(Mth(h, d))
  {
    hide WalkUp, Path, Mth;
    PathByLevel(h, d, index);
    MthByLevel(h, d);
    WalkComplete(h, d, index, |d| - 1, []);
    assert Path(h, index, d) + [] == Path(h, index, d);
  }

  /** A path to MTH(D) starts at leaf `index` of D and is PATH(index, D) exactly when the leaf hash is as long as a
      digest, or two inputs collide. No condition is put on the leaf hash or on the path. */
  lemma InclusionSound(h: TreeHasher, leafHash: Bytes, index: nat, d: seq<Bytes>, path: seq<Bytes>)
    requires h.Valid() && h.Digests(d)
    requires index < |d|
    requires InclusionRoot(h, leafHash, index, |d|, path) == RootIs(Mth(h, d))
    ensures
      || (leafHash == d[index] && path == Path(h, index, d) <==> |leafHash| == h.digestSize)
      || CollisionAmong(h, TreeInputs(h, d) + WalkInputs(h, index, |d| - 1, leafHash, path))
  {
    hide WalkUp, Path, Mth, WalkInputs, TreeInputs;
    var inputs := TreeInputs(h, d) + WalkInputs(h, index, |d| - 1, leafHash, path);
    PathByLevel(h, d, index);
    MthByLevel(h, d);
    if |leafHash| == h.digestSize && !CollisionAmong(h, inputs) {
      WalkSound(h, d, index, |d| - 1, leafHash, path, inputs);
    }
  }

  /** The first sibling that a walk meets is on the left. */
  predicate FirstOnLeft(node: nat, last: nat)
    decreases last
  {
    last > 0 && if HasSibling(node, last) then node % 2 == 1 else FirstOnLeft(node / 2, last / 2)
  }

  /** A leaf hash with the nearest byte of its sibling, and the path without that byte. */
  function LongLeaf(left: bool, x: Bytes, path: seq<Bytes>): Bytes
    requires path != [] && path[0] != []
  {
    if left then path[0][|path[0]| - 1..] + x else x + path[0][..1]
  }

  function ShortPath(left: bool, path: seq<Bytes>): seq<Bytes>
    requires path != [] && path[0] != []
  {
    [if left then path[0][..|path[0]| - 1] else path[0][1..]] + path[1..]
  }

  lemma {:induction false} LongLeafWalk(h: TreeHasher, node: nat, last: nat, x: Bytes, path: seq<Bytes>)
    requires node <= last && last > 0 && path != [] && path[0] != []
    ensures var left := FirstOnLeft(node, last);
      WalkUp(h, node, last, LongLeaf(left, x, path), ShortPath(left, path)) == WalkUp(h, node, last, x, path)
    decreases last
  {
    if HasSibling(node, last) {
      var left := node % 2 == 1;
      LongLeafInput(left, x, path);
      assert ShortPath(left, path)[1..] == path[1..];
    } else {
      LongLeafWalk(h, node / 2, last / 2, x, path);
    }
  }

  lemma LongLeafInput(left: bool, x: Bytes, path: seq<Bytes>)
    requires path != [] && path[0] != []
    ensures var x', p := LongLeaf(left, x, path), ShortPath(left, path)[0];
      if left then NodeInput(p, x') == NodeInput(path[0], x) else NodeInput(x', p) == NodeInput(x, path[0])
  {
    var x', p := LongLeaf(left, x, path), ShortPath(left, path)[0];
    if left {
      assert p + x' == path[0] + x;
      assert NodeInput(p, x') == [1] + (p + x') && NodeInput(path[0], x) == [1] + (path[0] + x);
    } else {
      assert x' + p == x + path[0];
      assert NodeInput(x', p) == [1] + (x' + p) && NodeInput(x, path[0]) == [1] + (x + path[0]);
    }
  }

  lemma {:induction false} LevelPathDigests(h: TreeHasher, nodes: seq<Bytes>, index: nat)
    requires h.Valid() && h.Digests(nodes) && index < |nodes|
    ensures h.Digests(LevelPath(h, nodes, index))
    decreases |nodes|
  {
    if |nodes| > 1 {
      LevelUpDigests(h, nodes);
      LevelPathDigests(h, LevelUp(h, nodes), index / 2);
    }
  }

  /** In every tree of two leaves or more, every leaf has a longer leaf hash that is accepted in its place with a
      wrongly split path. */
  lemma FalseInclusion(h: TreeHasher, index: nat, d: seq<Bytes>)
    requires h.Valid() && h.Digests(d) && index < |d| && |d| > 1
    ensures var p, left := Path(h, index, d), FirstOnLeft(index, |d| - 1);
      && p != [] && p[0] != []
      && InclusionRoot(h, LongLeaf(left, d[index], p), index, |d|, ShortPath(left, p)) == RootIs(Mth(h, d))
      && |LongLeaf(left, d[index], p)| == h.digestSize + 1
  {
    hide WalkUp, Path, Mth, LevelPath;
    var p := Path(h, index, d);
    InclusionComplete(h, index, d);
    PathByLevel(h, d, index);
    LevelPathDigests(h, d, index);
    PathLength(h, d, index, |d| - 1);
    WalkNotDone(index, |d| - 1);
    LongLeafWalk(h, index, |d| - 1, d[index], p);
  }
}
