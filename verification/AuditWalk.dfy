/**
 The walk of a Merkle verifier from a node to the root, and what its result proves.

 All four verification routines of the repository (inclusion and consistency, in Python
 and in C++) run this walk; they differ in where it starts and in how leftover or missing
 proof nodes are treated.
 */
module AuditWalk {
  import opened TreeHashing
  import opened Levels

  datatype Walk = TooShort | Walked(root: Bytes, rest: seq<Bytes>)

  /** The walk takes a proof node at this step: the node has a sibling. */
  predicate HasSibling(node: nat, last: nat) {
    node % 2 == 1 || node < last
  }

  function Combine(h: TreeHasher, node: nat, x: Bytes, sibling: Bytes): Bytes {
    if node % 2 == 1 then h.HashChildren(sibling, x) else h.HashChildren(x, sibling)
  }

  /** Walk up from `node` on a level whose last index is `last`, starting with hash x. */
  function WalkUp(h: TreeHasher, node: nat, last: nat, x: Bytes, proof: seq<Bytes>): Walk
    decreases last
  {
    if last == 0 then Walked(x, proof)
    else if !HasSibling(node, last) then WalkUp(h, node / 2, last / 2, x, proof)
    else if proof == [] then TooShort
    else WalkUp(h, node / 2, last / 2, Combine(h, node, x, proof[0]), proof[1..])
  }

  /** The same walk in the tree that ends at `node`: only left siblings exist there. */
  function OldWalkUp(h: TreeHasher, node: nat, last: nat, x: Bytes, proof: seq<Bytes>): Bytes
    decreases last
  {
    if last == 0 then x
    else if !HasSibling(node, last) then OldWalkUp(h, node / 2, last / 2, x, proof)
    else if proof == [] then x
    else
      OldWalkUp(h, node / 2, last / 2, if node % 2 == 1 then h.HashChildren(proof[0], x) else x, proof[1..])
  }

  /** The number of proof nodes a walk takes. */
  function WalkLength(node: nat, last: nat): nat
    decreases last
  {
    if last == 0 then 0
    else (if HasSibling(node, last) then 1 else 0) + WalkLength(node / 2, last / 2)
  }

  // ---------- Length ----------

  /** A walk succeeds exactly when there are enough nodes, and takes exactly its length. */
  lemma {:induction false} WalkTakes(h: TreeHasher, node: nat, last: nat, x: Bytes, proof: seq<Bytes>)
    ensures WalkUp(h, node, last, x, proof).Walked? <==> |proof| >= WalkLength(node, last)
    ensures |proof| >= WalkLength(node, last) ==>
      WalkUp(h, node, last, x, proof).rest == proof[WalkLength(node, last)..]
    decreases last
  {
    if last > 0 {
      if !HasSibling(node, last) {
        WalkTakes(h, node / 2, last / 2, x, proof);
      } else if proof != [] {
        WalkTakes(h, node / 2, last / 2, Combine(h, node, x, proof[0]), proof[1..]);
      }
    }
  }

  /** Below the root, the walk of an existing node still has a step with a sibling ahead of it. */
  lemma {:induction false} WalkNotDone(node: nat, last: nat)
    requires node <= last && last > 0
    ensures WalkLength(node, last) > 0
    decreases last
  {
    if !HasSibling(node, last) {
      WalkNotDone(node / 2, last / 2);
    }
  }

  /** An audit path is as long as the walk over it. */
  lemma {:induction false} PathLength(h: TreeHasher, nodes: seq<Bytes>, index: nat, last: nat)
    requires index < |nodes| && last == |nodes| - 1
    ensures |LevelPath(h, nodes, index)| == WalkLength(index, last)
    decreases |nodes|
  {
    if |nodes| > 1 {
      LevelUpAt(h, nodes, index);
      PathLength(h, LevelUp(h, nodes), index / 2, last / 2);
    }
  }

  // ---------- Completeness ----------

  lemma LevelUpAt(h: TreeHasher, nodes: seq<Bytes>, index: nat)
    requires index < |nodes|
    ensures index / 2 < |LevelUp(h, nodes)| && |LevelUp(h, nodes)| - 1 == (|nodes| - 1) / 2
    ensures HasSibling(index, |nodes| - 1) ==>
      && |Sibling(nodes, index)| == 1
      && LevelUp(h, nodes)[index / 2] == Combine(h, index, nodes[index], Sibling(nodes, index)[0])
    ensures !HasSibling(index, |nodes| - 1) ==>
      && Sibling(nodes, index) == []
      && LevelUp(h, nodes)[index / 2] == nodes[index]
  {
  }

  lemma LevelPathStep(h: TreeHasher, nodes: seq<Bytes>, index: nat, rest: seq<Bytes>)
    requires index < |nodes| && |nodes| > 1
    ensures var p := LevelPath(h, nodes, index) + rest;
            var q := LevelPath(h, LevelUp(h, nodes), index / 2) + rest;
            p == if HasSibling(index, |nodes| - 1) then Sibling(nodes, index) + q else q
  {
    hide LevelPath, LevelUp;
    var s, q := Sibling(nodes, index), LevelPath(h, LevelUp(h, nodes), index / 2);
    LevelPathUnfold(h, nodes, index);
    assert (s + q) + rest == s + (q + rest);
    assert [] + (q + rest) == q + rest;
  }

  /** From the right node with the right audit path, the walk ends at the root. */
  lemma {:induction false} WalkComplete(h: TreeHasher, nodes: seq<Bytes>, index: nat, last: nat, rest: seq<Bytes>)
    requires index < |nodes| && last == |nodes| - 1
    ensures WalkUp(h, index, last, nodes[index], LevelPath(h, nodes, index) + rest)
         == Walked(LevelMth(h, nodes), rest)
    decreases |nodes|
  {
    var p := LevelPath(h, nodes, index) + rest;
    if |nodes| == 1 {
      assert p == rest;
    } else {
      var up := LevelUp(h, nodes);
      var q := LevelPath(h, up, index / 2) + rest;
      LevelUpAt(h, nodes, index);
      LevelPathStep(h, nodes, index, rest);
      WalkComplete(h, up, index / 2, last / 2, rest);
      if HasSibling(index, last) {
        assert p[0] == Sibling(nodes, index)[0] && p[1..] == q;
      }
    }
  }

  lemma LevelUpReplaceLast(h: TreeHasher, nodes: seq<Bytes>, index: nat, x: Bytes)
    requires index < |nodes|
    ensures LevelUp(h, nodes[..index] + [x])
         == LevelUp(h, nodes)[..index / 2] + [if index % 2 == 1 then h.HashChildren(nodes[index - 1], x) else x]
  {
  }

  /** On the right audit path, the old walk ends at the root of the nodes up to the starting one. */
  lemma {:induction false} OldWalkComplete(
      h: TreeHasher, nodes: seq<Bytes>, index: nat, last: nat, x: Bytes, rest: seq<Bytes>)
    requires index < |nodes| && last == |nodes| - 1
    ensures OldWalkUp(h, index, last, x, LevelPath(h, nodes, index) + rest) == LevelMth(h, nodes[..index] + [x])
    decreases |nodes|
  {
    var p := LevelPath(h, nodes, index) + rest;
    if |nodes| > 1 {
      var up := LevelUp(h, nodes);
      var x' := if index % 2 == 1 then h.HashChildren(nodes[index - 1], x) else x;
      var q := LevelPath(h, up, index / 2) + rest;
      LevelUpAt(h, nodes, index);
      LevelPathStep(h, nodes, index, rest);
      OldWalkComplete(h, up, index / 2, last / 2, x', rest);
      if HasSibling(index, last) {
        assert p[0] == Sibling(nodes, index)[0] && p[1..] == q;
      }
      assert OldWalkUp(h, index, last, x, p) == OldWalkUp(h, index / 2, last / 2, x', q);
      LevelMthReplaceLast(h, nodes, index, x);
    }
  }

  lemma LevelMthReplaceLast(h: TreeHasher, nodes: seq<Bytes>, index: nat, x: Bytes)
    requires index < |nodes|
    ensures LevelMth(h, nodes[..index] + [x])
         == LevelMth(h, LevelUp(h, nodes)[..index / 2]
                        + [if index % 2 == 1 then h.HashChildren(nodes[index - 1], x) else x])
  {
    LevelUpReplaceLast(h, nodes, index, x);
  }

  // ---------- Soundness ----------

  /** The inputs hashed to get from one level to the next. */
  ghost function PairInputs(nodes: seq<Bytes>): set<Bytes> {
    set j | 0 <= j < |nodes| / 2 :: NodeInput(nodes[2 * j], nodes[2 * j + 1])
  }

  /** The inputs hashed to compute a tree hash from its leaves. */
  ghost function TreeInputs(h: TreeHasher, nodes: seq<Bytes>): set<Bytes>
    decreases |nodes|
  {
    if |nodes| <= 1 then {} else PairInputs(nodes) + TreeInputs(h, LevelUp(h, nodes))
  }

  function CombineInput(node: nat, x: Bytes, sibling: Bytes): Bytes {
    if node % 2 == 1 then NodeInput(sibling, x) else NodeInput(x, sibling)
  }

  /** The inputs hashed by a walk. */
  ghost function WalkInputs(h: TreeHasher, node: nat, last: nat, x: Bytes, proof: seq<Bytes>): set<Bytes>
    decreases last
  {
    if last == 0 then {}
    else if !HasSibling(node, last) then WalkInputs(h, node / 2, last / 2, x, proof)
    else if proof == [] then {}
    else
      {CombineInput(node, x, proof[0])} + WalkInputs(h, node / 2, last / 2, Combine(h, node, x, proof[0]), proof[1..])
  }

  lemma CombineDetermined(h: TreeHasher, nodes: seq<Bytes>, index: nat, x: Bytes, sibling: Bytes, inputs: set<Bytes>)
    requires h.Digests(nodes) && |x| == h.digestSize
    requires index < |nodes| && HasSibling(index, |nodes| - 1)
    requires PairInputs(nodes) <= inputs && CombineInput(index, x, sibling) in inputs
    requires !CollisionAmong(h, inputs)
    requires Combine(h, index, x, sibling) == LevelUp(h, nodes)[index / 2]
    ensures x == nodes[index] && [sibling] == Sibling(nodes, index)
  {
    var j := index / 2;
    assert NodeInput(nodes[2 * j], nodes[2 * j + 1]) in PairInputs(nodes);
    assert LevelUp(h, nodes)[j] == h.HashChildren(nodes[2 * j], nodes[2 * j + 1]);
    if index % 2 == 1 {
      assert |NodeInput(sibling, x)| == |NodeInput(nodes[2 * j], nodes[2 * j + 1])|;
      ChildrenDetermined(h, sibling, x, nodes[2 * j], nodes[2 * j + 1], inputs);
    } else {
      ChildrenDetermined(h, x, sibling, nodes[2 * j], nodes[2 * j + 1], inputs);
    }
  }

  lemma WalkStep(h: TreeHasher, node: nat, last: nat, x: Bytes, proof: seq<Bytes>)
    requires last > 0 && WalkUp(h, node, last, x, proof).Walked?
    ensures HasSibling(node, last) ==> proof != [] && var x' := Combine(h, node, x, proof[0]);
      && WalkUp(h, node, last, x, proof) == WalkUp(h, node / 2, last / 2, x', proof[1..])
      && WalkInputs(h, node, last, x, proof)
           == {CombineInput(node, x, proof[0])} + WalkInputs(h, node / 2, last / 2, x', proof[1..])
    ensures !HasSibling(node, last) ==>
      && WalkUp(h, node, last, x, proof) == WalkUp(h, node / 2, last / 2, x, proof)
      && WalkInputs(h, node, last, x, proof) == WalkInputs(h, node / 2, last / 2, x, proof)
  {
  }

  lemma TreeStep(h: TreeHasher, nodes: seq<Bytes>)
    requires |nodes| > 1
    ensures TreeInputs(h, nodes) == PairInputs(nodes) + TreeInputs(h, LevelUp(h, nodes))
    ensures LevelMth(h, nodes) == LevelMth(h, LevelUp(h, nodes))
  {
  }

  lemma WalkBase(h: TreeHasher, nodes: seq<Bytes>, x: Bytes, proof: seq<Bytes>)
    requires |nodes| == 1
    ensures WalkUp(h, 0, 0, x, proof) == Walked(x, proof) && LevelMth(h, nodes) == nodes[0]
    ensures LevelPath(h, nodes, 0) == []
  {
  }

  /** A walk that ends at the root of a tree started at that tree's node and used its audit path. */
  lemma {:induction false} WalkSound(
      h: TreeHasher, nodes: seq<Bytes>, index: nat, last: nat, x: Bytes, proof: seq<Bytes>, inputs: set<Bytes>)
    requires h.Valid() && h.Digests(nodes) && |x| == h.digestSize
    requires index < |nodes| && last == |nodes| - 1
    requires TreeInputs(h, nodes) <= inputs && WalkInputs(h, index, last, x, proof) <= inputs
    requires !CollisionAmong(h, inputs)
    requires WalkUp(h, index, last, x, proof).Walked?
    requires WalkUp(h, index, last, x, proof).root == LevelMth(h, nodes)
    ensures x == nodes[index]
    ensures proof == LevelPath(h, nodes, index) + WalkUp(h, index, last, x, proof).rest
    decreases |nodes|
  {
    hide WalkUp, WalkInputs, TreeInputs, PairInputs, LevelMth, LevelPath, LevelUp, CollisionAmong;
    if |nodes| > 1 {
      var up, rest := LevelUp(h, nodes), WalkUp(h, index, last, x, proof).rest;
      WalkStep(h, index, last, x, proof);
      TreeStep(h, nodes);
      LevelPathStep(h, nodes, index, rest);
      LevelUpAt(h, nodes, index);
      LevelUpDigests(h, nodes);
      if HasSibling(index, last) {
        CombineLength(h, index, x, proof[0]);
        WalkSound(h, up, index / 2, last / 2, Combine(h, index, x, proof[0]), proof[1..], inputs);
        CombineDetermined(h, nodes, index, x, proof[0], inputs);
        assert proof == [proof[0]] + proof[1..];
      } else {
        WalkSound(h, up, index / 2, last / 2, x, proof, inputs);
      }
    } else {
      WalkBase(h, nodes, x, proof);
    }
  }

  lemma CombineLength(h: TreeHasher, index: nat, x: Bytes, sibling: Bytes)
    requires h.Valid()
    ensures |Combine(h, index, x, sibling)| == h.digestSize
  {
  }

  /** Trees of one size with the same hash have the same leaves. */
  lemma {:induction false} MthInjective(h: TreeHasher, a: seq<Bytes>, b: seq<Bytes>, inputs: set<Bytes>)
    requires h.Valid() && h.Digests(a) && h.Digests(b) && |a| == |b|
    requires TreeInputs(h, a) <= inputs && TreeInputs(h, b) <= inputs
    requires !CollisionAmong(h, inputs)
    requires LevelMth(h, a) == LevelMth(h, b)
    ensures a == b
    decreases |a|
  {
    if |a| > 1 {
      LevelUpDigests(h, a);
      LevelUpDigests(h, b);
      MthInjective(h, LevelUp(h, a), LevelUp(h, b), inputs);
      LevelUpInjective(h, a, b, inputs);
    }
  }

  lemma LevelUpInjective(h: TreeHasher, a: seq<Bytes>, b: seq<Bytes>, inputs: set<Bytes>)
    requires h.Digests(a) && h.Digests(b) && |a| == |b|
    requires PairInputs(a) <= inputs && PairInputs(b) <= inputs
    requires !CollisionAmong(h, inputs)
    requires LevelUp(h, a) == LevelUp(h, b)
    ensures a == b
  {
    forall i | 0 <= i < |a|
      ensures a[i] == b[i]
    {
      var j := i / 2;
      assert LevelUp(h, a)[j] == LevelUp(h, b)[j];
      if 2 * j + 1 < |a| {
        assert NodeInput(a[2 * j], a[2 * j + 1]) in PairInputs(a);
        assert NodeInput(b[2 * j], b[2 * j + 1]) in PairInputs(b);
        ChildrenDetermined(h, a[2 * j], a[2 * j + 1], b[2 * j], b[2 * j + 1], inputs);
      }
    }
  }

  /** The inputs hashed by the walk in the old tree. */
  ghost function OldWalkInputs(h: TreeHasher, node: nat, last: nat, x: Bytes, proof: seq<Bytes>): set<Bytes>
    decreases last
  {
    if last == 0 then {}
    else if !HasSibling(node, last) then OldWalkInputs(h, node / 2, last / 2, x, proof)
    else if proof == [] then {}
    else if node % 2 == 1 then
      {NodeInput(proof[0], x)} + OldWalkInputs(h, node / 2, last / 2, h.HashChildren(proof[0], x), proof[1..])
    else OldWalkInputs(h, node / 2, last / 2, x, proof[1..])
  }

  /** If the old walk over a right audit path ends at the root of `prev`, then `prev` is the nodes before the
      starting one, and then the starting hash: whatever the length of that hash is. */
  lemma {:induction false} OldWalkSound(
      h: TreeHasher, nodes: seq<Bytes>, index: nat, last: nat, x: Bytes, rest: seq<Bytes>,
      prev: seq<Bytes>, inputs: set<Bytes>)
    requires h.Valid() && h.Digests(nodes) && h.Digests(prev)
    requires index < |nodes| && last == |nodes| - 1 && |prev| == index + 1
    requires TreeInputs(h, nodes) <= inputs && TreeInputs(h, prev) <= inputs
    requires OldWalkInputs(h, index, last, x, LevelPath(h, nodes, index) + rest) <= inputs
    requires !CollisionAmong(h, inputs)
    requires OldWalkUp(h, index, last, x, LevelPath(h, nodes, index) + rest) == LevelMth(h, prev)
    ensures prev == nodes[..index] + [x]
    decreases |nodes|
  {
    var p := LevelPath(h, nodes, index) + rest;
    if |nodes| > 1 {
      var up := LevelUp(h, nodes);
      var x' := if index % 2 == 1 then h.HashChildren(nodes[index - 1], x) else x;
      var q := LevelPath(h, up, index / 2) + rest;
      LevelUpAt(h, nodes, index);
      LevelPathStep(h, nodes, index, rest);
      if HasSibling(index, last) {
        assert p[0] == Sibling(nodes, index)[0] && p[1..] == q;
      }
      LevelUpDigests(h, nodes);
      LevelUpDigests(h, prev);
      OldWalkSound(h, up, index / 2, last / 2, x', rest, LevelUp(h, prev), inputs);
      OldLevelDetermined(h, nodes, index, x, prev, inputs);
    }
  }

  lemma OldLevelDetermined(h: TreeHasher, nodes: seq<Bytes>, index: nat, x: Bytes, prev: seq<Bytes>, inputs: set<Bytes>)
    requires h.Digests(nodes) && h.Digests(prev) && index < |nodes| && |prev| == index + 1
    requires PairInputs(nodes) <= inputs && PairInputs(prev) <= inputs
    requires index % 2 == 1 ==> NodeInput(nodes[index - 1], x) in inputs
    requires !CollisionAmong(h, inputs)
    requires LevelUp(h, prev) == LevelUp(h, nodes)[..index / 2]
                              + [if index % 2 == 1 then h.HashChildren(nodes[index - 1], x) else x]
    ensures prev == nodes[..index] + [x]
  {
    hide CollisionAmong, NodeInput, TreeHasher.HashChildren;
    forall i | 0 <= i < |prev|
      ensures prev[i] == (nodes[..index] + [x])[i]
    {
      var j := i / 2;
      if 2 * j + 1 < |prev| {
        assert NodeInput(prev[2 * j], prev[2 * j + 1]) in PairInputs(prev);
        if 2 * j + 1 < index {
          assert NodeInput(nodes[2 * j], nodes[2 * j + 1]) in PairInputs(nodes);
          assert LevelUp(h, prev)[j] == LevelUp(h, nodes)[j];
          ChildrenDetermined(h, prev[2 * j], prev[2 * j + 1], nodes[2 * j], nodes[2 * j + 1], inputs);
        } else {
          assert LevelUp(h, prev)[j] == h.HashChildren(nodes[index - 1], x);
          ChildrenDetermined(h, prev[2 * j], prev[2 * j + 1], nodes[index - 1], x, inputs);
        }
      } else {
        assert LevelUp(h, prev)[j] == x;
      }
    }
  }
}
