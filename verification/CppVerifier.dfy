/** `MerkleVerifier` of cpp/merkletree/merkle_verifier.cc. The empty string stands for "no root", as in the source. */
module CppVerifier {
  import opened TreeHashing
  import opened AuditWalk
  import opened Verifiers

  /** Accepts exactly when the Python verifier accepts and leaves no proof node over. */
  method VerifyConsistency(h: TreeHasher, snapshot1: nat, snapshot2: nat, root1: Bytes, root2: Bytes, proof: seq<Bytes>)
    returns (ok: bool)
    ensures ok <==> Verdicts(h, snapshot1, snapshot2, root1, root2, proof) == Accepted([])
  {
    if snapshot1 > snapshot2 {
      return false;
    }
    if snapshot1 == snapshot2 {
      return root1 == root2 && proof == [];
    }
    if snapshot1 == 0 {
      return proof == [];
    }
    ok := Loops(h, snapshot1, snapshot2, root1, root2, proof);
  }

  method Loops(h: TreeHasher, snapshot1: nat, snapshot2: nat, root1: Bytes, root2: Bytes, proof: seq<Bytes>)
    returns (ok: bool)
    requires 0 < snapshot1 < snapshot2
    ensures ok <==> Check(h, snapshot1, snapshot2, root1, root2, proof) == Accepted([])
  {
    hide WalkUp, OldWalkUp;
    var node, last := snapshot1 - 1, snapshot2 - 1;
    if proof == [] {
      EmptyProofFails(h, snapshot1, snapshot2, root1, root2);
      return false;
    }
    var it := 0;
    while node % 2 == 1
      invariant 0 <= node < last
      invariant Check(h, node + 1, last + 1, root1, root2, proof) == Check(h, snapshot1, snapshot2, root1, root2, proof)
      decreases node
    {
      node, last := node / 2, last / 2;
    }
    var start := root1;
    if node != 0 {
      start, it := proof[0], 1;
    }
    ok := Climb(h, node, last, start, proof[it..], root1, root2);
  }

  lemma EmptyProofFails(h: TreeHasher, m: nat, n: nat, root1: Bytes, root2: Bytes)
    requires 0 < m < n
    ensures Check(h, m, n, root1, root2, []) == BadProof
    decreases m
  {
    if m % 2 == 0 {
      EmptyProofFails(h, m / 2, (n + 1) / 2, root1, root2);
    } else if m == 1 {
      WalkNotDone(0, n - 1);
      WalkTakes(h, 0, n - 1, root1, []);
    }
  }

  method Climb(h: TreeHasher, node0: nat, last0: nat, start: Bytes, path: seq<Bytes>, root1: Bytes, root2: Bytes)
    returns (ok: bool)
    requires node0 < last0
    ensures ok <==> CheckWalk(h, node0, last0, start, path, root1, root2) == Accepted([])
  {
    var node, last, hash1, hash2, it := node0, last0, start, start, 0;
    while node != 0
      invariant 0 <= node <= last && it <= |path|
      invariant WalkUp(h, node, last, hash2, path[it..]) == WalkUp(h, node0, last0, start, path)
      invariant WalkUp(h, node, last, hash2, path[it..]).Walked? ==>
                  OldWalkUp(h, node, last, hash1, path[it..]) == OldWalkUp(h, node0, last0, start, path)
    {
      if it == |path| {
        WalkNotDone(node, last);
        WalkTakes(h, node, last, hash2, path[it..]);
        return false;
      }
      if node % 2 == 1 {
        hash1 := h.HashChildren(path[it], hash1);
        hash2 := h.HashChildren(path[it], hash2);
        it := it + 1;
      } else if node < last {
        hash2 := h.HashChildren(hash2, path[it]);
        it := it + 1;
      }
      node, last := node / 2, last / 2;
    }
    OldRootFixed(h, last, hash1, path[it..]);
    if hash1 != root1 {
      return false;
    }
    while last != 0
      invariant 0 <= last && it <= |path|
      invariant WalkUp(h, 0, last, hash2, path[it..]) == WalkUp(h, node0, last0, start, path)
    {
      if it == |path| {
        return false;
      }
      hash2, it, last := h.HashChildren(hash2, path[it]), it + 1, last / 2;
    }
    return hash2 == root2 && it == |path|;
  }

  /** From node 0 the old root no longer changes. */
  lemma {:induction false} OldRootFixed(h: TreeHasher, last: nat, x: Bytes, proof: seq<Bytes>)
    ensures OldWalkUp(h, 0, last, x, proof) == x
    decreases last
  {
    if last > 0 && proof != [] {
      OldRootFixed(h, last / 2, x, proof[1..]);
    }
  }

  method RootFromPath(h: TreeHasher, leaf: nat, size: nat, path: seq<Bytes>, data: Bytes) returns (root: Bytes)
    requires h.Valid()
    ensures root != [] <==> 0 < leaf <= size && InclusionRoot(h, h.HashLeaf(data), leaf - 1, size, path).RootIs?
    ensures root != [] ==> InclusionRoot(h, h.HashLeaf(data), leaf - 1, size, path) == RootIs(root)
  {
    if leaf > size || leaf == 0 {
      return [];
    }
    var node, last, hash, it := leaf - 1, size - 1, h.HashLeaf(data), 0;
    while last != 0
      invariant 0 <= node <= last && it <= |path| && |hash| == h.digestSize
      invariant WalkUp(h, node, last, hash, path[it..]) == WalkUp(h, leaf - 1, size - 1, h.HashLeaf(data), path)
    {
      if it == |path| {
        WalkNotDone(node, last);
        WalkTakes(h, node, last, hash, path[it..]);
        return [];
      }
      if node % 2 == 1 {
        hash, it := h.HashChildren(path[it], hash), it + 1;
      } else if node < last {
        hash, it := h.HashChildren(hash, path[it]), it + 1;
      }
      node, last := node / 2, last / 2;
    }
    if it != |path| {
      return [];
    }
    return hash;
  }

  method VerifyPath(h: TreeHasher, leaf: nat, size: nat, path: seq<Bytes>, root: Bytes, data: Bytes) returns (ok: bool)
    requires h.Valid()
    ensures ok <==> 0 < leaf <= size && InclusionRoot(h, h.HashLeaf(data), leaf - 1, size, path) == RootIs(root)
  {
    var pathRoot := RootFromPath(h, leaf, size, path, data);
    if pathRoot == [] {
      return false;
    }
    return pathRoot == root;
  }
}
