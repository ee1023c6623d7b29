/** `MerkleVerifier` of python/ct/crypto/merkle.py: the loops, proved to compute the verdicts of `Verifiers`. */
module PythonVerifier {
  import opened TreeHashing
  import opened AuditWalk
  import opened Verifiers

  datatype InclusionVerdict = Included | InclusionProofError | InclusionValueError

  method VerifyTreeConsistency(
      h: TreeHasher, oldSize: int, newSize: int, oldRoot: Bytes, newRoot: Bytes, proof: seq<Bytes>)
    returns (v: Verdict)
    ensures v == Verdicts(h, oldSize, newSize, oldRoot, newRoot, proof)
  {
    if oldSize < 0 || newSize < 0 {
      return BadSizes;
    }
    if oldSize > newSize {
      return BadSizes;
    }
    if oldSize == newSize {
      if oldRoot == newRoot {
        return Accepted(proof);
      }
      return Inconsistent;
    }
    if oldSize == 0 {
      return Accepted(proof);
    }
    v := Loops(h, oldSize, newSize, oldRoot, newRoot, proof);
  }

  /** The part for 0 < oldSize < newSize. */
  method Loops(h: TreeHasher, oldSize: nat, newSize: nat, oldRoot: Bytes, newRoot: Bytes, proof: seq<Bytes>)
    returns (v: Verdict)
    requires 0 < oldSize < newSize
    ensures v == Check(h, oldSize, newSize, oldRoot, newRoot, proof)
  {
    hide WalkUp, OldWalkUp;
    var node, last := oldSize - 1, newSize - 1;
    while node % 2 == 1
      invariant 0 <= node < last
      invariant Check(h, node + 1, last + 1, oldRoot, newRoot, proof)
        == Check(h, oldSize, newSize, oldRoot, newRoot, proof)
      decreases node
    {
      node, last := node / 2, last / 2;
    }

    var p := proof;
    var oldHash, newHash := oldRoot, oldRoot;
    if node != 0 {
      if p == [] {
        return BadProof;
      }
      oldHash, newHash, p := p[0], p[0], p[1..];
    }
    v := Climb(h, node, last, newHash, p, oldRoot, newRoot);
  }

  /** The two climbing loops, from the first node on which the trees differ. */
  method Climb(h: TreeHasher, node0: nat, last0: nat, start: Bytes, path: seq<Bytes>, oldRoot: Bytes, newRoot: Bytes)
    returns (v: Verdict)
    requires node0 < last0
    ensures v == CheckWalk(h, node0, last0, start, path, oldRoot, newRoot)
  {
    var node, last, oldHash, newHash, p := node0, last0, start, start, path;
    while node != 0
      invariant 0 <= node <= last
      invariant WalkUp(h, node, last, newHash, p) == WalkUp(h, node0, last0, start, path)
      invariant WalkUp(h, node, last, newHash, p).Walked? ==>
                  OldWalkUp(h, node, last, oldHash, p) == OldWalkUp(h, node0, last0, start, path)
    {
      if node % 2 == 1 {
        if p == [] {
          return BadProof;
        }
        oldHash, newHash, p := h.HashChildren(p[0], oldHash), h.HashChildren(p[0], newHash), p[1..];
      } else if node < last {
        if p == [] {
          return BadProof;
        }
        newHash, p := h.HashChildren(newHash, p[0]), p[1..];
      }
      node, last := node / 2, last / 2;
    }
    while last != 0
      invariant 0 <= last
      invariant WalkUp(h, 0, last, newHash, p) == WalkUp(h, node0, last0, start, path)
      invariant WalkUp(h, 0, last, newHash, p).Walked? ==>
                  OldWalkUp(h, 0, last, oldHash, p) == OldWalkUp(h, node0, last0, start, path)
    {
      if p == [] {
        return BadProof;
      }
      newHash, p, last := h.HashChildren(newHash, p[0]), p[1..], last / 2;
    }
    if newHash != newRoot {
      return BadProof;
    } else if oldHash != oldRoot {
      return Inconsistent;
    }
    return Accepted(p);
  }

  /** `_calculate_root_hash_from_audit_path`: `NoRoot` stands for a ProofError. */
  method RootHashFromAuditPath(h: TreeHasher, leafHash: Bytes, index: nat, path: seq<Bytes>, size: nat)
    returns (r: RootResult)
    requires index < size
    ensures r == InclusionRoot(h, leafHash, index, size, path)
  {
    var hash, node, last, p := leafHash, index, size - 1, path;
    while last > 0
      invariant 0 <= node <= last
      invariant WalkUp(h, node, last, hash, p) == WalkUp(h, index, size - 1, leafHash, path)
    {
      if p == [] {
        WalkNotDone(node, last);
        WalkTakes(h, node, last, hash, p);
        return NoRoot;
      }
      if node % 2 == 1 {
        hash, p := h.HashChildren(p[0], hash), p[1..];
      } else if node < last {
        hash, p := h.HashChildren(hash, p[0]), p[1..];
      }
      node, last := node / 2, last / 2;
    }
    if p != [] {
      return NoRoot;
    }
    return RootIs(hash);
  }

  method AuditPathLength(index: nat, size: nat) returns (length: nat)
    requires index < size
    ensures length == WalkLength(index, size - 1)
  {
    length := 0;
    var node, last := index, size - 1;
    while last > 0
      invariant 0 <= node && 0 <= last
      invariant length + WalkLength(node, last) == WalkLength(index, size - 1)
    {
      if node % 2 == 1 || node < last {
        length := length + 1;
      }
      node, last := node / 2, last / 2;
    }
  }

  method VerifyLeafHashInclusion(h: TreeHasher, leafHash: Bytes, index: int, proof: seq<Bytes>, size: int, root: Bytes)
    returns (v: InclusionVerdict)
    ensures v == InclusionValueError <==> !(0 <= index < size)
    ensures 0 <= index < size ==> (v == Included <==> InclusionRoot(h, leafHash, index, size, proof) == RootIs(root))
  {
    if size <= index {
      return InclusionValueError;
    }
    if size < 0 || index < 0 {
      return InclusionValueError;
    }
    var r := RootHashFromAuditPath(h, leafHash, index, proof, size);
    if r == RootIs(root) {
      return Included;
    }
    return InclusionProofError;
  }
}
