/**
 The specification of a sparse Merkle tree: a plain map from bit paths to leaf hashes, hashed as a
 complete binary tree in which every absent path holds the hash of the empty string.
 */
module SparseSpec {
  import opened TreeHashing

  type BitPath = seq<bool>

  /** The hash of the complete subtree below a prefix, for paths of `bits` bits. */
  ghost function Full(h: TreeHasher, bits: nat, content: map<BitPath, Bytes>, prefix: BitPath): Bytes
    requires |prefix| <= bits
    decreases bits - |prefix|
  {
    if |prefix| == bits then if prefix in content then content[prefix] else h.HashLeaf([])
    else h.HashChildren(Full(h, bits, content, prefix + [false]), Full(h, bits, content, prefix + [true]))
  }

  lemma FullFork(h: TreeHasher, bits: nat, leaves: map<BitPath, Bytes>, q: BitPath)
    requires |q| < bits
    ensures Full(h, bits, leaves, q)
         == h.HashChildren(Full(h, bits, leaves, q + [false]), Full(h, bits, leaves, q + [true]))
  {
  }

  /** The hash of an empty complete tree of the given height. */
  function NullHash(h: TreeHasher, height: nat): Bytes {
    if height == 0 then h.HashLeaf([]) else h.HashChildren(NullHash(h, height - 1), NullHash(h, height - 1))
  }

  /** A path leads through a prefix. */
  predicate Under(p: BitPath, prefix: BitPath) {
    prefix <= p
  }

  lemma UnderChild(p: BitPath, prefix: BitPath, b: bool)
    ensures Under(p, prefix + [b]) <==> Under(p, prefix) && |p| > |prefix| && p[|prefix|] == b
  {
  }

  /** One path of the content starts with the prefix. */
  ghost predicate Fits(content: map<BitPath, Bytes>, prefix: BitPath) {
    exists p :: p in content && Under(p, prefix)
  }

  /** Two paths of the content start with the prefix. */
  ghost predicate Two(content: map<BitPath, Bytes>, prefix: BitPath) {
    exists p, q :: p in content && q in content && p != q && Under(p, prefix) && Under(q, prefix)
  }

  ghost predicate Sized(content: map<BitPath, Bytes>, bits: nat) {
    forall p :: p in content ==> |p| == bits
  }

  /** Only the paths below a prefix matter for its hash. */
  lemma {:induction false} FullFrame(
      h: TreeHasher, bits: nat, a: map<BitPath, Bytes>, b: map<BitPath, Bytes>, prefix: BitPath)
    requires |prefix| <= bits
    requires forall p :: Under(p, prefix) ==> (p in a <==> p in b)
    requires forall p :: Under(p, prefix) && p in a && p in b ==> a[p] == b[p]
    ensures Full(h, bits, a, prefix) == Full(h, bits, b, prefix)
    decreases bits - |prefix|
  {
    if |prefix| < bits {
      forall p, bit: bool
        ensures Under(p, prefix + [bit]) ==> Under(p, prefix)
      {
        UnderChild(p, prefix, bit);
      }
      FullFrame(h, bits, a, b, prefix + [false]);
      FullFrame(h, bits, a, b, prefix + [true]);
    }
  }

  lemma {:induction false} FullNull(h: TreeHasher, bits: nat, content: map<BitPath, Bytes>, prefix: BitPath)
    requires |prefix| <= bits && !Fits(content, prefix)
    ensures Full(h, bits, content, prefix) == NullHash(h, bits - |prefix|)
    decreases bits - |prefix|
  {
    if |prefix| == bits {
      assert Under(prefix, prefix);
    } else {
      FitsChild(content, prefix, false);
      FitsChild(content, prefix, true);
      FullNull(h, bits, content, prefix + [false]);
      FullNull(h, bits, content, prefix + [true]);
    }
  }

  lemma FitsChild(content: map<BitPath, Bytes>, prefix: BitPath, b: bool)
    ensures Fits(content, prefix + [b]) ==> Fits(content, prefix)
    ensures Two(content, prefix + [b]) ==> Two(content, prefix)
  {
    forall p: BitPath
      ensures Under(p, prefix + [b]) ==> Under(p, prefix)
    {
      UnderChild(p, prefix, b);
    }
  }

  /** With one path below a prefix, one child is the subtree of that path and the other is empty. */
  lemma FullOne(h: TreeHasher, bits: nat, content: map<BitPath, Bytes>, prefix: BitPath, p: BitPath)
    requires |prefix| < bits && |p| == bits && p in content && Under(p, prefix) && !Two(content, prefix)
    ensures var b := p[|prefix|];
      && Under(p, prefix + [b]) && !Two(content, prefix + [b])
      && Full(h, bits, content, prefix)
         == if b then h.HashChildren(NullHash(h, bits - |prefix| - 1), Full(h, bits, content, prefix + [b]))
            else h.HashChildren(Full(h, bits, content, prefix + [b]), NullHash(h, bits - |prefix| - 1))
  {
    var b := p[|prefix|];
    UnderChild(p, prefix, b);
    FitsChild(content, prefix, b);
    if Fits(content, prefix + [!b]) {
      var q :| q in content && Under(q, prefix + [!b]);
      UnderChild(q, prefix, !b);
      assert false;
    }
    FullNull(h, bits, content, prefix + [!b]);
  }
}
