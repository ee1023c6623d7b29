/**
 `TreeHasher._hash_full` and `_hash_fold`, and `CompactMerkleTree`, of python/ct/crypto/merkle.py.

 A compact tree represents a list of leaf hashes when it stores the hashes of that list's full
 subtrees in descending order of size.
 */
module PythonCompactTree {
  import opened Options
  import opened TreeHashing
  import opened Levels
  import opened Bits
  import opened FullSubtrees

  // ---------- Hashing ----------

  /** `_hash_full`: the root and the full subtree hashes of data[lo:hi]; `None` stands for an IndexError. */
  function HashFull(h: TreeHasher, data: seq<Bytes>, lo: int, hi: int): Option<(Bytes, seq<Bytes>)>
    decreases hi - lo
  {
    var width := hi - lo;
    if width < 0 || lo < 0 || hi > |data| then None
    else if width == 0 then Some((h.HashEmpty(), []))
    else if width == 1 then Some((h.HashLeaf(data[lo]), [h.HashLeaf(data[lo])]))
    else
      var k := Split(width);
      var left, right := HashFull(h, data, lo, lo + k), HashFull(h, data, lo + k, hi);
      if left.None? || right.None? then None
      else
        var root := h.HashChildren(left.value.0, right.value.0);
        Some((root, if 2 * k == width then [root] else left.value.1 + right.value.1))
  }

  function SplitLog(n: nat): (j: nat)
    requires n >= 2
    ensures Pow2(j) == Split(n)
  {
    if n == 2 then 0 else 1 + SplitLog((n + 1) / 2)
  }

  lemma MthUnfold(h: TreeHasher, nodes: seq<Bytes>, k: nat)
    requires |nodes| >= 2 && k == Split(|nodes|)
    ensures Mth(h, nodes) == h.HashChildren(Mth(h, nodes[..k]), Mth(h, nodes[k..]))
  {
  }

  /** The subtrees of a list, from its largest full subtree and the rest. */
  lemma DescendingSplit(h: TreeHasher, nodes: seq<Bytes>, k: nat)
    requires |nodes| >= 2 && k == Split(|nodes|)
    ensures Descending(h, nodes[..k]) == [Mth(h, nodes[..k])]
    ensures Mth(h, nodes) == h.HashChildren(Mth(h, nodes[..k]), Mth(h, nodes[k..]))
    ensures |nodes| == 2 * k ==> Descending(h, nodes) == [Mth(h, nodes)]
    ensures |nodes| != 2 * k ==> Descending(h, nodes) == [Mth(h, nodes[..k])] + Descending(h, nodes[k..])
  {
    hide Mth, Descending, Split;
    MthUnfold(h, nodes, k);
    var j := SplitLog(|nodes|);
    DescendingFull(h, nodes[..k], j);
    if |nodes| == 2 * k {
      DescendingFull(h, nodes, j + 1);
    } else {
      assert nodes == nodes[..k] + nodes[k..];
      DescendingAppend(h, nodes[..k], nodes[k..], 1, j);
    }
  }

  lemma HashFullUnfold(h: TreeHasher, data: seq<Bytes>, lo: nat, hi: nat, k: nat)
    requires lo + 2 <= hi <= |data| && k == Split(hi - lo)
    requires HashFull(h, data, lo, lo + k).Some? && HashFull(h, data, lo + k, hi).Some?
    ensures var left, right := HashFull(h, data, lo, lo + k).value, HashFull(h, data, lo + k, hi).value;
      var root := h.HashChildren(left.0, right.0);
      HashFull(h, data, lo, hi) == Some((root, if 2 * k == hi - lo then [root] else left.1 + right.1))
  {
  }

  /** `_hash_full` computes the Merkle Tree Hash and the full subtrees of the range; its assertions hold. */
  lemma {:induction false} HashFullIs(h: TreeHasher, data: seq<Bytes>, lo: nat, hi: nat)
    requires lo <= hi <= |data|
    ensures var d := h.HashLeaves(data)[lo..hi];
      HashFull(h, data, lo, hi) == Some((Mth(h, d), Descending(h, d)))
    decreases hi - lo
  {
    hide Mth, Descending, HashFull, TreeHasher.HashLeaves;
    var all := h.HashLeaves(data);
    var d := all[lo..hi];
    if hi - lo <= 1 {
      HashFullSmall(h, data, lo, hi);
    } else {
      var k := Split(hi - lo);
      assert d[..k] == all[lo..lo + k] && d[k..] == all[lo + k..hi];
      HashFullIs(h, data, lo, lo + k);
      HashFullIs(h, data, lo + k, hi);
      HashFullUnfold(h, data, lo, hi, k);
      DescendingSplit(h, d, k);
    }
  }

  lemma HashFullSmall(h: TreeHasher, data: seq<Bytes>, lo: nat, hi: nat)
    requires lo <= hi <= |data| && hi - lo <= 1
    ensures var d := h.HashLeaves(data)[lo..hi];
      HashFull(h, data, lo, hi) == Some((Mth(h, d), Descending(h, d)))
  {
    if lo < hi {
      var d := h.HashLeaves(data)[lo..hi];
      assert d == [h.HashLeaf(data[lo])];
      hide Mth, Descending;
      MthOne(h, d);
      DescendingFull(h, d, 0);
    }
  }

  /** A fold of subtree hashes from the smallest to the largest. */
  function FoldHashes(h: TreeHasher, hashes: seq<Bytes>): Bytes
    requires hashes != []
  {
    if |hashes| == 1 then hashes[0] else h.HashChildren(hashes[0], FoldHashes(h, hashes[1..]))
  }

  /** `_hash_fold`. */
  method HashFold(h: TreeHasher, hashes: seq<Bytes>) returns (accum: Bytes)
    requires hashes != []
    ensures accum == FoldHashes(h, hashes)
  {
    var i := |hashes| - 1;
    accum := hashes[i];
    assert hashes[i..] == [hashes[i]];
    while i > 0
      invariant 0 <= i < |hashes|
      invariant accum == FoldHashes(h, hashes[i..])
    {
      i := i - 1;
      assert hashes[i..][1..] == hashes[i + 1..];
      accum := h.HashChildren(hashes[i], accum);
    }
    assert hashes[0..] == hashes;
  }

  /** Folding the subtree hashes of a list gives its Merkle Tree Hash. */
  lemma {:induction false} FoldIsRoot(h: TreeHasher, nodes: seq<Bytes>)
    requires nodes != []
    ensures Descending(h, nodes) != [] && FoldHashes(h, Descending(h, nodes)) == Mth(h, nodes)
    decreases |nodes|
  {
    hide Mth, Descending, Split;
    if |nodes| == 1 {
      MthOne(h, nodes);
      DescendingFull(h, nodes, 0);
    } else {
      var k := Split(|nodes|);
      DescendingSplit(h, nodes, k);
      FoldIsRoot(h, nodes[k..]);
      if |nodes| != 2 * k {
        assert Descending(h, nodes)[1..] == Descending(h, nodes[k..]);
      }
    }
  }

  // ---------- The lowest bit ----------

  /** n is an odd multiple of the power of two that its lowest bit stands for. */
  lemma {:induction false} LowestBitFactor(n: nat) returns (m: nat)
    requires n > 0
    ensures LowestBit(n) >= 1 && m % 2 == 1 && n == m * Pow2(LowestBit(n) - 1)
  {
    if n % 2 == 1 {
      m := n;
    } else {
      m := LowestBitFactor(n / 2);
      assert Pow2(LowestBit(n) - 1) == 2 * Pow2(LowestBit(n / 2) - 1);
      Double(m, Pow2(LowestBit(n / 2) - 1));
    }
  }

  lemma Double(m: nat, p: nat)
    ensures m * (2 * p) == 2 * (m * p)
  {
  }

  /** A number whose lowest bit is above bit k is a multiple of 2^(k+1). */
  lemma MultipleAbove(n: nat, k: nat) returns (m: nat)
    requires n == 0 || k + 1 < LowestBit(n)
    ensures n == m * Pow2(k + 1)
  {
    if n == 0 {
      m := 0;
    } else {
      var f := LowestBitFactor(n);
      m := PowFactor(f, LowestBit(n) - 1, k + 1);
    }
  }

  lemma {:induction false} PowFactor(f: nat, big: nat, small: nat) returns (m: nat)
    requires small <= big
    ensures f * Pow2(big) == m * Pow2(small)
    decreases big
  {
    if small == big {
      m := f;
    } else {
      m := PowFactor(2 * f, big - 1, small);
    }
  }

  lemma {:induction false} PowBits(k: nat)
    ensures BitCount(Pow2(k)) == 1 && LowestBit(Pow2(k)) == k + 1
  {
    if k > 0 {
      PowBits(k - 1);
      DoubleBits(Pow2(k - 1));
    }
  }

  lemma DoubleBits(p: nat)
    requires p > 0
    ensures BitCount(2 * p) == BitCount(p) && LowestBit(2 * p) == 1 + LowestBit(p)
  {
    assert 2 * p / 2 == p;
  }

  /** The lowest bit of an even multiple of 2^k is above bit k. */
  lemma {:induction false} LowestBitOfMultiple(m: nat, k: nat)
    ensures m * Pow2(k) > 0 ==> LowestBit(m * Pow2(k)) >= k + 1
    ensures m * Pow2(k) > 0 && m % 2 == 0 ==> LowestBit(m * Pow2(k)) > k + 1
    decreases k
  {
    if k > 0 {
      Double(m, Pow2(k - 1));
      LowestBitOfMultiple(m, k - 1);
    }
  }

  lemma OneBitIsPow(n: nat) returns (k: nat)
    requires BitCount(n) == 1
    ensures n == Pow2(k) && LowestBit(n) == k + 1
  {
    if n % 2 == 1 {
      ZeroBits(n / 2);
      k := 0;
    } else {
      k := OneBitIsPow(n / 2);
      k := k + 1;
    }
  }

  // ---------- The tree ----------

  /** The data object that a tree is saved into and loaded from. */
  datatype Saved = Saved(size: nat, hashes: seq<Bytes>)

  /** The subtrees of a list, when a full subtree no larger than its smallest one is put behind it. */
  lemma PushSmaller(h: TreeHasher, d: seq<Bytes>, b: seq<Bytes>, k: nat)
    requires |b| == Pow2(k) && (d == [] || k + 1 < LowestBit(|d|))
    ensures Descending(h, d + b) == Descending(h, d) + [Mth(h, b)]
  {
    hide Descending, Mth, LowestBit;
    var m := MultipleAbove(|d|, k);
    DescendingAppend(h, d, b, m, k + 1);
    DescendingFull(h, b, k);
  }

  /** A list whose smallest full subtree has 2^k leaves, without that subtree. */
  lemma PopSmallest(h: TreeHasher, d: seq<Bytes>, k: nat) returns (a: seq<Bytes>, c: seq<Bytes>)
    requires d != [] && LowestBit(|d|) == k + 1
    ensures d == a + c && |c| == Pow2(k)
    ensures Descending(h, d) == Descending(h, a) + [Mth(h, c)]
    ensures a == [] || LowestBit(|a|) > k + 1
  {
    hide Descending, Mth, LowestBit, Pow2;
    var m := LowestBitFactor(|d|);
    Distribute(m, Pow2(k));
    a, c := d[..|d| - Pow2(k)], d[|d| - Pow2(k)..];
    LowestBitOfMultiple(m - 1, k);
    PushSmaller(h, a, c, k);
  }

  lemma Distribute(m: nat, p: nat)
    requires m > 0
    ensures m * p == (m - 1) * p + p && m * p >= p
  {
  }

  class CompactMerkleTree {
    const h: TreeHasher
    var size: nat
    var hashes: seq<Bytes>
    var minHeight: nat
    var rootHash: Option<Bytes>

    /** The tree over the leaf hashes d. */
    ghost predicate Represents(d: seq<Bytes>)
      reads this
    {
      && size == |d| && hashes == Descending(h, d) && minHeight == LowestBit(|d|)
      && (rootHash.Some? ==> rootHash.value == Mth(h, d))
    }

    constructor (hasher: TreeHasher)
      ensures h == hasher && Represents([])
    {
      h := hasher;
      size, hashes, minHeight, rootHash := 0, [], 0, None;
    }

    /** `_update`: fails when the number of hashes is not the number of one bits of the size. */
    method Update(newSize: nat, newHashes: seq<Bytes>) returns (ok: bool)
      modifies this
      ensures ok <==> |newHashes| == BitCount(newSize)
      ensures ok ==> size == newSize && hashes == newHashes && minHeight == LowestBit(newSize) && rootHash == None
      ensures !ok ==> unchanged(this)
    {
      var bitsSet := CountBitsSet(newSize);
      if |newHashes| != bitsSet {
        return false;
      }
      size, hashes := newSize, newHashes;
      minHeight := LowestBitSet(newSize);
      rootHash := None;
      return true;
    }

    /** An update to the subtrees of a list of leaves never fails. */
    method SetLeaves(ghost d: seq<Bytes>, newSize: nat, newHashes: seq<Bytes>)
      requires newSize == |d| && newHashes == Descending(h, d)
      modifies this
      ensures Represents(d)
    {
      DescendingCount(h, d);
      var ok := Update(newSize, newHashes);
      assert ok;
    }

    method Load(other: Saved) returns (ok: bool)
      modifies this
      ensures ok <==> |other.hashes| == BitCount(other.size)
      ensures !ok ==> unchanged(this)
      ensures forall d :: other.size == |d| && other.hashes == Descending(h, d) ==> ok && Represents(d)
    {
      forall d | other.size == |d| && other.hashes == Descending(h, d)
        ensures |other.hashes| == BitCount(other.size)
      {
        DescendingCount(h, d);
      }
      ok := Update(other.size, other.hashes);
    }

    method Save() returns (other: Saved)
      ensures forall d :: Represents(d) ==> other == Saved(|d|, Descending(h, d))
    {
      return Saved(size, hashes);
    }

    method RootHash(ghost d: seq<Bytes>) returns (root: Bytes)
      requires Represents(d)
      modifies this`rootHash
      ensures Represents(d) && root == Mth(h, d)
    {
      if rootHash == None {
        if d != [] {
          FoldIsRoot(h, d);
        }
        if hashes != [] {
          var r := HashFold(h, hashes);
          rootHash := Some(r);
        } else {
          rootHash := Some(h.HashEmpty());
        }
      }
      return rootHash.value;
    }

    /** `__push_subtree_hash`: k + 1 is the height of the full subtree over b, whose hash is pushed. */
    method PushSubtreeHash(ghost d: seq<Bytes>, ghost b: seq<Bytes>, k: nat, subHash: Bytes)
      requires Represents(d)
      requires |b| == Pow2(k) && subHash == Mth(h, b)
      requires minHeight == 0 || k + 1 <= minHeight
      modifies this
      ensures Represents(d + b)
      decreases |d|
    {
      hide Descending, Mth, LowestBit;
      LowestBitZero(|d|);
      if k + 1 < minHeight || minHeight == 0 {
        PushSmaller(h, d, b, k);
        SetLeaves(d + b, size + Pow2(k), hashes + [subHash]);
      } else {
        ghost var a, c := PopSmallest(h, d, k);
        assert Descending(h, d)[..|hashes| - 1] == Descending(h, a);
        var prevHash := hashes[|hashes| - 1];
        SetLeaves(a, size - Pow2(k), hashes[..|hashes| - 1]);
        LowestBitZero(|a|);
        assert minHeight == 0 || k + 1 < minHeight;
        MthJoin(h, c, b, k);
        PushSubtreeHash(a, c + b, k + 1, h.HashChildren(prevHash, subHash));
        assert a + (c + b) == d + b;
      }
    }

    /** `_push_subtree`: fails unless the leaves form a full subtree no larger than the smallest one. */
    method PushSubtree(ghost d: seq<Bytes>, leaves: seq<Bytes>) returns (ok: bool)
      requires Represents(d)
      modifies this
      ensures ok <==> BitCount(|leaves|) == 1 && (d == [] || LowestBit(|leaves|) <= LowestBit(|d|))
      ensures Represents(if ok then d + h.HashLeaves(leaves) else d)
      ensures !ok ==> unchanged(this)
    {
      hide Descending, Mth;
      LowestBitZero(|d|);
      var bits := CountBitsSet(|leaves|);
      if bits != 1 {
        return false;
      }
      var height := LowestBitSet(|leaves|);
      if minHeight > 0 && height > minHeight {
        return false;
      }
      ghost var k := OneBitIsPow(|leaves|);
      ghost var b := h.HashLeaves(leaves);
      HashFullIs(h, leaves, 0, |leaves|);
      assert b[0..|leaves|] == b;
      var full := HashFull(h, leaves, 0, |leaves|);
      DescendingFull(h, b, k);
      assert full.value.1 == [full.value.0];
      PushSubtreeHash(d, b, height - 1, full.value.0);
      return true;
    }

    method Append(ghost d: seq<Bytes>, leaf: Bytes)
      requires Represents(d)
      modifies this
      ensures Represents(d + [h.HashLeaf(leaf)])
    {
      LowestBitZero(|d|);
      var ok := PushSubtree(d, [leaf]);
      assert h.HashLeaves([leaf]) == [h.HashLeaf(leaf)];
    }

    /** `extend`: push subtrees while they are complete, then the rest in one go. */
    method Extend(ghost d: seq<Bytes>, leaves: seq<Bytes>)
      requires Represents(d)
      modifies this
      ensures Represents(d + h.HashLeaves(leaves))
    {
      hide Descending, Mth, LowestBit, BitCount, TreeHasher.HashLeaves;
      ghost var all := h.HashLeaves(leaves);
      var finalSize, idx := size + |leaves|, 0;
      assert d + all[..0] == d;
      while minHeight > 0 && |leaves| - idx >= Pow2(minHeight - 1)
        invariant 0 <= idx <= |leaves|
        invariant Represents(d + all[..idx])
        decreases |leaves| - idx
      {
        var maxSize := Pow2(minHeight - 1);
        PowBits(minHeight - 1);
        LowestBitZero(|d| + idx);
        ghost var now := d + all[..idx];
        LeavesSlice(h, leaves, idx, idx + maxSize);
        var ok := PushSubtree(now, leaves[idx..idx + maxSize]);
        assert now + all[idx..idx + maxSize] == d + all[..idx + maxSize];
        idx := idx + maxSize;
      }
      ghost var now, rest := d + all[..idx], all[idx..];
      assert now + rest == d + all;
      if idx < |leaves| {
        HashFullIs(h, leaves, idx, |leaves|);
        assert all[idx..|leaves|] == rest;
        var full := HashFull(h, leaves, idx, |leaves|);
        LowestBitZero(|now|);
        RestBehind(h, now, rest);
        SetLeaves(d + all, finalSize, hashes + full.value.1);
      } else {
        assert now + [] == now;
      }
    }

    method Copy(ghost d: seq<Bytes>) returns (t: CompactMerkleTree)
      requires Represents(d)
      ensures fresh(t) && t.h == h && t.Represents(d)
    {
      t := new CompactMerkleTree(h);
      t.SetLeaves(d, size, hashes);
    }

    method Extended(ghost d: seq<Bytes>, leaves: seq<Bytes>) returns (t: CompactMerkleTree)
      requires Represents(d)
      ensures fresh(t) && t.h == h && t.Represents(d + h.HashLeaves(leaves))
    {
      t := Copy(d);
      t.Extend(d, leaves);
    }
  }

  lemma LowestBitZero(n: nat)
    ensures LowestBit(n) == 0 <==> n == 0
  {
  }

  lemma LeavesSlice(h: TreeHasher, leaves: seq<Bytes>, lo: nat, hi: nat)
    requires lo <= hi <= |leaves|
    ensures h.HashLeaves(leaves[lo..hi]) == h.HashLeaves(leaves)[lo..hi]
  {
  }

  /** Fewer leaves than the smallest full subtree has keep their own subtrees behind a list. */
  lemma RestBehind(h: TreeHasher, d: seq<Bytes>, rest: seq<Bytes>)
    requires d == [] || |rest| < Pow2(if LowestBit(|d|) > 0 then LowestBit(|d|) - 1 else 0)
    ensures Descending(h, d + rest) == Descending(h, d) + Descending(h, rest)
  {
    hide Descending, LowestBit;
    if d == [] {
      DescendingEmpty(h);
      assert d + rest == rest;
    } else {
      var m := LowestBitFactor(|d|);
      DescendingAppend(h, d, rest, m, LowestBit(|d|) - 1);
    }
  }
}
