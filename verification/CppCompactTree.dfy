/** `CompactMerkleTree` of cpp/merkletree/compact_merkle_tree.cc. The empty string marks a level without a node. */
module CppCompactTree {
  import opened TreeHashing
  import opened Levels
  import opened Rows
  import opened FullSubtrees
  import opened LazyMerkleTree

  class CompactMerkleTree {
    const h: TreeHasher
    ghost var leaves: seq<Bytes>
    var tree: seq<Bytes>
    var leafCount: nat
    var leavesProcessed: nat
    var levelCount: nat
    var root: Bytes

    ghost predicate Valid()
      reads this
    {
      && h.Valid() && h.Digests(leaves)
      && leafCount == |leaves| && levelCount == Height(|leaves|)
      && tree == ByLevel(h, leaves)
      && leavesProcessed <= leafCount
      && root == Mth(h, leaves[..leavesProcessed])
    }

    constructor (hasher: TreeHasher)
      requires hasher.Valid()
      ensures Valid() && h == hasher && leaves == []
    {
      h := hasher;
      leaves := [];
      tree := [];
      leafCount, leavesProcessed, levelCount := 0, 0, 0;
      root := hasher.HashEmpty();
    }

    /** Build from a full tree: its last audit path holds the levels before the last leaf was added. */
    constructor FromModel(model: MerkleTree, hasher: TreeHasher)
      requires model.Valid() && hasher == model.h
      modifies model`tree, model`leavesProcessed
      ensures model.Valid() && model.Leaves() == old(model.Leaves())
      ensures Valid() && h == hasher && leaves == model.Leaves()
    {
      h := hasher;
      leaves := model.Leaves();
      leafCount, leavesProcessed, levelCount := model.LeafCount(), 0, model.levelCount;
      tree := [];
      root := hasher.HashEmpty();
      new;
      if model.LeafCount() != 0 {
        LoadModel(model);
        var same := AgreesWith(model);
        assert same;
      }
    }

    method LoadModel(model: MerkleTree)
      requires model.Valid() && h == model.h
      requires leaves == model.Leaves() && leafCount == |leaves| > 0 && levelCount == model.levelCount
      requires leavesProcessed == 0 && root == h.HashEmpty() && tree == []
      modifies this`tree, model`tree, model`leavesProcessed
      ensures model.Valid() && model.Leaves() == old(model.Leaves())
      ensures Valid()
    {
      hide ByLevel, Push, Path, Height, RowsAre;
      var n := leafCount;
      var path := model.PathToRootAtSnapshot(n, n);
      tree := BeforeLastLeaf(h, leaves, n, path, levelCount);
      PushBack(0, model.Leaves()[n - 1]);
      AfterLastLeaf(h, leaves, n);
    }

    /** The last three asserts of the constructor from a full tree: both trees have the same root, leaf count and level
        count. */
    method AgreesWith(model: MerkleTree) returns (same: bool)
      requires Valid() && model.Valid() && h == model.h && leaves == model.Leaves()
      modifies this`root, this`leavesProcessed, model`tree, model`leavesProcessed
      ensures same && Valid() && leaves == old(leaves)
      ensures model.Valid() && model.Leaves() == old(model.Leaves())
    {
      hide Mth, ByLevel, RowsAre;
      var theirs := model.CurrentRoot();
      var ours := CurrentRoot();
      same := theirs == ours && model.LeafCount() == leafCount && model.levelCount == levelCount;
    }

    /** The levels before the last leaf was added, from the audit path of that leaf. */
    static method BeforeLastLeaf(h: TreeHasher, ghost d: seq<Bytes>, n: nat, path: seq<Bytes>, levelCount: nat)
      returns (tree: seq<Bytes>)
      requires h.Valid() && h.Digests(d) && n == |d| > 0 && levelCount == Height(n)
      requires path == Path(h, n - 1, d[..n])
      ensures tree == ByLevel(h, d[..n - 1])
    {
      hide ByLevel, NonEmpty, Path, LevelPath;
      assert d[..n] == d;
      PathByLevel(h, d, n - 1);
      LastPath(h, d, n - 1);
      HeightAtLeast(n);
      var used;
      tree, used := Fill(h, d[..n - 1], path, n - 1, levelCount - 1);
      assert used == |path|;
    }

    /** The loop over the bits of the size before the last leaf. */
    static method Fill(h: TreeHasher, ghost d: seq<Bytes>, path: seq<Bytes>, size0: nat, levels: nat)
      returns (tree: seq<Bytes>, i: nat)
      requires h.Valid() && h.Digests(d)
      requires size0 == |d| && levels + 1 == Height(|d| + 1)
      requires path == NonEmpty(ByLevel(h, d))
      ensures tree == ByLevel(h, d) && i == |path|
    {
      hide ByLevel, Height, NonEmpty;
      tree, i := seq(levels, i => []), 0;
      var level, size := 0, size0;
      ghost var all := ByLevel(h, d);
      LevelCountOf(h, d);
      assert all[0..] == all;
      while size != 0
        invariant 0 <= level <= levels == |tree| == |all| && 0 <= i <= |path| && size == Shr(size0, level)
        invariant tree[..level] == all[..level]
        invariant forall k :: level <= k < levels ==> tree[k] == []
        invariant path[i..] == NonEmpty(all[level..])
        decreases size
      {
        LevelBit(h, d, level);
        NonEmptyStep(all, level);
        assert all[..level + 1] == all[..level] + [all[level]];
        if size % 2 != 0 {
          tree := tree[level := path[i]];
          i := i + 1;
        }
        level, size := level + 1, size / 2;
      }
      ShrZero(h, d, level);
      assert tree[..level] == tree && all[..level] == all;
      NonEmptyNone(all[level..]);
    }

    method PushBack(level: nat, node: Bytes)
      requires level <= |tree|
      modifies this`tree
      ensures tree == old(tree)[..level] + Push(h, old(tree)[level..], node)
      decreases |tree| - level
    {
      if |tree| <= level {
        tree := tree + [node];
      } else if tree[level] == [] {
        tree := tree[level := node];
      } else {
        ghost var rest := tree[level..];
        assert rest[1..] == tree[level + 1..];
        PushBack(level + 1, h.HashChildren(tree[level], node));
        tree := tree[level := []];
      }
    }

    method AddLeafHash(hash: Bytes) returns (count: nat)
      requires Valid() && |hash| == h.digestSize
      modifies this
      ensures Valid() && leaves == old(leaves) + [hash] && count == |leaves|
    {
      hide ByLevel, Push, Mth, Height, IsPowerOfTwoPlusOne;
      assert tree[0..] == tree;
      PushIsAppend(h, leaves, hash);
      PushBack(0, hash);
      leaves := leaves + [hash];
      HeightStep(leafCount);
      leafCount := leafCount + 1;
      if IsPowerOfTwoPlusOne(leafCount) {
        levelCount := levelCount + 1;
      }
      assert leaves[..leavesProcessed] == old(leaves)[..leavesProcessed];
      return leafCount;
    }

    method UpdateRoot()
      requires Valid()
      modifies this`root, this`leavesProcessed
      ensures Valid() && leavesProcessed == leafCount
    {
      hide ByLevel, Mth, Height;
      if leavesProcessed == leafCount {
        return;
      }
      var right: Bytes := [];
      var level := 0;
      while level < |tree|
        invariant 0 <= level <= |tree|
        invariant Fold(h, tree[level..], right) == Fold(h, tree, [])
      {
        assert tree[level..][1..] == tree[level + 1..];
        if tree[level] != [] {
          if right == [] {
            right := tree[level];
          } else {
            right := h.HashChildren(tree[level], right);
          }
        }
        level := level + 1;
      }
      root := right;
      leavesProcessed := leafCount;
      FoldIsMth(h, leaves, []);
      MthByLevel(h, leaves);
      assert leaves[..leafCount] == leaves;
    }

    method CurrentRoot() returns (r: Bytes)
      requires Valid()
      modifies this`root, this`leavesProcessed
      ensures Valid() && r == Mth(h, leaves)
    {
      UpdateRoot();
      assert leaves[..leafCount] == leaves;
      return root;
    }
  }

  lemma NonEmptyNone(levels: seq<Bytes>)
    ensures levels == [] ==> NonEmpty(levels) == []
  {
  }

  lemma LevelBit(h: TreeHasher, d: seq<Bytes>, level: nat)
    requires h.Valid() && h.Digests(d) && Shr(|d|, level) != 0
    ensures level < |ByLevel(h, d)|
    ensures ByLevel(h, d)[level] == [] <==> Shr(|d|, level) % 2 == 0
  {
    ShrZero(h, d, level);
    LevelHolds(h, d, level);
  }

  lemma AfterLastLeaf(h: TreeHasher, d: seq<Bytes>, n: nat)
    requires h.Valid() && h.Digests(d) && n == |d| > 0
    ensures ByLevel(h, d[..n - 1])[..0] + Push(h, ByLevel(h, d[..n - 1])[0..], d[n - 1]) == ByLevel(h, d)
  {
    hide ByLevel, Push;
    assert ByLevel(h, d[..n - 1])[0..] == ByLevel(h, d[..n - 1]);
    PushIsAppend(h, d[..n - 1], d[n - 1]);
    assert d[..n - 1] + [d[n - 1]] == d;
  }
}
