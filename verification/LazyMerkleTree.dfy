/**
 `MerkleTree` of cpp/merkletree/merkle_tree.cc: an append-only tree stored row by row, evaluated
 lazily, that answers queries about every past snapshot.

 The specification is the list of leaf hashes. `Valid` says what is stored above them: the rows of
 the tree over the first `leavesProcessed` leaves, whatever queries were made before.
 */
module LazyMerkleTree {
  import opened TreeHashing
  import opened Levels
  import opened Bits
  import opened Rows

  predicate IsRightChild(node: nat) {
    node % 2 == 1
  }

  function Parent(node: nat): nat {
    node / 2
  }

  function SiblingOf(node: nat): nat {
    if IsRightChild(node) then node - 1 else node + 1
  }

  /** `IsPowerOfTwoPlusOne`. */
  predicate IsPowerOfTwoPlusOne(n: nat) {
    n == 1 || (n > 1 && And(n - 1, n - 2) == 0)
  }

  /** The level count grows exactly when the leaf count passes a power of two. */
  lemma {:induction false} HeightStep(n: nat)
    ensures Height(n + 1) == Height(n) + if IsPowerOfTwoPlusOne(n + 1) then 1 else 0
  {
    if n > 0 {
      AndTestsPowerOfTwo(n);
    }
    PowerHeight(n);
  }

  lemma {:induction false} PowerHeight(n: nat)
    ensures Height(n + 1) == Height(n) + if n == 0 || IsPowerOfTwo(n) then 1 else 0
  {
    if n > 1 && n % 2 == 0 {
      assert (n + 2) / 2 == n / 2 + 1 && (n + 1) / 2 == n / 2;
      PowerHeight(n / 2);
    }
  }

  /** The rows above the leaves hold the tree over the first `processed` leaves. */
  ghost predicate RowsAre(h: TreeHasher, tree: seq<seq<Bytes>>, processed: nat) {
    && tree != [] && 1 <= processed <= |tree[0]|
    && |tree| == Height(processed)
    && forall l :: 1 <= l < |tree| ==> tree[l] == Level(h, tree[0][..processed], l)
  }

  class MerkleTree {
    const h: TreeHasher
    var tree: seq<seq<Bytes>>
    var leavesProcessed: nat
    var levelCount: nat

    ghost predicate Valid()
      reads this
    {
      && h.Valid()
      && levelCount == Height(|Leaves()|)
      && h.Digests(Leaves())
      && if tree == [] then leavesProcessed == 0 else RowsAre(h, tree, leavesProcessed)
    }

    function Leaves(): seq<Bytes>
      reads this
    {
      if tree == [] then [] else tree[0]
    }

    constructor (hasher: TreeHasher)
      requires hasher.Valid()
      ensures Valid() && Leaves() == [] && h == hasher
    {
      h := hasher;
      tree := [];
      leavesProcessed := 0;
      levelCount := 0;
    }

    function LeafCount(): nat
      reads this
    {
      |Leaves()|
    }

    method AddLeafHash(hash: Bytes) returns (count: nat)
      requires Valid() && |hash| == h.digestSize
      modifies this
      ensures Valid() && Leaves() == old(Leaves()) + [hash]
      ensures count == |Leaves()|
    {
      if tree == [] {
        tree := [[]];
        leavesProcessed := 1;
      }
      tree := tree[0 := tree[0] + [hash]];
      count := LeafCount();
      if IsPowerOfTwoPlusOne(count) {
        levelCount := levelCount + 1;
      }
      HeightStep(count - 1);
      assert tree[0][..leavesProcessed] == old(Leaves() + [hash])[..leavesProcessed];
      assert old(tree) != [] ==> tree[0][..leavesProcessed] == old(tree[0][..leavesProcessed]);
    }

    // ---------- Lazy evaluation ----------

    /** Append the parents of the nodes first .. last of a row, of which the first first / 2 are there already. */
    method FillParents(level: nat, first: nat, last: nat)
      requires level + 1 < |tree| && first <= last < |tree[level]|
      requires tree[level + 1] == LevelUp(h, tree[level][..last + 1])[..first / 2]
      modifies this`tree
      ensures tree == old(tree)[level + 1 := LevelUp(h, old(tree)[level][..last + 1])]
    {
      ghost var up := LevelUp(h, tree[level][..last + 1]);
      var j := first - first % 2;
      while j < last
        invariant j % 2 == 0 && j <= last + 1
        invariant tree == old(tree)[level + 1 := up[..j / 2]]
      {
        assert up[j / 2] == h.HashChildren(tree[level][j], tree[level][j + 1]);
        assert up[..j / 2] + [up[j / 2]] == up[..j / 2 + 1];
        tree := tree[level + 1 := tree[level + 1] + [h.HashChildren(tree[level][j], tree[level][j + 1])]];
        j := j + 2;
      }
      if !IsRightChild(last) {
        assert up == up[..last / 2] + [tree[level][last]];
        tree := tree[level + 1 := tree[level + 1] + [tree[level][last]]];
      } else {
        assert up == up[..j / 2];
      }
    }

    /** One turn of the loop of `UpdateToSnapshot`. */
    method RaiseRow(level: nat, first: nat, last: nat, snapshot: nat)
      requires Updating(h, tree, Leaves(), leavesProcessed, snapshot, level)
      requires first == Shr(leavesProcessed, level) && last == Shr(snapshot - 1, level) && last > 0
      modifies this`tree
      ensures Leaves() == old(Leaves()) && Updating(h, tree, Leaves(), leavesProcessed, snapshot, level + 1)
    {
      hide Updating, LevelUp, Level, Height, Shr;
      ghost var d, before := Leaves(), tree;
      RowBounds(h, tree, d, leavesProcessed, snapshot, level);
      if |tree| <= level + 1 {
        tree := tree + [[]];
      } else if |tree[level + 1]| == Parent(first) + 1 {
        tree := tree[level + 1 := tree[level + 1][..|tree[level + 1]| - 1]];
      }
      NextLevel(h, d[..snapshot], level);
      FillParents(level, first, last);
      Raised(h, before, tree, d, leavesProcessed, snapshot, level);
    }

    /** `Root`, which asserts that the top row is one node. */
    method Root() returns (root: Bytes)
      requires tree != [] && |tree[|tree| - 1]| == 1
      ensures tree[|tree| - 1] == [root]
    {
      root := tree[|tree| - 1][0];
    }

    /** Bring the rows up to date with a snapshot that is not older than what was processed. */
    method UpdateToSnapshot(snapshot: nat) returns (root: Bytes)
      requires Valid()
      requires snapshot == 0 || (tree != [] && leavesProcessed <= snapshot <= LeafCount())
      modifies this`tree, this`leavesProcessed
      ensures Valid() && Leaves() == old(Leaves())
      ensures leavesProcessed == if snapshot == 0 then old(leavesProcessed) else snapshot
      ensures root == Mth(h, Leaves()[..snapshot])
    {
      hide RowsAre, Mth, Height;
      if snapshot == 0 {
        EmptyRoot(h, Leaves());
        return h.HashEmpty();
      }
      ValidRows();
      if snapshot == 1 {
        MthOne(h, Leaves()[..1]);
        return tree[0][0];
      }
      if snapshot != leavesProcessed {
        RaiseAll(snapshot);
      }
      leavesProcessed := snapshot;
      RootIsTop(h, tree, snapshot);
      root := Root();
    }

    /** The loop of `UpdateToSnapshot`, row by row. */
    method RaiseAll(snapshot: nat)
      requires Valid() && tree != [] && leavesProcessed < snapshot <= LeafCount()
      modifies this`tree
      ensures tree != [] && Leaves() == old(Leaves()) && RowsAre(h, tree, snapshot)
    {
      var level, first, last := 0, leavesProcessed, snapshot - 1;
      RowZero(h, snapshot);
      RowZero(h, leavesProcessed);
      assert Updating(h, tree, Leaves(), leavesProcessed, snapshot, 0);
      hide Updating, RowsAre, Mth, Level, Height;
      while last != 0
        invariant Leaves() == old(Leaves()) && leavesProcessed == old(leavesProcessed)
        invariant Updating(h, tree, Leaves(), leavesProcessed, snapshot, level)
        invariant first == Shr(leavesProcessed, level) && last == Shr(snapshot - 1, level)
        invariant level < Height(snapshot)
        decreases last
      {
        RaiseRow(level, first, last, snapshot);
        HeightRow(snapshot, level);
        first, last := Parent(first), Parent(last);
        level := level + 1;
      }
      Updated(h, tree, Leaves(), leavesProcessed, snapshot, level);
    }

    /** The root of a snapshot that was processed already, and the last node of its row `nodeLevel`, if it has one. */
    method RecomputePastSnapshot(snapshot: nat, nodeLevel: nat, wantNode: bool) returns (root: Bytes, node: Bytes)
      requires Valid() && tree != []
      requires 1 <= snapshot <= leavesProcessed
      requires snapshot == leavesProcessed ==> snapshot > 1 || |Leaves()| == 1
      ensures root == Mth(h, Leaves()[..snapshot])
      ensures wantNode && nodeLevel < Height(snapshot) ==> node == LastOfRow(h, Leaves()[..snapshot], nodeLevel)
    {
      hide Valid, RowsAre, Mth, Level, Height, Shr;
      var level, last := 0, snapshot - 1;
      node := [];
      ValidRows();
      ghost var s := Leaves()[..snapshot];
      if snapshot == leavesProcessed {
        RootIsTop(h, tree, snapshot);
        RowZero(h, snapshot);
        if wantNode && |tree| > nodeLevel {
          SnapshotRow(h, tree, leavesProcessed, snapshot, nodeLevel);
          if nodeLevel > 0 {
            node := tree[nodeLevel][|tree[nodeLevel]| - 1];
          } else {
            node := tree[nodeLevel][last];
          }
        }
        root := Root();
        return;
      }
      RowZero(h, snapshot);
      while IsRightChild(last)
        invariant last == Shr(snapshot - 1, level) && last + 1 == Shr(snapshot, level)
        invariant level < Height(snapshot)
        invariant wantNode && nodeLevel < level ==> node == LastOfRow(h, s, nodeLevel)
        decreases last
      {
        Climb(h, tree, leavesProcessed, snapshot, level);
        if wantNode && nodeLevel == level {
          node := tree[level][last];
        }
        last, level := Parent(last), level + 1;
      }
      BelowTop(h, tree, leavesProcessed, snapshot, level);
      var subtreeRoot := tree[level][last];
      if wantNode && nodeLevel == level {
        node := subtreeRoot;
      }
      while last != 0
        invariant last == Shr(snapshot - 1, level) && level < Height(snapshot)
        invariant subtreeRoot == LastOfRow(h, s, level)
        invariant wantNode && nodeLevel <= level ==> node == LastOfRow(h, s, nodeLevel)
        decreases last
      {
        Climb(h, tree, leavesProcessed, snapshot, level);
        if IsRightChild(last) {
          subtreeRoot := h.HashChildren(tree[level][last - 1], subtreeRoot);
        }
        last, level := Parent(last), level + 1;
        if wantNode && nodeLevel == level {
          node := subtreeRoot;
        }
      }
      TopOfSnapshot(h, s, level);
      return subtreeRoot, node;
    }

    /** `RootAtSnapshot`: the empty string for a snapshot in the future. */
    method RootAtSnapshot(snapshot: nat) returns (root: Bytes)
      requires Valid()
      modifies this`tree, this`leavesProcessed
      ensures Valid() && Leaves() == old(Leaves())
      ensures root == if snapshot > |Leaves()| then [] else Mth(h, Leaves()[..snapshot])
    {
      if snapshot == 0 {
        return h.HashEmpty();
      }
      if snapshot > LeafCount() {
        return [];
      }
      if snapshot >= leavesProcessed {
        root := UpdateToSnapshot(snapshot);
        return;
      }
      var node;
      root, node := RecomputePastSnapshot(snapshot, 0, false);
    }

    method CurrentRoot() returns (root: Bytes)
      requires Valid()
      modifies this`tree, this`leavesProcessed
      ensures Valid() && Leaves() == old(Leaves())
      ensures root == Mth(h, Leaves())
    {
      root := RootAtSnapshot(LeafCount());
      assert Leaves()[..|Leaves()|] == Leaves();
    }

    /** The audit path of a node of a row, in the tree of a snapshot. */
    method PathFromNodeToRootAtSnapshot(node0: nat, level0: nat, snapshot: nat) returns (path: seq<Bytes>)
      requires Valid()
      modifies this`tree, this`leavesProcessed
      ensures Valid() && Leaves() == old(Leaves())
      ensures snapshot == 0 || snapshot > |Leaves()| || level0 >= levelCount || node0 > Shr(snapshot - 1, level0) ==>
        path == []
      ensures 0 < snapshot <= |Leaves()| && level0 < levelCount && node0 <= Shr(snapshot - 1, level0) ==>
        node0 < |Level(h, Leaves()[..snapshot], level0)|
        && path == LevelPath(h, Level(h, Leaves()[..snapshot], level0), node0)
    {
      if snapshot == 0 {
        return [];
      }
      var last := Shr(snapshot - 1, level0);
      if level0 >= levelCount || node0 > last || snapshot > LeafCount() {
        return [];
      }
      if snapshot > leavesProcessed {
        var _ := UpdateToSnapshot(snapshot);
      }
      path := MoveUp(node0, level0, last, snapshot);
    }

    /** The loop of `PathFromNodeToRootAtSnapshot`, on a tree that is sufficiently up to date. */
    method MoveUp(node0: nat, level0: nat, last0: nat, snapshot: nat) returns (path: seq<Bytes>)
      requires Valid() && 0 < snapshot <= leavesProcessed <= |Leaves()|
      requires last0 == Shr(snapshot - 1, level0) && node0 <= last0
      ensures node0 < |Level(h, Leaves()[..snapshot], level0)|
      ensures path == LevelPath(h, Level(h, Leaves()[..snapshot], level0), node0)
    {
      hide Valid, RowsAre, Level, Height, Shr, LevelPath;
      path := [];
      var node: nat, level: nat, last: nat := node0, level0, last0;
      ValidRows();
      ghost var s := Leaves()[..snapshot];
      LevelSize(h, s, level0);
      while last != 0
        invariant last == Shr(snapshot - 1, level) && 0 <= node <= last
        invariant |Level(h, s, level)| == last + 1
        invariant LevelPath(h, Level(h, s, level0), node0) == path + LevelPath(h, Level(h, s, level), node)
        decreases last
      {
        PathStep(h, tree, leavesProcessed, snapshot, level, node, last);
        AppendSibling(
          path, StoredSibling(h, tree, s, level, node, last), LevelPath(h, Level(h, s, level + 1), node / 2));
        var sibling := SiblingOf(node);
        if sibling < last {
          path := path + [tree[level][sibling]];
        } else if sibling == last {
          ShrOfZero(level);
          var _, recomputed := RecomputePastSnapshot(snapshot, level, true);
          path := path + [recomputed];
        }
        node, last, level := Parent(node), Parent(last), level + 1;
      }
      OneNodePath(h, Level(h, s, level), node);
    }

    /** `PathToRootAtSnapshot`: leaves are counted from 1. */
    method PathToRootAtSnapshot(leaf: nat, snapshot: nat) returns (path: seq<Bytes>)
      requires Valid()
      modifies this`tree, this`leavesProcessed
      ensures Valid() && Leaves() == old(Leaves())
      ensures path == if 0 < leaf <= snapshot <= |Leaves()| then Path(h, leaf - 1, Leaves()[..snapshot]) else []
    {
      if leaf > snapshot || snapshot > LeafCount() || leaf == 0 {
        return [];
      }
      RowZero(h, snapshot);
      HeightMono(1, |Leaves()|);
      path := PathFromNodeToRootAtSnapshot(leaf - 1, 0, snapshot);
      LevelZero(h, Leaves()[..snapshot]);
      PathByLevel(h, Leaves()[..snapshot], leaf - 1);
    }

    /** `SnapshotConsistency`. */
    method SnapshotConsistency(snapshot1: nat, snapshot2: nat) returns (proof: seq<Bytes>)
      requires Valid()
      modifies this`tree, this`leavesProcessed
      ensures Valid() && Leaves() == old(Leaves())
      ensures proof ==
        if 0 < snapshot1 < snapshot2 <= |Leaves()| then Proof(h, snapshot1, Leaves()[..snapshot2]) else []
    {
      proof := [];
      if snapshot1 == 0 || snapshot1 >= snapshot2 || snapshot2 > LeafCount() {
        return;
      }
      var node, level := LastFullNode(snapshot1);
      if snapshot2 > leavesProcessed {
        var _ := UpdateToSnapshot(snapshot2);
      }
      hide Valid, RowsAre, Level, Height, Shr, LevelPath, Proof, Path, Times;
      ValidRows();
      ProofStart(h, tree, leavesProcessed, snapshot1, snapshot2, node, level);
      if node != 0 {
        proof := [tree[level][node]];
      }
      var path := PathFromNodeToRootAtSnapshot(node, level, snapshot2);
      proof := proof + path;
    }

    /** The rightmost node of a snapshot, moved up while it is a right child. */
    static method LastFullNode(snapshot: nat) returns (node: nat, level: nat)
      requires snapshot > 0
      ensures Times(node + 1, level) == snapshot && !IsRightChild(node)
    {
      level, node := 0, snapshot - 1;
      while IsRightChild(node)
        invariant Times(node + 1, level) == snapshot
        decreases node
      {
        node, level := Parent(node), level + 1;
      }
    }

    lemma ValidRows()
      requires Valid() && tree != []
      ensures RowsAre(h, tree, leavesProcessed) && Leaves() == tree[0] && 1 <= leavesProcessed <= |Leaves()|
      ensures |tree| == Height(leavesProcessed) && levelCount == Height(|Leaves()|)
    {
    }
  }

  /** The sibling of a node in the row of a snapshot, from where the tree takes it. */
  ghost function StoredSibling(
      h: TreeHasher, tree: seq<seq<Bytes>>, s: seq<Bytes>, level: nat, node: nat, last: nat): seq<Bytes>
    requires s != [] && level < |tree| && last < |tree[level]|
  {
    if SiblingOf(node) < last then [tree[level][SiblingOf(node)]]
    else if SiblingOf(node) == last then [LastOfRow(h, s, level)]
    else []
  }

  lemma PathStep(h: TreeHasher, tree: seq<seq<Bytes>>, processed: nat, snapshot: nat, level: nat, node: nat, last: nat)
    requires RowsAre(h, tree, processed) && 1 <= snapshot <= processed
    requires last == Shr(snapshot - 1, level) && last > 0 && node <= last
    ensures level < |tree| && last < |tree[level]| && level < Height(snapshot) && snapshot <= |tree[0]|
    ensures Shr(snapshot - 1, level + 1) == last / 2
    ensures |Level(h, tree[0][..snapshot], level)| == last + 1
    ensures |Level(h, tree[0][..snapshot], level + 1)| == last / 2 + 1
    ensures LevelPath(h, Level(h, tree[0][..snapshot], level), node)
         == StoredSibling(h, tree, tree[0][..snapshot], level, node, last)
          + LevelPath(h, Level(h, tree[0][..snapshot], level + 1), node / 2)
  {
    hide LevelPath, Level, LevelUp;
    HeightRow(snapshot, level);
    HeightMono(snapshot, processed);
    SnapshotRow(h, tree, processed, snapshot, level);
    var row := Level(h, tree[0][..snapshot], level);
    LevelSize(h, tree[0][..snapshot], level + 1);
    NextLevel(h, tree[0][..snapshot], level);
    LevelPathUnfold(h, row, node);
    assert Sibling(row, node) == StoredSibling(h, tree, tree[0][..snapshot], level, node, last);
  }

  lemma AppendSibling<T>(a: seq<T>, b: seq<T>, c: seq<T>)
    ensures a + (b + c) == (a + b) + c
    ensures b == [] ==> a + b == a
  {
  }

  lemma OneNodePath(h: TreeHasher, row: seq<Bytes>, node: nat)
    requires |row| == 1 && node == 0
    ensures LevelPath(h, row, node) == []
  {
  }

  /** A consistency proof starts at the last node both snapshots share. */
  lemma ProofStart(
      h: TreeHasher, tree: seq<seq<Bytes>>, processed: nat, snapshot1: nat, snapshot2: nat, node: nat, level: nat)
    requires RowsAre(h, tree, processed) && 0 < snapshot1 < snapshot2 <= processed
    requires Times(node + 1, level) == snapshot1 && node % 2 == 0
    ensures level < |tree| && node < |tree[level]| && level < Height(snapshot2) && node <= Shr(snapshot2 - 1, level)
    ensures level < Height(|tree[0]|)
    ensures var s := tree[0][..snapshot2];
      && node < |Level(h, s, level)|
      && Proof(h, snapshot1, s)
         == (if node == 0 then [] else [tree[level][node]]) + LevelPath(h, Level(h, s, level), node)
  {
    hide LevelPath, Level, LevelUp, Proof, Path;
    var s := tree[0][..snapshot2];
    ProofRow(h, s, node + 1, level, snapshot1);
    var row := Level(h, s, level);
    LevelSize(h, s, level);
    HeightRow(snapshot2, level);
    HeightMono(snapshot2, processed);
    HeightMono(processed, |tree[0]|);
    SnapshotRow(h, tree, processed, snapshot2, level);
    ProofIsPath(h, row, node / 2);
    PathByLevel(h, row, node);
  }

  ghost function LastOfRow(h: TreeHasher, nodes: seq<Bytes>, level: nat): Bytes
    requires nodes != []
  {
    LevelSize(h, nodes, level);
    Level(h, nodes, level)[Shr(|nodes| - 1, level)]
  }

  lemma RowZero(h: TreeHasher, n: nat)
    requires n > 0
    ensures Shr(n, 0) == n && Shr(n - 1, 0) == n - 1 && 0 < Height(n)
  {
  }

  lemma EmptyRoot(h: TreeHasher, d: seq<Bytes>)
    ensures Mth(h, d[..0]) == h.HashEmpty()
  {
  }

  lemma RootIsTop(h: TreeHasher, tree: seq<seq<Bytes>>, processed: nat)
    requires RowsAre(h, tree, processed)
    ensures |tree[|tree| - 1]| >= 1 && tree[|tree| - 1][0] == Mth(h, tree[0][..processed])
    ensures processed > 1 || |tree[0]| == 1 ==> |tree[|tree| - 1]| == 1
  {
    var level := |tree| - 1;
    HeightRow(processed, level);
    RootRow(h, tree[0][..processed], level);
    HeightAtLeast(processed);
    if level == 0 {
      assert Level(h, tree[0][..processed], 0) == tree[0][..processed];
    }
  }

  lemma Updated(h: TreeHasher, tree: seq<seq<Bytes>>, d: seq<Bytes>, processed: nat, snapshot: nat, level: nat)
    requires Updating(h, tree, d, processed, snapshot, level)
    requires Shr(snapshot - 1, level) == 0 && level < Height(snapshot)
    ensures RowsAre(h, tree, snapshot)
  {
    ShrMono(processed - 1, snapshot - 1, level);
    HeightRow(snapshot, level);
  }

  /** A row of a snapshot, as far as it is stored in the row of the processed leaves. */
  lemma SnapshotRow(h: TreeHasher, tree: seq<seq<Bytes>>, processed: nat, snapshot: nat, level: nat)
    requires RowsAre(h, tree, processed) && 1 <= snapshot <= processed && level < |tree|
    ensures |Level(h, tree[0][..snapshot], level)| == Shr(snapshot - 1, level) + 1 <= |tree[level]|
    ensures forall i :: 0 <= i < Shr(snapshot - 1, level) ==> Level(h, tree[0][..snapshot], level)[i] == tree[level][i]
    ensures Shr(snapshot, level) == Shr(snapshot - 1, level) + 1 || snapshot == processed ==>
      Level(h, tree[0][..snapshot], level)[Shr(snapshot - 1, level)] == tree[level][Shr(snapshot - 1, level)]
    ensures level > 0 && snapshot == processed ==> |tree[level]| == Shr(snapshot - 1, level) + 1
  {
    hide Level, Shr, Height;
    var d, s, p := tree[0], snapshot, processed;
    var small, big := Level(h, d[..s], level), Level(h, d[..p], level);
    LevelSize(h, d[..s], level);
    LevelSize(h, d[..p], level);
    ShrMono(s - 1, p - 1, level);
    assert big == if level == 0 then d[..p] else tree[level] by { LevelZero(h, d[..p]); }
    assert d[..s][..s] == d[..p][..s] && d[..s][..s - 1] == d[..p][..s - 1];
    LevelPrefix(h, d[..s], d[..p], s, level);
    LevelPrefix(h, d[..s], d[..p], s - 1, level);
    SamePrefix(small, big, Shr(s - 1, level));
    SamePrefix(small, big, Shr(s, level));
  }

  lemma SamePrefix<T>(a: seq<T>, b: seq<T>, k: nat)
    requires k <= |a| && k <= |b| && a[..k] == b[..k]
    ensures forall i :: 0 <= i < k ==> a[i] == b[i]
  {
    forall i | 0 <= i < k
      ensures a[i] == b[i]
    {
      assert a[..k][i] == b[..k][i];
    }
  }

  lemma NextLevel(h: TreeHasher, nodes: seq<Bytes>, level: nat)
    ensures LevelUp(h, Level(h, nodes, level)) == Level(h, nodes, level + 1)
  {
  }

  lemma Raised(
      h: TreeHasher, before: seq<seq<Bytes>>, after: seq<seq<Bytes>>, d: seq<Bytes>,
      processed: nat, snapshot: nat, level: nat)
    requires Updating(h, before, d, processed, snapshot, level)
    requires after ==
      (if |before| <= level + 1 then before + [[]] else before)[level + 1 := Level(h, d[..snapshot], level + 1)]
    ensures Updating(h, after, d, processed, snapshot, level + 1)
  {
    hide Level;
    HeightAtLeast(Shr(processed - 1, level) + 1);
  }

  lemma HeightAtLeast(n: nat)
    requires n > 0
    ensures Height(n) >= 1 && (n > 1 ==> Height(n) >= 2)
  {
  }

  /** The last node of a row is stored when the snapshot fills the subtree below it. */
  lemma BelowTop(h: TreeHasher, tree: seq<seq<Bytes>>, processed: nat, snapshot: nat, level: nat)
    requires RowsAre(h, tree, processed) && 1 <= snapshot <= processed && level < Height(snapshot)
    ensures level < |tree| && snapshot <= |tree[0]| && Shr(snapshot - 1, level) < |tree[level]|
    ensures Shr(snapshot, level) == Shr(snapshot - 1, level) + 1 ==>
      LastOfRow(h, tree[0][..snapshot], level) == tree[level][Shr(snapshot - 1, level)]
  {
    hide Level, Shr, Height;
    HeightMono(snapshot, processed);
    SnapshotRow(h, tree, processed, snapshot, level);
  }

  /** From the last node of a row to the last node of the next row. */
  lemma Climb(h: TreeHasher, tree: seq<seq<Bytes>>, processed: nat, snapshot: nat, level: nat)
    requires RowsAre(h, tree, processed) && 1 <= snapshot <= processed
    requires level < Height(snapshot) && Shr(snapshot - 1, level) > 0
    ensures level < |tree| && snapshot <= |tree[0]| && level + 1 < Height(snapshot)
    ensures var s, last := tree[0][..snapshot], Shr(snapshot - 1, level);
      && last < |tree[level]| && Shr(snapshot - 1, level + 1) == last / 2
      && LastOfRow(h, s, level + 1) == (if IsRightChild(last)
                                        then h.HashChildren(tree[level][last - 1], LastOfRow(h, s, level))
                                        else LastOfRow(h, s, level))
      && (Shr(snapshot, level) == last + 1 ==> LastOfRow(h, s, level) == tree[level][last])
      && (Shr(snapshot, level) == last + 1 && IsRightChild(last) ==> Shr(snapshot, level + 1) == last / 2 + 1)
  {
    hide Level, LevelUp, Mth;
    HeightRow(snapshot, level);
    HeightMono(snapshot, processed);
    SnapshotRow(h, tree, processed, snapshot, level);
    NextLevel(h, tree[0][..snapshot], level);
    LastUp(h, Level(h, tree[0][..snapshot], level));
  }

  lemma LastUp(h: TreeHasher, row: seq<Bytes>)
    requires |row| > 1
    ensures var last := |row| - 1;
      && |LevelUp(h, row)| == last / 2 + 1
      && LevelUp(h, row)[last / 2] == if IsRightChild(last) then h.HashChildren(row[last - 1], row[last]) else row[last]
  {
  }

  lemma TopOfSnapshot(h: TreeHasher, nodes: seq<Bytes>, level: nat)
    requires nodes != [] && Shr(|nodes| - 1, level) == 0
    ensures LastOfRow(h, nodes, level) == Mth(h, nodes)
    ensures level < Height(|nodes|) ==> level + 1 == Height(|nodes|)
  {
    hide Level, Mth;
    RootRow(h, nodes, level);
    HeightRow(|nodes|, level);
  }

  /** Rows up to `level` are those of the snapshot, rows above it still those of the processed leaves. */
  ghost predicate Updating(
      h: TreeHasher, tree: seq<seq<Bytes>>, d: seq<Bytes>, processed: nat, snapshot: nat, level: nat) {
    && tree != [] && tree[0] == d && 1 <= processed < snapshot <= |d|
    && |tree| == level + Height(Shr(processed - 1, level) + 1)
    && (forall l :: 1 <= l <= level && l < |tree| ==> tree[l] == Level(h, d[..snapshot], l))
    && (forall l :: level < l < |tree| ==> tree[l] == Level(h, d[..processed], l))
  }

  /** What the next row holds before it is raised. */
  lemma RowBounds(h: TreeHasher, tree: seq<seq<Bytes>>, d: seq<Bytes>, processed: nat, snapshot: nat, level: nat)
    requires Updating(h, tree, d, processed, snapshot, level)
    requires Shr(snapshot - 1, level) > 0
    ensures snapshot <= |d|
    ensures level < |tree| && Shr(processed, level) <= Shr(snapshot - 1, level) < |tree[level]|
    ensures tree[level][..Shr(snapshot - 1, level) + 1] == Level(h, d[..snapshot], level)
    ensures var k := Shr(processed, level) / 2;
      && k <= |Level(h, d[..snapshot], level + 1)|
      && (|tree| == level + 1 ==> k == 0)
      && (|tree| > level + 1 ==> k <= |tree[level + 1]| <= k + 1)
      && (|tree| > level + 1 ==> tree[level + 1][..k] == Level(h, d[..snapshot], level + 1)[..k])
  {
    hide Level, Shr, Height;
    var p, s := processed, snapshot;
    ShrOnce(p, level);
    ShrOnce(p - 1, level);
    ShrOnce(s - 1, level);
    LevelSize(h, d[..s], level + 1);
    HeightAtLeast(Shr(p - 1, level) + 1);
    LevelSize(h, d[..s], level);
    LevelSize(h, d[..p], level + 1);
    ShrMono(p, s - 1, level);
    ShrSucc(p - 1, level);
    ShrSucc(p - 1, level + 1);
    assert d[..s][..p] == d[..p][..p];
    LevelPrefix(h, d[..s], d[..p], p, level + 1);
    LevelZero(h, d[..s]);
    assert level > 0 ==> tree[level] == Level(h, d[..s], level);
  }

  lemma LevelZero(h: TreeHasher, nodes: seq<Bytes>)
    ensures Level(h, nodes, 0) == nodes
  {
  }
}
