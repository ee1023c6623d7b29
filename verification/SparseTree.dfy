/**
 `SparseMerkleTree` of cpp/merkletree/sparse_merkle_tree.cc: leaves are stored at the first free node
 of their path and pushed down on a clash; interior hashes and the root are cached.

 Node indexes are unbounded and the number of path bits is a parameter, where the source has a 64-bit
 index and 256 bits. The empty string stands for an unset hash.
 */
module SparseTree {
  import opened Options
  import opened TreeHashing
  import opened SparseSpec

  datatype TreeNode =
    | Internal(hash: Bytes)
    | LeafNode(path: BitPath, hash: Bytes)

  type Nodes = seq<map<int, TreeNode>>

  /** The index of the node that a prefix leads to, in its level. */
  function Index(prefix: BitPath): nat {
    if prefix == [] then 0 else 2 * Index(prefix[..|prefix| - 1]) + (if prefix[|prefix| - 1] then 1 else 0)
  }

  lemma {:induction false} IndexInjective(x: BitPath, y: BitPath)
    requires |x| == |y| && Index(x) == Index(y)
    ensures x == y
  {
    if x != [] {
      IndexInjective(x[..|x| - 1], y[..|y| - 1]);
      assert x == x[..|x| - 1] + [x[|x| - 1]] && y == y[..|y| - 1] + [y[|y| - 1]];
    }
  }

  /** The node that a prefix leads to. */
  function NodeAt(tree: Nodes, x: BitPath): Option<TreeNode>
    requires x != []
  {
    if |x| <= |tree| && Index(x) in tree[|x| - 1] then Some(tree[|x| - 1][Index(x)]) else None
  }

  function WithNode(tree: Nodes, x: BitPath, node: TreeNode): Nodes
    requires 0 < |x| <= |tree|
  {
    tree[|x| - 1 := tree[|x| - 1][Index(x) := node]]
  }

  lemma NodeAtSet(tree: Nodes, x: BitPath, node: TreeNode, y: BitPath)
    requires 0 < |x| <= |tree| && y != []
    ensures NodeAt(WithNode(tree, x, node), y) == if y == x then Some(node) else NodeAt(tree, y)
  {
    if |x| == |y| && Index(x) == Index(y) {
      IndexInjective(x, y);
    }
  }

  /** What is stored at a prefix: nothing, a leaf that is alone there, or an interior node. `top` says that
      the prefix counts as a place of its own even when its parent prefix is not shared. */
  ghost predicate Canon(h: TreeHasher, bits: nat, tree: Nodes, content: map<BitPath, Bytes>, top: bool, x: BitPath)
    requires 0 < |x| <= bits
  {
    var node := NodeAt(tree, x);
    && (node.Some? <==> Fits(content, x) && (top || Two(content, x[..|x| - 1])))
    && match node
       case None => true
       case Some(Internal(hash)) => Two(content, x) && (hash == [] || hash == Full(h, bits, content, x))
       case Some(LeafNode(p, hash)) => !Two(content, x) && p in content && Under(p, x) && hash == content[p]
  }

  ghost predicate AllCanon(h: TreeHasher, bits: nat, tree: Nodes, content: map<BitPath, Bytes>) {
    forall x: BitPath :: 0 < |x| <= bits ==> Canon(h, bits, tree, content, |x| == 1, x)
  }

  /** In the middle of storing a path: below the reached prefix the tree still stands for the old content. */
  ghost predicate Descending(
      h: TreeHasher, bits: nat, tree: Nodes, before: map<BitPath, Bytes>, after: map<BitPath, Bytes>, reached: BitPath)
  {
    && (|reached| > 1 ==> Two(after, reached[..|reached| - 1]))
    && forall x: BitPath :: 0 < |x| <= bits ==> AtStep(h, bits, tree, before, after, reached, x)
  }

  ghost predicate AtStep(
      h: TreeHasher, bits: nat, tree: Nodes, before: map<BitPath, Bytes>, after: map<BitPath, Bytes>,
      reached: BitPath, x: BitPath)
    requires 0 < |x| <= bits
  {
    if Under(x, reached) then Canon(h, bits, tree, before, x == reached, x)
    else Canon(h, bits, tree, after, |x| == 1, x)
  }

  // ---------- What one more path changes ----------

  /** Off the new path nothing changes. */
  lemma OffPath(h: TreeHasher, bits: nat, c: map<BitPath, Bytes>, path: BitPath, leaf: Bytes, x: BitPath)
    requires |x| <= bits && !Under(path, x)
    ensures var c' := c[path := leaf];
      && (Fits(c, x) <==> Fits(c', x)) && (Two(c, x) <==> Two(c', x))
      && Full(h, bits, c, x) == Full(h, bits, c', x)
  {
    FullFrame(h, bits, c, c[path := leaf], x);
  }

  /** On the new path the content grows. */
  lemma OnPath(c: map<BitPath, Bytes>, path: BitPath, leaf: Bytes, x: BitPath)
    requires Under(path, x)
    ensures var c' := c[path := leaf];
      && Fits(c', x) && (Two(c, x) ==> Two(c', x))
      && (!Fits(c, x) ==> !Two(c', x))
  {
  }

  /** Prefixes of one path below a prefix: the next step, or off the path. */
  lemma Below(x: BitPath, r: BitPath, path: BitPath)
    requires Under(x, r) && Under(path, r) && x != r && |r| < |path|
    ensures |x| > |r| && Under(x[..|x| - 1], r)
    ensures var next := path[..|r| + 1];
      || Under(x, next)
      || (!Under(path, x) && Under(x, r + [!path[|r|]]))
  {
    UnderChild(x, r, x[|r|]);
    UnderChild(path, r, path[|r|]);
    assert path[..|r| + 1] == r + [path[|r|]];
  }

  lemma Alone(c: map<BitPath, Bytes>, r: BitPath, q: BitPath, x: BitPath)
    requires q in c && Under(q, r) && !Two(c, r) && Under(x, r)
    ensures !Two(c, x) && (Fits(c, x) <==> Under(q, x))
  {
    if Fits(c, x) {
      var p :| p in c && Under(p, x);
      assert Under(p, r);
    }
    if Two(c, x) {
      var p, p' :| p in c && p' in c && p != p' && Under(p, x) && Under(p', x);
      assert Under(p, r) && Under(p', r);
    }
  }

  // ---------- The four cases of one step ----------

  /** No node there: the leaf is stored. */
  lemma StoreNew(h: TreeHasher, bits: nat, tree: Nodes, c: map<BitPath, Bytes>, path: BitPath, leaf: Bytes, r: BitPath)
    requires 0 < |r| <= bits == |path| && |r| <= |tree| && Under(path, r)
    requires Descending(h, bits, tree, c, c[path := leaf], r) && NodeAt(tree, r) == None
    ensures AllCanon(h, bits, WithNode(tree, r, LeafNode(path, leaf)), c[path := leaf])
  {
    var c', tree' := c[path := leaf], WithNode(tree, r, LeafNode(path, leaf));
    hide Full, WithNode;
    forall x: BitPath | 0 < |x| <= bits
      ensures Canon(h, bits, tree', c', |x| == 1, x)
    {
      NodeAtSet(tree, r, LeafNode(path, leaf), x);
      assert AtStep(h, bits, tree, c, c', r, x) && AtStep(h, bits, tree, c, c', r, r);
      OnPath(c, path, leaf, r);
      assert !Fits(c, r);
      if Under(x, r) && x != r {
        assert Under(x[..|x| - 1], r);
        NotFits(c, r, x);
        NotFits(c, r, x[..|x| - 1]);
        if Under(path, x[..|x| - 1]) {
          OnPath(c, path, leaf, x[..|x| - 1]);
        } else {
          OffPath(h, bits, c, path, leaf, x[..|x| - 1]);
        }
      }
    }
  }

  lemma NotFits(c: map<BitPath, Bytes>, r: BitPath, x: BitPath)
    requires Under(x, r) && !Fits(c, r)
    ensures !Fits(c, x) && !Two(c, x)
  {
    if Fits(c, x) {
      var p :| p in c && Under(p, x);
      assert Under(p, r);
    }
  }

  /** An interior node: its hash is unset and the descent goes on. */
  lemma PassInternal(
      h: TreeHasher, bits: nat, tree: Nodes, c: map<BitPath, Bytes>, path: BitPath, leaf: Bytes,
      r: BitPath, next: BitPath)
    requires 0 < |r| < bits == |path| && |r| <= |tree| && Under(path, r) && next == path[..|r| + 1]
    requires Descending(h, bits, tree, c, c[path := leaf], r)
    requires NodeAt(tree, r).Some? && NodeAt(tree, r).value.Internal?
    ensures Descending(h, bits, WithNode(tree, r, Internal([])), c, c[path := leaf], next)
  {
    var c', tree' := c[path := leaf], WithNode(tree, r, Internal([]));
    hide Full, WithNode;
    assert AtStep(h, bits, tree, c, c', r, r);
    OnPath(c, path, leaf, r);
    assert next[..|r|] == r;
    forall x: BitPath | 0 < |x| <= bits
      ensures AtStep(h, bits, tree', c, c', next, x)
    {
      NodeAtSet(tree, r, Internal([]), x);
      assert AtStep(h, bits, tree, c, c', r, x);
      if Under(x, r) && x != r {
        Below(x, r, path);
        if !Under(x, next) {
          OffPath(h, bits, c, path, leaf, x);
          if Under(path, x[..|x| - 1]) {
            ParentIsShared(x, r, path);
          } else {
            OffPath(h, bits, c, path, leaf, x[..|x| - 1]);
          }
        }
      }
    }
  }

  lemma ParentIsShared(x: BitPath, r: BitPath, path: BitPath)
    requires x != [] && Under(x[..|x| - 1], r) && Under(path, r) && |r| < |path|
    requires Under(x, r + [!path[|r|]]) && Under(path, x[..|x| - 1])
    ensures x[..|x| - 1] == r
  {
  }

  /** The same path: its leaf is replaced. */
  lemma ReplaceLeaf(
      h: TreeHasher, bits: nat, tree: Nodes, c: map<BitPath, Bytes>, path: BitPath, leaf: Bytes, r: BitPath)
    requires 0 < |r| <= bits == |path| && |r| <= |tree| && Under(path, r)
    requires Descending(h, bits, tree, c, c[path := leaf], r)
    requires NodeAt(tree, r).Some? && NodeAt(tree, r).value.LeafNode? && NodeAt(tree, r).value.path == path
    ensures AllCanon(h, bits, WithNode(tree, r, LeafNode(path, leaf)), c[path := leaf])
  {
    var c', tree' := c[path := leaf], WithNode(tree, r, LeafNode(path, leaf));
    hide Full, WithNode;
    assert AtStep(h, bits, tree, c, c', r, r);
    forall x: BitPath | 0 < |x| <= bits
      ensures Canon(h, bits, tree', c', |x| == 1, x)
    {
      NodeAtSet(tree, r, LeafNode(path, leaf), x);
      assert AtStep(h, bits, tree, c, c', r, x);
      if Under(x, r) {
        Alone(c, r, path, x);
        Alone(c', r, path, x);
        if x != r {
          assert Under(x[..|x| - 1], r);
          Alone(c, r, path, x[..|x| - 1]);
          Alone(c', r, path, x[..|x| - 1]);
        }
      }
    }
  }

  lemma PushedBelow(
      h: TreeHasher, bits: nat, tree: Nodes, c: map<BitPath, Bytes>, path: BitPath, leaf: Bytes,
      r: BitPath, next: BitPath,
      q: BitPath, moved: TreeNode, x: BitPath)
    requires 0 < |r| < bits == |path| == |q| && Under(path, r) && Under(q, r) && next == path[..|r| + 1] && q != path
    requires moved.LeafNode? && moved.path == q && q in c && moved.hash == c[q] && !Two(c, r)
    requires Under(x, r) && |r| < |x| <= bits
    requires NodeAt(tree, x) == if x == q[..|r| + 1] then Some(moved) else None
    ensures AtStep(h, bits, tree, c, c[path := leaf], next, x)
  {
    hide NodeAt, Full;
    var c', parent := c[path := leaf], x[..|x| - 1];
    assert Under(parent, r) && (parent == r <==> |x| == |r| + 1);
    Alone(c, r, q, x);
    Alone(c, r, q, parent);
    assert next == r + [path[|r|]] && q[..|r| + 1] == r + [q[|r|]];
    if Under(x, next) {
      assert |x| > |next| ==> Under(parent, next);
      assert x != next ==> parent != r;
    } else {
      Below(x, r, path);
      OffPath(h, bits, c, path, leaf, x);
      if Under(path, parent) {
        ParentIsShared(x, r, path);
        assert Two(c', r) by { assert q in c' && path in c'; }
        assert x == r + [!path[|r|]];
      } else {
        OffPath(h, bits, c, path, leaf, parent);
        assert parent != r;
      }
    }
  }

  lemma PushedAt(
      h: TreeHasher, bits: nat, tree: Nodes, after: Nodes, c: map<BitPath, Bytes>, path: BitPath,
      leaf: Bytes, r: BitPath,
      next: BitPath, q: BitPath, moved: TreeNode, x: BitPath)
    requires 0 < |r| < bits == |path| == |q| && Under(path, r) && next == path[..|r| + 1] && 0 < |x| <= bits
    requires moved.LeafNode? && moved.path == q != path && NodeAt(tree, r) == Some(moved)
    requires AtStep(h, bits, tree, c, c[path := leaf], r, r) && AtStep(h, bits, tree, c, c[path := leaf], r, x)
    requires |r| > 1 ==> Two(c[path := leaf], r[..|r| - 1])
    requires NodeAt(after, x) ==
      if x == r then Some(Internal([])) else if x == q[..|r| + 1] then Some(moved) else NodeAt(tree, x)
    ensures AtStep(h, bits, after, c, c[path := leaf], next, x)
  {
    hide NodeAt, Full;
    var c' := c[path := leaf];
    OnPath(c, path, leaf, r);
    if x == r {
      assert Two(c', r) by { assert q in c' && path in c'; }
    } else if Under(x, r) {
      Below(x, r, path);
      Alone(c, r, q, x[..|x| - 1]);
      PushedBelow(h, bits, after, c, path, leaf, r, next, q, moved, x);
    } else {
      assert !Under(x, next) && x != q[..|r| + 1];
    }
  }

  /** Another path: its leaf moves down one level and the descent goes on. */
  lemma PushDown(
      h: TreeHasher, bits: nat, tree: Nodes, c: map<BitPath, Bytes>, path: BitPath, leaf: Bytes,
      r: BitPath, next: BitPath,
      q: BitPath, moved: TreeNode)
    requires 0 < |r| < bits == |path| == |q| && |r| < |tree| && Under(path, r) && next == path[..|r| + 1]
    requires Descending(h, bits, tree, c, c[path := leaf], r)
    requires NodeAt(tree, r) == Some(moved) && moved.LeafNode? && moved.path == q != path
    ensures NodeAt(tree, q[..|r| + 1]) == None
    ensures Descending(
        h, bits, WithNode(WithNode(tree, q[..|r| + 1], moved), r, Internal([])), c, c[path := leaf], next)
  {
    var c', child := c[path := leaf], q[..|r| + 1];
    var tree1 := WithNode(tree, child, moved);
    var tree' := WithNode(tree1, r, Internal([]));
    assert AtStep(h, bits, tree, c, c', r, r) && AtStep(h, bits, tree, c, c', r, child);
    assert next[..|r|] == r && child[..|r|] == r;
    assert Two(c', r) by { assert q in c' && path in c'; }
    hide AtStep, Full, WithNode, NodeAt;
    forall x: BitPath | 0 < |x| <= bits
      ensures AtStep(h, bits, tree', c, c', next, x)
    {
      NodeAtSet(tree, child, moved, x);
      NodeAtSet(tree1, r, Internal([]), x);
      assert AtStep(h, bits, tree, c, c', r, x);
      PushedAt(h, bits, tree, tree', c, path, leaf, r, next, q, moved, x);
    }
  }

  lemma Started(h: TreeHasher, bits: nat, tree: Nodes, c: map<BitPath, Bytes>, path: BitPath, leaf: Bytes)
    requires AllCanon(h, bits, tree, c) && |path| == bits > 0
    ensures Descending(h, bits, tree, c, c[path := leaf], path[..1])
  {
    hide Full, NodeAt;
    var c', r := c[path := leaf], path[..1];
    forall x: BitPath | 0 < |x| <= bits
      ensures AtStep(h, bits, tree, c, c', r, x)
    {
      assert Canon(h, bits, tree, c, |x| == 1, x);
      if !Under(x, r) {
        OffPath(h, bits, c, path, leaf, x);
        if |x| > 1 {
          OffPath(h, bits, c, path, leaf, x[..|x| - 1]);
        }
      } else {
        assert x == r <==> |x| == 1;
      }
    }
  }

  /** Empty levels are no nodes. */
  lemma SameNodes(
      h: TreeHasher, bits: nat, a: Nodes, b: Nodes, before: map<BitPath, Bytes>, after: map<BitPath, Bytes>, r: BitPath)
    requires forall x: BitPath :: x != [] ==> NodeAt(a, x) == NodeAt(b, x)
    requires Descending(h, bits, a, before, after, r)
    ensures Descending(h, bits, b, before, after, r)
  {
    hide NodeAt, Full;
    forall x: BitPath | 0 < |x| <= bits
      ensures AtStep(h, bits, b, before, after, r, x)
    {
      assert AtStep(h, bits, a, before, after, r, x);
      assert NodeAt(a, x) == NodeAt(b, x);
    }
  }

  lemma SharedIsShort(c: map<BitPath, Bytes>, bits: nat, r: BitPath)
    requires Sized(c, bits) && Two(c, r)
    ensures |r| < bits
  {
    var p, q :| p in c && q in c && p != q && Under(p, r) && Under(q, r);
    assert |r| == bits ==> p == r == q;
  }

  /** What the reached prefix holds. */
  lemma StepAt(
      h: TreeHasher, bits: nat, tree: Nodes, before: map<BitPath, Bytes>, after: map<BitPath, Bytes>, r: BitPath)
    requires Descending(h, bits, tree, before, after, r) && 0 < |r| <= bits
    ensures NodeAt(tree, r).Some? ==>
      var n := NodeAt(tree, r).value;
      if n.Internal? then Two(before, r) else n.path in before && Under(n.path, r)
  {
    assert AtStep(h, bits, tree, before, after, r, r);
  }

  lemma ClashIsShort(q: BitPath, path: BitPath, r: BitPath)
    requires |q| == |path| && q != path && Under(q, r) && Under(path, r)
    ensures |r| < |path|
  {
    assert |r| == |path| ==> q == r == path;
  }

  lemma IndexZero(path: BitPath)
    ensures Index(path[..0]) == 0
  {
  }

  lemma IndexStep(path: BitPath, depth: nat)
    requires depth < |path|
    ensures Index(path[..depth + 1]) == 2 * Index(path[..depth]) + if path[depth] then 1 else 0
  {
    var r := path[..depth + 1];
    assert r[..depth] == path[..depth];
  }

  // ---------- The tree ----------

  /** `GetNullHashes`: entry i is the hash of an empty subtree below i + 1 bits. */
  method GetNullHashes(h: TreeHasher, bits: nat) returns (hashes: seq<Bytes>)
    requires bits > 0
    ensures |hashes| == bits && forall i :: 0 <= i < bits ==> hashes[i] == NullHash(h, bits - 1 - i)
  {
    var r := [h.HashLeaf([])];
    for i := 1 to bits
      invariant |r| == i && forall j :: 0 <= j < i ==> r[j] == NullHash(h, j)
    {
      r := r + [h.HashChildren(r[|r| - 1], r[|r| - 1])];
    }
    hashes := seq(bits, i requires 0 <= i < bits => r[bits - 1 - i]);
  }

  class SparseMerkleTree {
    const h: TreeHasher
    const bits: nat
    const nullHashes: seq<Bytes>
    var tree: Nodes
    var rootHash: Bytes
    ghost var content: map<BitPath, Bytes>

    ghost predicate Valid()
      reads this
    {
      && h.Valid() && bits > 0 && Sized(content, bits) && |tree| <= bits
      && |nullHashes| == bits && (forall i :: 0 <= i < bits ==> nullHashes[i] == NullHash(h, bits - 1 - i))
      && AllCanon(h, bits, tree, content)
      && (rootHash == [] || rootHash == Full(h, bits, content, []))
    }

    constructor (hasher: TreeHasher, pathBits: nat)
      requires hasher.Valid() && pathBits > 0
      ensures Valid() && h == hasher && bits == pathBits && content == map[]
    {
      var hashes := GetNullHashes(hasher, pathBits);
      h, bits, nullHashes := hasher, pathBits, hashes;
      tree, rootHash, content := [], [], map[];
    }

    method EnsureHaveLevel(level: nat)
      requires level < bits && |tree| <= bits
      modifies this`tree
      ensures |tree| == (if old(|tree|) <= level then level + 1 else old(|tree|)) <= bits
      ensures forall x: BitPath :: x != [] ==> NodeAt(tree, x) == NodeAt(old(tree), x)
    {
      if |tree| < level + 1 {
        tree := tree + seq(level + 1 - |tree|, i => map[]);
      }
    }

    /** One turn of the loop of `SetLeaf`. */
    method Visit(depth: nat, index: nat, path: BitPath, leafHash: Bytes, ghost before: map<BitPath, Bytes>)
      returns (stop: bool)
      requires |path| == bits && depth < |tree| <= bits && index == Index(path[..depth + 1])
      requires Sized(before, bits)
      requires Descending(h, bits, tree, before, before[path := leafHash], path[..depth + 1])
      modifies this`tree
      ensures |tree| <= bits
      ensures stop ==> AllCanon(h, bits, tree, before[path := leafHash])
      ensures !stop ==>
        depth + 1 < bits && Descending(h, bits, tree, before, before[path := leafHash], path[..depth + 2])
    {
      hide Descending, AllCanon, Full, Index;
      ghost var r := path[..depth + 1];
      StepAt(h, bits, tree, before, before[path := leafHash], r);
      if index !in tree[depth] {
        StoreNew(h, bits, tree, before, path, leafHash, r);
        tree := tree[depth := tree[depth][index := LeafNode(path, leafHash)]];
        return true;
      }
      match tree[depth][index] {
        case Internal(_) =>
          SharedIsShort(before, bits, r);
          PassInternal(h, bits, tree, before, path, leafHash, r, path[..depth + 2]);
          tree := tree[depth := tree[depth][index := Internal([])]];
          return false;
        case LeafNode(q, _) =>
          if q == path {
            ReplaceLeaf(h, bits, tree, before, path, leafHash, r);
            tree := tree[depth := tree[depth][index := LeafNode(path, leafHash)]];
            return true;
          }
          stop := Restructure(depth, index, path, leafHash, before);
      }
    }

    /** Push the existing leaf down a level and put an interior node in its place. */
    method Restructure(depth: nat, index: nat, path: BitPath, leafHash: Bytes, ghost before: map<BitPath, Bytes>)
      returns (stop: bool)
      requires |path| == bits && depth < |tree| <= bits && index == Index(path[..depth + 1])
      requires Sized(before, bits)
      requires Descending(h, bits, tree, before, before[path := leafHash], path[..depth + 1])
      requires index in tree[depth] && tree[depth][index].LeafNode? && tree[depth][index].path != path
      modifies this`tree
      ensures |tree| <= bits && !stop
      ensures depth + 1 < bits && Descending(h, bits, tree, before, before[path := leafHash], path[..depth + 2])
    {
      hide Descending, Full, Index;
      ghost var r := path[..depth + 1];
      var moved := tree[depth][index];
      var q := moved.path;
      StepAt(h, bits, tree, before, before[path := leafHash], r);
      ClashIsShort(q, path, r);
      ghost var start := tree;
      EnsureHaveLevel(depth + 1);
      SameNodes(h, bits, start, tree, before, before[path := leafHash], r);
      assert NodeAt(tree, r) == NodeAt(start, r) == Some(moved);
      ghost var was := tree;
      PushDown(h, bits, tree, before, path, leafHash, r, path[..depth + 2], q, moved);
      IndexStep(q, depth + 1);
      assert q[..depth + 1] == r;
      var childIndex := index * 2 + if q[depth + 1] then 1 else 0;
      assert childIndex !in tree[depth + 1];
      tree := tree[depth + 1 := tree[depth + 1][childIndex := moved]];
      tree := tree[depth := tree[depth][index := Internal([])]];
      assert tree == WithNode(WithNode(was, q[..depth + 2], moved), r, Internal([]));
      return false;
    }

    method SetLeaf(path: BitPath, data: Bytes)
      requires Valid() && |path| == bits
      modifies this
      ensures Valid() && content == old(content)[path := h.HashLeaf(data)]
    {
      hide AllCanon, Full, NullHash;
      rootHash := [];
      var leafHash := h.HashLeaf(data);
      Descend(path, leafHash, content);
      content := content[path := leafHash];
    }

    /** The loop of `SetLeaf`: walk down to the place of the leaf. */
    method Descend(path: BitPath, leafHash: Bytes, ghost before: map<BitPath, Bytes>)
      requires |path| == bits > 0 && |tree| <= bits && Sized(before, bits)
      requires AllCanon(h, bits, tree, before)
      modifies this`tree
      ensures |tree| <= bits && AllCanon(h, bits, tree, before[path := leafHash])
    {
      hide Descending, AllCanon, NodeAt, Index;
      var depth, index := 0, 0;
      Started(h, bits, tree, before, path, leafHash);
      IndexZero(path);
      var stop := false;
      while !stop
        invariant |tree| <= bits
        invariant stop ==> AllCanon(h, bits, tree, before[path := leafHash])
        invariant !stop ==> 0 <= depth < bits && index == 2 * Index(path[..depth])
        invariant !stop ==> Descending(h, bits, tree, before, before[path := leafHash], path[..depth + 1])
        decreases if stop then 0 else 1, bits - depth
      {
        IndexStep(path, depth);
        index := index + if path[depth] then 1 else 0;
        ghost var was := tree;
        EnsureHaveLevel(depth);
        SameNodes(h, bits, was, tree, before, before[path := leafHash], path[..depth + 1]);
        stop := Visit(depth, index, path, leafHash, before);
        index, depth := 2 * index, depth + 1;
      }
    }

    method CalculateSubtreeHash(depth: nat, index: nat, ghost x: BitPath) returns (hash: Bytes)
      requires Valid()
      requires |x| == depth + 1 <= bits && index == Index(x) && (depth == 0 || Two(content, x[..depth]))
      modifies this`tree
      ensures Valid() && hash == Full(h, bits, content, x)
      decreases bits - depth
    {
      hide AllCanon, Full, NullHash, Index;
      StoredAt(h, bits, tree, content, x);
      if |tree| <= depth || index !in tree[depth] {
        FullNull(h, bits, content, x);
        return nullHashes[depth];
      }
      match tree[depth][index] {
        case Internal(cached) =>
          if cached != [] {
            return cached;
          }
          hash := HashInternal(depth, index, x);
        case LeafNode(path, leafHash) =>
          hash := HashLeafBranch(depth, path, leafHash, x);
      }
    }

    /** Hash both children of an interior node and cache the result. */
    method HashInternal(depth: nat, index: nat, ghost x: BitPath) returns (hash: Bytes)
      requires Valid()
      requires |x| == depth + 1 <= bits && index == Index(x) && Two(content, x)
      modifies this`tree
      ensures Valid() && hash == Full(h, bits, content, x)
      ensures depth < |tree| && index in tree[depth] && tree[depth][index] == Internal(hash)
      decreases bits - depth, 0
    {
      hide AllCanon, NullHash, Index, Full;
      SharedIsShort(content, bits, x);
      FullFork(h, bits, content, x);
      ChildIndex(x);
      assert (x + [false])[..depth + 1] == x && (x + [true])[..depth + 1] == x;
      var left := CalculateSubtreeHash(depth + 1, 2 * index, x + [false]);
      var right := CalculateSubtreeHash(depth + 1, 2 * index + 1, x + [true]);
      hash := h.HashChildren(left, right);
      StoredAt(h, bits, tree, content, x);
      CacheHash(h, bits, tree, content, x, hash);
      tree := tree[depth := tree[depth][index := Internal(hash)]];
    }

    /** Hash a leaf up to the node it is stored at, past empty siblings. */
    method HashLeafBranch(depth: nat, path: BitPath, leafHash: Bytes, ghost x: BitPath) returns (ret: Bytes)
      requires Valid()
      requires |x| == depth + 1 <= bits && Under(path, x) && path in content && content[path] == leafHash
      requires !Two(content, x)
      ensures ret == Full(h, bits, content, x)
    {
      hide AllCanon, NullHash;
      ret := leafHash;
      var i := bits - 1;
      assert path[..bits] == path;
      while i > depth
        invariant depth <= i < bits
        invariant ret == Full(h, bits, content, path[..i + 1])
      {
        ghost var prefix := path[..i];
        assert Under(prefix, x) && Under(path, prefix);
        Alone(content, x, path, prefix);
        FullOne(h, bits, content, prefix, path);
        assert prefix + [path[i]] == path[..i + 1];
        if !path[i] {
          ret := h.HashChildren(ret, nullHashes[i]);
        } else {
          ret := h.HashChildren(nullHashes[i], ret);
        }
        i := i - 1;
      }
      assert path[..depth + 1] == x;
    }

    method CurrentRoot() returns (root: Bytes)
      requires Valid()
      modifies this`tree, this`rootHash
      ensures Valid() && root == Full(h, bits, content, [])
    {
      hide AllCanon, NullHash, Full, Index;
      if rootHash == [] {
        FullTop(h, bits, content);
        TopIndexes();
        var left := CalculateSubtreeHash(0, 0, [false]);
        var right := CalculateSubtreeHash(0, 1, [true]);
        rootHash := h.HashChildren(left, right);
      }
      return rootHash;
    }
  }

  lemma FullTop(h: TreeHasher, bits: nat, content: map<BitPath, Bytes>)
    requires bits > 0
    ensures Full(h, bits, content, [])
      == h.HashChildren(Full(h, bits, content, [false]), Full(h, bits, content, [true]))
  {
    assert [] + [false] == [false] && [] + [true] == [true];
  }

  lemma TopIndexes()
    ensures Index([false]) == 0 && Index([true]) == 1
  {
  }

  lemma ChildIndex(x: BitPath)
    ensures Index(x + [false]) == 2 * Index(x) && Index(x + [true]) == 2 * Index(x) + 1
  {
    assert (x + [false])[..|x|] == x && (x + [true])[..|x|] == x;
  }

  /** What a place that is top or below an interior node holds. */
  lemma StoredAt(h: TreeHasher, bits: nat, tree: Nodes, content: map<BitPath, Bytes>, x: BitPath)
    requires AllCanon(h, bits, tree, content) && 0 < |x| <= bits
    requires |x| == 1 || Two(content, x[..|x| - 1])
    ensures NodeAt(tree, x).None? ==> !Fits(content, x)
    ensures NodeAt(tree, x).Some? ==>
      var n := NodeAt(tree, x).value;
      && (n.Internal? ==> Two(content, x) && (n.hash == [] || n.hash == Full(h, bits, content, x)))
      && (n.LeafNode? ==> !Two(content, x) && n.path in content && Under(n.path, x) && n.hash == content[n.path])
    ensures Two(content, x) ==> NodeAt(tree, x).Some? && NodeAt(tree, x).value.Internal?
  {
    assert Canon(h, bits, tree, content, |x| == 1, x);
  }

  /** Storing the right hash in an interior node changes nothing that the tree stands for. */
  lemma CacheHash(h: TreeHasher, bits: nat, tree: Nodes, content: map<BitPath, Bytes>, x: BitPath, hash: Bytes)
    requires AllCanon(h, bits, tree, content) && 0 < |x| <= bits && |x| <= |tree|
    requires NodeAt(tree, x).Some? && NodeAt(tree, x).value.Internal? && hash == Full(h, bits, content, x)
    ensures AllCanon(h, bits, WithNode(tree, x, Internal(hash)), content)
  {
    hide Full, WithNode, NodeAt;
    var tree' := WithNode(tree, x, Internal(hash));
    forall y: BitPath | 0 < |y| <= bits
      ensures Canon(h, bits, tree', content, |y| == 1, y)
    {
      NodeAtSet(tree, x, Internal(hash), y);
      assert Canon(h, bits, tree, content, |y| == 1, y);
    }
  }
}
