/**
 The level-by-level view of a Merkle tree.

 `LevelUp` replaces a list of nodes by the list of their parents, where a last node with
 no sibling is carried up unchanged. The recursive definitions of RFC 6962 split a list at
 a power of two; every algorithm of the repository walks from the leaves to the root. The
 lemmas here show that the two agree, one level at a time.
 */
module Levels {
  import opened TreeHashing

  function LevelUp(h: TreeHasher, nodes: seq<Bytes>): (parents: seq<Bytes>)
    ensures |parents| == (|nodes| + 1) / 2
  {
    seq((|nodes| + 1) / 2, j requires 0 <= j < (|nodes| + 1) / 2 =>
      if 2 * j + 1 < |nodes| then h.HashChildren(nodes[2 * j], nodes[2 * j + 1]) else nodes[2 * j])
  }

  /** The nodes `level` levels above `nodes`. */
  function Level(h: TreeHasher, nodes: seq<Bytes>, level: nat): seq<Bytes>
    decreases level
  {
    if level == 0 then nodes else LevelUp(h, Level(h, nodes, level - 1))
  }

  /** Number of levels of a tree with n leaves. */
  function Height(n: nat): nat {
    if n <= 1 then n else 1 + Height((n + 1) / 2)
  }

  lemma LevelUpDigests(h: TreeHasher, nodes: seq<Bytes>)
    requires h.Valid() && h.Digests(nodes)
    ensures h.Digests(LevelUp(h, nodes))
  {
    var up := LevelUp(h, nodes);
    forall j | 0 <= j < |up|
      ensures |up[j]| == h.digestSize
    {
    }
  }

  /** An even cut of the nodes is a cut of the parents. */
  lemma LevelUpCut(h: TreeHasher, nodes: seq<Bytes>, k: nat)
    requires 2 * k <= |nodes|
    ensures LevelUp(h, nodes)[..k] == LevelUp(h, nodes[..2 * k])
    ensures LevelUp(h, nodes)[k..] == LevelUp(h, nodes[2 * k..])
  {
    LevelUpAppend(h, nodes[..2 * k], nodes[2 * k..]);
    assert nodes == nodes[..2 * k] + nodes[2 * k..];
  }

  /** Complete pairs can be put in front of a level. */
  lemma LevelUpAppend(h: TreeHasher, a: seq<Bytes>, b: seq<Bytes>)
    requires |a| % 2 == 0
    ensures LevelUp(h, a + b) == LevelUp(h, a) + LevelUp(h, b)
  {
    var k := |a| / 2;
    forall j | 0 <= j < |LevelUp(h, b)|
      ensures LevelUp(h, a + b)[k + j] == LevelUp(h, b)[j]
    {
      assert (a + b)[2 * (k + j)] == b[2 * j];
      if 2 * j + 1 < |b| {
        assert (a + b)[2 * (k + j) + 1] == b[2 * j + 1];
      }
    }
  }

  // ---------- Trees: the shape RFC 6962 gives to a list ----------

  datatype Tree = Leaf(node: Bytes) | Fork(left: Tree, right: Tree)

  function Build(nodes: seq<Bytes>): (t: Tree)
    requires nodes != []
    ensures Size(t) == |nodes|
    decreases |nodes|
  {
    if |nodes| == 1 then Leaf(nodes[0])
    else
      var k := Split(|nodes|);
      Fork(Build(nodes[..k]), Build(nodes[k..]))
  }

  function Size(t: Tree): (n: nat)
    ensures n > 0
  {
    match t
    case Leaf(_) => 1
    case Fork(l, r) => Size(l) + Size(r)
  }

  function TreeMth(h: TreeHasher, t: Tree): Bytes {
    match t
    case Leaf(node) => node
    case Fork(l, r) => h.HashChildren(TreeMth(h, l), TreeMth(h, r))
  }

  function TreeNode(t: Tree, i: nat): Bytes
    requires i < Size(t)
  {
    match t
    case Leaf(node) => node
    case Fork(l, r) => if i < Size(l) then TreeNode(l, i) else TreeNode(r, i - Size(l))
  }

  function TreePath(h: TreeHasher, t: Tree, i: nat): seq<Bytes> {
    match t
    case Leaf(_) => []
    case Fork(l, r) =>
      if i < Size(l) then TreePath(h, l, i) + [TreeMth(h, r)]
      else TreePath(h, r, i - Size(l)) + [TreeMth(h, l)]
  }

  function TreeSubProof(h: TreeHasher, t: Tree, m: nat, complete: bool): seq<Bytes>
    requires 0 < m <= Size(t)
  {
    if m == Size(t) then
      if complete then [] else [TreeMth(h, t)]
    else if m <= Size(t.left) then
      TreeSubProof(h, t.left, m, complete) + [TreeMth(h, t.right)]
    else
      TreeSubProof(h, t.right, m - Size(t.left), false) + [TreeMth(h, t.left)]
  }

  lemma {:induction false} BuildMth(h: TreeHasher, nodes: seq<Bytes>)
    requires nodes != []
    ensures TreeMth(h, Build(nodes)) == Mth(h, nodes)
    decreases |nodes|
  {
    if |nodes| > 1 {
      var k := Split(|nodes|);
      BuildMth(h, nodes[..k]);
      BuildMth(h, nodes[k..]);
    }
  }

  lemma {:induction false} BuildNode(nodes: seq<Bytes>, i: nat)
    requires i < |nodes|
    ensures TreeNode(Build(nodes), i) == nodes[i]
    decreases |nodes|
  {
    if |nodes| > 1 {
      var k := Split(|nodes|);
      if i < k {
        BuildNode(nodes[..k], i);
      } else {
        BuildNode(nodes[k..], i - k);
      }
    }
  }

  lemma {:induction false} BuildPath(h: TreeHasher, nodes: seq<Bytes>, i: nat)
    requires nodes != []
    ensures TreePath(h, Build(nodes), i) == Path(h, i, nodes)
    decreases |nodes|
  {
    if |nodes| > 1 {
      var k := Split(|nodes|);
      BuildMth(h, nodes[..k]);
      BuildMth(h, nodes[k..]);
      if i < k {
        BuildPath(h, nodes[..k], i);
      } else {
        BuildPath(h, nodes[k..], i - k);
      }
    }
  }

  lemma {:induction false} BuildSubProof(h: TreeHasher, nodes: seq<Bytes>, m: nat, complete: bool)
    requires 0 < m <= |nodes|
    ensures TreeSubProof(h, Build(nodes), m, complete) == SubProof(h, m, nodes, complete)
    decreases |nodes|
  {
    BuildMth(h, nodes);
    if m < |nodes| {
      var k := Split(|nodes|);
      BuildMth(h, nodes[..k]);
      BuildMth(h, nodes[k..]);
      if m <= k {
        BuildSubProof(h, nodes[..k], m, complete);
      } else {
        BuildSubProof(h, nodes[k..], m - k, false);
      }
    }
  }

  // ---------- One level up, on trees ----------

  function Up(h: TreeHasher, t: Tree): Tree {
    match t
    case Leaf(_) => t
    case Fork(l, r) =>
      if l.Leaf? && r.Leaf? then Leaf(h.HashChildren(l.node, r.node)) else Fork(Up(h, l), Up(h, r))
  }

  /** Below a fork of more than two leaves, the left tree has an even number of leaves. */
  ghost predicate Shaped(h: TreeHasher, t: Tree) {
    match t
    case Leaf(_) => true
    case Fork(l, r) =>
      || (l.Leaf? && r.Leaf?)
      || (l.Fork? && Size(l) == 2 * Size(Up(h, l)) && Shaped(h, l) && Shaped(h, r))
  }

  lemma {:induction false} BuildLevelUp(h: TreeHasher, nodes: seq<Bytes>)
    requires nodes != []
    ensures Build(LevelUp(h, nodes)) == Up(h, Build(nodes))
    ensures Shaped(h, Build(nodes))
    decreases |nodes|
  {
    if |nodes| == 2 {
      assert Build(nodes) == Fork(Build(nodes[..1]), Build(nodes[1..])) == Fork(Leaf(nodes[0]), Leaf(nodes[1]));
    } else if |nodes| > 2 {
      var k := Split((|nodes| + 1) / 2);
      LevelUpCut(h, nodes, k);
      BuildLevelUp(h, nodes[..2 * k]);
      BuildLevelUp(h, nodes[2 * k..]);
    }
  }

  lemma {:induction false} UpMth(h: TreeHasher, t: Tree)
    ensures TreeMth(h, Up(h, t)) == TreeMth(h, t)
  {
    match t
    case Leaf(_) =>
    case Fork(l, r) =>
      UpMth(h, l);
      UpMth(h, r);
  }

  function Child(i: nat, right: bool): nat {
    if right then 2 * i + 1 else 2 * i
  }

  function TreeSibling(t: Tree, i: nat, right: bool): seq<Bytes>
    requires Child(i, right) < Size(t)
  {
    if right then [TreeNode(t, 2 * i)]
    else if 2 * i + 1 < Size(t) then [TreeNode(t, 2 * i + 1)]
    else []
  }

  lemma SiblingFork(t: Tree, i: nat, right: bool, k: nat)
    requires t.Fork? && Size(t.left) == 2 * k && Child(i, right) < Size(t)
    ensures i < k ==> TreeSibling(t, i, right) == TreeSibling(t.left, i, right)
    ensures i >= k ==> TreeSibling(t, i, right) == TreeSibling(t.right, i - k, right)
  {
  }

  lemma PathFork(h: TreeHasher, t: Tree, i: nat, right: bool, k: nat)
    requires t.Fork? && Size(t.left) == 2 * k
    ensures i < k ==> TreePath(h, t, Child(i, right)) == TreePath(h, t.left, Child(i, right)) + [TreeMth(h, t.right)]
    ensures i >= k ==>
      TreePath(h, t, Child(i, right)) == TreePath(h, t.right, Child(i - k, right)) + [TreeMth(h, t.left)]
  {
  }

  lemma UpPathPair(h: TreeHasher, a: Bytes, b: Bytes, right: bool)
    ensures TreePath(h, Fork(Leaf(a), Leaf(b)), Child(0, right)) == TreeSibling(Fork(Leaf(a), Leaf(b)), 0, right)
  {
    var t := Fork(Leaf(a), Leaf(b));
    assert TreeNode(t, 0) == a && TreeNode(t, 1) == b;
  }

  lemma {:induction false} UpPath(h: TreeHasher, t: Tree, i: nat, right: bool)
    requires Shaped(h, t) && Child(i, right) < Size(t) && t.Fork?
    ensures TreePath(h, t, Child(i, right)) == TreeSibling(t, i, right) + TreePath(h, Up(h, t), i)
  {
    var l, r := t.left, t.right;
    if l.Leaf? && r.Leaf? {
      UpPathPair(h, l.node, r.node, right);
    } else {
      UpMth(h, l);
      UpMth(h, r);
      var k := Size(Up(h, l));
      SiblingFork(t, i, right, k);
      PathFork(h, t, i, right, k);
      if i < k {
        UpPath(h, l, i, right);
      } else if r.Fork? {
        UpPath(h, r, i - k, right);
      }
    }
  }

  lemma {:induction false} UpSubProof(h: TreeHasher, t: Tree, m: nat, complete: bool)
    requires Shaped(h, t) && 0 < m <= Size(Up(h, t)) && 2 * m <= Size(t)
    ensures TreeSubProof(h, t, 2 * m, complete) == TreeSubProof(h, Up(h, t), m, complete)
  {
    UpMth(h, t);
    var l, r := t.left, t.right;
    if l.Leaf? && r.Leaf? {
      assert Size(l) == Size(r) == 1;
    } else {
      UpMth(h, l);
      UpMth(h, r);
      var k := Size(Up(h, l));
      if m <= k {
        UpSubProof(h, l, m, complete);
      } else {
        UpSubProof(h, r, m - k, false);
      }
    }
  }

  /** A consistency proof for an odd size is the last old node and its audit path. */
  lemma {:induction false} SubProofIsPath(h: TreeHasher, t: Tree, j: nat, complete: bool)
    requires Shaped(h, t) && (2 * j + 1 < Size(t) || (j == 0 && t.Leaf?))
    ensures TreeSubProof(h, t, 2 * j + 1, complete)
         == (if j == 0 && complete then [] else [TreeNode(t, 2 * j)]) + TreePath(h, t, 2 * j)
  {
    if t.Fork? {
      var l, r := t.left, t.right;
      if l.Leaf? && r.Leaf? {
        assert Size(l) == Size(r) == 1;
      } else {
        var k := Size(Up(h, l));
        if j < k {
          SubProofIsPath(h, l, j, complete);
        } else {
          SubProofIsPath(h, r, j - k, false);
        }
      }
    }
  }

  // ---------- The same, on lists ----------

  /** Going up a level does not change the Merkle Tree Hash. */
  lemma MthLevelUp(h: TreeHasher, nodes: seq<Bytes>)
    ensures Mth(h, LevelUp(h, nodes)) == Mth(h, nodes)
  {
    if nodes != [] {
      BuildLevelUp(h, nodes);
      BuildMth(h, nodes);
      BuildMth(h, LevelUp(h, nodes));
      UpMth(h, Build(nodes));
    }
  }

  /** The sibling of a node, where it has one. */
  function Sibling(nodes: seq<Bytes>, index: nat): seq<Bytes>
    requires index < |nodes|
  {
    if index % 2 == 1 then [nodes[index - 1]]
    else if index + 1 < |nodes| then [nodes[index + 1]]
    else []
  }

  lemma SiblingOfTree(nodes: seq<Bytes>, t: Tree, i: nat, right: bool)
    requires Size(t) == |nodes| && forall j :: 0 <= j < |nodes| ==> TreeNode(t, j) == nodes[j]
    requires Child(i, right) < |nodes|
    ensures TreeSibling(t, i, right) == Sibling(nodes, Child(i, right))
  {
  }

  /** An audit path is a sibling followed by the audit path one level up. */
  lemma PathLevelUp(h: TreeHasher, nodes: seq<Bytes>, index: nat)
    requires index < |nodes| && 2 <= |nodes|
    ensures Path(h, index, nodes) == Sibling(nodes, index) + Path(h, index / 2, LevelUp(h, nodes))
  {
    var i, right := index / 2, index % 2 == 1;
    assert index == Child(i, right);
    var t := Build(nodes);
    assert TreePath(h, t, index) == Path(h, index, nodes) by {
      BuildPath(h, nodes, index);
    }
    assert TreePath(h, Up(h, t), i) == Path(h, i, LevelUp(h, nodes)) by {
      BuildLevelUp(h, nodes);
      BuildPath(h, LevelUp(h, nodes), i);
    }
    assert Shaped(h, t) by {
      BuildLevelUp(h, nodes);
    }
    UpPath(h, t, i, right);
    assert forall j :: 0 <= j < |nodes| ==> TreeNode(t, j) == nodes[j] by {
      forall j | 0 <= j < |nodes|
        ensures TreeNode(t, j) == nodes[j]
      {
        BuildNode(nodes, j);
      }
    }
    SiblingOfTree(nodes, t, i, right);
  }

  /** A consistency proof for an even size is the one for half the size, one level up. */
  lemma ProofLevelUp(h: TreeHasher, nodes: seq<Bytes>, m: nat)
    requires 0 < m && 2 * m <= |nodes|
    ensures Proof(h, 2 * m, nodes) == Proof(h, m, LevelUp(h, nodes))
  {
    BuildLevelUp(h, nodes);
    UpSubProof(h, Build(nodes), m, true);
    BuildSubProof(h, nodes, 2 * m, true);
    BuildSubProof(h, LevelUp(h, nodes), m, true);
  }

  /** A consistency proof for an odd size is the last old node and its audit path. */
  lemma ProofIsPath(h: TreeHasher, nodes: seq<Bytes>, j: nat)
    requires 2 * j + 1 < |nodes|
    ensures Proof(h, 2 * j + 1, nodes) == (if j == 0 then [] else [nodes[2 * j]]) + Path(h, 2 * j, nodes)
  {
    var t := Build(nodes);
    assert Shaped(h, t) by {
      BuildLevelUp(h, nodes);
    }
    SubProofIsPath(h, t, j, true);
    BuildSubProof(h, nodes, 2 * j + 1, true);
    BuildPath(h, nodes, 2 * j);
    BuildNode(nodes, 2 * j);
  }

  // ---------- The reference definitions, level by level ----------

  function LevelMth(h: TreeHasher, nodes: seq<Bytes>): Bytes
    decreases |nodes|
  {
    if |nodes| == 0 then h.HashEmpty()
    else if |nodes| == 1 then nodes[0]
    else LevelMth(h, LevelUp(h, nodes))
  }

  function LevelPath(h: TreeHasher, nodes: seq<Bytes>, index: nat): seq<Bytes>
    requires index < |nodes|
    decreases |nodes|
  {
    if |nodes| == 1 then []
    else Sibling(nodes, index) + LevelPath(h, LevelUp(h, nodes), index / 2)
  }

  lemma LevelPathUnfold(h: TreeHasher, nodes: seq<Bytes>, index: nat)
    requires index < |nodes| && |nodes| > 1
    ensures LevelPath(h, nodes, index) == Sibling(nodes, index) + LevelPath(h, LevelUp(h, nodes), index / 2)
  {
  }

  lemma LevelMthUp(h: TreeHasher, nodes: seq<Bytes>)
    ensures LevelMth(h, LevelUp(h, nodes)) == LevelMth(h, nodes)
  {
  }

  lemma {:induction false} MthByLevel(h: TreeHasher, nodes: seq<Bytes>)
    ensures Mth(h, nodes) == LevelMth(h, nodes)
    decreases |nodes|
  {
    if |nodes| > 1 {
      MthLevelUp(h, nodes);
      MthByLevel(h, LevelUp(h, nodes));
    }
  }

  lemma {:induction false} PathByLevel(h: TreeHasher, nodes: seq<Bytes>, index: nat)
    requires index < |nodes|
    ensures Path(h, index, nodes) == LevelPath(h, nodes, index)
    decreases |nodes|
  {
    if |nodes| > 1 {
      PathLevelUp(h, nodes, index);
      PathByLevel(h, LevelUp(h, nodes), index / 2);
    }
  }
}
