/**
 The decomposition of a list of leaves into full subtrees, one for each one bit of its length.

 Both compact trees store exactly these hashes: the C++ tree by level, the Python tree as a list in
 descending order of size.
 */
module FullSubtrees {
  import opened TreeHashing
  import opened Levels
  import opened Bits
  import opened Rows

  /** The parents of the complete pairs of a row. */
  function Pairs(h: TreeHasher, nodes: seq<Bytes>): (p: seq<Bytes>)
    ensures |p| == |nodes| / 2
  {
    LevelUp(h, nodes)[..|nodes| / 2]
  }

  /** The full subtree hashes by level, smallest first; the empty string where there is none. */
  function ByLevel(h: TreeHasher, nodes: seq<Bytes>): seq<Bytes>
    decreases |nodes|
  {
    if nodes == [] then []
    else [if |nodes| % 2 == 1 then nodes[|nodes| - 1] else []] + ByLevel(h, Pairs(h, nodes))
  }

  /** The full subtree hashes, largest first. */
  function Descending(h: TreeHasher, nodes: seq<Bytes>): seq<Bytes>
    decreases |nodes|
  {
    if nodes == [] then []
    else Descending(h, Pairs(h, nodes)) + (if |nodes| % 2 == 1 then [nodes[|nodes| - 1]] else [])
  }

  function Pow2(k: nat): (p: nat)
    ensures p > 0
  {
    if k == 0 then 1 else 2 * Pow2(k - 1)
  }

  /** The level count of a tree with n leaves is ceil(log2 n) + 1. */
  lemma {:induction false} HeightIsLog(n: nat)
    requires n > 0
    ensures Height(n) >= 1 && n <= Pow2(Height(n) - 1)
    ensures n > 1 ==> Height(n) >= 2 && Pow2(Height(n) - 2) < n
  {
    if n > 1 {
      HeightIsLog((n + 1) / 2);
    }
  }

  lemma PairsDigests(h: TreeHasher, nodes: seq<Bytes>)
    requires h.Valid() && h.Digests(nodes)
    ensures h.Digests(Pairs(h, nodes))
  {
    LevelUpDigests(h, nodes);
  }

  lemma PairsAppend(h: TreeHasher, a: seq<Bytes>, b: seq<Bytes>)
    requires |a| % 2 == 0
    ensures Pairs(h, a + b) == Pairs(h, a) + Pairs(h, b)
  {
    LevelUpAppend(h, a, b);
    var x, y := LevelUp(h, a), LevelUp(h, b);
    assert |x| == |a| / 2 && |a + b| / 2 == |x| + |b| / 2;
    assert (x + y)[..|x| + |b| / 2] == x + y[..|b| / 2];
    assert x[..|a| / 2] == x;
  }

  // ---------- Adding a node ----------

  /** A carry: `PushBack` of the C++ tree, on the list of levels. */
  function Push(h: TreeHasher, levels: seq<Bytes>, node: Bytes): seq<Bytes> {
    if levels == [] then [node]
    else if levels[0] == [] then [node] + levels[1..]
    else [[]] + Push(h, levels[1..], h.HashChildren(levels[0], node))
  }

  lemma PairsSnoc(h: TreeHasher, nodes: seq<Bytes>, x: Bytes)
    ensures |nodes| % 2 == 0 ==> Pairs(h, nodes + [x]) == Pairs(h, nodes)
    ensures |nodes| % 2 == 1 ==> Pairs(h, nodes + [x]) == Pairs(h, nodes) + [h.HashChildren(nodes[|nodes| - 1], x)]
  {
    var k := |nodes| / 2;
    assert nodes == nodes[..2 * k] + nodes[2 * k..];
    PairsAppend(h, nodes[..2 * k], nodes[2 * k..]);
    PairsAppend(h, nodes[..2 * k], nodes[2 * k..] + [x]);
    assert nodes + [x] == nodes[..2 * k] + (nodes[2 * k..] + [x]);
  }

  /** Pushing a leaf hash turns the subtrees of a list into those of the list with that leaf added. */
  lemma {:induction false} PushIsAppend(h: TreeHasher, nodes: seq<Bytes>, x: Bytes)
    requires h.Valid() && h.Digests(nodes) && |x| == h.digestSize
    ensures Push(h, ByLevel(h, nodes), x) == ByLevel(h, nodes + [x])
    decreases |nodes|
  {
    if nodes != [] {
      var p := Pairs(h, nodes);
      PairsSnoc(h, nodes, x);
      assert ByLevel(h, nodes)[1..] == ByLevel(h, p);
      if |nodes| % 2 == 1 {
        PairsDigests(h, nodes);
        PushIsAppend(h, p, h.HashChildren(nodes[|nodes| - 1], x));
      }
    }
  }

  // ---------- The root ----------

  /** `UpdateRoot`, from the lowest level up. */
  function Fold(h: TreeHasher, levels: seq<Bytes>, right: Bytes): Bytes {
    if levels == [] then right
    else
      Fold(h, levels[1..],
           if levels[0] == [] then right else if right == [] then levels[0] else h.HashChildren(levels[0], right))
  }

  lemma RowWithCarry(h: TreeHasher, nodes: seq<Bytes>, right: Bytes)
    ensures |nodes| % 2 == 1 ==>
      LevelUp(h, nodes + [right]) == Pairs(h, nodes) + [h.HashChildren(nodes[|nodes| - 1], right)]
    ensures |nodes| % 2 == 0 ==> LevelUp(h, nodes + [right]) == Pairs(h, nodes) + [right]
    ensures |nodes| % 2 == 1 ==> LevelUp(h, nodes) == Pairs(h, nodes) + [nodes[|nodes| - 1]]
    ensures |nodes| % 2 == 0 ==> LevelUp(h, nodes) == Pairs(h, nodes)
  {
  }

  /** Folding the subtree hashes gives the Merkle Tree Hash. */
  lemma {:induction false} FoldIsMth(h: TreeHasher, nodes: seq<Bytes>, right: Bytes)
    requires h.Valid() && h.Digests(nodes)
    requires right == [] ==> nodes != []
    ensures Fold(h, ByLevel(h, nodes), right) == LevelMth(h, if right == [] then nodes else nodes + [right])
    decreases |nodes|
  {
    if nodes != [] {
      hide LevelMth;
      var p, levels := Pairs(h, nodes), ByLevel(h, nodes);
      var row := if right == [] then nodes else nodes + [right];
      var right' :=
        if levels[0] == [] then right else if right == [] then levels[0] else h.HashChildren(levels[0], right);
      assert levels[1..] == ByLevel(h, p);
      PairsDigests(h, nodes);
      RowWithCarry(h, nodes, right);
      FoldIsMth(h, p, right');
      LevelMthUp(h, row);
    }
  }

  // ---------- Where each subtree lies ----------

  lemma TimesTwice(m: nat, k: nat)
    ensures Times(2 * m, k) == 2 * Times(m, k)
    decreases k
  {
  }

  /** Level k holds a hash exactly when bit k of the length is set, and then that of a full subtree of 2^k leaves. */
  lemma {:induction false} LevelHolds(h: TreeHasher, nodes: seq<Bytes>, k: nat)
    requires h.Valid() && h.Digests(nodes) && k < |ByLevel(h, nodes)|
    ensures ByLevel(h, nodes)[k] != [] <==> Shr(|nodes|, k) % 2 == 1
    ensures Shr(|nodes|, k) % 2 == 1 ==>
      var lo, hi := Times(Shr(|nodes|, k) - 1, k), Times(Shr(|nodes|, k), k);
      hi - lo == Pow2(k) && hi <= |nodes| && ByLevel(h, nodes)[k] == Mth(h, nodes[lo..hi])
    decreases k
  {
    hide Mth, Pairs;
    var s := Shr(|nodes|, k);
    if k > 0 {
      var p := Pairs(h, nodes);
      PairsDigests(h, nodes);
      ShrHalf(|nodes|, k);
      LevelShift(h, nodes, k);
      LevelHolds(h, p, k - 1);
      if s % 2 == 1 {
        TimesTwice(s - 1, k - 1);
        TimesTwice(s, k - 1);
        SubtreeUp(h, nodes, Times(s - 1, k - 1), Times(s, k - 1));
      }
    } else if |nodes| % 2 == 1 {
      var one := nodes[|nodes| - 1..|nodes|];
      assert one == [nodes[|nodes| - 1]];
      MthOne(h, one);
    }
  }

  lemma LevelShift(h: TreeHasher, nodes: seq<Bytes>, k: nat)
    requires 0 < k < |ByLevel(h, nodes)|
    ensures k - 1 < |ByLevel(h, Pairs(h, nodes))| && ByLevel(h, nodes)[k] == ByLevel(h, Pairs(h, nodes))[k - 1]
  {
  }

  lemma {:induction false} ShrHalf(n: nat, k: nat)
    requires k > 0
    ensures Shr(n, k) == Shr(n / 2, k - 1)
  {
    if k > 1 {
      ShrHalf(n, k - 1);
    }
  }

  lemma SubtreeUp(h: TreeHasher, nodes: seq<Bytes>, a: nat, b: nat)
    requires a <= b <= |nodes| / 2
    ensures Mth(h, Pairs(h, nodes)[a..b]) == Mth(h, nodes[2 * a..2 * b])
  {
    hide Mth;
    LevelUpCut(h, nodes, b);
    LevelUpCut(h, nodes[..2 * b], a);
    assert nodes[..2 * b][2 * a..] == nodes[2 * a..2 * b];
    assert Pairs(h, nodes)[a..b] == LevelUp(h, nodes)[..b][a..];
    MthLevelUp(h, nodes[2 * a..2 * b]);
  }

  /** One level fewer than the tree has once another leaf is added. */
  lemma {:induction false} LevelCountOf(h: TreeHasher, nodes: seq<Bytes>)
    ensures |ByLevel(h, nodes)| + 1 == Height(|nodes| + 1)
    decreases |nodes|
  {
    if nodes != [] {
      LevelCountOf(h, Pairs(h, nodes));
    }
  }

  lemma {:induction false} ShrZero(h: TreeHasher, nodes: seq<Bytes>, k: nat)
    ensures Shr(|nodes|, k) == 0 <==> k >= |ByLevel(h, nodes)|
    decreases k
  {
    if k > 0 {
      ShrHalf(|nodes|, k);
      ShrZero(h, Pairs(h, nodes), k - 1);
    }
  }

  // ---------- The list form ----------

  function Reverse<T>(s: seq<T>): seq<T> {
    if s == [] then [] else Reverse(s[1..]) + [s[0]]
  }

  function NonEmpty(levels: seq<Bytes>): seq<Bytes> {
    if levels == [] then [] else (if levels[0] == [] then [] else [levels[0]]) + NonEmpty(levels[1..])
  }

  lemma NonEmptyStep(levels: seq<Bytes>, i: nat)
    requires i < |levels|
    ensures NonEmpty(levels[i..]) == (if levels[i] == [] then [] else [levels[i]]) + NonEmpty(levels[i + 1..])
  {
    assert levels[i..][1..] == levels[i + 1..];
  }

  lemma {:induction false} DescendingCount(h: TreeHasher, nodes: seq<Bytes>)
    ensures |Descending(h, nodes)| == BitCount(|nodes|)
    decreases |nodes|
  {
    if nodes != [] {
      DescendingCount(h, Pairs(h, nodes));
    }
  }

  /** The list form is the level form with the gaps left out, from the top. */
  lemma {:induction false} DescendingIsReverse(h: TreeHasher, nodes: seq<Bytes>)
    requires h.Valid() && h.Digests(nodes)
    ensures Descending(h, nodes) == Reverse(NonEmpty(ByLevel(h, nodes)))
    decreases |nodes|
  {
    if nodes != [] {
      PairsDigests(h, nodes);
      DescendingIsReverse(h, Pairs(h, nodes));
      var rest := NonEmpty(ByLevel(h, Pairs(h, nodes)));
      assert ByLevel(h, nodes)[1..] == ByLevel(h, Pairs(h, nodes));
      if |nodes| % 2 == 1 {
        assert ([nodes[|nodes| - 1]] + rest)[1..] == rest;
      } else {
        assert [] + rest == rest;
      }
    }
  }

  /** Leaves behind full subtrees of 2^k leaves, and fewer than 2^k of them, keep their own subtrees. */
  lemma {:induction false} DescendingAppend(h: TreeHasher, a: seq<Bytes>, b: seq<Bytes>, m: nat, k: nat)
    requires |a| == m * Pow2(k) && |b| < Pow2(k)
    ensures Descending(h, a + b) == Descending(h, a) + Descending(h, b)
    decreases k
  {
    if k == 0 {
      assert a + b == a;
    } else {
      assert |a| == 2 * (m * Pow2(k - 1));
      PairsAppend(h, a, b);
      DescendingAppend(h, Pairs(h, a), Pairs(h, b), m, k - 1);
      DescendingTail(h, a, b);
    }
  }

  lemma DescendingTail(h: TreeHasher, a: seq<Bytes>, b: seq<Bytes>)
    requires |a| % 2 == 0
    requires Pairs(h, a + b) == Pairs(h, a) + Pairs(h, b)
    requires Descending(h, Pairs(h, a) + Pairs(h, b)) == Descending(h, Pairs(h, a)) + Descending(h, Pairs(h, b))
    ensures Descending(h, a + b) == Descending(h, a) + Descending(h, b)
  {
    hide Descending, Pairs;
    if a == [] || b == [] {
      DescendingEmpty(h);
      assert a == [] ==> a + b == b;
      assert b == [] ==> a + b == a;
    } else {
      DescendingUnfold(h, a);
      DescendingUnfold(h, b);
      DescendingUnfold(h, a + b);
      assert (a + b)[|a + b| - 1] == b[|b| - 1];
    }
  }

  lemma DescendingEmpty(h: TreeHasher)
    ensures Descending(h, []) == []
  {
  }

  lemma DescendingUnfold(h: TreeHasher, nodes: seq<Bytes>)
    requires nodes != []
    ensures Descending(h, nodes)
         == Descending(h, Pairs(h, nodes)) + (if |nodes| % 2 == 1 then [nodes[|nodes| - 1]] else [])
  {
  }

  /** A full list is one subtree. */
  lemma {:induction false} DescendingFull(h: TreeHasher, nodes: seq<Bytes>, k: nat)
    requires |nodes| == Pow2(k)
    ensures Descending(h, nodes) == [Mth(h, nodes)]
    decreases k
  {
    if k > 0 {
      DescendingFull(h, Pairs(h, nodes), k - 1);
      RowWithCarry(h, nodes, []);
      MthLevelUp(h, nodes);
    } else {
      assert Pairs(h, nodes) == [];
    }
  }

  lemma {:induction false} SplitFull(k: nat)
    requires k > 0
    ensures Split(Pow2(k)) == Pow2(k - 1)
  {
    if k > 1 {
      SplitFull(k - 1);
    }
  }

  /** Two full lists of one size join to one. */
  lemma MthJoin(h: TreeHasher, a: seq<Bytes>, b: seq<Bytes>, k: nat)
    requires |a| == |b| == Pow2(k)
    ensures Mth(h, a + b) == h.HashChildren(Mth(h, a), Mth(h, b))
  {
    SplitFull(k + 1);
    assert (a + b)[..Pow2(k)] == a && (a + b)[Pow2(k)..] == b;
  }

  // ---------- The audit path of the last leaf ----------

  lemma PairsBefore(h: TreeHasher, nodes: seq<Bytes>, k: nat)
    requires k <= |nodes|
    ensures |LevelUp(h, nodes)| >= k / 2 && LevelUp(h, nodes)[..k / 2] == Pairs(h, nodes[..k])
  {
    LevelUpPrefix(h, nodes, nodes[..k], k);
  }

  lemma LastPathOne(h: TreeHasher, nodes: seq<Bytes>)
    requires |nodes| == 1
    ensures LevelPath(h, nodes, 0) == NonEmpty(ByLevel(h, nodes[..0]))
  {
    assert nodes[..0] == [];
  }

  lemma ByLevelUnfold(h: TreeHasher, nodes: seq<Bytes>)
    requires nodes != []
    ensures var levels := ByLevel(h, nodes);
      && levels != [] && levels[0] == (if |nodes| % 2 == 1 then nodes[|nodes| - 1] else [])
      && levels[1..] == ByLevel(h, Pairs(h, nodes))
  {
  }

  /** The audit path of the last leaf lists the subtrees of the leaves before it. */
  lemma {:induction false} LastPath(h: TreeHasher, nodes: seq<Bytes>, last: nat)
    requires h.Valid() && h.Digests(nodes) && |nodes| == last + 1
    ensures LevelPath(h, nodes, last) == NonEmpty(ByLevel(h, nodes[..last]))
    decreases last
  {
    hide LevelUp, LevelPath, ByLevel, Pairs, NonEmpty;
    if last > 0 {
      var up, before := LevelUp(h, nodes), nodes[..last];
      LevelUpDigests(h, nodes);
      LevelPathUnfold(h, nodes, last);
      LastPath(h, up, last / 2);
      assert up[..last / 2] == Pairs(h, before) by { PairsBefore(h, nodes, last); }
      ByLevelUnfold(h, before);
      NonEmptyStep(ByLevel(h, before), 0);
      assert ByLevel(h, before)[0..] == ByLevel(h, before);
    } else {
      LastPathOne(h, nodes);
    }
  }
}
