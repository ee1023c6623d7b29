/**
 The rows of a level-array tree: which nodes of a row depend only on a prefix of the leaves.
 */
module Rows {
  import opened TreeHashing
  import opened Levels

  /** n >> level. */
  function Shr(n: nat, level: nat): nat {
    if level == 0 then n else Shr(n, level - 1) / 2
  }

  lemma {:induction false} ShrOfZero(k: nat)
    ensures Shr(0, k) == 0
  {
    if k > 0 {
      ShrOfZero(k - 1);
    }
  }

  lemma {:induction false} LevelSize(h: TreeHasher, nodes: seq<Bytes>, level: nat)
    requires nodes != []
    ensures |Level(h, nodes, level)| == Shr(|nodes| - 1, level) + 1
  {
    if level > 0 {
      LevelSize(h, nodes, level - 1);
    }
  }

  lemma LevelUpPrefix(h: TreeHasher, a: seq<Bytes>, b: seq<Bytes>, k: nat)
    requires k <= |a| && k <= |b| && a[..k] == b[..k]
    ensures LevelUp(h, a)[..k / 2] == LevelUp(h, b)[..k / 2]
  {
    forall j | 0 <= j < k / 2
      ensures LevelUp(h, a)[j] == LevelUp(h, b)[j]
    {
      assert a[..k][2 * j] == b[..k][2 * j] && a[..k][2 * j + 1] == b[..k][2 * j + 1];
    }
  }

  /** The first k >> level nodes of a row are fixed by the first k leaves. */
  lemma {:induction false} LevelPrefix(h: TreeHasher, a: seq<Bytes>, b: seq<Bytes>, k: nat, level: nat)
    requires k <= |a| && k <= |b| && a[..k] == b[..k]
    ensures Shr(k, level) <= |Level(h, a, level)| && Shr(k, level) <= |Level(h, b, level)|
    ensures Level(h, a, level)[..Shr(k, level)] == Level(h, b, level)[..Shr(k, level)]
  {
    if level > 0 {
      LevelPrefix(h, a, b, k, level - 1);
      LevelUpPrefix(h, Level(h, a, level - 1), Level(h, b, level - 1), Shr(k, level - 1));
    }
  }

  lemma {:induction false} ShrMono(a: nat, b: nat, level: nat)
    requires a <= b
    ensures Shr(a, level) <= Shr(b, level)
  {
    if level > 0 {
      ShrMono(a, b, level - 1);
    }
  }

  lemma ShrOnce(n: nat, level: nat)
    ensures Shr(n, level + 1) == Shr(n, level) / 2
  {
  }

  lemma {:induction false} ShrSucc(n: nat, level: nat)
    ensures Shr(n, level) <= Shr(n + 1, level) <= Shr(n, level) + 1
  {
    if level > 0 {
      ShrSucc(n, level - 1);
    }
  }

  /** A row has one node exactly from the root row on. */
  lemma {:induction false} HeightRow(n: nat, level: nat)
    requires n > 0
    ensures level < Height(n) ==> level + Height(Shr(n - 1, level) + 1) == Height(n)
    ensures level + 1 >= Height(n) ==> Shr(n - 1, level) == 0
    ensures Height(n) >= 1
  {
    if level > 0 {
      HeightRow(n, level - 1);
    }
  }

  lemma {:induction false} HeightMono(a: nat, b: nat)
    requires a <= b
    ensures Height(a) <= Height(b)
    decreases b
  {
    if a > 1 {
      HeightMono((a + 1) / 2, (b + 1) / 2);
    }
  }

  lemma {:induction false} LevelMthRow(h: TreeHasher, nodes: seq<Bytes>, level: nat)
    requires nodes != []
    ensures LevelMth(h, Level(h, nodes, level)) == LevelMth(h, nodes)
    decreases level
  {
    hide LevelMth, LevelUp;
    if level > 0 {
      LevelMthRow(h, nodes, level - 1);
      LevelMthUp(h, Level(h, nodes, level - 1));
    }
  }

  /** The root is the only node of the root row. */
  lemma RootRow(h: TreeHasher, nodes: seq<Bytes>, level: nat)
    requires nodes != [] && Shr(|nodes| - 1, level) == 0
    ensures Level(h, nodes, level) == [Mth(h, nodes)]
  {
    hide Mth, Level;
    LevelSize(h, nodes, level);
    LevelMthRow(h, nodes, level);
    MthByLevel(h, nodes);
  }

  /** A consistency proof for m << level leaves is the one for m, `level` rows up. */
  lemma {:induction false} ProofRow(h: TreeHasher, d: seq<Bytes>, m: nat, level: nat, m0: nat)
    requires 0 < m0 < |d|
    requires m > 0 && Times(m, level) == m0
    ensures m < |Level(h, d, level)|
    ensures Proof(h, m0, d) == Proof(h, m, Level(h, d, level))
    decreases level
  {
    hide Proof, LevelUp;
    if level > 0 {
      ProofRow(h, d, 2 * m, level - 1, m0);
      ProofLevelUp(h, Level(h, d, level - 1), m);
    }
  }

  /** m << level. */
  function Times(m: nat, level: nat): nat
    decreases level
  {
    if level == 0 then m else Times(2 * m, level - 1)
  }
}
