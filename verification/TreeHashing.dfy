/**
 The hashing layer and the reference definitions of section 2.1 of RFC 6962.

 A hash function is a parameter: any total function on byte strings whose outputs all
 have one fixed, positive length. Nothing else is assumed about it. Soundness results
 therefore end in "or two different inputs of a given finite set have the same digest".
 */
module TreeHashing {

  newtype byte = x: int | 0 <= x < 256

  type Bytes = seq<byte>

  /** A hash function with domain separation for leaves and interior nodes. */
  datatype TreeHasher = TreeHasher(digestSize: nat, hash: Bytes -> Bytes) {

    ghost predicate Valid() {
      && 0 < digestSize
      && forall x :: |hash(x)| == digestSize
    }

    function HashEmpty(): Bytes {
      hash([])
    }

    function HashLeaf(data: Bytes): Bytes {
      hash(LeafInput(data))
    }

    function HashChildren(left: Bytes, right: Bytes): Bytes {
      hash(NodeInput(left, right))
    }

    /** Every element is as long as a digest. */
    predicate Digests(nodes: seq<Bytes>) {
      forall i :: 0 <= i < |nodes| ==> |nodes[i]| == digestSize
    }

    function HashLeaves(data: seq<Bytes>): (hashes: seq<Bytes>)
      ensures |hashes| == |data|
      ensures forall i :: 0 <= i < |data| ==> hashes[i] == HashLeaf(data[i])
    {
      seq(|data|, i requires 0 <= i < |data| => HashLeaf(data[i]))
    }
  }

  function LeafInput(data: Bytes): Bytes {
    [0] + data
  }

  function NodeInput(left: Bytes, right: Bytes): Bytes {
    [1] + left + right
  }

  // ---------- Collisions ----------

  /** Two different members of `inputs` with the same digest. */
  ghost predicate CollisionAmong(h: TreeHasher, inputs: set<Bytes>) {
    exists x, y :: x in inputs && y in inputs && x != y && h.hash(x) == h.hash(y)
  }

  lemma MoreCollisions(h: TreeHasher, a: set<Bytes>, b: set<Bytes>)
    requires a <= b
    ensures CollisionAmong(h, a) ==> CollisionAmong(h, b)
  {
  }

  lemma NodeInputInjective(h: TreeHasher, a: Bytes, b: Bytes, c: Bytes, d: Bytes)
    requires |a| == |c|
    requires NodeInput(a, b) == NodeInput(c, d)
    ensures a == c && b == d
  {
    var u, v := NodeInput(a, b), NodeInput(c, d);
    assert a == u[1..1 + |a|] && c == v[1..1 + |c|];
    assert b == u[1 + |a|..] && d == v[1 + |c|..];
  }

  /** Equal parents have equal children, when the parents' inputs do not collide. */
  lemma ChildrenDetermined(h: TreeHasher, a: Bytes, b: Bytes, c: Bytes, d: Bytes, inputs: set<Bytes>)
    requires |a| == |c|
    requires NodeInput(a, b) in inputs && NodeInput(c, d) in inputs
    requires !CollisionAmong(h, inputs)
    requires h.HashChildren(a, b) == h.HashChildren(c, d)
    ensures a == c && b == d
  {
    assert NodeInput(a, b) == NodeInput(c, d);
    NodeInputInjective(h, a, b, c, d);
  }

  // ---------- Merkle Tree Hash, PATH and SUBPROOF ----------

  predicate IsPowerOfTwo(n: nat) {
    n == 1 || (n > 1 && n % 2 == 0 && IsPowerOfTwo(n / 2))
  }

  /** The largest power of two smaller than n. */
  function Split(n: nat): (k: nat)
    requires n >= 2
    ensures 1 <= k < n <= 2 * k
  {
    if n == 2 then 1 else 2 * Split((n + 1) / 2)
  }

  /** `Split` is the one power of two in its range. */
  lemma {:induction false} SplitUnique(n: nat, k: nat)
    requires n >= 2
    ensures IsPowerOfTwo(Split(n))
    ensures IsPowerOfTwo(k) && k < n <= 2 * k ==> k == Split(n)
  {
    if n > 2 {
      SplitUnique((n + 1) / 2, k / 2);
    }
  }

  /** MTH(D) of RFC 6962 section 2.1, over leaf hashes. */
  function Mth(h: TreeHasher, leaves: seq<Bytes>): (root: Bytes)
    decreases |leaves|
  {
    if |leaves| == 0 then h.HashEmpty()
    else if |leaves| == 1 then leaves[0]
    else
      var k := Split(|leaves|);
      h.HashChildren(Mth(h, leaves[..k]), Mth(h, leaves[k..]))
  }

  lemma MthOne(h: TreeHasher, d: seq<Bytes>)
    requires |d| == 1
    ensures Mth(h, d) == d[0]
  {
  }

  /** PATH(m, D) of RFC 6962 section 2.1.1. */
  function Path(h: TreeHasher, m: nat, leaves: seq<Bytes>): seq<Bytes>
    decreases |leaves|
  {
    if |leaves| <= 1 then []
    else
      var k := Split(|leaves|);
      if m < k then Path(h, m, leaves[..k]) + [Mth(h, leaves[k..])]
      else Path(h, m - k, leaves[k..]) + [Mth(h, leaves[..k])]
  }

  /** SUBPROOF(m, D, complete) of RFC 6962 section 2.1.2. */
  function SubProof(h: TreeHasher, m: nat, leaves: seq<Bytes>, complete: bool): seq<Bytes>
    requires 0 < m <= |leaves|
    decreases |leaves|
  {
    if m == |leaves| then
      if complete then [] else [Mth(h, leaves)]
    else
      var k := Split(|leaves|);
      if m <= k then SubProof(h, m, leaves[..k], complete) + [Mth(h, leaves[k..])]
      else SubProof(h, m - k, leaves[k..], false) + [Mth(h, leaves[..k])]
  }

  /** PROOF(m, D) of RFC 6962 section 2.1.2. */
  function Proof(h: TreeHasher, m: nat, leaves: seq<Bytes>): seq<Bytes>
    requires 0 < m <= |leaves|
  {
    SubProof(h, m, leaves, true)
  }
}
