/**
 One version of the tree of python/demo/vdb/verifiable_map.py: the nodes that are linked at one time,
 named by their position, with their fields at that time. A value sits as high as it is alone, and the
 hash of a node is still that of the complete tree below it.
 */
module MapSnapshot {
  import opened Options
  import opened TreeHashing
  import opened SparseSpec

  type Content = map<BitPath, Bytes>

  /** The fields of a node at one time; a link leads to the node one step below on that side. */
  datatype View = View(hash: Bytes, left: bool, right: bool, path: Option<BitPath>, value: Option<Bytes>) {

    predicate Link(b: bool) {
      if b then right else left
    }
  }

  type Snapshot = map<BitPath, View>

  function Leaves(h: TreeHasher, content: Content): map<BitPath, Bytes> {
    map p | p in content :: h.HashLeaf(content[p])
  }

  ghost predicate Alone(content: Content, q: BitPath, k: BitPath) {
    forall p :: p in content && Under(p, q) ==> p == k
  }

  /** A node with a value is the only one of the content below its position; one without has everything below its
      links. */
  ghost predicate Holds(bits: nat, content: Content, q: BitPath, v: View) {
    if v.value.Some? then
      && v.path.Some? && !v.left && !v.right
      && var k := v.path.value;
      && |k| == bits && Under(k, q) && k in content && content[k] == v.value.value && Alone(content, q, k)
    else
      && v.path.None?
      && if |q| == bits then q !in content
         else forall b: bool :: v.Link(b) || !Fits(content, q + [b])
  }

  /** A node is linked from above, and its links lead somewhere. */
  ghost predicate Joined(bits: nat, s: Snapshot, q: BitPath)
    requires q in s
  {
    && |q| <= bits
    && (q != [] ==> q[..|q| - 1] in s && s[q[..|q| - 1]].Link(q[|q| - 1]))
    && (forall b: bool :: s[q].Link(b) ==> |q| < bits && q + [b] in s)
  }

  ghost predicate Shape(bits: nat, s: Snapshot, content: Content) {
    && [] in s
    && Sized(content, bits)
    && (forall q :: q in s ==> Joined(bits, s, q) && Holds(bits, content, q, s[q]))
  }

  /** Every leaf position that exists holds a value, except perhaps one. */
  ghost predicate FilledBut(bits: nat, s: Snapshot, q: BitPath) {
    forall p :: p in s && |p| == bits && p != q ==> s[p].value.Some?
  }

  ghost predicate Filled(bits: nat, s: Snapshot) {
    forall p :: p in s && |p| == bits ==> s[p].value.Some?
  }

  // ---------- Hashes ----------

  /** The hash at a depth on the way to a leaf that has no other leaf below that depth. */
  function Branch(h: TreeHasher, bits: nat, k: BitPath, leaf: Bytes, depth: nat): Bytes
    requires depth <= bits == |k|
    decreases bits - depth
  {
    if depth == bits then leaf
    else
      var below := Branch(h, bits, k, leaf, depth + 1);
      var empty := NullHash(h, bits - depth - 1);
      if k[depth] then h.HashChildren(empty, below) else h.HashChildren(below, empty)
  }

  function ChildHash(h: TreeHasher, bits: nat, s: Snapshot, q: BitPath, b: bool): Bytes
    requires q in s && |q| < bits
  {
    if s[q].Link(b) && q + [b] in s then s[q + [b]].hash else NullHash(h, bits - |q| - 1)
  }

  /** A node whose hash can be computed. */
  predicate Sane(bits: nat, s: Snapshot, q: BitPath) {
    && q in s && |q| <= bits && (s[q].left || s[q].right ==> |q| < bits)
    && (s[q].value.Some? ==> s[q].path.Some? && |s[q].path.value| == bits)
  }

  lemma ShapeSane(bits: nat, s: Snapshot, content: Content, q: BitPath)
    requires Shape(bits, s, content) && q in s
    ensures Sane(bits, s, q)
  {
    assert Joined(bits, s, q) && Holds(bits, content, q, s[q]);
    assert s[q].left ==> s[q].Link(false);
    assert s[q].right ==> s[q].Link(true);
  }

  /** The hash that `_redo_hash` computes for a node. */
  function HashOf(h: TreeHasher, bits: nat, s: Snapshot, q: BitPath): Bytes
    requires Sane(bits, s, q)
  {
    if s[q].value.Some? then Branch(h, bits, s[q].path.value, h.HashLeaf(s[q].value.value), |q|)
    else if !s[q].left && !s[q].right then NullHash(h, bits - |q|)
    else h.HashChildren(ChildHash(h, bits, s, q, false), ChildHash(h, bits, s, q, true))
  }

  ghost predicate LocalOk(h: TreeHasher, bits: nat, s: Snapshot, q: BitPath) {
    Sane(bits, s, q) && s[q].hash == HashOf(h, bits, s, q)
  }

  ghost predicate AllLocal(h: TreeHasher, bits: nat, s: Snapshot) {
    forall q :: q in s ==> LocalOk(h, bits, s, q)
  }

  ghost predicate LocalBut(h: TreeHasher, bits: nat, s: Snapshot, p: BitPath) {
    forall q :: q in s && q != p ==> LocalOk(h, bits, s, q)
  }

  ghost predicate Good(h: TreeHasher, bits: nat, s: Snapshot, content: Content) {
    Shape(bits, s, content) && AllLocal(h, bits, s)
  }

  /** Nothing below, in terms of the leaf hashes. */
  lemma FitsLeaves(h: TreeHasher, content: Content, q: BitPath)
    ensures Fits(Leaves(h, content), q) <==> Fits(content, q)
  {
    if Fits(content, q) {
      var p :| p in content && Under(p, q);
      assert p in Leaves(h, content);
    }
  }

  lemma {:induction false} BranchIsFull(h: TreeHasher, bits: nat, content: Content, k: BitPath, depth: nat)
    requires depth <= bits == |k| && k in content && Alone(content, k[..depth], k)
    ensures Branch(h, bits, k, h.HashLeaf(content[k]), depth) == Full(h, bits, Leaves(h, content), k[..depth])
    decreases bits - depth
  {
    hide Full, NullHash;
    var q, leaves := k[..depth], Leaves(h, content);
    if depth == bits {
      assert q == k;
      FullLeaf(h, bits, leaves, k);
    } else {
      assert k[..depth + 1] == q + [k[depth]];
      assert Alone(content, k[..depth + 1], k) by {
        forall p | p in content && Under(p, k[..depth + 1])
          ensures p == k
        {
          UnderChild(p, q, k[depth]);
        }
      }
      BranchIsFull(h, bits, content, k, depth + 1);
      assert !Two(leaves, q) by {
        forall p | p in leaves && Under(p, q)
          ensures p == k
        {
          assert p in content;
        }
      }
      FullOne(h, bits, leaves, q, k);
    }
  }

  lemma FullLeaf(h: TreeHasher, bits: nat, leaves: map<BitPath, Bytes>, k: BitPath)
    requires |k| == bits && k in leaves
    ensures Full(h, bits, leaves, k) == leaves[k]
  {
  }

  /** Every stored hash is that of the complete tree over the content. */
  lemma {:induction false} HashIsFull(h: TreeHasher, bits: nat, s: Snapshot, content: Content, q: BitPath)
    requires Good(h, bits, s, content) && q in s
    ensures s[q].hash == Full(h, bits, Leaves(h, content), q)
    decreases bits - |q|
  {
    hide Full, NullHash, Branch, Leaves;
    assert LocalOk(h, bits, s, q) && Joined(bits, s, q) && Holds(bits, content, q, s[q]);
    if s[q].value.Some? {
      var k := s[q].path.value;
      assert k[..|q|] == q;
      BranchIsFull(h, bits, content, k, |q|);
    } else if !s[q].left && !s[q].right {
      NothingBelow(bits, content, q, s[q]);
      FitsLeaves(h, content, q);
      FullNull(h, bits, Leaves(h, content), q);
    } else {
      if s[q].left { HashIsFull(h, bits, s, content, q + [false]); }
      if s[q].right { HashIsFull(h, bits, s, content, q + [true]); }
      ChildIsFull(h, bits, s, content, q, false);
      ChildIsFull(h, bits, s, content, q, true);
      FullFork(h, bits, Leaves(h, content), q);
    }
  }

  lemma NothingBelow(bits: nat, content: Content, q: BitPath, v: View)
    requires Sized(content, bits) && |q| <= bits && Holds(bits, content, q, v) && v.value.None? && !v.left && !v.right
    ensures !Fits(content, q)
  {
    forall p | p in content && Under(p, q)
      ensures |q| < bits && Fits(content, q + [p[|q|]]) && !v.Link(p[|q|])
    {
      assert |q| == bits ==> p == q;
      UnderChild(p, q, p[|q|]);
    }
  }

  lemma ChildIsFull(h: TreeHasher, bits: nat, s: Snapshot, content: Content, q: BitPath, b: bool)
    requires q in s && |q| < bits && s[q].value.None? && Joined(bits, s, q) && Holds(bits, content, q, s[q])
    requires s[q].Link(b) ==> s[q + [b]].hash == Full(h, bits, Leaves(h, content), q + [b])
    ensures ChildHash(h, bits, s, q, b) == Full(h, bits, Leaves(h, content), q + [b])
  {
    hide Full, NullHash, Leaves;
    if !s[q].Link(b) {
      FitsLeaves(h, content, q + [b]);
      FullNull(h, bits, Leaves(h, content), q + [b]);
    }
  }

  // ---------- Changes of shape ----------

  /** A node above another one has the link that leads there. */
  lemma {:induction false} LinkAbove(bits: nat, s: Snapshot, content: Content, p: BitPath, q: BitPath)
    requires Shape(bits, s, content) && p in s && Under(p, q) && q != p
    ensures q in s && s[q].Link(p[|q|]) && s[q].value.None?
    decreases |p|
  {
    hide Holds;
    var up := p[..|p| - 1];
    assert Joined(bits, s, p);
    if up != q {
      assert Under(up, q) && up[|q|] == p[|q|];
      LinkAbove(bits, s, content, up, q);
    } else {
      LinkedHolds(bits, content, q, s[q], p[|q|]);
    }
  }

  lemma LinkedHolds(bits: nat, content: Content, q: BitPath, v: View, b: bool)
    requires Holds(bits, content, q, v) && v.Link(b)
    ensures v.value.None?
  {
  }

  /** Two nodes without links on one way are the same. */
  lemma EndsMeet(bits: nat, s: Snapshot, content: Content, k: BitPath, p: BitPath, q: BitPath)
    requires Shape(bits, s, content) && p in s && q in s && Under(k, p) && Under(k, q)
    requires !s[p].left && !s[p].right && !s[q].left && !s[q].right
    ensures p == q
  {
    if p != q {
      if |p| < |q| {
        assert Under(q, p);
        LinkAbove(bits, s, content, q, p);
      } else {
        assert Under(p, q);
        LinkAbove(bits, s, content, p, q);
      }
    }
  }

  /** Every key of the content sits in a node on its path. */
  lemma {:induction false} Held(bits: nat, s: Snapshot, content: Content, k: BitPath, q: BitPath) returns (p: BitPath)
    requires Shape(bits, s, content) && k in content && q in s && Under(k, q)
    ensures p in s && s[p].path == Some(k) && s[p].value == Some(content[k])
    decreases bits - |q|
  {
    assert Joined(bits, s, q) && Holds(bits, content, q, s[q]);
    if s[q].value.Some? {
      p := q;
    } else {
      assert |q| == bits ==> k == q;
      UnderChild(k, q, k[|q|]);
      assert Fits(content, q + [k[|q|]]);
      p := Held(bits, s, content, k, q + [k[|q|]]);
    }
  }

  /** The two snapshots have the same links. */
  ghost predicate SameLinks(s: Snapshot, s': Snapshot) {
    && s'.Keys == s.Keys
    && forall q :: q in s ==> s'[q].left == s[q].left && s'[q].right == s[q].right
  }

  lemma JoinedSame(bits: nat, s: Snapshot, s': Snapshot, q: BitPath)
    requires SameLinks(s, s') && q in s && Joined(bits, s, q)
    ensures Joined(bits, s', q)
  {
    forall b: bool
      ensures s'[q].Link(b) == s[q].Link(b)
    {
    }
    if q != [] {
      assert s'[q[..|q| - 1]].Link(q[|q| - 1]) == s[q[..|q| - 1]].Link(q[|q| - 1]);
    }
  }

  /** Only hashes differ. */
  ghost predicate SameButHash(s: Snapshot, s': Snapshot) {
    s'.Keys == s.Keys && forall q :: q in s ==> s'[q] == s[q].(hash := s'[q].hash)
  }

  lemma ShapeSame(bits: nat, s: Snapshot, s': Snapshot, content: Content)
    requires Shape(bits, s, content) && SameButHash(s, s')
    ensures Shape(bits, s', content)
  {
    forall q | q in s'
      ensures Joined(bits, s', q) && Holds(bits, content, q, s'[q])
    {
      JoinedSame(bits, s, s', q);
      assert Holds(bits, content, q, s[q]);
      assert forall b: bool :: s'[q].Link(b) == s[q].Link(b);
    }
  }

  /** Taking the value out of a node. */
  lemma ClearShape(bits: nat, s: Snapshot, content: Content, p: BitPath)
    requires Shape(bits, s, content) && p in s && s[p].value.Some?
    ensures s[p].path.Some? && Shape(bits, s[p := s[p].(path := None, value := None)], content - {s[p].path.value})
  {
    hide Fits, Joined;
    assert Holds(bits, content, p, s[p]);
    var k := s[p].path.value;
    var s', content' := s[p := s[p].(path := None, value := None)], content - {k};
    forall q | q in s'
      ensures Joined(bits, s', q) && Holds(bits, content', q, s'[q])
    {
      JoinedSame(bits, s, s', q);
      ClearHolds(bits, s, content, p, k, q);
    }
  }

  lemma ClearedHolds(bits: nat, content: Content, p: BitPath, v: View)
    requires Holds(bits, content, p, v) && v.value.Some? && v.path.Some?
    ensures Holds(bits, content - {v.path.value}, p, v.(path := None, value := None))
  {
    var k := v.path.value;
    if |p| == bits {
      assert p == k;
    }
    forall b: bool, x | x in content - {k}
      ensures !Under(x, p + [b])
    {
      UnderChild(x, p, b);
    }
  }

  lemma FewerHolds(bits: nat, content: Content, q: BitPath, v: View, k: BitPath)
    requires Holds(bits, content, q, v) && (v.value.Some? ==> v.path != Some(k))
    ensures Holds(bits, content - {k}, q, v)
  {
    forall x: BitPath
      ensures Fits(content - {k}, x) ==> Fits(content, x)
    {
    }
  }

  lemma ClearHolds(bits: nat, s: Snapshot, content: Content, p: BitPath, k: BitPath, q: BitPath)
    requires Shape(bits, s, content) && p in s && s[p].value.Some? && s[p].path == Some(k) && q in s
    ensures Holds(bits, content - {k}, q, if q == p then s[p].(path := None, value := None) else s[q])
  {
    hide Holds, Joined;
    if q == p {
      ClearedHolds(bits, content, p, s[p]);
    } else {
      if s[q].value.Some? && s[q].path == Some(k) {
        ValueEnds(bits, content, p, s[p]);
        ValueEnds(bits, content, q, s[q]);
        EndsMeet(bits, s, content, k, p, q);
      }
      FewerHolds(bits, content, q, s[q], k);
    }
  }

  lemma ValueEnds(bits: nat, content: Content, q: BitPath, v: View)
    requires Holds(bits, content, q, v) && v.value.Some?
    ensures v.path.Some? && Under(v.path.value, q) && !v.left && !v.right
  {
  }

  /** A position can take a value: nothing else of the content is below it, and it has no links. */
  ghost predicate Takes(s: Snapshot, content: Content, p: BitPath, k: BitPath)
    requires p in s
  {
    Under(k, p) && Alone(content, p, k) && !s[p].left && !s[p].right
  }

  lemma StoreShape(bits: nat, s: Snapshot, content: Content, p: BitPath, k: BitPath, v: Bytes)
    requires Shape(bits, s, content) && p in s && |k| == bits && Takes(s, content, p, k)
    ensures Shape(bits, s[p := s[p].(path := Some(k), value := Some(v))], content[k := v])
  {
    hide Holds, Joined, Takes;
    var s' := s[p := s[p].(path := Some(k), value := Some(v))];
    forall q | q in s'
      ensures Joined(bits, s', q) && Holds(bits, content[k := v], q, s'[q])
    {
      JoinedSame(bits, s, s', q);
      if q != p {
        StoreHolds(bits, s, content, p, k, v, q);
      } else {
        StoredHolds(bits, s, content, p, k, v);
      }
    }
  }

  lemma StoredHolds(bits: nat, s: Snapshot, content: Content, p: BitPath, k: BitPath, v: Bytes)
    requires p in s && |k| == bits && Takes(s, content, p, k)
    ensures Holds(bits, content[k := v], p, s[p].(path := Some(k), value := Some(v)))
  {
  }

  lemma StoreHolds(bits: nat, s: Snapshot, content: Content, p: BitPath, k: BitPath, v: Bytes, q: BitPath)
    requires Shape(bits, s, content) && p in s && |k| == bits && Takes(s, content, p, k) && q in s && q != p
    ensures Holds(bits, content[k := v], q, s[q])
  {
    var content' := content[k := v];
    assert Holds(bits, content, q, s[q]) && Joined(bits, s, q);
    if s[q].value.Some? {
      if Under(k, q) {
        EndsMeet(bits, s, content, k, p, q);
      }
    } else if |q| == bits {
      if q == k {
        assert Under(k, q) && forall b: bool :: !s[q].Link(b);
        assert !s[q].Link(false) && !s[q].Link(true);
        EndsMeet(bits, s, content, k, p, q);
      }
    } else {
      forall b: bool | !s[q].Link(b)
        ensures !Fits(content', q + [b])
      {
        StoreElsewhere(bits, s, content, p, k, q, b);
        assert forall x :: x in content' && x != k ==> x in content;
      }
    }
  }

  /** A value stored at p is not below a missing link of another node. */
  lemma StoreElsewhere(bits: nat, s: Snapshot, content: Content, p: BitPath, k: BitPath, q: BitPath, b: bool)
    requires Shape(bits, s, content) && p in s && q in s && q != p && Takes(s, content, p, k) && !s[q].Link(b)
    ensures !Under(k, q + [b])
  {
    UnderChild(k, q, b);
    if Under(k, q + [b]) {
      if |p| < |q| {
        assert Under(q, p);
        LinkAbove(bits, s, content, q, p);
      } else {
        assert Under(p, q) && |p| > |q| && p[|q|] == k[|q|];
        LinkAbove(bits, s, content, p, q);
      }
    }
  }

  function Linked(v: View, b: bool): View {
    if b then v.(right := true) else v.(left := true)
  }

  function NewView(h: TreeHasher, bits: nat, q: BitPath): View
    requires |q| <= bits
  {
    View(NullHash(h, bits - |q|), false, false, None, None)
  }

  function WithLink(h: TreeHasher, bits: nat, s: Snapshot, p: BitPath, b: bool): Snapshot
    requires p in s && |p| < bits
  {
    s[p := Linked(s[p], b)][p + [b] := NewView(h, bits, p + [b])]
  }

  /** A new node below one without a value. */
  lemma LinkShape(h: TreeHasher, bits: nat, s: Snapshot, content: Content, p: BitPath, b: bool)
    requires Shape(bits, s, content) && p in s && |p| < bits && s[p].value.None? && !s[p].Link(b)
    ensures p + [b] !in s
    ensures Shape(bits, WithLink(h, bits, s, p, b), content)
  {
    var c := p + [b];
    assert c[..|c| - 1] == p;
    assert c in s ==> Joined(bits, s, c);
    forall q | q in WithLink(h, bits, s, p, b)
      ensures Joined(bits, WithLink(h, bits, s, p, b), q) && Holds(bits, content, q, WithLink(h, bits, s, p, b)[q])
    {
      if q == c {
        LinkNew(h, bits, s, content, p, b);
      } else {
        assert Joined(bits, s, q) && Holds(bits, content, q, s[q]);
        LinkOther(h, bits, s, content, p, b, q);
      }
    }
  }

  lemma LinkNew(h: TreeHasher, bits: nat, s: Snapshot, content: Content, p: BitPath, b: bool)
    requires p in s && |p| < bits && Holds(bits, content, p, s[p]) && s[p].value.None? && !s[p].Link(b)
    ensures var s' := WithLink(h, bits, s, p, b);
      Joined(bits, s', p + [b]) && Holds(bits, content, p + [b], s'[p + [b]])
  {
    var c := p + [b];
    assert c[..|c| - 1] == p && !Fits(content, c);
    assert Under(c, c);
    forall x: bool
      ensures !Fits(content, c + [x])
    {
      FitsChild(content, c, x);
    }
  }

  lemma LinkOther(h: TreeHasher, bits: nat, s: Snapshot, content: Content, p: BitPath, b: bool, q: BitPath)
    requires p in s && |p| < bits && q in s && q != p + [b] && Joined(bits, s, q) && Holds(bits, content, q, s[q])
    requires s[p].value.None? && p + [b] !in s
    ensures var s' := WithLink(h, bits, s, p, b); Joined(bits, s', q) && Holds(bits, content, q, s'[q])
  {
    var s' := WithLink(h, bits, s, p, b);
    forall x: bool
      ensures s[q].Link(x) ==> s'[q].Link(x)
      ensures s'[q].Link(x) ==> s[q].Link(x) || (q == p && x == b)
    {
    }
    if q != [] {
      var up := q[..|q| - 1];
      assert s[up].Link(q[|q| - 1]) ==> Linked(s[up], b).Link(q[|q| - 1]);
    }
  }

  // ---------- Changes of hashes ----------

  lemma LinkChild(h: TreeHasher, bits: nat, s: Snapshot, p: BitPath, b: bool, q: BitPath, x: bool)
    requires p in s && |p| < bits && !s[p].Link(b) && p + [b] !in s && q in s && |q| < bits
    ensures ChildHash(h, bits, WithLink(h, bits, s, p, b), q, x) == ChildHash(h, bits, s, q, x)
  {
    hide NullHash;
    assert q + [x] == p + [b] ==> q == (q + [x])[..|q|] == p;
    assert (q + [x])[|q|] == x && (p + [b])[|p|] == b;
  }

  lemma LinkOne(h: TreeHasher, bits: nat, s: Snapshot, p: BitPath, b: bool, q: BitPath)
    requires LocalOk(h, bits, s, q) && p in s && |p| < bits && s[p].value.None? && !s[p].Link(b) && p + [b] !in s
    requires q in s && q != p
    ensures LocalOk(h, bits, WithLink(h, bits, s, p, b), q)
  {
    hide Branch, NullHash, ChildHash;
    if |q| < bits {
      LinkChild(h, bits, s, p, b, q, false);
      LinkChild(h, bits, s, p, b, q, true);
    }
  }

  lemma LinkParent(h: TreeHasher, bits: nat, s: Snapshot, p: BitPath, b: bool)
    requires LocalOk(h, bits, s, p) && p in s && |p| < bits && s[p].value.None? && !s[p].Link(b) && p + [b] !in s
    ensures LocalOk(h, bits, WithLink(h, bits, s, p, b), p)
  {
    hide Branch;
    LinkChild(h, bits, s, p, b, p, false);
    LinkChild(h, bits, s, p, b, p, true);
  }

  /** A new empty child has the hash that was used for the missing one. */
  lemma LinkLocal(h: TreeHasher, bits: nat, s: Snapshot, p: BitPath, b: bool)
    requires AllLocal(h, bits, s) && p in s && |p| < bits && s[p].value.None? && !s[p].Link(b) && p + [b] !in s
    ensures AllLocal(h, bits, WithLink(h, bits, s, p, b))
  {
    hide Branch;
    var s' := WithLink(h, bits, s, p, b);
    forall q | q in s'
      ensures LocalOk(h, bits, s', q)
    {
      if q != p + [b] {
        assert LocalOk(h, bits, s, q);
        if q == p {
          LinkParent(h, bits, s, p, b);
        } else {
          LinkOne(h, bits, s, p, b, q);
        }
      }
    }
  }

  /** A change of path and value matters to no other hash. */
  lemma ValueLocal(h: TreeHasher, bits: nat, s: Snapshot, p: BitPath, path: Option<BitPath>, value: Option<Bytes>)
    requires LocalBut(h, bits, s, p) && p in s
    ensures LocalBut(h, bits, s[p := s[p].(path := path, value := value)], p)
  {
    hide Branch, NullHash;
    var s' := s[p := s[p].(path := path, value := value)];
    forall q | q in s' && q != p
      ensures LocalOk(h, bits, s', q)
    {
      assert LocalOk(h, bits, s, q);
      assert |q| < bits ==> ChildHash(h, bits, s', q, false) == ChildHash(h, bits, s, q, false);
      assert |q| < bits ==> ChildHash(h, bits, s', q, true) == ChildHash(h, bits, s, q, true);
    }
  }

  lemma RedoChild(h: TreeHasher, bits: nat, s: Snapshot, p: BitPath, x: Bytes, q: BitPath, b: bool)
    requires p in s && q in s && |q| < bits && (p != [] ==> q != p[..|p| - 1])
    ensures ChildHash(h, bits, s[p := s[p].(hash := x)], q, b) == ChildHash(h, bits, s, q, b)
  {
    hide NullHash;
    assert (q + [b])[..|q + [b]| - 1] == q;
  }

  /** A corrected hash leaves only the node above to be corrected. */
  lemma RedoLocal(h: TreeHasher, bits: nat, s: Snapshot, p: BitPath, x: Bytes, q: BitPath)
    requires LocalBut(h, bits, s, p) && p in s && q in s && (p != [] ==> q != p[..|p| - 1])
    requires Sane(bits, s, p) && x == HashOf(h, bits, s, p)
    ensures LocalOk(h, bits, s[p := s[p].(hash := x)], q)
  {
    hide Branch, NullHash, ChildHash;
    if |q| < bits {
      RedoChild(h, bits, s, p, x, q, false);
      RedoChild(h, bits, s, p, x, q, true);
    }
    if q != p {
      assert LocalOk(h, bits, s, q);
    }
  }
}
