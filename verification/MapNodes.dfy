/**
 The nodes of python/demo/vdb/verifiable_map.py with their histories, and the version of the tree that
 they hold at each time. A node is named by its position, so that a link is present or absent and the
 parent of a node is its position without the last step.
 */
module MapNodes {
  import opened Options
  import opened TreeHashing
  import opened SparseSpec
  import opened SequencedData
  import opened MapSnapshot

  datatype Node = Node(
    hash: Sequenced<Bytes>, left: Sequenced<bool>, right: Sequenced<bool>,
    path: Sequenced<Option<BitPath>>, value: Sequenced<Option<Bytes>>) {

    ghost predicate Valid() {
      hash.Valid() && left.Valid() && right.Valid() && path.Valid() && value.Valid()
    }

    ghost predicate Until(time: nat)
      requires Valid()
    {
      hash.Last() <= time && left.Last() <= time && right.Last() <= time && path.Last() <= time && value.Last() <= time
    }

    /** Links are never taken back. */
    ghost predicate LinksStay(time: nat)
      requires Valid()
    {
      forall t: nat, b: bool :: t <= time && ViewAt(t).Link(b) ==> ViewAt(time).Link(b)
    }

    function ViewAt(time: nat): View
      requires Valid()
    {
      View(hash.At(time), left.At(time), right.At(time), path.At(time), value.At(time))
    }
  }

  type Nodes = map<BitPath, Node>

  function NewNode(h: TreeHasher, bits: nat, q: BitPath): (n: Node)
    requires |q| <= bits
    ensures n.Valid() && n.Until(0) && forall time :: n.ViewAt(time) == NewView(h, bits, q)
  {
    Node(Start(NullHash(h, bits - |q|)), Start(false), Start(false), Start(None), Start(None))
  }

  function Parent(q: BitPath): BitPath
    requires q != []
  {
    q[..|q| - 1]
  }

  ghost predicate AllValid(nodes: Nodes) {
    forall q :: q in nodes ==> nodes[q].Valid()
  }

  /** The node is linked from its parent. */
  ghost predicate Live(nodes: Nodes, time: nat, q: BitPath)
    requires AllValid(nodes)
  {
    q == [] || (Parent(q) in nodes && nodes[Parent(q)].ViewAt(time).Link(q[|q| - 1]))
  }

  /** The version of the tree at a time. */
  ghost function Look(nodes: Nodes, time: nat): Snapshot
    requires AllValid(nodes)
  {
    map q | q in nodes && Live(nodes, time, q) :: nodes[q].ViewAt(time)
  }

  /** All nodes are linked, and nothing has happened after the given time. */
  ghost predicate Stored(nodes: Nodes, time: nat) {
    && AllValid(nodes) && [] in nodes
    && forall q :: q in nodes ==> NodeStored(nodes, time, q)
  }

  ghost predicate NodeStored(nodes: Nodes, time: nat, q: BitPath)
    requires AllValid(nodes) && q in nodes
  {
    nodes[q].Until(time) && nodes[q].LinksStay(time) && Live(nodes, time, q)
  }

  lemma LookSame(nodes: Nodes, nodes': Nodes, time: nat)
    requires AllValid(nodes) && AllValid(nodes')
    requires forall q :: q in nodes && Live(nodes, time, q) <==> q in nodes' && Live(nodes', time, q)
    requires forall q :: q in nodes && q in nodes' ==> nodes'[q].ViewAt(time) == nodes[q].ViewAt(time)
    ensures Look(nodes', time) == Look(nodes, time)
  {
    hide Live, Node.ViewAt, Node.Valid;
  }

  /** Every version up to a time is still there. */
  ghost predicate Keeps(nodes: Nodes, nodes': Nodes, time: nat)
    requires AllValid(nodes) && AllValid(nodes')
  {
    forall t: nat :: t <= time ==> Look(nodes', t) == Look(nodes, t)
  }

  lemma ViewLater(n: Node, time: nat, t: nat)
    requires n.Valid() && n.Until(time) && time <= t
    ensures n.ViewAt(t) == n.ViewAt(time)
  {
    AtAfterLast(n.hash, time);
    AtAfterLast(n.hash, t);
    AtAfterLast(n.left, time);
    AtAfterLast(n.left, t);
    AtAfterLast(n.right, time);
    AtAfterLast(n.right, t);
    AtAfterLast(n.path, time);
    AtAfterLast(n.path, t);
    AtAfterLast(n.value, time);
    AtAfterLast(n.value, t);
  }

  lemma LinksLater(n: Node, time: nat, t: nat)
    requires n.Valid() && n.Until(time) && n.LinksStay(time) && time <= t
    ensures n.LinksStay(t)
  {
    hide Node.ViewAt;
    ViewLater(n, time, t);
    forall u: nat, b: bool | u <= t && n.ViewAt(u).Link(b)
      ensures n.ViewAt(t).Link(b)
    {
      if time <= u {
        ViewLater(n, time, u);
      }
    }
  }

  /** Time passes. */
  lemma LookLater(nodes: Nodes, time: nat, t: nat)
    requires Stored(nodes, time) && time <= t
    ensures Stored(nodes, t) && Look(nodes, t) == Look(nodes, time)
  {
    hide Node.ViewAt, Node.Valid, Node.LinksStay;
    forall q | q in nodes
      ensures nodes[q].Until(t) && nodes[q].ViewAt(t) == nodes[q].ViewAt(time) && nodes[q].LinksStay(t)
    {
      assert NodeStored(nodes, time, q);
      ViewLater(nodes[q], time, t);
      LinksLater(nodes[q], time, t);
    }
  }

  /** The node n' is n, changed at a time. */
  ghost predicate Changed(n: Node, n': Node, time: nat, v: View)
    requires n.Valid()
  {
    && n'.Valid() && n'.Until(time) && n'.ViewAt(time) == v
    && forall t: nat :: t < time ==> n'.ViewAt(t) == n.ViewAt(t)
  }

  lemma HashChanged(n: Node, x: Bytes, time: nat)
    requires n.Valid() && n.Until(time) && n.hash.CanSet(x, time)
    ensures Changed(n, n.(hash := n.hash.Set(x, time)), time, n.ViewAt(time).(hash := x))
  {
    hide Sequenced<Bytes>.Set, Sequenced<Bytes>.At, Sequenced<Bytes>.Back;
    forall t: nat
      ensures n.hash.Set(x, time).Valid() && n.hash.Set(x, time).Last() <= time
      ensures n.hash.Set(x, time).At(t) == if t < time then n.hash.At(t) else x
    {
      SetThenAt(n.hash, x, time, t);
    }
  }

  lemma PathChanged(n: Node, x: Option<BitPath>, time: nat)
    requires n.Valid() && n.Until(time) && n.path.Last() < time
    ensures Changed(n, n.(path := n.path.Set(x, time)), time, n.ViewAt(time).(path := x))
  {
    forall t: nat
      ensures n.path.Set(x, time).Valid() && n.path.Set(x, time).Last() <= time
      ensures n.path.Set(x, time).At(t) == if t < time then n.path.At(t) else x
    {
      SetThenAt(n.path, x, time, t);
    }
  }

  lemma ValueChanged(n: Node, x: Option<Bytes>, time: nat)
    requires n.Valid() && n.Until(time) && n.value.Last() < time
    ensures Changed(n, n.(value := n.value.Set(x, time)), time, n.ViewAt(time).(value := x))
  {
    forall t: nat
      ensures n.value.Set(x, time).Valid() && n.value.Set(x, time).Last() <= time
      ensures n.value.Set(x, time).At(t) == if t < time then n.value.At(t) else x
    {
      SetThenAt(n.value, x, time, t);
    }
  }

  function SetLink(n: Node, b: bool, time: nat): Node
    requires n.Valid() && n.Until(time) && n.left.Last() < time && n.right.Last() < time
  {
    if b then n.(right := n.right.Set(true, time)) else n.(left := n.left.Set(true, time))
  }

  lemma LinkChanged(n: Node, b: bool, time: nat)
    requires n.Valid() && n.Until(time) && n.left.Last() < time && n.right.Last() < time
    ensures Changed(n, SetLink(n, b, time), time, Linked(n.ViewAt(time), b))
  {
    var d := if b then n.right else n.left;
    forall t: nat
      ensures d.Set(true, time).Valid() && d.Set(true, time).Last() <= time
      ensures d.Set(true, time).At(t) == if t < time then d.At(t) else true
    {
      SetThenAt(d, true, time, t);
    }
  }

  lemma LinksChanged(n: Node, n': Node, time: nat, v: View)
    requires n.Valid() && n.LinksStay(time) && Changed(n, n', time, v)
    requires forall b: bool :: n.ViewAt(time).Link(b) ==> v.Link(b)
    ensures n'.LinksStay(time)
  {
    hide Node.ViewAt;
    forall t: nat, b: bool | t <= time && n'.ViewAt(t).Link(b)
      ensures n'.ViewAt(time).Link(b)
    {
      assert t < time ==> n'.ViewAt(t) == n.ViewAt(t);
    }
  }

  /** Replacing one node by a changed one with the same links. */
  lemma LookChanged(nodes: Nodes, p: BitPath, n': Node, time: nat, v: View)
    requires Stored(nodes, time) && p in nodes && Changed(nodes[p], n', time, v)
    requires v.left == nodes[p].ViewAt(time).left && v.right == nodes[p].ViewAt(time).right
    ensures AllValid(nodes[p := n']) && Stored(nodes[p := n'], time)
    ensures Look(nodes[p := n'], time) == Look(nodes, time)[p := v]
    ensures forall t: nat :: t < time ==> Look(nodes[p := n'], t) == Look(nodes, t)
  {
    hide Node.ViewAt, Node.Valid, Node.LinksStay, Node.Until, Live, Look;
    var nodes' := nodes[p := n'];
    StoredChanged(nodes, p, n', time, v);
    LookNow(nodes, p, n', time, v);
    forall t: nat | t < time
      ensures Look(nodes', t) == Look(nodes, t)
    {
      LookBefore(nodes, p, n', time, v, t);
    }
  }

  lemma StoredChanged(nodes: Nodes, p: BitPath, n': Node, time: nat, v: View)
    requires Stored(nodes, time) && p in nodes && Changed(nodes[p], n', time, v)
    requires v.left == nodes[p].ViewAt(time).left && v.right == nodes[p].ViewAt(time).right
    ensures AllValid(nodes[p := n']) && Stored(nodes[p := n'], time)
  {
    hide Node.ViewAt, Node.Valid, Node.LinksStay, Node.Until, Live;
    var nodes' := nodes[p := n'];
    assert NodeStored(nodes, time, p);
    LinksChanged(nodes[p], n', time, v);
    forall q | q in nodes
      ensures NodeStored(nodes', time, q)
    {
      assert NodeStored(nodes, time, q);
      LiveSame(nodes, p, n', time, q);
    }
  }

  lemma LookNow(nodes: Nodes, p: BitPath, n': Node, time: nat, v: View)
    requires Stored(nodes, time) && p in nodes && Changed(nodes[p], n', time, v)
    requires AllValid(nodes[p := n']) && Stored(nodes[p := n'], time)
    ensures Look(nodes[p := n'], time) == Look(nodes, time)[p := v]
  {
    hide Node.ViewAt, Node.Valid, Node.LinksStay, Node.Until, Live;
    forall q | q in nodes
      ensures Live(nodes, time, q) && Live(nodes[p := n'], time, q)
    {
      assert NodeStored(nodes, time, q) && NodeStored(nodes[p := n'], time, q);
    }
  }

  lemma LookBefore(nodes: Nodes, p: BitPath, n': Node, time: nat, v: View, t: nat)
    requires AllValid(nodes) && p in nodes && Changed(nodes[p], n', time, v) && t < time
    ensures AllValid(nodes[p := n']) && Look(nodes[p := n'], t) == Look(nodes, t)
  {
    hide Node.ViewAt, Node.Valid, Node.Until, Live;
    forall q | q in nodes
      ensures Live(nodes[p := n'], t, q) == Live(nodes, t, q)
    {
      LiveSame(nodes, p, n', t, q);
    }
    LookSame(nodes, nodes[p := n'], t);
  }

  lemma LiveSame(nodes: Nodes, p: BitPath, n': Node, t: nat, q: BitPath)
    requires AllValid(nodes) && p in nodes && n'.Valid() && q in nodes
    requires n'.ViewAt(t).left == nodes[p].ViewAt(t).left && n'.ViewAt(t).right == nodes[p].ViewAt(t).right
    ensures AllValid(nodes[p := n']) && Live(nodes[p := n'], t, q) == Live(nodes, t, q)
  {
    hide Node.ViewAt, Node.Valid;
  }

  /** The nodes after a new node below p, where n' is p with the new link. */
  function WithChild(h: TreeHasher, bits: nat, nodes: Nodes, p: BitPath, b: bool, n': Node): Nodes
    requires |p| < bits
  {
    nodes[p := n'][p + [b] := NewNode(h, bits, p + [b])]
  }

  lemma StoredLinked(h: TreeHasher, bits: nat, nodes: Nodes, p: BitPath, b: bool, n': Node, time: nat)
    requires Stored(nodes, time) && p in nodes && |p| < bits && p + [b] !in nodes
    requires Changed(nodes[p], n', time, Linked(nodes[p].ViewAt(time), b))
    ensures AllValid(WithChild(h, bits, nodes, p, b, n')) && Stored(WithChild(h, bits, nodes, p, b, n'), time)
  {
    hide Node.ViewAt, Node.Valid, Node.LinksStay, Live;
    var nodes' := WithChild(h, bits, nodes, p, b, n');
    LinksChanged(nodes[p], n', time, Linked(nodes[p].ViewAt(time), b));
    NewLinksStay(h, bits, p + [b], time);
    forall q | q in nodes'
      ensures NodeStored(nodes', time, q)
    {
      assert q != p + [b] ==> NodeStored(nodes, time, q);
      if q != p + [b] { ParentStored(nodes, time, q); }
      LiveLinked(h, bits, nodes, p, b, n', time, q);
    }
  }

  lemma LiveLinked(h: TreeHasher, bits: nat, nodes: Nodes, p: BitPath, b: bool, n': Node, t: nat, q: BitPath)
    requires AllValid(nodes) && p in nodes && |p| < bits && p + [b] !in nodes && n'.Valid()
    requires forall x: bool :: n'.ViewAt(t).Link(x) == (nodes[p].ViewAt(t).Link(x) || (x == b && n'.ViewAt(t).Link(b)))
    requires q != p + [b] ==> q in nodes && (q != [] ==> Parent(q) in nodes)
    ensures AllValid(WithChild(h, bits, nodes, p, b, n'))
    ensures Live(WithChild(h, bits, nodes, p, b, n'), t, q) ==
      if q == p + [b] then n'.ViewAt(t).Link(b) else Live(nodes, t, q)
  {
    hide Node.ViewAt, Node.Valid;
    var c := p + [b];
    assert Parent(c) == p && c[|c| - 1] == b;
    if q != [] && Parent(q) == p {
      assert q == p + [q[|q| - 1]];
    }
  }

  lemma NewLinksStay(h: TreeHasher, bits: nat, c: BitPath, time: nat)
    requires |c| <= bits
    ensures NewNode(h, bits, c).LinksStay(time)
  {
  }

  /** Linking a new node. */
  lemma LookLinked(h: TreeHasher, bits: nat, nodes: Nodes, p: BitPath, b: bool, n': Node, time: nat, t: nat)
    requires Stored(nodes, time) && p in nodes && |p| < bits && p + [b] !in nodes && t <= time
    requires !nodes[p].ViewAt(time).Link(b)
    requires Changed(nodes[p], n', time, Linked(nodes[p].ViewAt(time), b))
    ensures AllValid(WithChild(h, bits, nodes, p, b, n'))
    ensures Look(WithChild(h, bits, nodes, p, b, n'), t)
         == if t < time then Look(nodes, t) else WithLink(h, bits, Look(nodes, time), p, b)
  {
    hide Node.ViewAt, Node.Valid, Live, Node.LinksStay, NodeStored;
    StoredLinked(h, bits, nodes, p, b, n', time);
    forall q | q in nodes || q == p + [b]
      ensures Live(WithChild(h, bits, nodes, p, b, n'), t, q) == if q == p + [b] then t == time else Live(nodes, t, q)
    {
      LiveWhen(h, bits, nodes, p, b, n', time, t, q);
    }
    if t < time {
      LookSame(nodes, WithChild(h, bits, nodes, p, b, n'), t);
    } else {
      LiveNow(nodes, time);
    }
  }

  lemma LiveNow(nodes: Nodes, time: nat)
    requires Stored(nodes, time)
    ensures forall q :: q in nodes ==> Live(nodes, time, q)
  {
    hide Live;
    assert forall q :: q in nodes ==> NodeStored(nodes, time, q);
  }

  lemma LiveWhen(h: TreeHasher, bits: nat, nodes: Nodes, p: BitPath, b: bool, n': Node, time: nat, t: nat, q: BitPath)
    requires Stored(nodes, time) && p in nodes && |p| < bits && p + [b] !in nodes && t <= time
    requires !nodes[p].ViewAt(time).Link(b) && (q in nodes || q == p + [b])
    requires Changed(nodes[p], n', time, Linked(nodes[p].ViewAt(time), b))
    requires AllValid(WithChild(h, bits, nodes, p, b, n'))
    ensures Live(WithChild(h, bits, nodes, p, b, n'), t, q) == if q == p + [b] then t == time else Live(nodes, t, q)
  {
    hide Node.ViewAt, Node.Valid, Live;
    assert NodeStored(nodes, time, p);
    if q != p + [b] { ParentStored(nodes, time, q); }
    LiveLinked(h, bits, nodes, p, b, n', t, q);
  }

  lemma ParentStored(nodes: Nodes, time: nat, q: BitPath)
    requires Stored(nodes, time) && q in nodes
    ensures q != [] ==> Parent(q) in nodes
  {
    assert NodeStored(nodes, time, q);
  }
}
