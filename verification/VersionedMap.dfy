/**
 `VerifiableMap` of python/demo/vdb/verifiable_map.py: a map that keeps every version of itself and proves
 what it held at each of them.

 A key is given by its path, the bits of its hash. The number of bits is a parameter where the source has
 256. The ghost fields say what the map means: the content now, and the content at the end of each `Put`.
 */
module VersionedMap {
  import opened Options
  import opened TreeHashing
  import opened SparseSpec
  import opened SequencedData
  import opened MapSnapshot
  import opened MapNodes
  import opened MapProofs

  /** Links that are there stay. */
  ghost predicate LinksGrow(s: Snapshot, s': Snapshot) {
    forall q :: q in s ==> q in s' && (s[q].left ==> s'[q].left) && (s[q].right ==> s'[q].right)
  }

  class VerifiableMap {
    const h: TreeHasher
    const bits: nat
    var nodes: Nodes
    var treeSize: nat
    ghost var content: Content
    ghost var history: map<int, Content>

    ghost function Now(): Snapshot
      reads this
      requires AllValid(nodes)
    {
      Look(nodes, treeSize)
    }

    /** What holds between the changes of one `Put`. */
    ghost predicate Current()
      reads this
    {
      0 < bits && AllValid(nodes) && Stored(nodes, treeSize) && Good(h, bits, Now(), content)
    }

    ghost predicate Recorded(t: nat, c: Content)
      reads this
      requires AllValid(nodes)
    {
      Good(h, bits, Look(nodes, t), c) && Filled(bits, Look(nodes, t))
    }

    ghost predicate Valid()
      reads this
    {
      && Current() && Filled(bits, Now())
      && treeSize in history && history[treeSize] == content
      && forall t :: t in history ==> 0 <= t <= treeSize && Recorded(t, history[t])
    }

    constructor (h: TreeHasher, bits: nat)
      requires 0 < bits
      ensures Valid() && this.h == h && this.bits == bits && content == map[] && treeSize == 0
      ensures history == map[0 := map[]]
    {
      hide Stored, Look, Good, Filled;
      this.h := h;
      this.bits := bits;
      this.nodes := map[[] := NewNode(h, bits, [])];
      this.treeSize := 0;
      this.content := map[];
      this.history := map[0 := map[]];
      new;
      RootAlone(h, bits);
    }

    /** The hash of the node p, from its value or its children. */
    method ComputeHash(p: BitPath, ghost c: Content) returns (x: Bytes)
      requires Stored(nodes, treeSize) && p in nodes && Shape(bits, Now(), c)
      ensures Sane(bits, Now(), p) && x == HashOf(h, bits, Now(), p)
    {
      hide Branch, NullHash, ChildHash, Shape, Stored, Node.ViewAt, Node.Valid, Look;
      NowHas(nodes, treeSize, p);
      ShapeSane(bits, Now(), c, p);
      var v := nodes[p].ViewAt(treeSize);
      if v.value.None? {
        if !v.left && !v.right {
          x := NullHash(h, bits - |p|);
        } else {
          var l := LeftOrRightHash(p, false, treeSize, c);
          var r := LeftOrRightHash(p, true, treeSize, c);
          x := h.HashChildren(l, r);
        }
      } else {
        x := BranchHash(h, bits, v.path.value, h.HashLeaf(v.value.value), |p|);
      }
    }

    /** `left_hash` and `right_hash`. */
    method LeftOrRightHash(p: BitPath, b: bool, time: nat, ghost c: Content) returns (x: Bytes)
      requires AllValid(nodes) && p in nodes && p in Look(nodes, time) && |p| < bits
      requires Shape(bits, Look(nodes, time), c)
      ensures x == ChildHash(h, bits, Look(nodes, time), p, b)
    {
      hide NullHash, Look, Node.ViewAt, Node.Valid;
      LookHas(nodes, time, p);
      assert Joined(bits, Look(nodes, time), p);
      if nodes[p].ViewAt(time).Link(b) {
        LookHas(nodes, time, p + [b]);
        x := nodes[p + [b]].ViewAt(time).hash;
      } else {
        x := NullHash(h, bits - |p| - 1);
      }
    }

    method SetHash(p: BitPath, x: Bytes)
      requires Stored(nodes, treeSize) && p in nodes && nodes[p].hash.Last() < treeSize
      modifies this`nodes
      ensures AllValid(nodes) && Stored(nodes, treeSize) && p in old(Now())
      ensures Now() == old(Now()[p := Now()[p].(hash := x)])
      ensures nodes.Keys == old(nodes).Keys
      ensures forall q :: q in nodes && q != p ==> nodes[q] == old(nodes)[q]
      ensures forall t: nat :: t < treeSize ==> Look(nodes, t) == old(Look(nodes, t))
    {
      hide Look, Stored, Node.ViewAt, Node.Valid;
      NowHas(nodes, treeSize, p);
      var n := WithHash(nodes[p], x, treeSize);
      LookChanged(nodes, p, n, treeSize, Now()[p].(hash := x));
      nodes := nodes[p := n];
    }

    /** `_redo_hash`: corrects the hash of a node, and those above it as far as they change. */
    method RedoHash(p: BitPath, ghost c: Content)
      requires Stored(nodes, treeSize) && p in nodes
      requires Shape(bits, Now(), c) && LocalBut(h, bits, Now(), p)
      requires forall q :: q in nodes && Under(p, q) ==> nodes[q].hash.Last() < treeSize
      modifies this`nodes
      ensures AllValid(nodes) && Stored(nodes, treeSize) && Good(h, bits, Now(), c)
      ensures SameButHash(old(Now()), Now())
      ensures forall t: nat :: t < treeSize ==> Look(nodes, t) == old(Look(nodes, t))
      decreases |p|
    {
      hide Node.Valid, Node.ViewAt, HashOf, Shape, LocalBut, AllLocal, Look, Stored;
      var x := ComputeHash(p, c);
      NowHas(nodes, treeSize, p);
      ghost var s, nodes0 := Now(), nodes;
      if nodes[p].ViewAt(treeSize).hash == x {
        NothingToRedo(h, bits, s, p, c);
      } else {
        SetHash(p, x);
        ShapeSame(bits, s, Now(), c);
        if p != [] {
          RedoneBelow(h, bits, s, p, x);
          ParentStored(nodes0, treeSize, p);
          AboveParent(p);
          RedoHash(Parent(p), c);
        } else {
          RedoneRoot(h, bits, s, x);
        }
      }
    }

    /** `set_path` at the next tree size. */
    method SetPath(p: BitPath, x: Option<BitPath>)
      requires Stored(nodes, treeSize) && p in nodes
      modifies this`nodes, this`treeSize
      ensures treeSize == old(treeSize) + 1 && AllValid(nodes) && Stored(nodes, treeSize)
      ensures p in old(Now()) && Now() == old(Now()[p := Now()[p].(path := x)])
      ensures SameHashes(old(nodes), nodes) && Keeps(old(nodes), nodes, old(treeSize))
    {
      hide Look, Stored, Node.ViewAt, Node.Valid;
      NowHas(nodes, treeSize, p);
      LookLater(nodes, treeSize, treeSize + 1);
      treeSize := treeSize + 1;
      NowHas(nodes, treeSize, p);
      var n := WithPath(nodes[p], x, treeSize);
      LookChanged(nodes, p, n, treeSize, Now()[p].(path := x));
      nodes := nodes[p := n];
    }

    /** The history part of `set_value`, at the next tree size. */
    method SetValue(p: BitPath, x: Option<Bytes>)
      requires Stored(nodes, treeSize) && p in nodes
      modifies this`nodes, this`treeSize
      ensures treeSize == old(treeSize) + 1 && AllValid(nodes) && Stored(nodes, treeSize)
      ensures p in old(Now()) && Now() == old(Now()[p := Now()[p].(value := x)])
      ensures SameHashes(old(nodes), nodes) && Keeps(old(nodes), nodes, old(treeSize))
    {
      hide Look, Stored, Node.ViewAt, Node.Valid;
      NowHas(nodes, treeSize, p);
      LookLater(nodes, treeSize, treeSize + 1);
      treeSize := treeSize + 1;
      NowHas(nodes, treeSize, p);
      var n := WithValue(nodes[p], x, treeSize);
      LookChanged(nodes, p, n, treeSize, Now()[p].(value := x));
      nodes := nodes[p := n];
    }

    /** A path and a value, or neither, for one node: two mutations, then all hashes that change with them. */
    method SetBoth(p: BitPath, path: Option<BitPath>, value: Option<Bytes>, ghost after: Content)
      requires Current() && p in nodes && p in Now()
      requires Shape(bits, Now()[p := Now()[p].(path := path, value := value)], after)
      modifies this`nodes, this`treeSize, this`content
      ensures Current() && content == after && treeSize == old(treeSize) + 2
      ensures SameButHash(old(Now()[p := Now()[p].(path := path, value := value)]), Now())
      ensures Keeps(old(nodes), nodes, old(treeSize))
    {
      hide Look, Stored, Node.ViewAt, Node.Valid, Shape, LocalBut, AllLocal;
      HashesUntil(nodes, treeSize);
      ghost var nodes0, s := nodes, Now();
      SetPath(p, path);
      ghost var nodes1 := nodes;
      SetValue(p, value);
      ghost var nodes2 := nodes;
      assert Now() == s[p := s[p].(path := path, value := value)];
      LocalAfter(h, bits, s, p, path, value);
      RedoHash(p, after);
      content := after;
      KeepsAll(nodes0, nodes1, nodes2, nodes, treeSize);
    }

    /** A new node below p, on side b. */
    method AddChild(p: BitPath, b: bool)
      requires Current() && p in nodes && p in Now() && |p| < bits && Now()[p].value.None? && !Now()[p].Link(b)
      modifies this`nodes, this`treeSize
      ensures Current() && treeSize == old(treeSize) + 1
      ensures p + [b] !in old(Now()) && Now() == old(WithLink(h, bits, Now(), p, b))
      ensures Keeps(old(nodes), nodes, old(treeSize))
    {
      hide Look, Stored, Node.ViewAt, Node.Valid, Shape, AllLocal, NewNode;
      NowHas(nodes, treeSize, p);
      ghost var s := Now();
      LinkShape(h, bits, s, content, p, b);
      LinkLocal(h, bits, s, p, b);
      NowHas(nodes, treeSize, p + [b]);
      LookLater(nodes, treeSize, treeSize + 1);
      treeSize := treeSize + 1;
      NowHas(nodes, treeSize, p);
      var n := WithNewLink(nodes[p], b, treeSize);
      StoredLinked(h, bits, nodes, p, b, n, treeSize);
      forall t: nat | t <= treeSize
        ensures Look(WithChild(h, bits, nodes, p, b, n), t)
             == if t < treeSize then Look(nodes, t) else WithLink(h, bits, Look(nodes, treeSize), p, b)
      {
        LookLinked(h, bits, nodes, p, b, n, treeSize, t);
      }
      nodes := WithChild(h, bits, nodes, p, b, n);
    }

    /** Takes the value out of a node above the leaves. */
    method Clear(cur: BitPath)
      requires Current() && cur in nodes && cur in Now() && |cur| < bits && Now()[cur].value.Some?
      requires Now()[cur].path.Some?
      requires Filled(bits, Now())
      modifies this`nodes, this`treeSize, this`content
      ensures Current() && content == old(content - {Now()[cur].path.value}) && Filled(bits, Now())
      ensures cur in nodes && cur in Now() && Now()[cur].value.None?
      ensures Keeps(old(nodes), nodes, old(treeSize)) && LinksGrow(old(Now()), Now()) && treeSize > old(treeSize)
    {
      hide Look, Stored, Shape, AllLocal;
      ClearShape(bits, Now(), content, cur);
      SetBoth(cur, None, None, content - {Now()[cur].path.value});
      NowHas(nodes, treeSize, cur);
    }

    /** Puts a value into a node that can take it. */
    method Store(cur: BitPath, path: BitPath, value: Bytes)
      requires Current() && cur in nodes && cur in Now() && |path| == bits && Takes(Now(), content, cur, path)
      requires FilledBut(bits, Now(), cur)
      modifies this`nodes, this`treeSize, this`content
      ensures Current() && content == old(content[path := value]) && Filled(bits, Now())
      ensures Keeps(old(nodes), nodes, old(treeSize)) && LinksGrow(old(Now()), Now()) && treeSize > old(treeSize)
    {
      hide Look, Stored, Shape, AllLocal, Takes;
      StoreShape(bits, Now(), content, cur, path, value);
      SetBoth(cur, Some(path), Some(value), content[path := value]);
    }

    /** `_place`: puts a value on its path below the node cur, at the first place where it is alone. */
    method Place(cur: BitPath, idx: nat, path: BitPath, value: Bytes)
      requires Current() && cur in nodes && cur in Now() && |path| == bits && Under(path, cur)
      requires idx == |cur| || (idx == bits && Takes(Now(), content, cur, path))
      requires FilledBut(bits, Now(), cur)
      modifies this`nodes, this`treeSize, this`content
      ensures Current() && content == old(content[path := value]) && Filled(bits, Now())
      ensures Keeps(old(nodes), nodes, old(treeSize)) && LinksGrow(old(Now()), Now()) && treeSize > old(treeSize)
      decreases bits - idx, 1
    {
      hide Look, Stored, Good, Takes, Under, Filled, FilledBut, LinksGrow, Keeps, Node.Valid, Node.ViewAt;
      ghost var nodes0, s0, time0, content0 := nodes, Now(), treeSize, content;
      CurrentAt(h, bits, nodes, treeSize, content, cur);
      if idx < bits {
        var vs, ps := [value], [path];
        var prev := nodes[cur].ViewAt(treeSize);
        ghost var base := content;
        FilledAbove(bits, Now(), cur);
        Still(nodes, treeSize, s0);
        if prev.value.Some? {
          if prev.path.value != path {
            vs, ps := vs + [prev.value.value], ps + [prev.path.value];
          }
          base := content - {prev.path.value};
          BackAgain(content, prev.path.value, path, value);
          Clear(cur);
        }
        var j := 0;
        while j < |ps|
          invariant j <= |ps|
          invariant Current() && cur in nodes && cur in Now() && Filled(bits, Now())
          invariant j < |ps| ==> Now()[cur].value.None?
          invariant content == if j == 0 then base else if j == 1 then base[path := value] else content0[path := value]
          invariant Keeps(nodes0, nodes, time0) && LinksGrow(s0, Now()) && treeSize >= time0
          invariant j > 0 ==> treeSize > time0
        {
          ghost var nodes1, s1, time1 := nodes, Now(), treeSize;
          Descend(cur, idx, ps[j], vs[j], |ps| == 1);
          KeepsMore(nodes0, nodes1, nodes, time0, time1);
          LinksMore(s0, s1, Now(), cur);
          NowHas(nodes, treeSize, cur);
          j := j + 1;
        }
      } else {
        if idx == |cur| { LeafTakes(h, bits, Now(), content, cur, path); }
        Store(cur, path, value);
      }
    }

    /** One round of the loop of `_place`: the value goes into the node itself, or further down. */
    method Descend(cur: BitPath, idx: nat, path: BitPath, value: Bytes, alone: bool)
      requires Current() && cur in nodes && cur in Now() && idx == |cur| < bits == |path| && Under(path, cur)
      requires Now()[cur].value.None? && Filled(bits, Now())
      modifies this`nodes, this`treeSize, this`content
      ensures Current() && content == old(content[path := value]) && Filled(bits, Now())
      ensures Keeps(old(nodes), nodes, old(treeSize)) && LinksGrow(old(Now()), Now()) && treeSize > old(treeSize)
      ensures !alone ==> cur in Now() && Now()[cur].value.None?
      decreases bits - idx, 0
    {
      hide Look, Stored, Good, Takes, Under, LinksGrow, Keeps, Node.Valid, Node.ViewAt;
      ghost var nodes0, s0, time0 := nodes, Now(), treeSize;
      NowHas(nodes, treeSize, cur);
      var v := nodes[cur].ViewAt(treeSize);
      if !v.left && !v.right && alone {
        EmptyTakes(h, bits, Now(), content, cur, path);
        Place(cur, bits, path, value);
      } else {
        var next := cur + [path[idx]];
        UnderNext(path, cur);
        Still(nodes, treeSize, s0);
        if !v.Link(path[idx]) {
          AddChild(cur, path[idx]);
          LinkGrows(h, bits, s0, cur, path[idx]);
        }
        LinkedNext(h, bits, Now(), content, cur, path[idx]);
        NowHas(nodes, treeSize, next);
        ghost var nodes1, s1, time1 := nodes, Now(), treeSize;
        Place(next, idx + 1, path, value);
        KeepsMore(nodes0, nodes1, nodes, time0, time1);
        LinksMore(s0, s1, Now(), cur);
        LinkedNext(h, bits, Now(), content, cur, path[idx]);
      }
    }

    /** The walk of `get` towards a key in the version at a time. */
    method Walk(path: BitPath, time: nat, ghost c: Content)
      returns (cur: Option<BitPath>, last: BitPath, proof: seq<Bytes>)
      requires AllValid(nodes) && |path| == bits && Good(h, bits, Look(nodes, time), c)
      ensures TrueProof(h, c, path, proof) && Reached(Look(nodes, time), path, cur, last, |proof|)
      ensures cur.Some? ==> |proof| == bits || Look(nodes, time)[cur.value].path == Some(path)
    {
      hide Look, Good, Node.ViewAt, Node.Valid, TrueProof;
      ghost var s := Look(nodes, time);
      last, proof := [], [];
      cur := Some([]);
      RootIn(h, bits, s, c, path);
      var i := 0;
      while i < bits && cur.Some?
        invariant i <= bits && TrueProof(h, c, path, proof) && Reached(s, path, cur, last, |proof|)
        invariant cur.Some? ==> |proof| == i
      {
        LookHas(nodes, time, cur.value);
        if nodes[cur.value].ViewAt(time).path == Some(path) {
          break;
        }
        last := cur.value;
        cur, proof := WalkStep(path, last, proof, time, c);
        i := i + 1;
      }
    }

    method WalkStep(path: BitPath, at: BitPath, given: seq<Bytes>, time: nat, ghost c: Content)
      returns (cur: Option<BitPath>, proof: seq<Bytes>)
      requires AllValid(nodes) && |path| == bits && Good(h, bits, Look(nodes, time), c)
      requires |given| < bits && at == path[..|given|] && TrueProof(h, c, path, given)
      requires at in Look(nodes, time) && Look(nodes, time)[at].path != Some(path)
      ensures TrueProof(h, c, path, proof) && Reached(Look(nodes, time), path, cur, at, |proof|)
      ensures cur.Some? ==> |proof| == |given| + 1
    {
      hide Look, Good, Node.ViewAt, Node.Valid, Full, Leaves, TrueProof;
      ghost var s := Look(nodes, time);
      LookHas(nodes, time, at);
      assert |given| <= |path| && TrueProof(h, c, path, given);
      var v := nodes[at].ViewAt(time);
      proof := given;
      if v.value.Some? {
        cur := None;
      } else {
        var b := path[|given|];
        GoodChild(h, bits, s, c, at, !b);
        NextStep(path, |given|);
        var x := LeftOrRightHash(at, !b, time, c);
        ProofMore(h, c, path, given, x);
        proof := given + [x];
        if v.Link(b) {
          LinkedNext(h, bits, s, c, at, b);
          cur := Some(at + [b]);
        } else {
          cur := None;
        }
      }
    }

    /** The rest of a proof, below the last node of the walk. */
    method Finish(
        path: BitPath, last: BitPath, given: seq<Bytes>, time: nat, ghost cur: Option<BitPath>, ghost c: Content)
      returns (proof: seq<Bytes>)
      requires AllValid(nodes) && |path| == bits && Good(h, bits, Look(nodes, time), c)
      requires TrueProof(h, c, path, given) && Reached(Look(nodes, time), path, cur, last, |given|)
      requires cur.Some? ==> |given| == bits || Look(nodes, time)[cur.value].path == Some(path)
      ensures TrueProof(h, c, path, proof) && |proof| == bits
    {
      hide Look, Good, Node.ViewAt, Node.Valid, SiblingHash, NullHash, Branch;
      proof := given;
      LookHas(nodes, time, last);
      var v := nodes[last].ViewAt(time);
      if |proof| < bits && v.value.Some? {
        OnlyValue(h, bits, Look(nodes, time), c, last);
        assert v.path.value[..|last|] == path[..|last|];
        proof := Part(h, path, v.path.value, v.value.value, proof, c);
      } else if |proof| < bits {
        NothingLeft(h, bits, Look(nodes, time), c, path, cur, last, |proof|);
      }
      proof := proof + seq(bits - |proof|, j requires 0 <= j < bits - |proof| => NullHash(h, bits - |proof| - j - 1));
    }

    /** `get`, at the end of a `Put`: what the map held for the key, and a proof that leads to the root hash of that
        version; `Valid` keeps this true of every recorded version. */
    method Get(path: BitPath, time: nat) returns (value: Bytes, entries: seq<Entry>)
      requires Valid() && h.Valid() && time in history && |path| == bits
      ensures value == Lookup(history[time], path)
      ensures Readable(bits, Expand(entries)) && TrueProof(h, history[time], path, Restored(h, bits, Expand(entries)))
      ensures |Expand(entries)| == bits
      ensures Compressed(entries)
      ensures RootFrom(h, path, Cut(Restored(h, bits, Expand(entries)), bits), h.HashLeaf(value), 0)
           == Full(h, bits, Leaves(h, history[time]), [])
    {
      hide Look, Good, Stored, Node.ViewAt, Node.Valid, SiblingHash, Restored, NullHash, RootFrom, Full;
      ghost var c := history[time];
      assert Recorded(time, c);
      var cur, last, proof := Walk(path, time, c);
      Found(h, bits, Look(nodes, time), c, path, cur, last, |proof|);
      proof := Finish(path, last, proof, time, cur, c);
      if cur.Some? {
        LookHas(nodes, time, cur.value);
        value := nodes[cur.value].ViewAt(time).value.value;
      } else {
        value := [];
      }
      entries := CompressProof(h, bits, proof);
      TrueProofNonEmpty(h, c, path, proof);
      CompressionUndone(h, bits, proof);
      TrueProofRoot(h, c, path, proof, 0);
      assert path[..0] == [];
    }

    /** `get_latest`. */
    method GetLatest(path: BitPath) returns (value: Bytes)
      requires Valid() && |path| == bits
      ensures value == Lookup(content, path)
    {
      hide Look, Good, Stored, Node.ViewAt, Node.Valid, TrueProof;
      ghost var s := Now();
      var cur: Option<BitPath> := Some([]);
      RootIn(h, bits, s, content, path);
      var i := 0;
      while i < bits && cur.Some?
        invariant i <= bits
        invariant cur.Some? ==> cur.value == path[..i] && cur.value in s
        invariant cur.None? ==> path !in content
      {
        LookHas(nodes, treeSize, cur.value);
        var v := nodes[cur.value].ViewAt(treeSize);
        if v.path == Some(path) {
          break;
        }
        NextStep(path, i);
        if v.Link(path[i]) {
          LinkedNext(h, bits, s, content, cur.value, path[i]);
          cur := Some(cur.value + [path[i]]);
        } else {
          Missing(h, bits, s, content, path, cur.value);
          cur := None;
        }
        i := i + 1;
      }
      if cur.Some? {
        LookHas(nodes, treeSize, cur.value);
        FoundAt(h, bits, s, content, path, cur.value);
        value := nodes[cur.value].ViewAt(treeSize).value.value;
      } else {
        value := [];
      }
    }

    /** All that the map holds now. */
    method Contents() returns (c: Content)
      requires Valid()
      ensures c == content
    {
      hide Look, Stored, Good, Node.ViewAt, Node.Valid;
      c := map[];
      var todo := nodes.Keys;
      forall k | k in content
        ensures exists q :: q in todo && HoldsKey(nodes, treeSize, q, k, content[k])
      {
        HeldNow(h, bits, nodes, treeSize, content, k);
      }
      while todo != {}
        invariant todo <= nodes.Keys
        invariant forall k :: k in c ==> k in content && c[k] == content[k]
        invariant forall k :: k in content && k !in c ==>
          exists q :: q in todo && HoldsKey(nodes, treeSize, q, k, content[k])
        decreases |todo|
      {
        var q :| q in todo;
        NowHas(nodes, treeSize, q);
        var v := nodes[q].ViewAt(treeSize);
        if v.value.Some? {
          CurrentAt(h, bits, nodes, treeSize, content, q);
          c := c[v.path.value := v.value.value];
        }
        todo := todo - {q};
      }
    }

    /** `get_tree_head`, at the end of a `Put`: the root of the complete tree over the content at that time. */
    method TreeHead(time: nat) returns (root: Bytes)
      requires Valid() && time in history
      ensures root == Full(h, bits, Leaves(h, history[time]), [])
    {
      hide Look, Good, Stored, Node.ViewAt, Node.Valid, Full;
      assert Recorded(time, history[time]);
      RootIn(h, bits, Look(nodes, time), history[time], []);
      LookHas(nodes, time, []);
      HashIsFull(h, bits, Look(nodes, time), history[time], []);
      root := nodes[[]].ViewAt(time).hash;
    }

    /** Sets the value of a key. All earlier versions stay, and the new one is recorded. */
    method Put(path: BitPath, value: Bytes)
      requires Valid() && |path| == bits
      modifies this
      ensures Valid() && content == old(content[path := value]) && treeSize > old(treeSize)
      ensures history == old(history)[treeSize := content]
    {
      hide Look, Stored, Good;
      RootThere(h, bits, nodes, treeSize, content);
      Place([], 0, path, value);
      history := history[treeSize := content];
      forall t | t in history
        ensures 0 <= t <= treeSize && Recorded(t, history[t])
      {
      }
    }
  }

  /** Where the walk towards a key is after n hashes: at a node; past the last node, whose value has another path;
      or past its missing link. */
  ghost predicate Reached(s: Snapshot, path: BitPath, cur: Option<BitPath>, last: BitPath, n: nat) {
    && n <= |path| && last in s && |last| <= |path| && last == path[..|last|]
    && if cur.Some? then
         && cur.value == path[..n] && cur.value in s
         && if n == 0 then last == [] else |last| == n - 1 && s[last].value.None?
       else
         && |last| < |path|
         && if s[last].value.Some? then n == |last| && s[last].path != Some(path)
            else n == |last| + 1 && !s[last].Link(path[|last|])
  }

  lemma RootIn(h: TreeHasher, bits: nat, s: Snapshot, content: Content, path: BitPath)
    requires Good(h, bits, s, content)
    ensures [] in s && Shape(bits, s, content) && TrueProof(h, content, path, [])
  {
  }

  /** A node with the path of the key holds its value. */
  lemma FoundAt(h: TreeHasher, bits: nat, s: Snapshot, content: Content, path: BitPath, q: BitPath)
    requires Good(h, bits, s, content) && Filled(bits, s) && |path| == bits && q in s && q == path[..|q|]
    requires s[q].path == Some(path) || |q| == bits
    ensures s[q].value.Some? && path in content && content[path] == s[q].value.value
  {
    assert Holds(bits, content, q, s[q]) && Joined(bits, s, q);
    if |q| == bits {
      assert path == q && s[q].path.value == q;
    }
  }

  /** A node with a value of another path, or without the link, has nothing for the key below it. */
  lemma Missing(h: TreeHasher, bits: nat, s: Snapshot, content: Content, path: BitPath, q: BitPath)
    requires Good(h, bits, s, content) && q in s && |q| < bits == |path| && q == path[..|q|]
    requires s[q].path != Some(path) && !s[q].Link(path[|q|])
    ensures path !in content
  {
    assert Holds(bits, content, q, s[q]);
    assert Under(path, q);
    UnderChild(path, q, path[|q|]);
  }

  lemma Found(
      h: TreeHasher, bits: nat, s: Snapshot, content: Content, path: BitPath, cur: Option<BitPath>,
      last: BitPath, n: nat)
    requires Good(h, bits, s, content) && Filled(bits, s) && |path| == bits && Reached(s, path, cur, last, n)
    requires cur.Some? ==> n == bits || s[cur.value].path == Some(path)
    ensures cur.Some? ==> s[cur.value].value == Some(Lookup(content, path))
    ensures cur.None? ==> Lookup(content, path) == []
  {
    if cur.Some? {
      FoundAt(h, bits, s, content, path, cur.value);
    } else {
      assert Holds(bits, content, last, s[last]);
      assert s[last].value.None? ==> s[last].path.None?;
      Missing(h, bits, s, content, path, last);
    }
  }

  /** Nothing is beside the path below the end of a walk that met no other value. */
  lemma NothingLeft(
      h: TreeHasher, bits: nat, s: Snapshot, content: Content, path: BitPath, cur: Option<BitPath>,
      last: BitPath, n: nat)
    requires Good(h, bits, s, content) && |path| == bits && Reached(s, path, cur, last, n) && n < bits
    requires s[last].value.None?
    requires cur.Some? ==> s[cur.value].path == Some(path)
    ensures forall j :: n <= j < bits ==> SiblingHash(h, content, path, j) == NullHash(h, bits - j - 1)
  {
    hide SiblingHash, NullHash, Fits, Good, Alone;
    if cur.Some? {
      OnlyValue(h, bits, s, content, cur.value);
    } else {
      NoLink(h, bits, s, content, last, path[|last|]);
      NextStep(path, |last|);
    }
    forall j | n <= j < bits
      ensures SiblingHash(h, content, path, j) == NullHash(h, bits - j - 1)
    {
      if cur.Some? {
        AloneBeside(h, content, path, path, n, j);
      } else {
        NothingBeside(h, content, path, n, j);
      }
    }
  }

  lemma OnlyValue(h: TreeHasher, bits: nat, s: Snapshot, content: Content, q: BitPath)
    requires Good(h, bits, s, content) && q in s && (s[q].value.Some? || s[q].path.Some?)
    ensures s[q].value.Some? && s[q].path.Some? && |s[q].path.value| == bits && |q| <= bits
    ensures s[q].path.value[..|q|] == q
    ensures Alone(content, q, s[q].path.value)
    ensures s[q].path.value in content && content[s[q].path.value] == s[q].value.value
  {
    assert Holds(bits, content, q, s[q]);
  }

  lemma NoLink(h: TreeHasher, bits: nat, s: Snapshot, content: Content, q: BitPath, b: bool)
    requires Good(h, bits, s, content) && q in s && s[q].value.None? && |q| < bits && !s[q].Link(b)
    ensures !Fits(content, q + [b])
  {
    hide Fits;
    assert Holds(bits, content, q, s[q]);
  }

  lemma TrueProofNonEmpty(h: TreeHasher, content: Content, path: BitPath, proof: seq<Bytes>)
    requires h.Valid() && TrueProof(h, content, path, proof)
    ensures forall i :: 0 <= i < |proof| ==> proof[i] != []
  {
    hide Full;
    forall i | 0 <= i < |proof|
      ensures proof[i] != []
    {
      FullSize(h, |path|, Leaves(h, content), Beside(path, i));
    }
  }

  lemma GoodChild(h: TreeHasher, bits: nat, s: Snapshot, content: Content, q: BitPath, b: bool)
    requires Good(h, bits, s, content) && q in s && |q| < bits && s[q].value.None?
    ensures Shape(bits, s, content) && ChildHash(h, bits, s, q, b) == Full(h, bits, Leaves(h, content), q + [b])
  {
    hide Full, NullHash, HashOf, Leaves;
    assert Joined(bits, s, q) && Holds(bits, content, q, s[q]);
    if s[q].Link(b) {
      HashIsFull(h, bits, s, content, q + [b]);
    }
    ChildIsFull(h, bits, s, content, q, b);
  }

  lemma NextStep(path: BitPath, i: nat)
    requires i < |path|
    ensures path[..i + 1] == path[..i] + [path[i]]
  {
  }

  /** The node holds the value of a key. */
  ghost predicate HoldsKey(nodes: Nodes, time: nat, q: BitPath, k: BitPath, v: Bytes) {
    q in nodes && nodes[q].Valid() && nodes[q].ViewAt(time).path == Some(k) && nodes[q].ViewAt(time).value == Some(v)
  }

  lemma HeldNow(h: TreeHasher, bits: nat, nodes: Nodes, time: nat, content: Content, k: BitPath)
    requires Stored(nodes, time) && Good(h, bits, Look(nodes, time), content) && k in content
    ensures exists q :: q in nodes.Keys && HoldsKey(nodes, time, q, k, content[k])
  {
    hide Look, Stored, Node.ViewAt, Node.Valid;
    RootThere(h, bits, nodes, time, content);
    assert Under(k, []);
    var p := Held(bits, Look(nodes, time), content, k, []);
    NowHas(nodes, time, p);
    assert HoldsKey(nodes, time, p, k, content[k]);
  }

  /** What the invariant says about one node. */
  lemma CurrentAt(h: TreeHasher, bits: nat, nodes: Nodes, time: nat, content: Content, q: BitPath)
    requires Stored(nodes, time) && Good(h, bits, Look(nodes, time), content) && q in Look(nodes, time)
    ensures q in nodes && nodes[q].Valid() && Look(nodes, time)[q] == nodes[q].ViewAt(time)
    ensures var v := Look(nodes, time)[q];
      && |q| <= bits && (v.value.Some? ==> v.path.Some? && |v.path.value| == bits && Under(v.path.value, q))
      && (v.value.Some? ==> v.path.value in content && content[v.path.value] == v.value.value)
      && (v.left || v.right ==> v.value.None?)
  {
    hide Look, Stored, Node.Valid, Node.ViewAt;
    NowHas(nodes, time, q);
    assert Joined(bits, Look(nodes, time), q) && Holds(bits, content, q, Look(nodes, time)[q]);
  }

  lemma RootThere(h: TreeHasher, bits: nat, nodes: Nodes, time: nat, content: Content)
    requires Stored(nodes, time) && Good(h, bits, Look(nodes, time), content)
    ensures AllValid(nodes) && [] in nodes && [] in Look(nodes, time)
  {
    hide Look;
  }

  lemma KeepsMore(nodes0: Nodes, nodes1: Nodes, nodes2: Nodes, time0: nat, time1: nat)
    requires AllValid(nodes0) && AllValid(nodes1) && AllValid(nodes2) && time0 <= time1
    requires Keeps(nodes0, nodes1, time0) && Keeps(nodes1, nodes2, time1)
    ensures Keeps(nodes0, nodes2, time0)
  {
    hide Look;
    forall t: nat | t <= time0
      ensures Look(nodes2, t) == Look(nodes0, t)
    {
      assert Look(nodes2, t) == Look(nodes1, t) && Look(nodes1, t) == Look(nodes0, t);
    }
  }

  lemma LinksMore(s0: Snapshot, s1: Snapshot, s2: Snapshot, q: BitPath)
    requires LinksGrow(s0, s1) && LinksGrow(s1, s2) && q in s1
    ensures LinksGrow(s0, s2) && q in s2 && forall b: bool :: s1[q].Link(b) ==> s2[q].Link(b)
  {
  }

  lemma Still(nodes: Nodes, time: nat, s: Snapshot)
    requires AllValid(nodes)
    ensures Keeps(nodes, nodes, time) && LinksGrow(s, s)
  {
  }

  lemma LinkGrows(h: TreeHasher, bits: nat, s: Snapshot, q: BitPath, b: bool)
    requires q in s && |q| < bits && (q + [b] in s ==> !s[q + [b]].left && !s[q + [b]].right)
    ensures LinksGrow(s, WithLink(h, bits, s, q, b)) && WithLink(h, bits, s, q, b)[q].Link(b)
  {
  }

  lemma FilledAbove(bits: nat, s: Snapshot, q: BitPath)
    requires FilledBut(bits, s, q) && |q| < bits
    ensures Filled(bits, s)
  {
  }

  lemma BackAgain(content: Content, k: BitPath, path: BitPath, value: Bytes)
    requires k in content
    ensures if k == path then (content - {k})[path := value] == content[path := value]
            else (content - {k})[path := value][k := content[k]] == content[path := value]
  {
  }

  lemma LeafTakes(h: TreeHasher, bits: nat, s: Snapshot, content: Content, q: BitPath, k: BitPath)
    requires Good(h, bits, s, content) && q in s && |q| == bits == |k| && Under(k, q)
    ensures Takes(s, content, q, k)
  {
    assert Joined(bits, s, q);
    assert !s[q].Link(false) && !s[q].Link(true);
  }

  lemma EmptyTakes(h: TreeHasher, bits: nat, s: Snapshot, content: Content, q: BitPath, k: BitPath)
    requires Good(h, bits, s, content) && q in s && s[q].value.None? && !s[q].left && !s[q].right && Under(k, q)
    ensures Takes(s, content, q, k)
  {
    assert Joined(bits, s, q) && Holds(bits, content, q, s[q]);
    NothingBelow(bits, content, q, s[q]);
  }

  lemma UnderNext(k: BitPath, q: BitPath)
    requires Under(k, q) && |q| < |k|
    ensures Under(k, q + [k[|q|]])
  {
    UnderChild(k, q, k[|q|]);
  }

  lemma LinkedNext(h: TreeHasher, bits: nat, s: Snapshot, content: Content, q: BitPath, b: bool)
    requires Good(h, bits, s, content) && q in s && s[q].Link(b)
    ensures q + [b] in s && s[q].value.None?
  {
    assert Joined(bits, s, q) && Holds(bits, content, q, s[q]);
  }

  /** The setters of a node, at a time after all its entries. */
  function WithPath(n: Node, x: Option<BitPath>, time: nat): (n': Node)
    requires n.Valid() && n.Until(time) && n.path.Last() < time
    ensures Changed(n, n', time, n.ViewAt(time).(path := x)) && n'.hash == n.hash
  {
    PathChanged(n, x, time);
    n.(path := n.path.Set(x, time))
  }

  function WithHash(n: Node, x: Bytes, time: nat): (n': Node)
    requires n.Valid() && n.Until(time) && n.hash.Last() < time
    ensures Changed(n, n', time, n.ViewAt(time).(hash := x))
  {
    HashChanged(n, x, time);
    n.(hash := n.hash.Set(x, time))
  }

  function WithValue(n: Node, x: Option<Bytes>, time: nat): (n': Node)
    requires n.Valid() && n.Until(time) && n.value.Last() < time
    ensures Changed(n, n', time, n.ViewAt(time).(value := x)) && n'.hash == n.hash
  {
    ValueChanged(n, x, time);
    n.(value := n.value.Set(x, time))
  }

  function WithNewLink(n: Node, b: bool, time: nat): (n': Node)
    requires n.Valid() && n.Until(time) && n.left.Last() < time && n.right.Last() < time
    ensures Changed(n, n', time, Linked(n.ViewAt(time), b))
  {
    LinkChanged(n, b, time);
    SetLink(n, b, time)
  }

  ghost predicate SameHashes(nodes: Nodes, nodes': Nodes) {
    nodes'.Keys == nodes.Keys && forall q :: q in nodes ==> nodes'[q].hash == nodes[q].hash
  }

  lemma HashesUntil(nodes: Nodes, time: nat)
    requires Stored(nodes, time)
    ensures AllValid(nodes) && forall q :: q in nodes ==> |nodes[q].hash.seqs| > 0 && nodes[q].hash.Last() <= time
  {
    forall q | q in nodes
      ensures |nodes[q].hash.seqs| > 0 && nodes[q].hash.Last() <= time
    {
      assert NodeStored(nodes, time, q);
    }
  }

  lemma LocalAfter(h: TreeHasher, bits: nat, s: Snapshot, p: BitPath, path: Option<BitPath>, value: Option<Bytes>)
    requires AllLocal(h, bits, s) && p in s
    ensures LocalBut(h, bits, s[p := s[p].(path := path, value := value)], p)
  {
    hide LocalOk;
    ValueLocal(h, bits, s, p, path, value);
  }

  lemma KeepsAll(nodes0: Nodes, nodes1: Nodes, nodes2: Nodes, nodes3: Nodes, time: nat)
    requires AllValid(nodes0) && AllValid(nodes1) && AllValid(nodes2) && AllValid(nodes3) && time >= 2
    requires Keeps(nodes0, nodes1, time - 2) && Keeps(nodes1, nodes2, time - 1)
    requires forall t: nat :: t < time ==> Look(nodes3, t) == Look(nodes2, t)
    ensures Keeps(nodes0, nodes3, time - 2)
  {
    hide Look;
    forall t: nat | t <= time - 2
      ensures Look(nodes3, t) == Look(nodes0, t)
    {
      assert Look(nodes2, t) == Look(nodes1, t) && Look(nodes1, t) == Look(nodes0, t);
    }
  }

  lemma RootAlone(h: TreeHasher, bits: nat)
    requires 0 < bits
    ensures var nodes := map[[] := NewNode(h, bits, [])];
      AllValid(nodes) && Stored(nodes, 0) && Good(h, bits, Look(nodes, 0), map[]) && Filled(bits, Look(nodes, 0))
  {
    hide Node.Valid, Node.ViewAt, Node.Until, Node.LinksStay, NewNode, Good;
    var nodes := map[[] := NewNode(h, bits, [])];
    NewLinksStay(h, bits, [], 0);
    assert NodeStored(nodes, 0, []);
    assert Look(nodes, 0) == map[[] := NewView(h, bits, [])];
    RootGood(h, bits);
  }

  lemma RootGood(h: TreeHasher, bits: nat)
    requires 0 < bits
    ensures Good(h, bits, map[[] := NewView(h, bits, [])], map[])
  {
    hide NullHash;
    var s: Snapshot := map[[] := NewView(h, bits, [])];
    assert LocalOk(h, bits, s, []);
    assert forall b: bool :: !s[[]].Link(b);
  }

  lemma LookHas(nodes: Nodes, time: nat, q: BitPath)
    requires AllValid(nodes) && q in Look(nodes, time)
    ensures q in nodes && nodes[q].Valid() && Look(nodes, time)[q] == nodes[q].ViewAt(time)
  {
    hide Live, Node.Valid, Node.ViewAt;
  }

  lemma NowHas(nodes: Nodes, time: nat, q: BitPath)
    requires Stored(nodes, time)
    ensures AllValid(nodes)
    ensures q in Look(nodes, time) <==> q in nodes
    ensures q in nodes ==> Look(nodes, time)[q] == nodes[q].ViewAt(time) && nodes[q].Valid() && nodes[q].Until(time)
  {
    hide Live, Node.Valid, Node.ViewAt;
    if q in nodes {
      assert NodeStored(nodes, time, q);
    }
  }

  lemma NothingToRedo(h: TreeHasher, bits: nat, s: Snapshot, p: BitPath, c: Content)
    requires Shape(bits, s, c) && LocalBut(h, bits, s, p) && LocalOk(h, bits, s, p)
    ensures Good(h, bits, s, c)
  {
    hide LocalOk, Shape;
  }

  lemma RedoneBelow(h: TreeHasher, bits: nat, s: Snapshot, p: BitPath, x: Bytes)
    requires LocalBut(h, bits, s, p) && p != [] && Sane(bits, s, p) && x == HashOf(h, bits, s, p)
    ensures LocalBut(h, bits, s[p := s[p].(hash := x)], Parent(p))
  {
    hide HashOf, LocalOk;
    forall q | q in s && q != Parent(p)
      ensures LocalOk(h, bits, s[p := s[p].(hash := x)], q)
    {
      RedoLocal(h, bits, s, p, x, q);
    }
  }

  lemma RedoneRoot(h: TreeHasher, bits: nat, s: Snapshot, x: Bytes)
    requires LocalBut(h, bits, s, []) && Sane(bits, s, []) && x == HashOf(h, bits, s, [])
    ensures AllLocal(h, bits, s[[] := s[[]].(hash := x)])
  {
    hide HashOf, LocalOk;
    forall q | q in s
      ensures LocalOk(h, bits, s[[] := s[[]].(hash := x)], q)
    {
      RedoLocal(h, bits, s, [], x, q);
    }
  }

  lemma AboveParent(p: BitPath)
    requires p != []
    ensures forall q :: Under(Parent(p), q) ==> Under(p, q) && q != p
  {
    forall q | Under(Parent(p), q)
      ensures Under(p, q) && q != p
    {
      assert p == Parent(p) + [p[|p| - 1]];
    }
  }

  /** The loop of `_redo_hash` and of `get` over the levels below a single value. */
  method BranchHash(h: TreeHasher, bits: nat, k: BitPath, leaf: Bytes, depth: nat) returns (x: Bytes)
    requires depth <= bits == |k|
    ensures x == Branch(h, bits, k, leaf, depth)
  {
    x := leaf;
    var i := bits;
    while i > depth
      invariant depth <= i <= bits
      invariant x == Branch(h, bits, k, leaf, i)
    {
      if k[i - 1] {
        x := h.HashChildren(NullHash(h, bits - i), x);
      } else {
        x := h.HashChildren(x, NullHash(h, bits - i));
      }
      i := i - 1;
    }
  }

  /** The part of a proof beside the path p of the only value below the given hashes, down to where the two paths
      part. */
  method Part(h: TreeHasher, path: BitPath, p: BitPath, value: Bytes, given: seq<Bytes>, ghost c: Content)
    returns (proof: seq<Bytes>)
    requires |p| == |path| && |given| < |path| && p[..|given|] == path[..|given|] && TrueProof(h, c, path, given)
    requires p in c && c[p] == value && Alone(c, path[..|given|], p)
    ensures TrueProof(h, c, path, proof)
    ensures forall j :: |proof| <= j < |path| ==> SiblingHash(h, c, path, j) == NullHash(h, |path| - j - 1)
  {
    hide SiblingHash, NullHash, Branch, TrueProof, Alone;
    proof := given;
    TrueProofLength(h, c, path, proof);
    while |proof| < |path| && path[|proof|] == p[|proof|]
      invariant |given| <= |proof| <= |path| && TrueProof(h, c, path, proof) && path[..|proof|] == p[..|proof|]
      decreases |path| - |proof|
    {
      AloneBeside(h, c, path, p, |given|, |proof|);
      NextStep(path, |proof|);
      NextStep(p, |proof|);
      ProofMore(h, c, path, proof, NullHash(h, |path| - |proof| - 1));
      proof := proof + [NullHash(h, |path| - |proof| - 1)];
    }
    if |proof| < |path| {
      ghost var parted := |proof|;
      BranchBeside(h, c, path, p, |given|, parted);
      var x := BranchHash(h, |path|, p, h.HashLeaf(value), |proof| + 1);
      ProofMore(h, c, path, proof, x);
      proof := proof + [x];
      forall j | |proof| <= j < |path|
        ensures SiblingHash(h, c, path, j) == NullHash(h, |path| - j - 1)
      {
        PartedBeside(h, c, path, p, |given|, parted, j);
      }
    }
  }

  lemma TrueProofLength(h: TreeHasher, content: Content, path: BitPath, proof: seq<Bytes>)
    requires TrueProof(h, content, path, proof)
    ensures |proof| <= |path|
  {
  }
}
