/**
 Proofs about one key of a version: `recalc_tree_hash`, `compress_proof` and `decompress_proof` of
 python/demo/vdb/verifiable_map.py. A proof lists the hashes beside the path, from the root down. Base 64 is left
 out: a hash stands for its encoding, and the empty string for the encoding of nothing.
 */
module MapProofs {
  import opened Options
  import opened TreeHashing
  import opened SparseSpec
  import opened MapSnapshot

  /** What a version says about a key; an absent key reads as the empty string. */
  function Lookup(content: Content, k: BitPath): Bytes {
    if k in content then content[k] else []
  }

  // ---------- The hashes beside a path ----------

  function Beside(k: BitPath, i: nat): BitPath
    requires i < |k|
  {
    k[..i] + [!k[i]]
  }

  ghost function SiblingHash(h: TreeHasher, content: Content, k: BitPath, i: nat): Bytes
    requires i < |k|
  {
    Full(h, |k|, Leaves(h, content), Beside(k, i))
  }

  /** The first n entries of the true proof. */
  ghost predicate TrueProof(h: TreeHasher, content: Content, k: BitPath, proof: seq<Bytes>) {
    |proof| <= |k| && forall i :: 0 <= i < |proof| ==> proof[i] == SiblingHash(h, content, k, i)
  }

  lemma ProofMore(h: TreeHasher, content: Content, k: BitPath, proof: seq<Bytes>, x: Bytes)
    requires TrueProof(h, content, k, proof) && |proof| < |k| && x == SiblingHash(h, content, k, |proof|)
    ensures TrueProof(h, content, k, proof + [x])
  {
    hide SiblingHash;
  }

  /** The hash at depth i that a proof gives for a leaf hash at its end. */
  function RootFrom(h: TreeHasher, k: BitPath, proof: seq<Bytes>, leaf: Bytes, i: nat): Bytes
    requires i <= |proof| <= |k|
    decreases |proof| - i
  {
    if i == |proof| then leaf
    else if k[i] then h.HashChildren(proof[i], RootFrom(h, k, proof, leaf, i + 1))
    else h.HashChildren(RootFrom(h, k, proof, leaf, i + 1), proof[i])
  }

  lemma LeafIsLookup(h: TreeHasher, content: Content, k: BitPath)
    ensures Full(h, |k|, Leaves(h, content), k) == h.HashLeaf(Lookup(content, k))
  {
  }

  lemma FullStep(h: TreeHasher, content: Content, k: BitPath, i: nat)
    requires i < |k|
    ensures var below := Full(h, |k|, Leaves(h, content), k[..i + 1]);
      Full(h, |k|, Leaves(h, content), k[..i])
      == if k[i] then h.HashChildren(SiblingHash(h, content, k, i), below)
         else h.HashChildren(below, SiblingHash(h, content, k, i))
  {
    hide Full;
    assert k[..i + 1] == k[..i] + [k[i]];
    FullFork(h, |k|, Leaves(h, content), k[..i]);
  }

  /** The true proof leads from what the version says about the key to its root. */
  lemma {:induction false} TrueProofRoot(h: TreeHasher, content: Content, k: BitPath, proof: seq<Bytes>, i: nat)
    requires TrueProof(h, content, k, proof) && |proof| == |k| && i <= |k|
    ensures RootFrom(h, k, proof, h.HashLeaf(Lookup(content, k)), i) == Full(h, |k|, Leaves(h, content), k[..i])
    decreases |k| - i
  {
    hide Full;
    if i == |k| {
      assert k[..i] == k;
      LeafIsLookup(h, content, k);
    } else {
      TrueProofRoot(h, content, k, proof, i + 1);
      FullStep(h, content, k, i);
    }
  }

  // ---------- Soundness ----------

  /** All that is hashed on the way up from a leaf, for the proof and for the true tree. */
  ghost function ProofInputs(h: TreeHasher, k: BitPath, proof: seq<Bytes>, leaf: Bytes, i: nat): set<Bytes>
    requires i <= |proof| <= |k|
    decreases |proof| - i
  {
    if i == |proof| then {}
    else
      var below := RootFrom(h, k, proof, leaf, i + 1);
      {if k[i] then NodeInput(proof[i], below) else NodeInput(below, proof[i])} + ProofInputs(h, k, proof, leaf, i + 1)
  }

  ghost function PathInputs(h: TreeHasher, content: Content, k: BitPath, i: nat): set<Bytes>
    requires i <= |k|
    decreases |k| - i
  {
    if i == |k| then {LeafInput(Lookup(content, k))}
    else
      var below := Full(h, |k|, Leaves(h, content), k[..i + 1]);
      {if k[i] then NodeInput(SiblingHash(h, content, k, i), below)
       else NodeInput(below, SiblingHash(h, content, k, i))}
      + PathInputs(h, content, k, i + 1)
  }

  lemma {:induction false} FullSize(h: TreeHasher, bits: nat, leaves: map<BitPath, Bytes>, q: BitPath)
    requires h.Valid() && |q| <= bits && forall p :: p in leaves ==> |leaves[p]| == h.digestSize
    ensures |Full(h, bits, leaves, q)| == h.digestSize
  {
  }

  lemma {:induction false} RootFromSize(h: TreeHasher, k: BitPath, proof: seq<Bytes>, leaf: Bytes, i: nat)
    requires h.Valid() && i <= |proof| <= |k| && |leaf| == h.digestSize
    ensures |RootFrom(h, k, proof, leaf, i)| == h.digestSize
  {
  }

  /** Concatenations whose one half has the same length have equal halves. */
  lemma SameHalves(h: TreeHasher, a: Bytes, b: Bytes, c: Bytes, d: Bytes)
    requires NodeInput(a, b) == NodeInput(c, d) && (|a| == |c| || |b| == |d|)
    ensures a == c && b == d
  {
    assert |NodeInput(a, b)| == 1 + |a| + |b| && |NodeInput(c, d)| == 1 + |c| + |d|;
    NodeInputInjective(h, a, b, c, d);
  }

  /** A proof that reaches the true hash at depth i for some value speaks about the value of the version, or there is
      a collision: whatever the proof holds, and however long it is. */
  lemma {:induction false} ProofSound(
      h: TreeHasher, content: Content, k: BitPath, value: Bytes, proof: seq<Bytes>, i: nat)
    requires h.Valid() && i <= |proof| <= |k|
    requires RootFrom(h, k, proof, h.HashLeaf(value), i) == Full(h, |k|, Leaves(h, content), k[..i])
    ensures value == Lookup(content, k) || CollisionAmong(
      h, {LeafInput(value)} + ProofInputs(h, k, proof, h.HashLeaf(value), i) + PathInputs(h, content, k, i))
    decreases |proof| - i
  {
    hide Full;
    var leaf := h.HashLeaf(value);
    var inputs := {LeafInput(value)} + ProofInputs(h, k, proof, leaf, i) + PathInputs(h, content, k, i);
    if i == |k| {
      assert k[..i] == k;
      LeafIsLookup(h, content, k);
      assert LeafInput(value) in inputs && LeafInput(Lookup(content, k)) in inputs;
      assert value == LeafInput(value)[1..] && Lookup(content, k) == LeafInput(Lookup(content, k))[1..];
    } else {
      FullStep(h, content, k, i);
      var below := Full(h, |k|, Leaves(h, content), k[..i + 1]);
      var beside := SiblingHash(h, content, k, i);
      var tree := if k[i] then NodeInput(beside, below) else NodeInput(below, beside);
      assert tree in inputs;
      if i == |proof| {
        assert LeafInput(value) in inputs && LeafInput(value)[0] != tree[0];
      } else {
        var up := RootFrom(h, k, proof, leaf, i + 1);
        var given := if k[i] then NodeInput(proof[i], up) else NodeInput(up, proof[i]);
        assert given in inputs;
        if given == tree {
          RootFromSize(h, k, proof, leaf, i + 1);
          FullSize(h, |k|, Leaves(h, content), k[..i + 1]);
          if k[i] { SameHalves(h, proof[i], up, beside, below); } else { SameHalves(h, up, proof[i], below, beside); }
          ProofSound(h, content, k, value, proof, i + 1);
          MoreCollisions(
            h, {LeafInput(value)} + ProofInputs(h, k, proof, leaf, i + 1) + PathInputs(h, content, k, i + 1), inputs);
        }
      }
    }
  }

  // ---------- Compression ----------

  /** An entry of a compressed proof: a number of default hashes, or a hash. */
  datatype Entry = Count(n: int) | Hash(bytes: Bytes)

  /** The entries as they are written before runs are counted: the empty string stands for a default. */
  function Blanked(h: TreeHasher, bits: nat, proof: seq<Bytes>): (r: seq<Bytes>)
    requires |proof| <= bits
    ensures |r| == |proof|
  {
    seq(|proof|, i requires 0 <= i < |proof| => if proof[i] == NullHash(h, bits - i - 1) then [] else proof[i])
  }

  function Blanks(n: int): seq<Bytes> {
    if n <= 0 then [] else Blanks(n - 1) + [[]]
  }

  /** The strings that a compressed proof stands for. */
  function Expand(entries: seq<Entry>): seq<Bytes> {
    if entries == [] then []
    else
      var e := entries[|entries| - 1];
      Expand(entries[..|entries| - 1]) + (if e.Count? then Blanks(e.n) else [e.bytes])
  }

  lemma ExpandMore(entries: seq<Entry>, e: Entry)
    ensures Expand(entries + [e]) == Expand(entries) + (if e.Count? then Blanks(e.n) else [e.bytes])
  {
    assert (entries + [e])[..|entries|] == entries;
  }

  lemma ExpandNone()
    ensures Expand([]) == []
  {
  }

  /** Nothing is left to compress: no default is written out, and no count is empty or follows another. */
  predicate Compressed(entries: seq<Entry>) {
    && (forall i :: 0 <= i < |entries| ==> entries[i] != Hash([]) && (entries[i].Count? ==> entries[i].n > 0))
    && (forall i :: 0 < i < |entries| && entries[i].Count? ==> entries[i - 1].Hash?)
  }

  lemma BlanksAre(n: int)
    ensures |Blanks(n)| == (if n < 0 then 0 else n) && forall i :: 0 <= i < |Blanks(n)| ==> Blanks(n)[i] == []
  {
  }

  /** The strings end in exactly the entry: in its hash, or in exactly as many defaults as it counts. */
  ghost predicate EndsIn(s: seq<Bytes>, e: Entry) {
    if e.Hash? then s != [] && s[|s| - 1] == e.bytes != []
    else
      && 0 < e.n <= |s| && (forall i :: |s| - e.n <= i < |s| ==> s[i] == [])
      && (|s| > e.n ==> s[|s| - e.n - 1] != [])
  }

  lemma EndsInOne(s: seq<Bytes>, x: Entry, y: Entry)
    requires EndsIn(s, x) && EndsIn(s, y)
    ensures x == y
  {
  }

  lemma CompressedFront(entries: seq<Entry>)
    requires Compressed(entries) && entries != []
    ensures Compressed(entries[..|entries| - 1])
  {
  }

  /** How many strings an entry stands for. */
  function Length(e: Entry): int {
    if e.Count? then e.n else 1
  }

  /** A compressed list ends in its last entry, behind what the entries before it stand for. */
  lemma {:induction false} ExpandEnds(entries: seq<Entry>)
    requires Compressed(entries)
    ensures Expand(entries) == [] <==> entries == []
    ensures entries != [] ==>
      var last, s := entries[|entries| - 1], Expand(entries);
      EndsIn(s, last) && 0 < Length(last) <= |s| && Expand(entries[..|entries| - 1]) == s[..|s| - Length(last)]
    decreases |entries|
  {
    if entries != [] {
      var front, last := entries[..|entries| - 1], entries[|entries| - 1];
      CompressedFront(entries);
      ExpandEnds(front);
      if last.Count? {
        BlanksAre(last.n);
        assert front != [] ==> front[|front| - 1].Hash?;
      }
    }
  }

  /** Compressed lists that stand for the same strings are the same. */
  lemma {:induction false} CompressedUnique(a: seq<Entry>, b: seq<Entry>)
    requires Compressed(a) && Compressed(b) && Expand(a) == Expand(b)
    ensures a == b
    decreases |a|
  {
    hide Expand, Compressed, EndsIn;
    ExpandEnds(a);
    ExpandEnds(b);
    if a != [] {
      EndsInOne(Expand(a), a[|a| - 1], b[|b| - 1]);
      CompressedFront(a);
      CompressedFront(b);
      CompressedUnique(a[..|a| - 1], b[..|b| - 1]);
      assert a == a[..|a| - 1] + [a[|a| - 1]] && b == b[..|b| - 1] + [b[|b| - 1]];
    }
  }

  lemma CompressedMore(entries: seq<Entry>, e: Entry)
    requires Compressed(entries) && e != Hash([]) && (e.Count? ==> e.n > 0)
    requires e.Count? && entries != [] ==> entries[|entries| - 1].Hash?
    ensures Compressed(entries + [e])
  {
  }

  /** The entries are compressed and stand for the proof, which leaves one list only. */
  method CompressProof(h: TreeHasher, bits: nat, proof: seq<Bytes>) returns (entries: seq<Entry>)
    requires |proof| <= bits
    ensures Expand(entries) == Blanked(h, bits, proof) && Compressed(entries)
  {
    hide Expand, NullHash, Blanked, Compressed, Blanks;
    ExpandNone();
    var counter := 0;
    entries := [];
    NothingCompressed();
    MoreBlanks([], 0);
    var idx := 0;
    while idx < |proof|
      invariant idx <= |proof| && 0 <= counter
      invariant Expand(entries) + Blanks(counter) == Blanked(h, bits, proof)[..idx]
      invariant Compressed(entries) && (entries != [] ==> entries[|entries| - 1].Hash?)
    {
      var y := if proof[idx] == NullHash(h, bits - idx - 1) then [] else proof[idx];
      BlankedMore(h, bits, proof, idx);
      MoreBlanks(Expand(entries), counter);
      if y == [] {
        counter := counter + 1;
      } else {
        if counter > 0 {
          ExpandMore(entries, Count(counter));
          CompressedMore(entries, Count(counter));
          entries := entries + [Count(counter)];
          counter := 0;
        }
        ExpandMore(entries, Hash(y));
        CompressedMore(entries, Hash(y));
        entries := entries + [Hash(y)];
        MoreBlanks(Expand(entries), 0);
      }
      idx := idx + 1;
    }
    MoreBlanks(Expand(entries), 0);
    if counter > 0 {
      ExpandMore(entries, Count(counter));
      CompressedMore(entries, Count(counter));
      entries := entries + [Count(counter)];
    }
  }

  lemma MoreBlanks(s: seq<Bytes>, n: nat)
    ensures s + Blanks(0) == s && s + Blanks(n + 1) == s + Blanks(n) + [[]]
  {
  }

  lemma NothingCompressed()
    ensures Compressed([])
  {
  }

  lemma BlankedMore(h: TreeHasher, bits: nat, proof: seq<Bytes>, i: nat)
    requires i < |proof| <= bits
    ensures Blanked(h, bits, proof)[..i + 1]
         == Blanked(h, bits, proof)[..i] + [if proof[i] == NullHash(h, bits - i - 1) then [] else proof[i]]
  {
  }

  /** What a string of a decompressed proof stands for at an index; there is no default past the last level. */
  predicate Readable(bits: nat, strings: seq<Bytes>) {
    forall i :: bits <= i < |strings| ==> strings[i] != []
  }

  function Restored(h: TreeHasher, bits: nat, strings: seq<Bytes>): (r: seq<Bytes>)
    requires Readable(bits, strings)
    ensures |r| == |strings|
  {
    seq(|strings|, i requires 0 <= i < |strings| => if strings[i] == [] then NullHash(h, bits - i - 1) else strings[i])
  }

  /** `decompress_proof`; `None` stands for an IndexError. */
  method DecompressProof(h: TreeHasher, bits: nat, entries: seq<Entry>) returns (proof: Option<seq<Bytes>>)
    ensures proof.Some? <==> Readable(bits, Expand(entries))
    ensures proof.Some? ==> proof.value == Restored(h, bits, Expand(entries))
  {
    var pp: seq<Bytes> := [];
    var j := 0;
    while j < |entries|
      invariant j <= |entries| && pp == Expand(entries[..j])
    {
      assert entries[..j + 1] == entries[..j] + [entries[j]];
      ExpandMore(entries[..j], entries[j]);
      if entries[j].Count? {
        pp := pp + Blanks(entries[j].n);
      } else {
        pp := pp + [entries[j].bytes];
      }
      j := j + 1;
    }
    assert entries[..j] == entries;
    var out: seq<Bytes> := [];
    var idx := 0;
    while idx < |pp|
      invariant idx <= |pp| == |Expand(entries)| && |out| == idx && pp == Expand(entries)
      invariant forall i :: bits <= i < idx ==> pp[i] != []
      invariant forall i :: 0 <= i < idx ==> out[i] == if pp[i] == [] then NullHash(h, bits - i - 1) else pp[i]
    {
      if pp[idx] == [] {
        if idx >= bits {
          return None;
        }
        out := out + [NullHash(h, bits - idx - 1)];
      } else {
        out := out + [pp[idx]];
      }
      idx := idx + 1;
    }
    proof := Some(out);
  }

  /** Compression is undone exactly when no entry that is not a default is the empty string. */
  lemma CompressionUndone(h: TreeHasher, bits: nat, proof: seq<Bytes>)
    requires |proof| <= bits
    ensures Readable(bits, Blanked(h, bits, proof))
    ensures Restored(h, bits, Blanked(h, bits, proof)) == proof
      <==> forall i :: 0 <= i < |proof| && proof[i] == [] ==> NullHash(h, bits - i - 1) == []
  {
    var r := Restored(h, bits, Blanked(h, bits, proof));
    forall i | 0 <= i < |proof|
      ensures r[i] == if proof[i] == [] then NullHash(h, bits - i - 1) else proof[i]
    {
    }
    if r != proof {
      assert exists i :: 0 <= i < |proof| && r[i] != proof[i];
    }
  }

  /** A proof cut to the length of the path. */
  function Cut(proof: seq<Bytes>, bits: nat): seq<Bytes> {
    if |proof| <= bits then proof else proof[..bits]
  }

  /** `recalc_tree_hash`; `None` stands for an IndexError. */
  method RecalcTreeHash(h: TreeHasher, path: BitPath, value: Bytes, entries: seq<Entry>) returns (root: Option<Bytes>)
    ensures root.Some? <==> Readable(|path|, Expand(entries))
    ensures root.Some? ==>
      root.value == RootFrom(h, path, Cut(Restored(h, |path|, Expand(entries)), |path|), h.HashLeaf(value), 0)
  {
    var proof := DecompressProof(h, |path|, entries);
    if proof.None? {
      return None;
    }
    var pairs := Cut(proof.value, |path|);
    var t := h.HashLeaf(value);
    var i := |pairs|;
    while i > 0
      invariant 0 <= i <= |pairs| && t == RootFrom(h, path, pairs, h.HashLeaf(value), i)
    {
      i := i - 1;
      if path[i] {
        t := h.HashChildren(pairs[i], t);
      } else {
        t := h.HashChildren(t, pairs[i]);
      }
    }
    root := Some(t);
  }

  /** A true proof, with whatever follows it, is recalculated to the root of the version. */
  lemma RecalcComplete(h: TreeHasher, content: Content, k: BitPath, entries: seq<Entry>)
    requires Readable(|k|, Expand(entries)) && |Expand(entries)| >= |k|
    requires TrueProof(h, content, k, Restored(h, |k|, Expand(entries))[..|k|])
    ensures RootFrom(h, k, Cut(Restored(h, |k|, Expand(entries)), |k|), h.HashLeaf(Lookup(content, k)), 0)
         == Full(h, |k|, Leaves(h, content), [])
  {
    hide Full, RootFrom, Restored, SiblingHash;
    var proof := Restored(h, |k|, Expand(entries));
    assert proof[..|k|] == Cut(proof, |k|) && k[..0] == [];
    TrueProofRoot(h, content, k, proof[..|k|], 0);
  }

  /** The entry list says, for the root of a version, what that version says about the key: for every list that
      `recalc_tree_hash` accepts, or there is a collision. */
  lemma RecalcSound(h: TreeHasher, content: Content, k: BitPath, value: Bytes, entries: seq<Entry>)
    requires h.Valid() && Readable(|k|, Expand(entries))
    requires RootFrom(h, k, Cut(Restored(h, |k|, Expand(entries)), |k|), h.HashLeaf(value), 0)
      == Full(h, |k|, Leaves(h, content), [])
    ensures value == Lookup(content, k) || CollisionAmong(h, {LeafInput(value)} + PathInputs(h, content, k, 0)
      + ProofInputs(h, k, Cut(Restored(h, |k|, Expand(entries)), |k|), h.HashLeaf(value), 0))
  {
    hide Full, RootFrom, PathInputs, ProofInputs;
    var proof := Cut(Restored(h, |k|, Expand(entries)), |k|);
    assert k[..0] == [];
    ProofSound(h, content, k, value, proof, 0);
    assert {LeafInput(value)} + ProofInputs(h, k, proof, h.HashLeaf(value), 0) + PathInputs(h, content, k, 0)
        == {LeafInput(value)} + PathInputs(h, content, k, 0) + ProofInputs(h, k, proof, h.HashLeaf(value), 0);
  }

  // ---------- The true proof around a single value ----------

  lemma {:induction false} FitsBelow(content: Content, k: BitPath, m: nat, n: nat)
    requires m <= n <= |k| && !Fits(content, k[..m])
    ensures !Fits(content, k[..n])
  {
    forall p: BitPath
      ensures Under(p, k[..n]) ==> Under(p, k[..m])
    {
      assert k[..n][..m] == k[..m];
    }
  }

  lemma EmptyBeside(h: TreeHasher, content: Content, k: BitPath, i: nat)
    requires i < |k| && !Fits(content, Beside(k, i))
    ensures SiblingHash(h, content, k, i) == NullHash(h, |k| - i - 1)
  {
    hide Full, NullHash;
    FitsLeaves(h, content, Beside(k, i));
    FullNull(h, |k|, Leaves(h, content), Beside(k, i));
  }

  /** Below a place with nothing in it, every hash beside the path is a default. */
  lemma NothingBeside(h: TreeHasher, content: Content, k: BitPath, m: nat, i: nat)
    requires m <= i < |k| && !Fits(content, k[..m])
    ensures SiblingHash(h, content, k, i) == NullHash(h, |k| - i - 1)
  {
    hide Full, NullHash, Fits;
    FitsBelow(content, k, m, i);
    FitsChild(content, k[..i], !k[i]);
    EmptyBeside(h, content, k, i);
  }

  /** Beside the way to a key, with only the key x below depth m, there is nothing while the two agree, ... */
  lemma AloneBeside(h: TreeHasher, content: Content, k: BitPath, x: BitPath, m: nat, i: nat)
    requires m <= i < |k| == |x| && Alone(content, k[..m], x) && k[i] == x[i]
    ensures SiblingHash(h, content, k, i) == NullHash(h, |k| - i - 1)
  {
    hide Full, NullHash;
    forall p | p in content && Under(p, k[..m])
      ensures !Under(p, Beside(k, i))
    {
      UnderChild(p, k[..i], !k[i]);
    }
    forall p: BitPath
      ensures Under(p, Beside(k, i)) ==> Under(p, k[..m])
    {
      UnderChild(p, k[..i], !k[i]);
      assert k[..i][..m] == k[..m];
    }
    EmptyBeside(h, content, k, i);
  }

  /** ... the branch of x where they part, ... */
  lemma BranchBeside(h: TreeHasher, content: Content, k: BitPath, x: BitPath, m: nat, i: nat)
    requires m <= i < |k| == |x| && Alone(content, k[..m], x) && x in content && k[..i] == x[..i] && k[i] != x[i]
    ensures SiblingHash(h, content, k, i) == Branch(h, |k|, x, h.HashLeaf(content[x]), i + 1)
  {
    hide Full, NullHash, Branch;
    assert x[..i + 1] == Beside(k, i);
    forall p | p in content && Under(p, x[..i + 1])
      ensures p == x
    {
      UnderChild(p, k[..i], !k[i]);
      assert Under(p, k[..m]);
    }
    BranchIsFull(h, |k|, content, x, i + 1);
  }

  /** ... and nothing after that. */
  lemma PartedBeside(h: TreeHasher, content: Content, k: BitPath, x: BitPath, m: nat, j: nat, i: nat)
    requires m <= j < i < |k| == |x| && Alone(content, k[..m], x) && k[j] != x[j]
    ensures SiblingHash(h, content, k, i) == NullHash(h, |k| - i - 1)
  {
    hide Full, NullHash;
    forall p | p in content
      ensures !Under(p, k[..i])
    {
      assert Under(p, k[..i]) ==> Under(p, k[..m]);
    }
    NothingBeside(h, content, k, i, i);
  }
}
