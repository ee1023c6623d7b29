/**
 `VerifiableBase` of python/demo/vdb/verifiable_base.py: a map that is filled by replaying a log. What one
 log entry does to the map is a parameter: the puts that `_apply_operation` makes, given the index of the
 entry, the entry, and what the map holds.
 */
module VerifiableBase {
  import opened Options
  import opened TreeHashing
  import opened SparseSpec
  import opened MapSnapshot
  import opened MapProofs
  import opened VersionedMap
  import opened VerifiableLog

  type Puts = seq<(BitPath, Bytes)>

  type Mapper = (nat, Bytes, Content) -> Puts

  function PutAll(content: Content, puts: Puts): Content {
    if puts == [] then content
    else PutAll(content, puts[..|puts| - 1])[puts[|puts| - 1].0 := puts[|puts| - 1].1]
  }

  /** The last put of a key decides what the map holds for it, and a key without a put keeps what it had. */
  lemma {:induction false} LastPutWins(content: Content, puts: Puts, k: BitPath, j: nat)
    requires forall i :: j < i < |puts| ==> puts[i].0 != k
    ensures j < |puts| && puts[j].0 == k ==> k in PutAll(content, puts) && PutAll(content, puts)[k] == puts[j].1
    ensures (forall i :: 0 <= i < |puts| ==> puts[i].0 != k) ==>
      (k in PutAll(content, puts) <==> k in content) && (k in content ==> PutAll(content, puts)[k] == content[k])
    decreases |puts|
  {
    if puts != [] {
      LastPutWins(content, puts[..|puts| - 1], k, j);
    }
  }

  /** The content after the first t entries of a log. */
  function Replay(apply: Mapper, log: seq<Bytes>, t: nat): Content
    requires t <= |log|
  {
    if t == 0 then map[]
    else
      var before := Replay(apply, log, t - 1);
      PutAll(before, apply(t - 1, log[t - 1], before))
  }

  /** Every key has a path of the right length. */
  ghost predicate Keyed(apply: Mapper, bits: nat) {
    forall i, e, c, j :: 0 <= j < |apply(i, e, c)| ==> |apply(i, e, c)[j].0| == bits
  }

  /** Later entries do not change what the earlier ones lead to. */
  lemma {:induction false} ReplayPrefix(apply: Mapper, log: seq<Bytes>, more: seq<Bytes>, t: nat)
    requires t <= |log|
    ensures Replay(apply, log + more, t) == Replay(apply, log, t)
  {
    if t > 0 {
      ReplayPrefix(apply, log, more, t - 1);
    }
  }

  /** The map recorded what the first t entries lead to. */
  ghost predicate Mapped(apply: Mapper, log: seq<Bytes>, sizes: map<nat, nat>, history: map<int, Content>, t: nat) {
    t <= |log| && t in sizes && sizes[t] in history && history[sizes[t]] == Replay(apply, log, t)
  }

  /** More log entries, more sizes and more versions change nothing of that. */
  lemma MappedStill(apply: Mapper, log: seq<Bytes>, more: seq<Bytes>, sizes: map<nat, nat>, sizes': map<nat, nat>,
                    history: map<int, Content>, history': map<int, Content>, t: nat)
    requires Mapped(apply, log, sizes, history, t) && t in sizes' && sizes'[t] == sizes[t]
    requires sizes[t] in history' && history'[sizes[t]] == history[sizes[t]]
    ensures Mapped(apply, log + more, sizes', history', t)
  {
    hide Replay;
    ReplayPrefix(apply, log, more, t);
  }

  class VerifiableBase {
    const apply: Mapper
    const store: VerifiableMap
    const log: VerifiableLog
    var opsProcessed: nat
    var mapSizes: map<nat, nat>

    ghost predicate Valid()
      reads this, store, log
    {
      && store.Valid() && store.h.Valid() && Keyed(apply, store.bits)
      && log.Valid() && opsProcessed <= |log.entries|
      && opsProcessed in mapSizes && mapSizes[opsProcessed] == store.treeSize
      && forall t: nat :: t <= opsProcessed ==> Mapped(apply, log.entries, mapSizes, store.history, t)
    }

    constructor (log: VerifiableLog, h: TreeHasher, bits: nat, apply: Mapper)
      requires log.Valid() && h.Valid() && 0 < bits && Keyed(apply, bits)
      ensures Valid() && fresh(store) && this.log == log && this.apply == apply && store.h == h && store.bits == bits
    {
      hide VerifiableLog.Valid, VerifiableMap.Valid, Keyed, VerifiableLog.Valid;
      this.apply, this.log := apply, log;
      this.store := new VerifiableMap(h, bits);
      this.opsProcessed, this.mapSizes := 0, map[0 := 0];
    }

    /** The log gets another entry. */
    method AppendToLog(entry: Bytes)
      requires Valid()
      modifies log`entries
      ensures Valid() && log.entries == old(log.entries) + [entry] && (old(log.Clean()) ==> log.Clean())
    {
      hide VerifiableLog.Valid, VerifiableMap.Valid, Replay, Keyed;
      forall t: nat | t <= opsProcessed
        ensures Mapped(apply, log.entries + [entry], mapSizes, store.history, t)
      {
        MappedStill(apply, log.entries, [entry], mapSizes, mapSizes, store.history, store.history, t);
      }
      log.Append(entry);
    }

    /** The puts of one entry. */
    method PutEach(puts: Puts)
      requires store.Valid() && forall j :: 0 <= j < |puts| ==> |puts[j].0| == store.bits
      modifies store
      ensures store.Valid() && store.content == PutAll(old(store.content), puts)
      ensures store.treeSize >= old(store.treeSize)
      ensures forall t :: t in old(store.history) ==> t in store.history && store.history[t] == old(store.history)[t]
    {
      hide VerifiableLog.Valid, VerifiableMap.Valid;
      var j := 0;
      while j < |puts|
        invariant j <= |puts| && store.Valid() && store.content == PutAll(old(store.content), puts[..j])
        invariant store.treeSize >= old(store.treeSize)
        invariant forall t :: t in old(store.history) ==>
          t in store.history && store.history[t] == old(store.history)[t]
      {
        assert puts[..j + 1][..j] == puts[..j];
        NowRecorded(store);
        store.Put(puts[j].0, puts[j].1);
        j := j + 1;
      }
      assert puts[..j] == puts;
    }

    /** `_update_from_log`: all entries up to the size of the log. */
    method UpdateFromLog()
      requires Valid()
      modifies this`opsProcessed, this`mapSizes, store, log`cache, log`asked
      ensures Valid() && opsProcessed == |log.entries| && (old(log.Clean()) ==> log.Clean())
    {
      hide VerifiableLog.Valid, VerifiableMap.Valid, Replay, Keyed;
      var head := log.TreeHead(None);
      var size := head.value.0;
      while size > opsProcessed
        invariant Valid() && opsProcessed <= size && (old(log.Clean()) ==> log.Clean())
        decreases size - opsProcessed
      {
        var batch := log.GetEntries(opsProcessed, size - 1);
        ghost var first := opsProcessed;
        for i := 0 to |batch|
          invariant Valid() && opsProcessed == first + i && (old(log.Clean()) ==> log.Clean())
        {
          assert batch[i] == log.entries[first..size][i];
          ApplyEntry(batch[i]);
        }
      }
    }

    /** One entry: its puts, and the size of the map after them. */
    method ApplyEntry(entry: Bytes)
      requires Valid() && opsProcessed < |log.entries| && entry == log.entries[opsProcessed]
      modifies this`opsProcessed, this`mapSizes, store
      ensures Valid() && opsProcessed == old(opsProcessed) + 1
    {
      hide VerifiableLog.Valid, VerifiableMap.Valid, Replay, Keyed;
      assert Mapped(apply, log.entries, mapSizes, store.history, opsProcessed);
      NowRecorded(store);
      var holds := store.Contents();
      HasPath(apply, store.bits, opsProcessed, entry, holds);
      ReplayStep(apply, log.entries, opsProcessed);
      ghost var history, sizes := store.history, mapSizes;
      PutEach(apply(opsProcessed, entry, holds));
      NowRecorded(store);
      opsProcessed := opsProcessed + 1;
      mapSizes := mapSizes[opsProcessed := store.treeSize];
      assert log.entries + [] == log.entries;
      forall t: nat | t < opsProcessed
        ensures Mapped(apply, log.entries, mapSizes, store.history, t)
      {
        assert Mapped(apply, log.entries, sizes, history, t);
        MappedStill(apply, log.entries, [], sizes, mapSizes, history, store.history, t);
      }
    }

    /** `get`; `None` stands for a ValueError. A read at log size t is a read of the replay of the first t entries,
        and its proof leads to the root of that replay. */
    method Get(path: BitPath, t: nat) returns (r: Option<(Bytes, seq<Entry>)>)
      requires Valid() && |path| == store.bits
      ensures r.Some? <==> t <= opsProcessed
      ensures r.Some? ==> r.value.0 == Lookup(Replay(apply, log.entries, t), path)
      ensures r.Some? ==> Readable(store.bits, Expand(r.value.1)) && |Expand(r.value.1)| == store.bits
      ensures r.Some? ==>
        RootFrom(store.h, path, Cut(Restored(store.h, store.bits, Expand(r.value.1)), store.bits),
                 store.h.HashLeaf(r.value.0), 0)
        == Full(store.h, store.bits, Leaves(store.h, Replay(apply, log.entries, t)), [])
    {
      hide VerifiableLog.Valid, VerifiableMap.Valid, Replay, Keyed, RootFrom, Full, Restored, Leaves;
      hide Expand, Readable, TrueProof;
      if t > opsProcessed {
        return None;
      }
      assert Mapped(apply, log.entries, mapSizes, store.history, t);
      var value, entries := store.Get(path, mapSizes[t]);
      r := Some((value, entries));
    }

    /** `get_tree_head`; `None` stands for a ValueError. The result is the size, the root of the map and the tree head
        of the log. */
    method TreeHead(size: Option<nat>) returns (r: Option<(nat, Bytes, Option<Bytes>)>)
      requires Valid()
      modifies this`opsProcessed, this`mapSizes, store, log`cache, log`asked
      ensures Valid() && (old(log.Clean()) ==> log.Clean())
      ensures opsProcessed ==
        if size.None? || size.value > old(opsProcessed) then |log.entries| else old(opsProcessed)
      ensures r.Some? <==> size.None? || size.value <= |log.entries|
      ensures r.Some? ==> r.value.0 == (if size.None? then |log.entries| else size.value) <= |log.entries|
      ensures r.Some? ==>
        r.value.1 == Full(store.h, store.bits, Leaves(store.h, Replay(apply, log.entries, r.value.0)), [])
      ensures r.Some? && old(log.Clean()) ==>
        r.value.2 == if r.value.0 == 0 then None else Some(Mth(log.h, log.Leaves()[..r.value.0]))
    {
      hide VerifiableLog.Valid, VerifiableMap.Valid, Replay, Keyed, Full, Leaves, Mth;
      if size.None? || size.value > opsProcessed {
        UpdateFromLog();
      }
      var t := if size.None? then opsProcessed else size.value;
      if t > opsProcessed {
        return None;
      }
      assert Mapped(apply, log.entries, mapSizes, store.history, t);
      var root := store.TreeHead(mapSizes[t]);
      var head := log.TreeHead(Some(t));
      r := Some((t, root, head.value.1));
    }

    /** `get_log_consistency`: the map stays, and so does a log without hashes past its end, for every call that
        `ConsistencyProof` of the log says. */
    method LogConsistency(first: nat, second: nat) returns (r: Option<seq<Bytes>>)
      requires Valid()
      modifies log`cache, log`asked
      ensures Valid() && (first > second ==> r == None)
      ensures old(log.Clean()) ==>
        (log.Clean() <==> first == 0 || !Straddles(SubproofRanges(first, 0, second, true), |log.entries|))
      ensures old(log.Clean()) && 0 < first <= second <= |log.entries| ==>
        r == Some(Proof(log.h, first, log.Leaves()[..second]))
    {
      hide VerifiableLog.Valid, VerifiableMap.Valid, Replay, Keyed, Mth, SubproofRanges, Straddles;
      r := log.ConsistencyProof(first, second);
    }
  }

  lemma HasPath(apply: Mapper, bits: nat, i: nat, e: Bytes, c: Content)
    requires Keyed(apply, bits)
    ensures forall j :: 0 <= j < |apply(i, e, c)| ==> |apply(i, e, c)[j].0| == bits
  {
  }

  lemma ReplayStep(apply: Mapper, log: seq<Bytes>, t: nat)
    requires t < |log|
    ensures Replay(apply, log, t + 1) == PutAll(Replay(apply, log, t), apply(t, log[t], Replay(apply, log, t)))
  {
  }

  lemma NowRecorded(store: VerifiableMap)
    requires store.Valid()
    ensures store.treeSize in store.history && store.history[store.treeSize] == store.content
    ensures forall t :: t in store.history ==> 0 <= t <= store.treeSize
  {
  }
}
