/**
 `EntryProducer` of python/ct/client/async_log_client.py: many requests in flight, entries handed over in order. A
 request may be answered in parts, each of at least one entry, and the answers to different requests come in any
 order. Pausing and failing are left out; a retried request is one that is answered later.
 */
module EntryProducer {
  import opened Options

  /** One batch: the range it asks for, and the entries that have arrived. */
  datatype Fetch<T> = Fetch(first: nat, last: nat, got: seq<T>) {

    function Size(): int {
      last - first + 1
    }

    predicate Complete() {
      |got| == Size()
    }
  }

  ghost predicate FetchOk<T>(log: nat -> T, f: Fetch<T>) {
    && f.first <= f.last && |f.got| <= f.Size()
    && forall i :: 0 <= i < |f.got| ==> f.got[i] == log(f.first + i)
  }

  /** The fetches cover the range from..to, in order and without gaps. */
  ghost predicate Chain<T>(log: nat -> T, fs: seq<Fetch<T>>, from: nat, to: nat) {
    if fs == [] then from == to
    else FetchOk(log, fs[0]) && fs[0].first == from && Chain(log, fs[1..], fs[0].last + 1, to)
  }

  /** Entries asked for in fetches that are not complete. */
  ghost function InFlight<T>(fs: seq<Fetch<T>>): int {
    if fs == [] then 0 else (if fs[0].Complete() then 0 else fs[0].Size()) + InFlight(fs[1..])
  }

  /** Entries in complete fetches. */
  ghost function Arrived<T>(fs: seq<Fetch<T>>): int {
    if fs == [] then 0 else (if fs[0].Complete() then fs[0].Size() else 0) + Arrived(fs[1..])
  }

  /** Entries that have not arrived. */
  ghost function Missing<T>(fs: seq<Fetch<T>>): int {
    if fs == [] then 0 else fs[0].Size() - |fs[0].got| + Missing(fs[1..])
  }

  lemma {:induction false} ChainSums<T>(log: nat -> T, fs: seq<Fetch<T>>, from: nat, to: nat)
    requires Chain(log, fs, from, to)
    ensures InFlight(fs) + Arrived(fs) == to - from && InFlight(fs) >= 0 && Arrived(fs) >= 0 && Missing(fs) >= 0
    ensures fs != [] ==> from < to
  {
    if fs != [] {
      ChainSums(log, fs[1..], fs[0].last + 1, to);
    }
  }

  lemma {:induction false} ChainAppend<T>(log: nat -> T, fs: seq<Fetch<T>>, f: Fetch<T>, from: nat, to: nat)
    requires Chain(log, fs, from, to) && FetchOk(log, f) && f.first == to
    ensures Chain(log, fs + [f], from, f.last + 1)
    ensures InFlight(fs + [f]) == InFlight(fs) + if f.Complete() then 0 else f.Size()
    ensures Arrived(fs + [f]) == Arrived(fs) + if f.Complete() then f.Size() else 0
    ensures Missing(fs + [f]) == Missing(fs) + f.Size() - |f.got|
  {
    if fs != [] {
      assert (fs + [f])[1..] == fs[1..] + [f];
      ChainAppend(log, fs[1..], f, fs[0].last + 1, to);
    } else {
      assert [f][1..] == [];
    }
  }

  /** More entries for one fetch. */
  lemma {:induction false} ChainUpdate<T>(log: nat -> T, fs: seq<Fetch<T>>, i: nat, f: Fetch<T>, from: nat, to: nat)
    requires Chain(log, fs, from, to) && i < |fs| && FetchOk(log, f)
    requires f.first == fs[i].first && f.last == fs[i].last && !fs[i].Complete()
    ensures Chain(log, fs[i := f], from, to) && FetchOk(log, fs[i])
    ensures InFlight(fs[i := f]) == InFlight(fs) - if f.Complete() then f.Size() else 0
    ensures Arrived(fs[i := f]) == Arrived(fs) + if f.Complete() then f.Size() else 0
    ensures Missing(fs[i := f]) == Missing(fs) - |f.got| + |fs[i].got|
  {
    if i == 0 {
      assert fs[0 := f][1..] == fs[1..];
    } else {
      assert fs[i := f][1..] == fs[1..][i - 1 := f];
      ChainUpdate(log, fs[1..], i - 1, f, fs[0].last + 1, to);
    }
  }

  /** The fetches from number n on are new, and as large as a batch each, except that the last one may have been cut
      off by a limit. */
  ghost predicate Filled<T>(fs: seq<Fetch<T>>, n: nat, batchSize: nat, limit: bool) {
    forall i :: n <= i < |fs| ==>
      fs[i].got == [] && fs[i].Size() <= batchSize && (fs[i].Size() < batchSize ==> i == |fs| - 1 && limit)
  }

  lemma NothingNew<T>(fs: seq<Fetch<T>>, batchSize: nat)
    ensures forall limit :: Filled(fs, |fs|, batchSize, limit)
  {
  }

  lemma FilledMore<T>(fs: seq<Fetch<T>>, n: nat, batchSize: nat, f: Fetch<T>, limit: bool)
    requires Filled(fs, n, batchSize, false) && n <= |fs|
    requires f.got == [] && f.Size() <= batchSize && (f.Size() < batchSize ==> limit)
    ensures Filled(fs + [f], n, batchSize, limit)
  {
  }

  class EntryProducer<T(!new)> {
    const start: nat
    const end: nat
    const batchSize: nat
    const maxFetching: nat
    const buffer: nat
    const log: nat -> T
    var current: nat
    var lastFetching: nat
    var currentlyFetching: int
    var currentlyStored: int
    var batches: seq<Fetch<T>>
    var awaited: Option<Fetch<T>>
    var pending: seq<T>
    var delivered: seq<T>

    function All(): seq<Fetch<T>>
      reads this
    {
      (if awaited.Some? then [awaited.value] else []) + batches
    }

    /** Counters and queue: the consumer has the entries from start to current; the pending ones, the awaited batch and
        the queue continue them without a gap; and the counters count what is stored and what is in flight. */
    ghost predicate Valid()
      reads this
    {
      && 0 < batchSize && start <= current && start <= end && lastFetching <= end + 1
      && |delivered| == current - start && (forall i :: 0 <= i < |delivered| ==> delivered[i] == log(start + i))
      && (forall i :: 0 <= i < |pending| ==> pending[i] == log(current + i))
      && Chain(log, All(), current + |pending|, lastFetching)
      && currentlyFetching == InFlight(All()) && currentlyStored == Arrived(All()) + |pending|
      && currentlyFetching <= maxFetching + 2
      && lastFetching - current <= buffer + maxFetching + 2
    }

    constructor (start: nat, end: nat, batchSize: nat, fetchers: nat, buffer: nat, log: nat -> T)
      requires start <= end && 0 < batchSize
      ensures Valid() && this.start == start && this.end == end && this.log == log && this.buffer == buffer
      ensures this.batchSize == batchSize && this.maxFetching == fetchers * batchSize && lastFetching == start
      ensures current == start && pending == [] && batches == [] && awaited == None && delivered == []
    {
      this.start, this.end, this.batchSize, this.buffer, this.log := start, end, batchSize, buffer, log;
      this.maxFetching := fetchers * batchSize;
      this.current, this.lastFetching := start, start;
      this.currentlyFetching, this.currentlyStored := 0, 0;
      this.batches, this.awaited, this.pending, this.delivered := [], None, [], [];
    }

    /** Stored plus in flight is what has been asked for and not been delivered, the limit on requests is kept up to
        two, and no more than the buffer and that limit together is ever held. */
    lemma Conservation()
      requires Valid()
      ensures currentlyStored + currentlyFetching == lastFetching - current
      ensures 0 <= currentlyStored && 0 <= currentlyFetching <= maxFetching + 2
      ensures currentlyStored + currentlyFetching <= buffer + maxFetching + 2
    {
      ChainSums(log, All(), current + |pending|, lastFetching);
    }

    /** `_write_pending`: hands the pending entries to the consumer. */
    method WritePending()
      requires Valid()
      modifies this`current, this`currentlyStored, this`delivered, this`pending
      ensures Valid() && pending == [] && current == old(current) + |old(pending)|
      ensures delivered == old(delivered) + old(pending)
    {
      if pending != [] {
        current := current + |pending|;
        currentlyStored := currentlyStored - |pending|;
        delivered := delivered + pending;
        pending := [];
      }
    }

    /** The loop that starts requests: it goes on until a limit is reached, and asks for whole batches. */
    method FillBatches()
      requires Valid() && pending == [] && awaited.None? && current <= end
      modifies this`lastFetching, this`currentlyFetching, this`batches
      ensures Valid() && batches != []
      ensures currentlyFetching > maxFetching || lastFetching == end + 1 || currentlyStored > buffer
      ensures old(batches) <= batches
      ensures Filled(batches, |old(batches)|, batchSize,
                     lastFetching == end + 1 || currentlyFetching == maxFetching + 2)
    {
      hide Chain, InFlight, Arrived, Filled;
      Conservation();
      EmptySums<T>(log, current, lastFetching);
      NothingNew(batches, batchSize);
      assert All() == batches;
      while currentlyFetching <= maxFetching && lastFetching <= end && currentlyStored <= buffer
        invariant Valid() && All() == batches
        invariant batches == [] ==> lastFetching == current && currentlyFetching == 0 && currentlyStored == 0
        invariant old(batches) <= batches
        invariant Filled(batches, |old(batches)|, batchSize,
                         lastFetching == end + 1 || currentlyFetching == maxFetching + 2)
        decreases end + 1 - lastFetching
      {
        var last := lastFetching + batchSize - 1;
        if end < last { last := end; }
        var room := lastFetching + maxFetching - currentlyFetching + 1;
        if room < last { last := room; }
        FilledMore(batches, |old(batches)|, batchSize, Fetch(lastFetching, last, []),
                   last == end || currentlyFetching + last - lastFetching + 1 == maxFetching + 2);
        StartFetch(last);
      }
    }

    method StartFetch(last: nat)
      requires Valid() && pending == [] && All() == batches && lastFetching <= last <= end
      requires currentlyFetching + last - lastFetching + 1 <= maxFetching + 2 && currentlyStored <= buffer
      modifies this`lastFetching, this`currentlyFetching, this`batches
      ensures Valid() && All() == batches == old(batches) + [Fetch(old(lastFetching), last, [])]
      ensures lastFetching == last + 1 && currentlyFetching == old(currentlyFetching) + last - old(lastFetching) + 1
    {
      hide Chain, InFlight, Arrived, Missing;
      Conservation();
      var f := Fetch(lastFetching, last, []);
      ChainAppend(log, batches, f, current, lastFetching);
      batches := batches + [f];
      assert All() == batches;
      currentlyFetching := currentlyFetching + last - lastFetching + 1;
      lastFetching := last + 1;
    }

    /** Takes the first batch off the queue. The queue blocks when it is empty, so it must not be. */
    method TakeBatch()
      requires Valid() && awaited.None? && batches != []
      modifies this`batches, this`awaited
      ensures Valid() && awaited.Some? && All() == old(All())
    {
      assert All() == batches;
      awaited := Some(batches[0]);
      batches := batches[1..];
    }

    /** The log answers the request of fetch i with its next n entries; the last answer completes the batch. */
    method Reply(i: nat, n: nat)
      requires Valid() && i < |All()| && !All()[i].Complete() && 1 <= n <= All()[i].Size() - |All()[i].got|
      modifies this`batches, this`awaited, this`currentlyFetching, this`currentlyStored
      ensures Valid() && |All()| == |old(All())| && (awaited.Some? <==> old(awaited.Some?))
      ensures Missing(All()) == Missing(old(All())) - n
    {
      hide Chain, InFlight, Arrived, Missing;
      ghost var all := All();
      var at := if awaited.Some? then i - 1 else i;
      var f := if at < 0 then awaited.value else batches[at];
      assert f == all[i];
      ChainIndex(log, all, i, current + |pending|, lastFetching);
      var f' := Answered(log, f, n);
      ChainUpdate(log, all, i, f', current + |pending|, lastFetching);
      ChainSums(log, all[i := f'], current + |pending|, lastFetching);
      if at < 0 {
        awaited := Some(f');
      } else {
        batches := batches[at := f'];
      }
      assert All() == all[i := f'];
      if f'.Complete() {
        currentlyFetching := currentlyFetching - |f'.got|;
        currentlyStored := currentlyStored + |f'.got|;
      }
    }

    /** One answer, as a schedule has it: to fetch i if that is still open, and of at most n entries. */
    method ReplyTo(i: nat, n: nat)
      requires Valid() && i < |All()|
      modifies this`batches, this`awaited, this`currentlyFetching, this`currentlyStored
      ensures Valid() && |All()| == |old(All())| && (awaited.Some? <==> old(awaited.Some?))
      ensures if old(All()[i].Complete()) then Missing(All()) == old(Missing(All()))
              else Missing(All()) < old(Missing(All()))
    {
      hide Chain, InFlight, Arrived, Missing;
      ChainIndex(log, All(), i, current + |pending|, lastFetching);
      var f := All()[i];
      if !f.Complete() {
        Reply(i, 1 + n % (f.Size() - |f.got|));
      }
    }

    /** The answers that come while a consumer is busy. */
    method Interleave(schedule: nat -> (nat, nat), k: nat, count: nat)
      requires Valid() && awaited.None?
      modifies this`batches, this`awaited, this`currentlyFetching, this`currentlyStored
      ensures Valid() && awaited.None?
    {
      hide Chain, InFlight, Arrived, Missing;
      var j := 0;
      while j < count && |All()| > 0
        invariant Valid() && awaited.None?
        decreases count - j
      {
        ReplyTo(schedule(k + j).0 % |All()|, schedule(k + j).1);
        j := j + 1;
      }
    }

    /** Answers until the awaited batch is complete: to any open fetch, and to the awaited one if the schedule names one
        that is closed. */
    method Await(schedule: nat -> (nat, nat), k: nat) returns (j: nat)
      requires Valid() && awaited.Some?
      modifies this`batches, this`awaited, this`currentlyFetching, this`currentlyStored
      ensures Valid() && awaited.Some? && awaited.value.Complete()
    {
      hide Chain, InFlight, Arrived, Missing;
      j := k;
      while !awaited.value.Complete()
        invariant Valid() && awaited.Some?
        decreases Missing(All())
      {
        ChainSums(log, All(), current + |pending|, lastFetching);
        assert All()[0] == awaited.value;
        var i := schedule(j).0 % |All()|;
        ReplyTo(if All()[i].Complete() then 0 else i, schedule(j).1);
        ChainSums(log, All(), current + |pending|, lastFetching);
        j := j + 1;
      }
    }

    /** The awaited batch becomes the pending one. */
    method TakeResult()
      requires Valid() && pending == [] && awaited.Some? && awaited.value.Complete()
      modifies this`awaited, this`pending
      ensures Valid() && awaited.None? && pending != []
    {
      assert All()[0] == awaited.value && All()[1..] == batches;
      pending := awaited.value.got;
      awaited := None;
      assert All() == batches;
    }

    /** `produce`: for every schedule of answers, the consumer gets the entries from start to end, each once and in
        order, and the producer finishes. */
    method Produce(schedule: nat -> (nat, nat), busy: nat -> nat)
      requires Valid() && awaited.None?
      modifies this`current, this`lastFetching, this`currentlyFetching, this`currentlyStored, this`batches,
               this`awaited, this`pending, this`delivered
      ensures Valid() && currentlyFetching == currentlyStored == 0
      ensures |delivered| == end - start + 1 && forall i :: start <= i <= end ==> delivered[i - start] == log(i)
    {
      hide Chain, InFlight, Arrived, Missing;
      var k: nat := 0;
      while true
        invariant Valid() && awaited.None?
        decreases end + 1 - current - |pending|
      {
        WritePending();
        Interleave(schedule, k, busy(k));
        k := k + busy(k);
        Conservation();
        if current > end {
          break;
        }
        FillBatches();
        TakeBatch();
        k := Await(schedule, k);
        TakeResult();
        ChainSums(log, All(), current + |pending|, lastFetching);
      }
    }
  }

  /** A fetch with its next n entries. */
  function Answered<T>(log: nat -> T, f: Fetch<T>, n: nat): (f': Fetch<T>)
    requires FetchOk(log, f) && n <= f.Size() - |f.got|
    ensures FetchOk(log, f') && f'.first == f.first && f'.last == f.last && |f'.got| == |f.got| + n
  {
    f.(got := f.got + seq(n, j requires 0 <= j < n => log(f.first + |f.got| + j)))
  }

  lemma EmptySums<T>(log: nat -> T, from: nat, to: nat)
    ensures Chain(log, [], from, to) <==> from == to
    ensures InFlight<T>([]) == 0 && Arrived<T>([]) == 0
  {
  }

  lemma {:induction false} ChainIndex<T>(log: nat -> T, fs: seq<Fetch<T>>, i: nat, from: nat, to: nat)
    requires Chain(log, fs, from, to) && i < |fs|
    ensures FetchOk(log, fs[i])
  {
    if i > 0 {
      ChainIndex(log, fs[1..], i - 1, fs[0].last + 1, to);
    }
  }
}
