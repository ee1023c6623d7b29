/**
 A value with its history (`SequencedData` in python/demo/vdb/verifiable_map.py): the list of times at
 which it changed, and the value from each time on.
 */
module SequencedData {

  datatype Sequenced<T(==)> = Sequenced(seqs: seq<nat>, vals: seq<T>) {

    ghost predicate Valid() {
      && |seqs| == |vals| > 0 && seqs[0] == 0
      && forall i, j :: 0 <= i < j < |seqs| ==> seqs[i] < seqs[j]
    }

    function Last(): nat
      requires |seqs| > 0
    {
      seqs[|seqs| - 1]
    }

    /** The value in force at a time. */
    function At(time: nat): T
      requires |seqs| == |vals| > 0
    {
      Back(|seqs| - 1, time)
    }

    /** The search of `get`, from entry i backwards. */
    function Back(i: nat, time: nat): T
      requires i < |seqs| == |vals|
    {
      if seqs[i] > time && i > 0 then Back(i - 1, time) else vals[i]
    }

    /** `set` fails on any other time. */
    predicate CanSet(value: T, time: nat)
      requires |seqs| == |vals| > 0
    {
      At(time) == value || time > Last()
    }

    function Set(value: T, time: nat): Sequenced<T>
      requires |seqs| == |vals| > 0 && CanSet(value, time)
    {
      if At(time) == value then this else Sequenced(seqs + [time], vals + [value])
    }
  }

  function Start<T(==)>(value: T): Sequenced<T> {
    Sequenced([0], [value])
  }

  lemma {:induction false} BackAppend<T>(d: Sequenced<T>, value: T, last: nat, i: nat, time: nat)
    requires d.Valid() && i < |d.seqs|
    ensures Sequenced(d.seqs + [last], d.vals + [value]).Back(i, time) == d.Back(i, time)
  {
    if d.seqs[i] > time && i > 0 {
      BackAppend(d, value, last, i - 1, time);
    }
  }

  /** A value set at a time is in force from then on, and nothing earlier changes. */
  lemma SetThenAt<T>(d: Sequenced<T>, value: T, time: nat, t: nat)
    requires d.Valid() && d.CanSet(value, time) && d.Last() <= time
    ensures d.Set(value, time).Valid() && d.Set(value, time).Last() <= time
    ensures d.Set(value, time).At(t) == if t < time then d.At(t) else value
  {
    if d.At(time) != value {
      BackAppend(d, value, time, |d.seqs| - 1, t);
    }
  }

  /** Nothing changes after the last entry. */
  lemma AtAfterLast<T>(d: Sequenced<T>, t: nat)
    requires d.Valid() && d.Last() <= t
    ensures d.At(t) == d.vals[|d.vals| - 1]
  {
  }
}
