/**
 Lists of byte strings on the wire: cpp/proto/tls_encoding.cc. Every string has a length prefix, and so has the whole
 list. The number of bytes of a prefix is the exact integer that the source computes with logarithms.
 */
module CppLists {
  import opened Options
  import opened TreeHashing
  import opened BigEndian
  import opened TlsSchema

  datatype Error =
    | EMPTY_LIST | EMPTY_ELEM_IN_LIST | LIST_ELEM_TOO_LONG | LIST_TOO_LONG
    | INPUT_TOO_SHORT | INPUT_TOO_LONG | INVALID_LIST_ENCODING | UNSUPPORTED_VERSION
    | INVALID_HASH_ALGORITHM | INVALID_SIGNATURE_ALGORITHM | SIGNATURE_TOO_LONG
    | INVALID_ENTRY_TYPE | INVALID_KEYID_LENGTH | EXTENSIONS_TOO_LONG | EXTENSIONS_NOT_ORDERED

  datatype Result<+T> = Good(value: T) | Bad(error: Error)

  /** How writing ends: with bytes, an error, or a failed CHECK, which ends the program. */
  datatype Written = Wrote(bytes: Bytes) | Refused(error: Error) | Fatal

  // ---------- Prefixes ----------

  /** `PrefixLength`: the least k such that max is at most 256 to the k. */
  function PrefixLength(max: nat): nat
    requires max > 0
  {
    BytesFor(max - 1)
  }

  /** A limit whose prefix holds every length up to it. */
  predicate Limit(max: nat) {
    max > 0 && PrefixLength(max) == BytesFor(max)
  }

  /** The prefix holds every length up to the limit, except the limit itself if that is a power of 256. */
  lemma PrefixHolds(max: nat, n: nat)
    requires 0 < max && n <= max
    ensures n < Pow256(PrefixLength(max)) <==> n < max || Limit(max)
    ensures !Limit(max) ==> max == Pow256(PrefixLength(max))
  {
    BytesForHolds(max, max);
    BytesForHolds(max - 1, max - 1);
    if max < Pow256(PrefixLength(max)) {
      BytesForLeast(max, PrefixLength(max));
    }
    BytesForLeast(max - 1, BytesFor(max));
  }

  lemma {:induction false} BytesForPower(k: nat)
    ensures BytesFor(Pow256(k) - 1) == k
  {
    if k > 0 {
      BytesForPower(k - 1);
      assert (Pow256(k) - 1) / 256 == Pow256(k - 1) - 1;
    }
  }

  /** The limits whose prefix is too short for them are exactly the powers of 256. */
  lemma LimitExactly(max: nat)
    requires max > 0
    ensures !Limit(max) <==> exists k: nat :: max == Pow256(k)
  {
    PrefixHolds(max, max);
    if k: nat :| max == Pow256(k) {
      BytesForPower(k);
    }
  }

  /** The bytes of a string with its prefix; `None` stands for a failed CHECK. */
  function VarBytes(s: Bytes, max: nat): Option<Bytes>
    requires max > 0
  {
    if |s| > max || |s| >= Pow256(PrefixLength(max)) then None else Some(ToBytes(|s|, PrefixLength(max)) + s)
  }

  /** `ReadVarBytes`. */
  function ReadString(max: nat, buf: Bytes): Option<(Bytes, Bytes)>
    requires max > 0
  {
    var r := ReadUint(PrefixLength(max), buf);
    if r.None? || r.value.0 > max then None else ReadFixed(r.value.0, r.value.1)
  }

  /** For other limits than powers of 256 this is the format of `TlsSchema`. */
  lemma SameFormat(max: nat, s: Bytes, buf: Bytes)
    requires Limit(max)
    ensures VarBytes(s, max) == WriteVar(s, 0, max) && ReadString(max, buf) == ReadVar(0, max, buf)
  {
    if |s| <= max {
      BytesForHolds(max, |s|);
    }
  }

  lemma StringBack(s: Bytes, max: nat, suffix: Bytes)
    requires max > 0 && VarBytes(s, max).Some?
    ensures ReadString(max, VarBytes(s, max).value + suffix) == Some((s, suffix))
  {
    var prefix := ToBytes(|s|, PrefixLength(max));
    UintRoundTrip(|s|, PrefixLength(max), s + suffix);
    assert prefix + s + suffix == prefix + (s + suffix);
    FixedRoundTrip(s, suffix);
  }

  lemma StringCanonical(max: nat, buf: Bytes)
    requires max > 0 && ReadString(max, buf).Some?
    ensures var r := ReadString(max, buf).value; VarBytes(r.0, max).Some? && buf == VarBytes(r.0, max).value + r.1
  {
    UintCanonical(PrefixLength(max), buf);
  }

  // ---------- The format ----------

  /** The strings with their prefixes; `None` stands for a failed CHECK. */
  function ListBytes(items: seq<Bytes>, maxElem: nat): (b: Option<Bytes>)
    requires maxElem > 0
    ensures b.Some? ==> |b.value| == Total(items, maxElem)
  {
    if items == [] then Some([])
    else
      var first, rest := VarBytes(items[0], maxElem), ListBytes(items[1..], maxElem);
      if first.None? || rest.None? then None else Some(first.value + rest.value)
  }

  function Total(items: seq<Bytes>, maxElem: nat): nat
    requires maxElem > 0
  {
    if items == [] then 0 else PrefixLength(maxElem) + |items[0]| + Total(items[1..], maxElem)
  }

  /** The first string that cannot be in a list. */
  function FirstBad(items: seq<Bytes>, maxElem: nat): Option<Error> {
    if items == [] then None
    else if items[0] == [] then Some(EMPTY_ELEM_IN_LIST)
    else if |items[0]| > maxElem then Some(LIST_ELEM_TOO_LONG)
    else FirstBad(items[1..], maxElem)
  }

  lemma {:induction false} NoneBad(items: seq<Bytes>, maxElem: nat)
    ensures FirstBad(items, maxElem).None? <==> forall i :: 0 <= i < |items| ==> 0 < |items[i]| <= maxElem
  {
    if items != [] {
      NoneBad(items[1..], maxElem);
      assert forall i :: 0 < i < |items| ==> items[i] == items[1..][i - 1];
    }
  }

  /** `WriteList`. A length of 0 means that the list does not fit, also where the list and its prefix have no bytes. */
  function ListOf(items: seq<Bytes>, maxElem: nat, maxTotal: nat): Written
    requires maxElem > 0 && maxTotal > 0
  {
    var bad, total, width := FirstBad(items, maxElem), Total(items, maxElem), PrefixLength(maxTotal);
    if bad.Some? then Refused(bad.value)
    else if total > maxTotal || total + width == 0 then Refused(LIST_TOO_LONG)
    else if total >= Pow256(width) || ListBytes(items, maxElem).None? then Fatal
    else Wrote(ToBytes(total, width) + ListBytes(items, maxElem).value)
  }

  function ItemsOf(body: Bytes, maxElem: nat): Result<seq<Bytes>>
    requires maxElem > 0
    decreases |body|
  {
    if body == [] then Good([])
    else
      var r := ReadString(maxElem, body);
      if r.None? then Bad(INVALID_LIST_ENCODING)
      else if r.value.0 == [] then Bad(EMPTY_ELEM_IN_LIST)
      else
        var rest := ItemsOf(r.value.1, maxElem);
        if rest.Good? then Good([r.value.0] + rest.value) else rest
  }

  /** `DeserializeList`. */
  function ParseList(buf: Bytes, maxTotal: nat, maxElem: nat): Result<seq<Bytes>>
    requires maxElem > 0 && maxTotal > 0
  {
    var r := ReadString(maxTotal, buf);
    if r.None? then Bad(INPUT_TOO_SHORT)
    else if r.value.1 != [] then Bad(INPUT_TOO_LONG)
    else ItemsOf(r.value.0, maxElem)
  }

  // ---------- Both ways ----------

  lemma {:induction false} ItemsBack(items: seq<Bytes>, maxElem: nat)
    requires maxElem > 0 && ListBytes(items, maxElem).Some? && FirstBad(items, maxElem).None?
    ensures ItemsOf(ListBytes(items, maxElem).value, maxElem) == Good(items)
  {
    if items != [] {
      ItemsBack(items[1..], maxElem);
      StringBack(items[0], maxElem, ListBytes(items[1..], maxElem).value);
      assert items == [items[0]] + items[1..];
    }
  }

  lemma {:induction false} BytesBack(body: Bytes, maxElem: nat)
    requires maxElem > 0 && ItemsOf(body, maxElem).Good?
    ensures var items := ItemsOf(body, maxElem).value;
      FirstBad(items, maxElem).None? && ListBytes(items, maxElem) == Some(body)
    decreases |body|
  {
    if body != [] {
      var r := ReadString(maxElem, body).value;
      StringCanonical(maxElem, body);
      BytesBack(r.1, maxElem);
      var items := ItemsOf(body, maxElem).value;
      assert items[1..] == ItemsOf(r.1, maxElem).value;
    }
  }

  /** A list that is written is a string with a prefix, around its items. */
  lemma ListIsString(items: seq<Bytes>, maxElem: nat, maxTotal: nat)
    requires maxElem > 0 && maxTotal > 0 && ListBytes(items, maxElem).Some? && FirstBad(items, maxElem).None?
    ensures var all := VarBytes(ListBytes(items, maxElem).value, maxTotal);
      ListOf(items, maxElem, maxTotal)
      == if Total(items, maxElem) > maxTotal || Total(items, maxElem) + PrefixLength(maxTotal) == 0
         then Refused(LIST_TOO_LONG) else if all.None? then Fatal else Wrote(all.value)
  {
    hide ListBytes, FirstBad, Total, ToBytes, Pow256;
  }

  lemma PrefixNone(max: nat)
    requires max > 0
    ensures PrefixLength(max) == 0 <==> max == 1
  {
  }

  lemma {:induction false} TotalNone(items: seq<Bytes>, maxElem: nat)
    requires maxElem > 0 && FirstBad(items, maxElem).None?
    ensures Total(items, maxElem) == 0 <==> items == []
  {
    if items != [] {
      TotalNone(items[1..], maxElem);
    }
  }

  /** For all limits, a list is read from exactly the bytes that it is written as, except that under a total limit of 1
      the empty list is read from no bytes and not written. */
  lemma ListInverse(items: seq<Bytes>, maxElem: nat, maxTotal: nat, b: Bytes)
    requires maxElem > 0 && maxTotal > 0
    ensures (ParseList(b, maxTotal, maxElem) == Good(items) <==> ListOf(items, maxElem, maxTotal) == Wrote(b))
      <==> !(maxTotal == 1 && items == [] && b == [])
  {
    hide ReadString, VarBytes, ItemsOf, ListBytes, FirstBad, Total, ToBytes, Pow256, BytesFor;
    PrefixNone(maxTotal);
    if ListOf(items, maxElem, maxTotal).Wrote? {
      ListIsString(items, maxElem, maxTotal);
      TotalNone(items, maxElem);
      var body := ListBytes(items, maxElem).value;
      StringBack(body, maxTotal, []);
      var all := VarBytes(body, maxTotal).value;
      assert all + [] == all;
      ItemsBack(items, maxElem);
    }
    if ParseList(b, maxTotal, maxElem) == Good(items) {
      StringCanonical(maxTotal, b);
      var body := ReadString(maxTotal, b).value.0;
      BytesBack(body, maxElem);
      assert b == VarBytes(body, maxTotal).value + [];
      ListIsString(items, maxElem, maxTotal);
      TotalNone(items, maxElem);
      StringFits(body, maxTotal);
    }
    if maxTotal == 1 && items == [] && b == [] {
      NothingFits(maxElem);
    }
  }

  lemma StringFits(s: Bytes, max: nat)
    requires max > 0 && VarBytes(s, max).Some?
    ensures |s| <= max && |VarBytes(s, max).value| == PrefixLength(max) + |s|
  {
  }

  lemma NothingFits(maxElem: nat)
    requires maxElem > 0
    ensures ListOf([], maxElem, 1) == Refused(LIST_TOO_LONG) && ParseList([], 1, maxElem) == Good([])
  {
    assert PrefixLength(1) == 0;
    assert ReadUint(0, []) == Some((0, []));
  }

  /** A CHECK fails exactly for a list that fits and has a string, or a total length, equal to a limit that is a
      power of 256. */
  lemma FatalExactly(items: seq<Bytes>, maxElem: nat, maxTotal: nat)
    requires maxElem > 0 && maxTotal > 0
    ensures ListOf(items, maxElem, maxTotal) == Fatal <==>
      && FirstBad(items, maxElem).None?
      && Total(items, maxElem) <= maxTotal && Total(items, maxElem) + PrefixLength(maxTotal) > 0
      && (|| (Total(items, maxElem) == maxTotal && !Limit(maxTotal))
          || (!Limit(maxElem) && exists i :: 0 <= i < |items| && |items[i]| == maxElem))
  {
    hide ListBytes, FirstBad, Total, ToBytes, Pow256, BytesFor;
    if FirstBad(items, maxElem).None? && Total(items, maxElem) <= maxTotal {
      PrefixHolds(maxTotal, Total(items, maxElem));
      ListFatal(items, maxElem);
    }
  }

  lemma {:induction false} ListFatal(items: seq<Bytes>, maxElem: nat)
    requires maxElem > 0 && FirstBad(items, maxElem).None?
    ensures ListBytes(items, maxElem).None? <==>
      !Limit(maxElem) && exists i :: 0 <= i < |items| && |items[i]| == maxElem
  {
    if items != [] {
      ListFatal(items[1..], maxElem);
      PrefixHolds(maxElem, |items[0]|);
      assert forall i :: 0 < i < |items| ==> items[i] == items[1..][i - 1];
      assert forall i :: 0 <= i < |items[1..]| ==> items[1..][i] == items[i + 1];
    }
  }

  // ---------- The code ----------

  ghost predicate TooLong(items: seq<Bytes>, maxElem: nat, maxTotal: nat)
    requires maxElem > 0
  {
    (exists i :: 0 <= i < |items| && |items[i]| > maxElem) || Total(items, maxElem) > maxTotal
  }

  /** `SerializedListLength`: for limits above 1 this is 0 exactly when the list does not fit; no subtraction goes below
      0. */
  method SerializedListLength(items: seq<Bytes>, maxElem: nat, maxTotal: nat) returns (length: nat)
    requires maxElem > 0 && maxTotal > 0
    ensures TooLong(items, maxElem, maxTotal) ==> length == 0
    ensures !TooLong(items, maxElem, maxTotal) ==> length == Total(items, maxElem) + PrefixLength(maxTotal)
    ensures maxTotal > 1 ==> (length == 0 <==> TooLong(items, maxElem, maxTotal))
  {
    hide BytesFor;
    PrefixNone(maxTotal);
    var elemPrefix := PrefixLength(maxElem);
    var total: nat := 0;
    var i := 0;
    assert items[0..] == items;
    while i < |items|
      invariant i <= |items| && total <= maxTotal && total + Total(items[i..], maxElem) == Total(items, maxElem)
      invariant forall j :: 0 <= j < i ==> |items[j]| <= maxElem
    {
      assert items[i..][1..] == items[i + 1..];
      assert total <= maxTotal;
      if |items[i]| > maxElem || maxTotal - total < elemPrefix {
        return 0;
      }
      assert maxTotal - total >= elemPrefix;
      if maxTotal - total - elemPrefix < |items[i]| {
        return 0;
      }
      total := total + elemPrefix + |items[i]|;
      i := i + 1;
    }
    length := total + PrefixLength(maxTotal);
  }

  /** `WriteVarBytes`, on an output string; `None` stands for a failed CHECK. */
  method WriteVarBytes(s: Bytes, max: nat, output: Bytes) returns (out: Option<Bytes>)
    requires max > 0
    ensures out == if VarBytes(s, max).None? then None else Some(output + VarBytes(s, max).value)
  {
    if |s| > max {
      return None;
    }
    var prefix := WriteNumber(|s|, PrefixLength(max), output);
    if prefix.None? {
      return None;
    }
    assert prefix.value + s == output + (ToBytes(|s|, PrefixLength(max)) + s);
    out := Some(prefix.value + s);
  }

  /** `WriteUint`: the bytes from the most significant one down; `None` stands for the failed CHECK that they are
      enough. */
  method WriteNumber(n: nat, bytes: nat, output: Bytes) returns (out: Option<Bytes>)
    ensures out == if n >= Pow256(bytes) then None else Some(output + ToBytes(n, bytes))
  {
    hide ToBytes, Pow256;
    if n / Pow256(bytes) != 0 {
      ShiftedOut(n, Pow256(bytes));
      return None;
    }
    ShiftedOut(n, Pow256(bytes));
    var written := output;
    var left: nat := bytes;
    while left > 0
      invariant left <= bytes && written == output + ToBytes(n, bytes)[..bytes - left]
    {
      ByteAt(n, bytes, bytes - left);
      written := written + [(n / Pow256(left - 1) % 256) as byte];
      left := left - 1;
    }
    assert ToBytes(n, bytes)[..bytes] == ToBytes(n, bytes);
    out := Some(written);
  }

  /** Shifting a number out leaves 0 exactly when it has no more bits than that. */
  lemma ShiftedOut(n: nat, p: nat)
    requires p > 0
    ensures n / p == 0 <==> n < p
  {
  }

  /** `WriteList`. */
  method WriteList(items: seq<Bytes>, maxElem: nat, maxTotal: nat) returns (r: Written)
    requires maxElem > 0 && maxTotal > 0
    ensures r == ListOf(items, maxElem, maxTotal)
  {
    hide ListBytes, Total, ToBytes, BytesFor, Pow256;
    var i := 0;
    assert items[0..] == items;
    while i < |items|
      invariant i <= |items| && FirstBad(items[i..], maxElem) == FirstBad(items, maxElem)
    {
      assert items[i..][1..] == items[i + 1..];
      if items[i] == [] {
        return Refused(EMPTY_ELEM_IN_LIST);
      }
      if |items[i]| > maxElem {
        return Refused(LIST_ELEM_TOO_LONG);
      }
      i := i + 1;
    }
    NoneBad(items, maxElem);
    var length := SerializedListLength(items, maxElem, maxTotal);
    if length == 0 {
      return Refused(LIST_TOO_LONG);
    }
    var prefix := PrefixLength(maxTotal);
    var out := WriteNumber(length - prefix, prefix, []);
    if out.None? {
      return Fatal;
    }
    var all := WriteItems(items, maxElem, out.value);
    if all.None? {
      return Fatal;
    }
    assert [] + ToBytes(length - prefix, prefix) == ToBytes(length - prefix, prefix);
    r := Wrote(all.value);
  }

  /** The second loop of `WriteList`. */
  method WriteItems(items: seq<Bytes>, maxElem: nat, head: Bytes) returns (out: Option<Bytes>)
    requires maxElem > 0
    ensures out == if ListBytes(items, maxElem).None? then None else Some(head + ListBytes(items, maxElem).value)
  {
    hide VarBytes;
    var bytes := head;
    var i := 0;
    assert items[0..] == items;
    while i < |items|
      invariant i <= |items|
      invariant ListBytes(items[i..], maxElem).None? <==> ListBytes(items, maxElem).None?
      invariant ListBytes(items, maxElem).Some? ==>
        bytes + ListBytes(items[i..], maxElem).value == head + ListBytes(items, maxElem).value
    {
      assert items[i..][1..] == items[i + 1..];
      var next := WriteVarBytes(items[i], maxElem, bytes);
      if next.None? {
        return None;
      }
      if ListBytes(items[i + 1..], maxElem).Some? {
        ghost var a, b := VarBytes(items[i], maxElem).value, ListBytes(items[i + 1..], maxElem).value;
        assert bytes + (a + b) == bytes + a + b;
      }
      bytes := next.value;
      i := i + 1;
    }
    assert items[i..] == [] && bytes + [] == bytes;
    out := Some(bytes);
  }
}
