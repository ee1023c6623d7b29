/**
 Where each string of a serialized list is: the format of `WriteList` in cpp/proto/tls_encoding.cc by position, what is
 refused by both sides and why.
 */
module ListLayout {
  import opened Options
  import opened TreeHashing
  import opened BigEndian
  import opened TlsSchema
  import opened CppLists
  import opened SctLayout

  /** The prefix is the shortest with as many values as the limit. */
  lemma PrefixLeast(max: nat, k: nat)
    requires max > 0
    ensures max <= Pow256(PrefixLength(max)) && (max <= Pow256(k) ==> PrefixLength(max) <= k)
  {
    BytesForHolds(max - 1, max - 1);
    if max <= Pow256(k) {
      BytesForLeast(max - 1, k);
    }
  }

  /** Strings one after the other, each behind its length in some bytes. */
  ghost predicate StringsAre(b: Bytes, items: seq<Bytes>, width: nat) {
    if items == [] then b == []
    else
      var n := |items[0]|;
      && |b| >= width + n && FromBytes(b[..width]) == n && b[width..width + n] == items[0]
      && StringsAre(b[width + n..], items[1..], width)
  }

  /** The length of all in some bytes, then the strings; a list without any bytes is not written. */
  ghost predicate ListIs(b: Bytes, items: seq<Bytes>, maxElem: nat, maxTotal: nat)
    requires maxElem > 0 && maxTotal > 0
  {
    var width := PrefixLength(maxTotal);
    && b != [] && width <= |b| && FromBytes(b[..width]) == |b| - width <= maxTotal
    && StringsAre(b[width..], items, PrefixLength(maxElem))
  }

  lemma StringIsAt(s: Bytes, max: nat, b: Bytes)
    requires max > 0
    ensures var width := PrefixLength(max);
      VarBytes(s, max) == Some(b) <==>
        |s| <= max && |b| == width + |s| && FromBytes(b[..width]) == |s| && b[width..] == s
  {
    hide FromBytes, ToBytes, Pow256, BytesFor;
    var width := PrefixLength(max);
    if |s| <= max && |s| < Pow256(width) {
      var p := ToBytes(|s|, width);
      NumberIs(p, |s|, width);
      assert (p + s)[..width] == p && (p + s)[width..] == s;
    }
    if |b| == width + |s| && FromBytes(b[..width]) == |s| && b[width..] == s {
      NumberIs(b[..width], |s|, width);
      assert b == b[..width] + b[width..];
    }
  }

  lemma {:induction false} StringsAt(items: seq<Bytes>, maxElem: nat, b: Bytes)
    requires maxElem > 0 && FirstBad(items, maxElem).None?
    ensures ListBytes(items, maxElem) == Some(b) <==> StringsAre(b, items, PrefixLength(maxElem))
  {
    hide FromBytes, VarBytes, PrefixLength;
    if items != [] {
      var width, n := PrefixLength(maxElem), |items[0]|;
      if ListBytes(items, maxElem) == Some(b) {
        var x, y := VarBytes(items[0], maxElem).value, ListBytes(items[1..], maxElem).value;
        StringIsAt(items[0], maxElem, x);
        StringsAt(items[1..], maxElem, y);
        assert b[..width] == x[..width] && b[width..width + n] == x[width..] && b[width + n..] == y;
      }
      if StringsAre(b, items, width) {
        var x, y := b[..width + n], b[width + n..];
        assert x[..width] == b[..width] && x[width..] == b[width..width + n];
        StringIsAt(items[0], maxElem, x);
        StringsAt(items[1..], maxElem, y);
        assert b == x + y;
      }
    }
  }

  /** For all limits: a list is written as b exactly when no string is empty or too long and b has the list at its
      positions. */
  lemma LayoutExactly(items: seq<Bytes>, maxElem: nat, maxTotal: nat, b: Bytes)
    requires maxElem > 0 && maxTotal > 0
    ensures ListOf(items, maxElem, maxTotal) == Wrote(b) <==>
      (forall i :: 0 <= i < |items| ==> 0 < |items[i]| <= maxElem) && ListIs(b, items, maxElem, maxTotal)
  {
    hide FromBytes, ToBytes, Pow256, PrefixLength, ListBytes, FirstBad, StringsAre, Total;
    NoneBad(items, maxElem);
    var width := PrefixLength(maxTotal);
    if FirstBad(items, maxElem).None? {
      if ListBytes(items, maxElem).Some? {
        ListIsString(items, maxElem, maxTotal);
        StringsAt(items, maxElem, ListBytes(items, maxElem).value);
        StringIsAt(ListBytes(items, maxElem).value, maxTotal, b);
      }
      if ListIs(b, items, maxElem, maxTotal) {
        StringsAt(items, maxElem, b[width..]);
        StringIsAt(b[width..], maxTotal, b);
      }
    }
  }

  // ---------- What is refused, and why ----------

  /** What is wrong with one string. */
  function BadString(s: Bytes, maxElem: nat): Option<Error> {
    if s == [] then Some(EMPTY_ELEM_IN_LIST) else if |s| > maxElem then Some(LIST_ELEM_TOO_LONG) else None
  }

  /** The first string with an error gives the error of the writer. */
  lemma {:induction false} FirstBadIs(items: seq<Bytes>, i: nat, maxElem: nat)
    requires i <= |items|
    ensures var e := FirstBad(items[i..], maxElem);
      if e.None? then forall k :: i <= k < |items| ==> BadString(items[k], maxElem).None?
      else exists k :: i <= k < |items| && BadString(items[k], maxElem) == e
                       && forall j :: i <= j < k ==> BadString(items[j], maxElem).None?
    decreases |items| - i
  {
    if i < |items| {
      assert items[i..][1..] == items[i + 1..];
      FirstBadIs(items, i + 1, maxElem);
      if BadString(items[i], maxElem).None? && FirstBad(items[i + 1..], maxElem).Some? {
        var k :| i + 1 <= k < |items| && BadString(items[k], maxElem) == FirstBad(items[i + 1..], maxElem)
                 && forall j :: i + 1 <= j < k ==> BadString(items[j], maxElem).None?;
        assert i <= k && forall j :: i <= j < k ==> BadString(items[j], maxElem).None?;
      }
    }
  }

  /** A list of good strings is refused exactly when they do not fit with their prefixes, or when there is nothing to
      write at all. */
  lemma RefusedFor(items: seq<Bytes>, maxElem: nat, maxTotal: nat)
    requires maxElem > 0 && maxTotal > 0
    ensures var o := ListOf(items, maxElem, maxTotal);
      o.Refused? ==>
        if FirstBad(items, maxElem).Some? then o.error == FirstBad(items, maxElem).value
        else o.error == LIST_TOO_LONG
             && (Total(items, maxElem) > maxTotal || (items == [] && PrefixLength(maxTotal) == 0))
    ensures FirstBad(items, maxElem).None? && Total(items, maxElem) > maxTotal ==>
      ListOf(items, maxElem, maxTotal) == Refused(LIST_TOO_LONG)
    ensures Total(items, maxElem) == Lengths(items) + |items| * PrefixLength(maxElem)
  {
    hide ListBytes, ToBytes, Pow256, PrefixLength;
    TotalIs(items, maxElem);
    if FirstBad(items, maxElem).None? {
      TotalNone(items, maxElem);
    }
  }

  ghost function Lengths(items: seq<Bytes>): nat {
    if items == [] then 0 else |items[0]| + Lengths(items[1..])
  }

  lemma {:induction false} TotalIs(items: seq<Bytes>, maxElem: nat)
    requires maxElem > 0
    ensures Total(items, maxElem) == Lengths(items) + |items| * PrefixLength(maxElem)
  {
    hide PrefixLength;
    if items != [] {
      TotalIs(items[1..], maxElem);
      OneMore(|items| - 1, PrefixLength(maxElem));
    }
  }

  /** Of a written list every part at the front is too short, and everything that goes on is too long. */
  lemma ShortAndLong(items: seq<Bytes>, maxElem: nat, maxTotal: nat, k: nat, x: Bytes)
    requires maxElem > 0 && maxTotal > 0 && ListOf(items, maxElem, maxTotal).Wrote? && x != []
    ensures var b := ListOf(items, maxElem, maxTotal).bytes;
      && (k < |b| ==> ParseList(b[..k], maxTotal, maxElem) == Bad(INPUT_TOO_SHORT))
      && ParseList(b + x, maxTotal, maxElem) == Bad(INPUT_TOO_LONG)
  {
    hide ReadString, VarBytes, ListBytes, FirstBad, Total, ItemsOf, ToBytes, Pow256, PrefixLength;
    ListIsString(items, maxElem, maxTotal);
    var body := ListBytes(items, maxElem).value;
    var b := VarBytes(body, maxTotal).value;
    StringBack(body, maxTotal, x);
    if k < |b| && ReadString(maxTotal, b[..k]).Some? {
      StringBack(body, maxTotal, []);
      assert b + [] == b && b == b[..k] + b[k..];
      StringMore(maxTotal, b[..k], b[k..]);
    }
  }

  lemma StringMore(max: nat, buf: Bytes, x: Bytes)
    requires max > 0 && ReadString(max, buf).Some?
    ensures var r := ReadString(max, buf).value; ReadString(max, buf + x) == Some((r.0, r.1 + x))
  {
    hide ReadUint, ReadFixed, PrefixLength;
    UintMore(PrefixLength(max), buf, x);
    var n := ReadUint(PrefixLength(max), buf).value;
    FixedMore(n.0, n.1, x);
  }

  /** After good strings, a length of 0 is an empty string, and anything else that is no string is a bad encoding. */
  lemma {:induction false} BadBody(items: seq<Bytes>, maxElem: nat, rest: Bytes)
    requires maxElem > 0 && ListBytes(items, maxElem).Some? && FirstBad(items, maxElem).None? && rest != []
    ensures var o := ItemsOf(ListBytes(items, maxElem).value + rest, maxElem);
      var r := ReadString(maxElem, rest);
      && (r.None? ==> o == Bad(INVALID_LIST_ENCODING))
      && (r.Some? && r.value.0 == [] ==> o == Bad(EMPTY_ELEM_IN_LIST))
  {
    hide VarBytes, ReadString, PrefixLength;
    if items == [] {
      assert [] + rest == rest;
    } else {
      var x, y := VarBytes(items[0], maxElem).value, ListBytes(items[1..], maxElem).value;
      StringBack(items[0], maxElem, y + rest);
      assert x + y + rest == x + (y + rest);
      BadBody(items[1..], maxElem, rest);
    }
  }
}
