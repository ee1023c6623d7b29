/** The readers and writers of cpp/proto/tls_encoding.cc and cpp/proto/serializer.cc that loop over their input, proved
    against the formats of `CppLists` and `CppSct`. A failed read leaves the deserializer in some state that is not used
    again. */
module CppCodec {
  import opened Options
  import opened TreeHashing
  import opened BigEndian
  import opened TlsSchema
  import opened CppLists
  import opened CppSct
  import TlsMessage

  /** A reading position and the number of bytes after it. */
  class TlsDeserializer {
    const data: Bytes
    var current: nat
    var remaining: nat

    ghost predicate Valid()
      reads this
    {
      current + remaining == |data|
    }

    ghost function Rest(): Bytes
      reads this
      requires Valid()
    {
      data[current..]
    }

    constructor (data: Bytes)
      ensures Valid() && this.data == data && Rest() == data
    {
      this.data, this.current, this.remaining := data, 0, |data|;
    }

    method ReadFixedBytes(bytes: nat) returns (r: Option<Bytes>)
      requires Valid()
      modifies this
      ensures Valid() && TlsMessage.Took(ReadFixed(bytes, old(Rest())), r, Rest())
    {
      if remaining < bytes {
        return None;
      }
      r := Some(data[current..current + bytes]);
      assert data[current..][..bytes] == data[current..current + bytes];
      assert data[current..][bytes..] == data[current + bytes..];
      current, remaining := current + bytes, remaining - bytes;
    }

    method ReadNumber(bytes: nat) returns (r: Option<nat>)
      requires Valid()
      modifies this
      ensures Valid() && TlsMessage.Took(ReadUint(bytes, old(Rest())), r, Rest())
    {
      if remaining < bytes {
        return None;
      }
      ghost var start := current;
      ghost var field := data[start..start + bytes];
      assert data[start..][..bytes] == field && data[start..][bytes..] == data[start + bytes..];
      var n: nat := 0;
      var i := 0;
      while i < bytes
        invariant i <= bytes && current == start + i && remaining == old(remaining) && n == FromBytes(field[..i])
      {
        assert field[..i + 1][..i] == field[..i];
        n := n * 256 + data[current] as nat;
        current := current + 1;
        i := i + 1;
      }
      assert field[..bytes] == field;
      remaining := remaining - bytes;
      r := Some(n);
    }

    /** `ReadLengthPrefix` and `ReadVarBytes`. */
    method ReadVarBytes(max: nat) returns (r: Option<Bytes>)
      requires Valid() && max > 0
      modifies this
      ensures Valid() && TlsMessage.Took(ReadString(max, old(Rest())), r, Rest())
    {
      var length := ReadNumber(PrefixLength(max));
      if length.None? || length.value > max {
        return None;
      }
      r := ReadFixedBytes(length.value);
    }

    /** `ReadList`. */
    method ReadList(maxTotal: nat, maxElem: nat) returns (r: Result<seq<Bytes>>)
      requires Valid() && maxTotal > 0 && maxElem > 0
      modifies this
      ensures Valid() && r == ParseList(old(Rest()), maxTotal, maxElem)
    {
      hide ReadString;
      var body := ReadVarBytes(maxTotal);
      if body.None? {
        return Bad(INPUT_TOO_SHORT);
      }
      assert remaining > 0 <==> Rest() != [];
      if remaining > 0 {
        return Bad(INPUT_TOO_LONG);
      }
      var reader := new TlsDeserializer(body.value);
      r := reader.ReadItems(maxElem);
    }

    /** The loop of `ReadList`, on a reader of the list alone. */
    method ReadItems(maxElem: nat) returns (r: Result<seq<Bytes>>)
      requires Valid() && maxElem > 0
      modifies this
      ensures Valid() && r == ItemsOf(old(Rest()), maxElem)
    {
      hide ReadString;
      var items: seq<Bytes> := [];
      assert forall rest: seq<Bytes> :: [] + rest == rest;
      while remaining > 0
        invariant Valid()
        invariant ItemsOf(Rest(), maxElem).Bad? ==> ItemsOf(old(Rest()), maxElem) == ItemsOf(Rest(), maxElem)
        invariant ItemsOf(Rest(), maxElem).Good? ==>
          ItemsOf(old(Rest()), maxElem) == Good(items + ItemsOf(Rest(), maxElem).value)
        decreases remaining
      {
        ghost var was := Rest();
        var elem := ReadVarBytes(maxElem);
        if elem.None? {
          return Bad(INVALID_LIST_ENCODING);
        }
        if elem.value == [] {
          return Bad(EMPTY_ELEM_IN_LIST);
        }
        VarShorter(maxElem, was);
        if ItemsOf(Rest(), maxElem).Good? {
          var rest := ItemsOf(Rest(), maxElem).value;
          assert items + ([elem.value] + rest) == (items + [elem.value]) + rest;
        }
        items := items + [elem.value];
      }
      assert Rest() == [] && items + [] == items;
      r := Good(items);
    }

    /** `ReadSctExtension`. */
    method ReadSctExtension() returns (r: Result<seq<Extension>>)
      requires Valid()
      modifies this
      ensures Valid()
      ensures var format := ParseList2(old(Rest()));
        if r.Bad? then format == Bad(r.error) else format == Good((r.value, Rest()))
    {
      hide ReadVar, ReadUint, ParseExtensions, Wrong;
      var count := ReadNumber(2);
      if count.None? {
        return Bad(INPUT_TOO_SHORT);
      }
      if count.value > MAX_EXTENSIONS {
        return Bad(EXTENSIONS_TOO_LONG);
      }
      var list := ReadExtensions(count.value);
      if list.None? {
        return Bad(INPUT_TOO_SHORT);
      }
      var wrong := CheckSctExtensionsFormat(list.value);
      if wrong.Some? {
        return Bad(EXTENSIONS_NOT_ORDERED);
      }
      r := Good(list.value);
    }

    method ReadExtensions(count: nat) returns (r: Option<seq<Extension>>)
      requires Valid()
      modifies this
      ensures Valid() && TlsMessage.Took(ParseExtensions(count, old(Rest())), r, Rest())
    {
      hide ReadVar, ReadUint, ReadString;
      Widths();
      var list: seq<Extension> := [];
      assert forall rest: seq<Extension> :: [] + rest == rest;
      var ext := 0;
      while ext < count
        invariant ext <= count && Valid()
        invariant ParseExtensions(count - ext, Rest()).None? ==> ParseExtensions(count, old(Rest())).None?
        invariant ParseExtensions(count - ext, Rest()).Some? ==>
          var rest := ParseExtensions(count - ext, Rest()).value;
          ParseExtensions(count, old(Rest())) == Some((list + rest.0, rest.1))
      {
        var kind := ReadNumber(2);
        if kind.None? {
          return None;
        }
        SameFormat(MAX_16, [], Rest());
        var data := ReadVarBytes(MAX_16);
        if data.None? {
          return None;
        }
        var added := Extension(kind.value, data.value);
        if ParseExtensions(count - ext - 1, Rest()).Some? {
          var rest := ParseExtensions(count - ext - 1, Rest()).value.0;
          assert list + ([added] + rest) == (list + [added]) + rest;
        }
        list := list + [added];
        ext := ext + 1;
      }
      assert list + [] == list;
      r := Some(list);
    }
  }

  lemma VarShorter(max: nat, buf: Bytes)
    requires max > 0 && ReadString(max, buf).Some?
    ensures |ReadString(max, buf).value.1| + |ReadString(max, buf).value.0| <= |buf|
  {
  }

  /** `CheckSctExtensionsFormat`. */
  method CheckSctExtensionsFormat(list: seq<Extension>) returns (r: Option<Error>)
    ensures r == Wrong(list)
  {
    if |list| > MAX_EXTENSIONS {
      return Some(EXTENSIONS_TOO_LONG);
    }
    var lastTypeSeen: nat := 0;
    var i := 0;
    assert list[0..] == list;
    while i < |list|
      invariant i <= |list| && FirstWrong(list[i..], lastTypeSeen) == FirstWrong(list, 0)
    {
      assert list[i..][1..] == list[i + 1..];
      if |list[i].data| > MAX_16 {
        return Some(EXTENSIONS_TOO_LONG);
      }
      if list[i].kind > MAX_16 {
        return Some(INVALID_ENTRY_TYPE);
      }
      if list[i].kind < lastTypeSeen {
        return Some(EXTENSIONS_NOT_ORDERED);
      }
      lastTypeSeen := list[i].kind;
      i := i + 1;
    }
    r := None;
  }

  /** `WriteSctExtension`, for a list in which nothing is wrong. */
  method WriteSctExtension(list: seq<Extension>, output: Bytes) returns (out: Bytes)
    requires Wrong(list).None?
    ensures Small(list) && |list| < Pow256(2) && out == output + ToBytes(|list|, 2) + ExtensionBytes(list)
  {
    Widths();
    FirstWrongExactly(list, 0);
    var count := WriteNumber(|list|, 2, output);
    out := WriteExtensions(list, count.value);
  }

  method WriteExtensions(list: seq<Extension>, head: Bytes) returns (out: Bytes)
    requires Small(list)
    ensures out == head + ExtensionBytes(list)
  {
    hide ToBytes, Pow256, BytesFor;
    Widths();
    out := head;
    var i := 0;
    assert list[0..] == list;
    while i < |list|
      invariant i <= |list| && out + ExtensionBytes(list[i..]) == head + ExtensionBytes(list)
    {
      assert list[i..][1..] == list[i + 1..];
      SameFormat(MAX_16, list[i].data, []);
      WroteVar(list[i].data);
      var kind := WriteNumber(list[i].kind, 2, out);
      var data := WriteVarBytes(list[i].data, MAX_16, kind.value);
      ghost var a, b := ToBytes(list[i].kind, 2), WriteVar(list[i].data, 0, MAX_16).value;
      ghost var c := ExtensionBytes(list[i + 1..]);
      assert out + (a + b + c) == out + a + b + c;
      out := data.value;
      i := i + 1;
    }
    assert list[i..] == [];
  }
}
