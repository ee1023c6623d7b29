/** `TLSReader` and `TLSWriter` of python/ct/serialization/tls_message.py, proved to read and write the format of
    `TlsSchema`. An error leaves the reader or writer in some state that is not used again. */
module TlsMessage {
  import opened Options
  import opened TreeHashing
  import opened BigEndian
  import opened TlsSchema

  /** What a read returns and leaves in the buffer is what the format says. */
  ghost predicate Took<T>(format: Option<(T, Bytes)>, r: Option<T>, rest: Bytes) {
    if r.None? then format.None? else format == Some((r.value, rest))
  }

  class TlsReader {
    const buf: Bytes
    var pos: nat

    ghost predicate Valid()
      reads this
    {
      pos <= |buf|
    }

    ghost function Rest(): Bytes
      reads this
      requires Valid()
    {
      buf[pos..]
    }

    constructor (buf: Bytes)
      ensures Valid() && this.buf == buf && Rest() == buf
    {
      this.buf, this.pos := buf, 0;
    }

    method ReadFixedBytes(width: nat) returns (r: Option<Bytes>)
      requires Valid()
      modifies this`pos
      ensures Valid() && Took(ReadFixed(width, old(Rest())), r, Rest())
    {
      if pos + width > |buf| {
        return None;
      }
      r := Some(buf[pos..pos + width]);
      assert buf[pos..][..width] == buf[pos..pos + width] && buf[pos..][width..] == buf[pos + width..];
      pos := pos + width;
    }

    method ReadNumber(width: nat) returns (r: Option<nat>)
      requires Valid()
      modifies this`pos
      ensures Valid() && Took(ReadUint(width, old(Rest())), r, Rest())
    {
      var bytes := ReadFixedBytes(width);
      if bytes.None? {
        return None;
      }
      var n: nat := 0;
      var i := 0;
      while i < |bytes.value|
        invariant i <= |bytes.value| && n == FromBytes(bytes.value[..i])
      {
        assert bytes.value[..i + 1][..i] == bytes.value[..i];
        n := n * 256 + bytes.value[i] as nat;
        i := i + 1;
      }
      assert bytes.value[..i] == bytes.value;
      r := Some(n);
    }

    method ReadBoundedNumber(min: nat, max: nat) returns (r: Option<nat>)
      requires Valid()
      modifies this`pos
      ensures Valid() && Took(ReadBounded(min, max, old(Rest())), r, Rest())
    {
      r := ReadNumber(BytesFor(max));
      if r.Some? && (r.value < min || r.value > max) {
        return None;
      }
    }

    method ReadVarBytes(min: nat, max: nat) returns (r: Option<Bytes>)
      requires Valid()
      modifies this`pos
      ensures Valid() && Took(ReadVar(min, max, old(Rest())), r, Rest())
    {
      var length := ReadBoundedNumber(min, max);
      if length.None? {
        return None;
      }
      r := ReadFixedBytes(length.value);
    }

    /** The read method of a type; a sub-message is read into the one that is there. */
    method ReadValue(kind: Kind, v: Value) returns (r: Option<Value>)
      requires Valid()
      modifies this`pos
      ensures Valid() && Took(ReadOne(kind, v, old(Rest())), r, Rest())
      decreases kind, 0
    {
      r := None;
      match kind
      case Uint(width, limit) =>
        var n := ReadNumber(width);
        if n.Some? && n.value <= limit {
          r := Some(Num(n.value));
        }
      case Enum(max, values, _, _, _) =>
        if max > 0 {
          var n := ReadBoundedNumber(0, max);
          if n.Some? && n.value in values {
            r := Some(Num(n.value));
          }
        }
      case Raw(fixed, min, max) =>
        if fixed > 0 || max > 0 {
          var s;
          if fixed > 0 {
            s := ReadFixedBytes(fixed);
          } else {
            s := ReadVarBytes(min, max);
          }
          if s.Some? {
            r := Some(Str(s.value));
          }
        }
      case Sub(fs) =>
        if v.Msg? && |v.fields| == Count(fs) {
          var m := Read(fs, v.fields);
          if m.Some? {
            r := Some(Msg(m.value));
          }
        }
    }

    /** Items up to the end of the buffer. An item without bytes makes the source loop for ever; here that is an
        error. */
    method ReadToEnd(kind: Kind) returns (r: Option<seq<Value>>)
      requires Valid()
      modifies this`pos
      ensures Valid() && r == ReadItems(kind, old(Rest()))
      decreases kind, 1
    {
      var items: seq<Value> := [];
      assert forall rest: seq<Value> :: [] + rest == rest;
      while pos < |buf|
        invariant Valid()
        invariant ReadItems(kind, Rest()).None? ==> ReadItems(kind, old(Rest())).None?
        invariant ReadItems(kind, Rest()).Some? ==>
          ReadItems(kind, old(Rest())) == Some(items + ReadItems(kind, Rest()).value)
        decreases |buf| - pos
      {
        var start := pos;
        ItemsStep(kind, Rest());
        var v := ReadValue(kind, Default(kind));
        if v.None? || pos <= start {
          return None;
        }
        if ReadItems(kind, Rest()).Some? {
          assert items + ([v.value] + ReadItems(kind, Rest()).value)
            == (items + [v.value]) + ReadItems(kind, Rest()).value;
        }
        items := items + [v.value];
      }
      assert Rest() == [] && items + [] == items;
      r := Some(items);
    }

    method ReadRepeated(f: Field, v: Value) returns (r: Option<Value>)
      requires Valid() && f.repeated
      modifies this`pos
      ensures Valid() && Took(ReadField(f, v, old(Rest())), r, Rest())
      decreases f, 1
    {
      if f.maxTotal == 0 || !v.List? {
        return None;
      }
      var body := ReadVarBytes(f.minTotal, f.maxTotal);
      if body.None? {
        return None;
      }
      var reader := new TlsReader(body.value);
      var items := reader.ReadToEnd(f.kind);
      if items.None? {
        return None;
      }
      r := Some(List(v.items + items.value));
    }

    /** `read`: the fields by number, into a message. */
    method Read(fs: Fields, m: Message) returns (r: Option<Message>)
      requires Valid()
      modifies this`pos
      ensures Valid() && Took(ReadFields(fs, 0, m, old(Rest())), r, Rest())
      decreases fs, 0
    {
      var fields, i, message := fs, 0, m;
      while fields.Cons?
        invariant Valid() && (fields == fs || fields < fs)
        invariant ReadFields(fields, i, message, Rest()) == ReadFields(fs, 0, m, old(Rest()))
        decreases fields
      {
        if i >= |message| {
          return None;
        }
        var f := fields.head;
        if Present(f, message) {
          var v;
          if f.repeated {
            v := ReadRepeated(f, message[i]);
          } else {
            v := ReadValue(f.kind, message[i]);
          }
          if v.None? {
            return None;
          }
          message := message[i := v.value];
        }
        fields, i := fields.tail, i + 1;
      }
      r := Some(message);
    }
  }

  /** What is left of the items after the first. */
  lemma ItemsStep(kind: Kind, buf: Bytes)
    requires buf != []
    ensures var r := ReadOne(kind, Default(kind), buf);
      if r.None? || |r.value.1| >= |buf| || ReadItems(kind, r.value.1).None? then ReadItems(kind, buf).None?
      else ReadItems(kind, buf) == Some([r.value.0] + ReadItems(kind, r.value.1).value)
  {
  }

  /** `decode`: for every schema, the message is what the format says, and no byte is left over. */
  method DecodeMessage(fs: Fields, m0: Message, buf: Bytes) returns (r: Option<Message>)
    ensures r == Decode(fs, m0, buf)
  {
    hide ReadFields;
    var reader := new TlsReader(buf);
    r := reader.Read(fs, m0);
    assert reader.pos < |buf| <==> reader.Rest() != [];
    if r.Some? && reader.pos < |buf| {
      r := None;
    }
  }

  class TlsWriter {
    var buf: Bytes

    constructor ()
      ensures buf == []
    {
      this.buf := [];
    }

    method WriteNumber(n: nat, width: nat) returns (ok: bool)
      modifies this
      ensures ok == WriteUint(n, width).Some?
      ensures ok ==> buf == old(buf) + WriteUint(n, width).value
    {
      var bytes: Bytes := [];
      var value: nat := n;
      var i := 0;
      while i < width
        invariant i <= width && |bytes| == i && buf == old(buf)
        invariant n < Pow256(width) <==> value < Pow256(width - i)
        invariant n < Pow256(width) ==> ToBytes(n, width) == ToBytes(value, width - i) + Reversed(bytes)
      {
        LastByte(value, width - i, bytes);
        bytes := bytes + [(value % 256) as byte];
        value := value / 256;
        i := i + 1;
      }
      ok := value == 0;
      if ok {
        assert ToBytes(n, width) == Reversed(bytes);
        buf := buf + Reversed(bytes);
      }
    }

    method WriteBoundedNumber(n: nat, min: nat, max: nat) returns (ok: bool)
      modifies this
      ensures ok == WriteBounded(n, min, max).Some?
      ensures ok ==> buf == old(buf) + WriteBounded(n, min, max).value
    {
      if n < min || n > max {
        return false;
      }
      ok := WriteNumber(n, BytesFor(max));
    }

    method WriteVarBytes(s: Bytes, min: nat, max: nat) returns (ok: bool)
      modifies this
      ensures ok == WriteVar(s, min, max).Some?
      ensures ok ==> buf == old(buf) + WriteVar(s, min, max).value
    {
      ok := WriteBoundedNumber(|s|, min, max);
      if ok {
        buf := buf + s;
      }
    }

    method WriteValue(kind: Kind, v: Value) returns (ok: bool)
      modifies this
      ensures ok == WriteOne(kind, v).Some?
      ensures ok ==> buf == old(buf) + WriteOne(kind, v).value
      decreases kind, 0
    {
      ok := false;
      match kind
      case Uint(width, limit) =>
        if v.Num? && v.n <= limit {
          ok := WriteNumber(v.n, width);
        }
      case Enum(max, values, _, _, _) =>
        if v.Num? && v.n in values && max > 0 {
          ok := WriteBoundedNumber(v.n, 0, max);
        }
      case Raw(fixed, min, max) =>
        if v.Str? && fixed > 0 {
          ok := |v.s| == fixed;
          if ok {
            buf := buf + v.s;
          }
        } else if v.Str? && max > 0 {
          ok := WriteVarBytes(v.s, min, max);
        }
      case Sub(fs) =>
        if v.Msg? && |v.fields| == Count(fs) {
          ok := Write(fs, v.fields);
        }
    }

    /** A repeated field: the items into a writer of their own, then their length and their bytes. */
    method WriteRepeated(f: Field, items: seq<Value>) returns (ok: bool)
      requires f.repeated
      modifies this
      ensures ok == WriteField(f, List(items)).Some?
      ensures ok ==> buf == old(buf) + WriteField(f, List(items)).value
      decreases f, 1
    {
      var writer := new TlsWriter();
      assert forall rest: Bytes :: [] + rest == rest;
      assert items[0..] == items;
      var j := 0;
      while j < |items|
        invariant j <= |items| && fresh(writer) && buf == old(buf)
        invariant WriteItems(f.kind, items[j..]).None? ==> WriteItems(f.kind, items).None?
        invariant WriteItems(f.kind, items[j..]).Some? ==>
          WriteItems(f.kind, items) == Some(writer.buf + WriteItems(f.kind, items[j..]).value)
      {
        assert items[j..][1..] == items[j + 1..];
        ghost var written := writer.buf;
        ok := writer.WriteValue(f.kind, items[j]);
        if !ok {
          return;
        }
        if WriteItems(f.kind, items[j + 1..]).Some? {
          var a, b := WriteOne(f.kind, items[j]).value, WriteItems(f.kind, items[j + 1..]).value;
          assert written + (a + b) == written + a + b;
        }
        j := j + 1;
      }
      if f.kind.Enum? {
        ok := WriteVarBytes(writer.buf, f.kind.minTotal, f.kind.maxTotal);
      } else {
        ok := WriteVarBytes(writer.buf, f.minTotal, f.maxTotal);
      }
    }

    /** `write`: the fields by number. */
    method Write(fs: Fields, m: Message) returns (ok: bool)
      modifies this
      ensures ok == WriteFields(fs, 0, m).Some?
      ensures ok ==> buf == old(buf) + WriteFields(fs, 0, m).value
      decreases fs, 0
    {
      var fields, i := fs, 0;
      while fields.Cons?
        invariant fields == fs || fields < fs
        invariant WriteFields(fields, i, m).None? <==> WriteFields(fs, 0, m).None?
        invariant WriteFields(fs, 0, m).Some? ==>
          old(buf) + WriteFields(fs, 0, m).value == buf + WriteFields(fields, i, m).value
        decreases fields
      {
        if i >= |m| {
          return false;
        }
        var f := fields.head;
        ghost var was := buf;
        if Present(f, m) {
          if f.repeated && m[i].List? {
            ok := WriteRepeated(f, m[i].items);
          } else if f.repeated {
            ok := false;
          } else {
            ok := WriteValue(f.kind, m[i]);
          }
          if !ok {
            return;
          }
          if WriteFields(fields.tail, i + 1, m).Some? {
            var a, b := WriteField(f, m[i]).value, WriteFields(fields.tail, i + 1, m).value;
            assert was + (a + b) == was + a + b;
          }
        }
        fields, i := fields.tail, i + 1;
      }
      ok := true;
    }
  }

  function Reversed(b: Bytes): (r: Bytes)
    ensures |r| == |b|
  {
    if b == [] then [] else [b[|b| - 1]] + Reversed(b[..|b| - 1])
  }

  lemma LastByte(value: nat, width: nat, bytes: Bytes)
    requires width > 0
    ensures value < Pow256(width) <==> value / 256 < Pow256(width - 1)
    ensures value < Pow256(width) ==> var b := bytes + [(value % 256) as byte];
      ToBytes(value, width) + Reversed(bytes) == ToBytes(value / 256, width - 1) + Reversed(b)
  {
    var b := bytes + [(value % 256) as byte];
    assert b[..|b| - 1] == bytes;
  }

  /** `encode`: for every schema, the bytes are what the format says. */
  method EncodeMessage(fs: Fields, m: Message) returns (r: Option<Bytes>)
    requires |m| == Count(fs)
    ensures r == Encode(fs, m)
  {
    hide WriteFields;
    var writer := new TlsWriter();
    var ok := writer.Write(fs, m);
    assert ok ==> [] + WriteFields(fs, 0, m).value == WriteFields(fs, 0, m).value;
    r := if ok then Some(writer.buf) else None;
  }
}
