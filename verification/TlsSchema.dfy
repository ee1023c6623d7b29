/**
 The wire format that python/ct/serialization/tls_message.py reads and writes, for any message schema: what the TLS
 options of a protocol buffer say about each field, and functions from messages to bytes and back.

 `None` stands for every error. The number of bytes for a bounded value is the exact integer that the source computes
 with logarithms.
 */
module TlsSchema {
  import opened Options
  import opened TreeHashing
  import opened BigEndian

  /** The type of a field with its options. The limit of a number is that of its protocol buffer type. An enum has its
      own options, with length limits that only the writer uses, and for repeated fields only. */
  datatype Kind =
    | Uint(width: nat, limit: nat)
    | Enum(max: nat, values: set<nat>, first: nat, minTotal: nat, maxTotal: nat)
    | Raw(fixed: nat, min: nat, max: nat)
    | Sub(fields: Fields)

  datatype Field = Field(
    kind: Kind, repeated: bool, minTotal: nat, maxTotal: nat, select: Option<(nat, nat)>, skip: bool)

  /** The fields of a message by number; a field selects on an earlier one by its position. */
  datatype Fields = Nil | Cons(head: Field, tail: Fields)

  datatype Value = Num(n: nat) | Str(s: Bytes) | Msg(fields: seq<Value>) | List(items: seq<Value>)

  type Message = seq<Value>

  function Count(fs: Fields): nat {
    if fs.Nil? then 0 else 1 + Count(fs.tail)
  }

  /** The field is on the wire: it is not skipped, and its selector has the right value. */
  predicate Present(f: Field, m: Message) {
    && !f.skip
    && (f.select.Some? ==> f.select.value.0 < |m| && m[f.select.value.0] == Num(f.select.value.1))
  }

  function Default(kind: Kind): Value {
    match kind
    case Uint(_, _) => Num(0)
    case Enum(_, _, first, _, _) => Num(first)
    case Raw(_, _, _) => Str([])
    case Sub(fs) => Msg(Defaults(fs))
  }

  function Defaults(fs: Fields): (m: Message)
    ensures |m| == Count(fs)
  {
    if fs.Nil? then [] else [if fs.head.repeated then List([]) else Default(fs.head.kind)] + Defaults(fs.tail)
  }

  // ---------- Bytes ----------

  function WriteUint(n: nat, width: nat): Option<Bytes> {
    if n < Pow256(width) then Some(ToBytes(n, width)) else None
  }

  function WriteBounded(n: nat, min: nat, max: nat): Option<Bytes> {
    if n < min || n > max then None else WriteUint(n, BytesFor(max))
  }

  function WriteVar(s: Bytes, min: nat, max: nat): Option<Bytes> {
    var prefix := WriteBounded(|s|, min, max);
    if prefix.None? then None else Some(prefix.value + s)
  }

  function ReadFixed(width: nat, buf: Bytes): Option<(Bytes, Bytes)> {
    if |buf| < width then None else Some((buf[..width], buf[width..]))
  }

  function ReadUint(width: nat, buf: Bytes): Option<(nat, Bytes)> {
    var r := ReadFixed(width, buf);
    if r.None? then None else Some((FromBytes(r.value.0), r.value.1))
  }

  function ReadBounded(min: nat, max: nat, buf: Bytes): Option<(nat, Bytes)> {
    var r := ReadUint(BytesFor(max), buf);
    if r.None? || r.value.0 < min || r.value.0 > max then None else r
  }

  function ReadVar(min: nat, max: nat, buf: Bytes): Option<(Bytes, Bytes)> {
    var r := ReadBounded(min, max, buf);
    if r.None? then None else ReadFixed(r.value.0, r.value.1)
  }

  // ---------- The writer ----------

  function WriteFields(fs: Fields, i: nat, m: Message): Option<Bytes>
    decreases fs, 0
  {
    if fs.Nil? then Some([])
    else if i >= |m| then None
    else if !Present(fs.head, m) then WriteFields(fs.tail, i + 1, m)
    else
      var a := WriteField(fs.head, m[i]);
      var b := WriteFields(fs.tail, i + 1, m);
      if a.None? || b.None? then None else Some(a.value + b.value)
  }

  function WriteField(f: Field, v: Value): Option<Bytes>
    decreases f, 0
  {
    if !f.repeated then WriteOne(f.kind, v)
    else if !v.List? then None
    else
      var body := WriteItems(f.kind, v.items);
      if body.None? then None
      else if f.kind.Enum? then WriteVar(body.value, f.kind.minTotal, f.kind.maxTotal)
      else WriteVar(body.value, f.minTotal, f.maxTotal)
  }

  function WriteItems(kind: Kind, items: seq<Value>): Option<Bytes>
    decreases kind, 1 + |items|
  {
    if items == [] then Some([])
    else
      var a := WriteOne(kind, items[0]);
      var b := WriteItems(kind, items[1..]);
      if a.None? || b.None? then None else Some(a.value + b.value)
  }

  function WriteOne(kind: Kind, v: Value): Option<Bytes>
    decreases kind, 0
  {
    match kind
    case Uint(width, limit) => if v.Num? && v.n <= limit then WriteUint(v.n, width) else None
    case Enum(max, values, _, _, _) => if v.Num? && v.n in values && max > 0 then WriteBounded(v.n, 0, max) else None
    case Raw(fixed, min, max) =>
      if !v.Str? then None
      else if fixed > 0 then if |v.s| == fixed then Some(v.s) else None
      else if max > 0 then WriteVar(v.s, min, max)
      else None
    case Sub(fs) => if v.Msg? && |v.fields| == Count(fs) then WriteFields(fs, 0, v.fields) else None
  }

  // ---------- The reader ----------

  /** The fields from number i on, read into a message. */
  function ReadFields(fs: Fields, i: nat, m: Message, buf: Bytes): Option<(Message, Bytes)>
    decreases fs, 0
  {
    if fs.Nil? then Some((m, buf))
    else if i >= |m| then None
    else if !Present(fs.head, m) then ReadFields(fs.tail, i + 1, m, buf)
    else
      var r := ReadField(fs.head, m[i], buf);
      if r.None? then None else ReadFields(fs.tail, i + 1, m[i := r.value.0], r.value.1)
  }

  function ReadField(f: Field, v: Value, buf: Bytes): Option<(Value, Bytes)>
    decreases f, 0
  {
    if !f.repeated then ReadOne(f.kind, v, buf)
    else if f.maxTotal == 0 || !v.List? then None
    else
      var r := ReadVar(f.minTotal, f.maxTotal, buf);
      if r.None? then None
      else
        var items := ReadItems(f.kind, r.value.0);
        if items.None? then None else Some((List(v.items + items.value), r.value.1))
  }

  /** Items up to the end of the buffer. The source does not end on an item without bytes. */
  function ReadItems(kind: Kind, buf: Bytes): Option<seq<Value>>
    decreases kind, 1 + |buf|
  {
    if buf == [] then Some([])
    else
      var r := ReadOne(kind, Default(kind), buf);
      if r.None? || |r.value.1| >= |buf| then None
      else
        var rest := ReadItems(kind, r.value.1);
        if rest.None? then None else Some([r.value.0] + rest.value)
  }

  function ReadOne(kind: Kind, v: Value, buf: Bytes): Option<(Value, Bytes)>
    decreases kind, 0
  {
    match kind
    case Uint(width, limit) =>
      var r := ReadUint(width, buf);
      if r.None? || r.value.0 > limit then None else Some((Num(r.value.0), r.value.1))
    case Enum(max, values, _, _, _) =>
      if max == 0 then None
      else
        var r := ReadBounded(0, max, buf);
        if r.None? || r.value.0 !in values then None else Some((Num(r.value.0), r.value.1))
    case Raw(fixed, min, max) =>
      var r := if fixed > 0 then ReadFixed(fixed, buf) else if max > 0 then ReadVar(min, max, buf) else None;
      if r.None? then None else Some((Str(r.value.0), r.value.1))
    case Sub(fs) =>
      if !v.Msg? || |v.fields| != Count(fs) then None
      else
        var r := ReadFields(fs, 0, v.fields, buf);
        if r.None? then None else Some((Msg(r.value.0), r.value.1))
  }

  // ---------- Bytes, both ways ----------

  lemma FixedRoundTrip(s: Bytes, suffix: Bytes)
    ensures ReadFixed(|s|, s + suffix) == Some((s, suffix))
  {
  }

  lemma UintRoundTrip(n: nat, width: nat, suffix: Bytes)
    requires WriteUint(n, width).Some?
    ensures ReadUint(width, WriteUint(n, width).value + suffix) == Some((n, suffix))
  {
    FromTo(n, width);
    FixedRoundTrip(ToBytes(n, width), suffix);
  }

  lemma VarRoundTrip(s: Bytes, min: nat, max: nat, suffix: Bytes)
    requires WriteVar(s, min, max).Some?
    ensures ReadVar(min, max, WriteVar(s, min, max).value + suffix) == Some((s, suffix))
  {
    var prefix := WriteBounded(|s|, min, max).value;
    UintRoundTrip(|s|, BytesFor(max), s + suffix);
    assert prefix + s + suffix == prefix + (s + suffix);
    FixedRoundTrip(s, suffix);
  }

  lemma UintCanonical(width: nat, buf: Bytes)
    requires ReadUint(width, buf).Some?
    ensures var r := ReadUint(width, buf).value; WriteUint(r.0, width).Some? && buf == WriteUint(r.0, width).value + r.1
  {
    ToFrom(buf[..width]);
  }

  lemma VarCanonical(min: nat, max: nat, buf: Bytes)
    requires ReadVar(min, max, buf).Some?
    ensures var r := ReadVar(min, max, buf).value;
      WriteVar(r.0, min, max).Some? && buf == WriteVar(r.0, min, max).value + r.1
  {
    UintCanonical(BytesFor(max), buf);
  }

  // ---------- Schemas and messages that make sense ----------

  /** A number of items of one width is within limits. */
  predicate Within(count: nat, width: nat, min: nat, max: nat) {
    min <= count * width <= max
  }

  /** The limits of a repeated field that the reader accepts; it refuses a field without a limit. */
  predicate Readable(f: Field, count: nat, width: nat) {
    f.maxTotal > 0 && Within(count, width, f.minTotal, f.maxTotal)
  }

  /** The writer of a repeated enum takes its limits from the enum, and the reader from the field. They fit if they
      allow the same numbers of items, with prefixes of the same width if they allow any. */
  ghost predicate EnumFits(f: Field)
    requires f.kind.Enum?
  {
    var width := BytesFor(f.kind.max);
    && (forall c: nat :: Within(c, width, f.kind.minTotal, f.kind.maxTotal) <==> Readable(f, c, width))
    && ((exists c: nat :: Readable(f, c, width)) ==> BytesFor(f.kind.maxTotal) == BytesFor(f.maxTotal))
  }

  /** Both sides of a repeated field agree on its length: the two sets of options of an enum fit; otherwise the
      field has a limit, or one that nothing meets. */
  ghost predicate LimitsFit(f: Field) {
    if f.kind.Enum? then EnumFits(f) else f.maxTotal > 0 || f.minTotal > 0
  }

  /** Selectors come first, and both sides of every repeated field agree on its length. */
  ghost predicate Sound(fs: Fields, i: nat)
    decreases fs
  {
    fs.Nil? || (
      var f := fs.head;
      && (f.select.Some? ==> f.select.value.0 < i)
      && (f.repeated ==> LimitsFit(f))
      && (f.kind.Sub? ==> Sound(f.kind.fields, 0))
      && Sound(fs.tail, i + 1))
  }

  /** Every item of an enum takes the same number of bytes. */
  lemma {:induction false} EnumWidth(kind: Kind, items: seq<Value>)
    requires kind.Enum? && WriteItems(kind, items).Some?
    ensures |WriteItems(kind, items).value| == |items| * BytesFor(kind.max)
  {
    hide BytesFor, Pow256;
    if items != [] {
      EnumWidth(kind, items[1..]);
      OneMore(|items| - 1, BytesFor(kind.max));
    }
  }

  lemma OneMore(count: nat, width: nat)
    ensures (count + 1) * width == width + count * width && 0 * width == 0
  {
  }

  /** The writer writes a repeated field as the reader's limits say. */
  lemma FieldAsRead(f: Field, items: seq<Value>)
    requires f.repeated && LimitsFit(f)
    ensures var body := WriteItems(f.kind, items);
      WriteField(f, List(items))
      == if body.None? || f.maxTotal == 0 then None else WriteVar(body.value, f.minTotal, f.maxTotal)
  {
    hide WriteItems, ToBytes, Pow256, BytesFor;
    var body := WriteItems(f.kind, items);
    if f.kind.Enum? && body.Some? {
      EnumWidth(f.kind, items);
      var width := BytesFor(f.kind.max);
      assert Within(|items|, width, f.kind.minTotal, f.kind.maxTotal) <==> Readable(f, |items|, width);
    }
  }

  /** The message m0 is one into which m can be read: fields that are not on the wire are filled in already, repeated
      fields that are on the wire are empty, and every item of a repeated field takes at least one byte. */
  ghost predicate Agrees(fs: Fields, i: nat, m0: Message, m: Message)
    decreases fs, 0
  {
    fs.Nil? || (
      && i < |m0| == |m|
      && (if Present(fs.head, m) then FieldAgrees(fs.head, m0[i], m[i]) else m0[i] == m[i])
      && Agrees(fs.tail, i + 1, m0, m))
  }

  ghost predicate FieldAgrees(f: Field, v0: Value, v: Value)
    decreases f, 0
  {
    if f.repeated then v0 == List([]) && v.List? && ItemsAgree(f.kind, v.items) else OneAgrees(f.kind, v0, v)
  }

  ghost predicate ItemsAgree(kind: Kind, items: seq<Value>)
    decreases kind, 1 + |items|
  {
    items == [] || (
      && OneAgrees(kind, Default(kind), items[0]) && WriteOne(kind, items[0]) != Some([])
      && ItemsAgree(kind, items[1..]))
  }

  ghost predicate OneAgrees(kind: Kind, v0: Value, v: Value)
    decreases kind, 0
  {
    kind.Sub? ==>
      && v0.Msg? && v.Msg? && |v0.fields| == |v.fields| == Count(kind.fields)
      && Agrees(kind.fields, 0, v0.fields, v.fields)
  }

  /** Only the fields from number i on matter. */
  lemma {:induction false} AgreesFrame(fs: Fields, i: nat, a: Message, b: Message, m: Message)
    requires Agrees(fs, i, a, m) && |a| == |b| && forall j :: i <= j < |a| ==> b[j] == a[j]
    ensures Agrees(fs, i, b, m)
    decreases fs
  {
    if fs.Cons? {
      AgreesFrame(fs.tail, i + 1, a, b, m);
    }
  }

  // ---------- Decoding undoes encoding ----------

  lemma SameSelection(f: Field, i: nat, a: Message, b: Message)
    requires (f.select.Some? ==> f.select.value.0 < i) && i <= |a| == |b| && a[..i] == b[..i]
    ensures Present(f, a) == Present(f, b)
  {
    if f.select.Some? {
      var j := f.select.value.0;
      assert a[j] == a[..i][j] && b[j] == b[..i][j];
    }
  }

  lemma {:induction false} FieldsRoundTrip(fs: Fields, i: nat, cur: Message, m: Message, suffix: Bytes)
    requires Sound(fs, i) && WriteFields(fs, i, m).Some? && Agrees(fs, i, cur, m)
    requires i + Count(fs) == |m| == |cur| && cur[..i] == m[..i]
    ensures ReadFields(fs, i, cur, WriteFields(fs, i, m).value + suffix) == Some((m, suffix))
    decreases fs, 0
  {
    if fs.Nil? {
      assert cur == cur[..i] && m == m[..i];
      assert [] + suffix == suffix;
    } else {
      var f := fs.head;
      SameSelection(f, i, cur, m);
      if Present(f, m) {
        var a, b := WriteField(f, m[i]).value, WriteFields(fs.tail, i + 1, m).value;
        FieldRoundTrip(f, cur[i], m[i], b + suffix);
        assert a + b + suffix == a + (b + suffix);
        var next := cur[i := m[i]];
        assert next[..i + 1] == cur[..i] + [m[i]] && m[..i + 1] == m[..i] + [m[i]];
        AgreesFrame(fs.tail, i + 1, cur, next, m);
        FieldsRoundTrip(fs.tail, i + 1, next, m, suffix);
      } else {
        assert cur[..i + 1] == cur[..i] + [cur[i]] && m[..i + 1] == m[..i] + [m[i]];
        FieldsRoundTrip(fs.tail, i + 1, cur, m, suffix);
      }
    }
  }

  lemma {:induction false} FieldRoundTrip(f: Field, v0: Value, v: Value, suffix: Bytes)
    requires WriteField(f, v).Some? && FieldAgrees(f, v0, v)
    requires f.repeated ==> LimitsFit(f)
    requires f.kind.Sub? ==> Sound(f.kind.fields, 0)
    ensures ReadField(f, v0, WriteField(f, v).value + suffix) == Some((v, suffix))
    decreases f, 0
  {
    if f.repeated {
      FieldAsRead(f, v.items);
      var body := WriteItems(f.kind, v.items).value;
      VarRoundTrip(body, f.minTotal, f.maxTotal, suffix);
      ItemsRoundTrip(f.kind, v.items);
      assert [] + v.items == v.items;
    } else {
      OneRoundTrip(f.kind, v0, v, suffix);
    }
  }

  lemma {:induction false} ItemsRoundTrip(kind: Kind, items: seq<Value>)
    requires WriteItems(kind, items).Some? && ItemsAgree(kind, items)
    requires kind.Sub? ==> Sound(kind.fields, 0)
    ensures ReadItems(kind, WriteItems(kind, items).value) == Some(items)
    decreases kind, 1 + |items|
  {
    if items != [] {
      var a, b := WriteOne(kind, items[0]).value, WriteItems(kind, items[1..]).value;
      OneRoundTrip(kind, Default(kind), items[0], b);
      ItemsRoundTrip(kind, items[1..]);
      assert items == [items[0]] + items[1..];
    }
  }

  lemma {:induction false} OneRoundTrip(kind: Kind, v0: Value, v: Value, suffix: Bytes)
    requires WriteOne(kind, v).Some? && OneAgrees(kind, v0, v)
    requires kind.Sub? ==> Sound(kind.fields, 0)
    ensures ReadOne(kind, v0, WriteOne(kind, v).value + suffix) == Some((v, suffix))
    decreases kind, 0
  {
    match kind
    case Uint(width, _) => UintRoundTrip(v.n, width, suffix);
    case Enum(max, _, _, _, _) => UintRoundTrip(v.n, BytesFor(max), suffix);
    case Raw(fixed, min, max) =>
      if fixed > 0 { FixedRoundTrip(v.s, suffix); } else { VarRoundTrip(v.s, min, max, suffix); }
    case Sub(fs) => FieldsRoundTrip(fs, 0, v0.fields, v.fields, suffix);
  }

  // ---------- Encoding undoes decoding ----------

  /** A message to read into: sub-messages are there, and repeated fields are empty. */
  ghost predicate Blank(fs: Fields, i: nat, m: Message)
    decreases fs
  {
    fs.Nil? || (
      && i < |m|
      && (if fs.head.repeated then m[i] == List([]) else BlankOne(fs.head.kind, m[i]))
      && Blank(fs.tail, i + 1, m))
  }

  ghost predicate BlankOne(kind: Kind, v: Value)
    decreases kind
  {
    kind.Sub? ==> v.Msg? && |v.fields| == Count(kind.fields) && Blank(kind.fields, 0, v.fields)
  }

  lemma {:induction false} BlankFrame(fs: Fields, i: nat, a: Message, b: Message)
    requires Blank(fs, i, a) && |a| == |b| && forall j :: i <= j < |a| ==> b[j] == a[j]
    ensures Blank(fs, i, b)
    decreases fs
  {
    if fs.Cons? {
      BlankFrame(fs.tail, i + 1, a, b);
    }
  }

  lemma {:induction false} DefaultBlank(kind: Kind)
    ensures BlankOne(kind, Default(kind))
    decreases kind, 0
  {
    if kind.Sub? {
      DefaultsBlank(kind.fields, 0, Defaults(kind.fields));
    }
  }

  lemma {:induction false} DefaultsBlank(fs: Fields, i: nat, m: Message)
    requires i + Count(fs) == |m| && m[i..] == Defaults(fs)
    ensures Blank(fs, i, m)
    decreases fs, 1
  {
    if fs.Cons? {
      assert m[i] == m[i..][0] && m[i + 1..] == m[i..][1..] && Defaults(fs)[1..] == Defaults(fs.tail);
      DefaultBlank(fs.head.kind);
      DefaultsBlank(fs.tail, i + 1, m);
    }
  }

  /** Whatever is read is written back as the bytes that were read, and could be read into the same message. */
  lemma {:induction false} FieldsCanonical(fs: Fields, i: nat, cur: Message, buf: Bytes)
    requires Sound(fs, i) && Blank(fs, i, cur) && i + Count(fs) == |cur| && ReadFields(fs, i, cur, buf).Some?
    ensures var r := ReadFields(fs, i, cur, buf).value;
      && |r.0| == |cur| && r.0[..i] == cur[..i] && WriteFields(fs, i, r.0).Some?
      && buf == WriteFields(fs, i, r.0).value + r.1 && Agrees(fs, i, cur, r.0)
    decreases fs, 0
  {
    if fs.Cons? {
      var f := fs.head;
      var m := ReadFields(fs, i, cur, buf).value.0;
      if Present(f, cur) {
        var r := ReadField(f, cur[i], buf).value;
        var next := cur[i := r.0];
        FieldCanonical(f, cur[i], buf);
        BlankFrame(fs.tail, i + 1, cur, next);
        FieldsCanonical(fs.tail, i + 1, next, r.1);
        Kept(cur, next, m, i);
        AgreesFrame(fs.tail, i + 1, next, cur, m);
      } else {
        FieldsCanonical(fs.tail, i + 1, cur, buf);
        Kept(cur, cur, m, i);
      }
      SameSelection(f, i, cur, m);
    }
  }

  lemma Kept(cur: Message, next: Message, m: Message, i: nat)
    requires i < |cur| == |next| == |m| && m[..i + 1] == next[..i + 1] && next[..i] == cur[..i]
    ensures m[..i] == cur[..i] && m[i] == next[i]
  {
    assert m[..i] == m[..i + 1][..i] && next[..i] == next[..i + 1][..i];
    assert m[i] == m[..i + 1][i] && next[i] == next[..i + 1][i];
  }

  lemma {:induction false} FieldCanonical(f: Field, v: Value, buf: Bytes)
    requires ReadField(f, v, buf).Some? && (if f.repeated then v == List([]) else BlankOne(f.kind, v))
    requires f.repeated ==> LimitsFit(f)
    requires f.kind.Sub? ==> Sound(f.kind.fields, 0)
    ensures var r := ReadField(f, v, buf).value;
      WriteField(f, r.0).Some? && buf == WriteField(f, r.0).value + r.1 && FieldAgrees(f, v, r.0)
    decreases f, 0
  {
    if f.repeated {
      var body := ReadVar(f.minTotal, f.maxTotal, buf).value.0;
      VarCanonical(f.minTotal, f.maxTotal, buf);
      ItemsCanonical(f.kind, body);
      var items := ReadItems(f.kind, body).value;
      assert [] + items == items;
      FieldAsRead(f, items);
    } else {
      OneCanonical(f.kind, v, buf);
    }
  }

  lemma {:induction false} ItemsCanonical(kind: Kind, buf: Bytes)
    requires ReadItems(kind, buf).Some? && (kind.Sub? ==> Sound(kind.fields, 0))
    ensures WriteItems(kind, ReadItems(kind, buf).value) == Some(buf) && ItemsAgree(kind, ReadItems(kind, buf).value)
    decreases kind, 1 + |buf|
  {
    if buf != [] {
      var r := ReadOne(kind, Default(kind), buf).value;
      DefaultBlank(kind);
      OneCanonical(kind, Default(kind), buf);
      ItemsCanonical(kind, r.1);
      var rest := ReadItems(kind, r.1).value;
      assert ([r.0] + rest)[1..] == rest;
    }
  }

  lemma {:induction false} OneCanonical(kind: Kind, v: Value, buf: Bytes)
    requires ReadOne(kind, v, buf).Some? && BlankOne(kind, v) && (kind.Sub? ==> Sound(kind.fields, 0))
    ensures var r := ReadOne(kind, v, buf).value;
      WriteOne(kind, r.0).Some? && buf == WriteOne(kind, r.0).value + r.1 && OneAgrees(kind, v, r.0)
    decreases kind, 0
  {
    match kind
    case Uint(width, _) => UintCanonical(width, buf);
    case Enum(max, _, _, _, _) => UintCanonical(BytesFor(max), buf);
    case Raw(fixed, min, max) => if fixed == 0 { VarCanonical(min, max, buf); }
    case Sub(fs) => FieldsCanonical(fs, 0, v.fields, buf);
  }

  // ---------- Whole messages ----------

  function Encode(fs: Fields, m: Message): Option<Bytes> {
    if |m| == Count(fs) then WriteFields(fs, 0, m) else None
  }

  /** `decode` into a message; nothing may be left over. */
  function Decode(fs: Fields, m0: Message, buf: Bytes): Option<Message> {
    var r := ReadFields(fs, 0, m0, buf);
    if r.None? || r.value.1 != [] then None else Some(r.value.0)
  }

  /** For every schema: the message m is decoded from the bytes b exactly when m is encoded as b. */
  lemma DecodeInvertsEncode(fs: Fields, m0: Message, m: Message, b: Bytes)
    requires Sound(fs, 0) && |m0| == Count(fs) && Blank(fs, 0, m0)
    ensures Decode(fs, m0, b) == Some(m) <==> |m| == Count(fs) && Encode(fs, m) == Some(b) && Agrees(fs, 0, m0, m)
  {
    if |m| == Count(fs) && Encode(fs, m) == Some(b) && Agrees(fs, 0, m0, m) {
      FieldsRoundTrip(fs, 0, m0, m, []);
      assert b + [] == b;
    }
    if Decode(fs, m0, b) == Some(m) {
      FieldsCanonical(fs, 0, m0, b);
      assert WriteFields(fs, 0, m).value + [] == WriteFields(fs, 0, m).value;
    }
  }

  // ---------- Repeated enums ----------

  /** What is read from some bytes is exactly what is written as them. */
  ghost predicate Inverse(f: Field) {
    forall items: seq<Value>, b: Bytes :: InverseAt(f, items, b)
  }

  ghost predicate InverseAt(f: Field, items: seq<Value>, b: Bytes) {
    WriteField(f, List(items)) == Some(b) <==> ReadField(f, List([]), b) == Some((List(items), []))
  }

  /** An enum has a value that can be written. */
  predicate Writable(kind: Kind, n: nat) {
    kind.Enum? && n in kind.values && n <= kind.max && kind.max > 0
  }

  /** A repeated enum field with a value that can be written is read and written inversely exactly when the limits
      of the enum and those of the field fit. */
  lemma RepeatedEnumExactly(f: Field, n: nat)
    requires f.repeated && Writable(f.kind, n)
    ensures Inverse(f) <==> EnumFits(f)
  {
    hide WriteField, ReadField;
    if EnumFits(f) {
      forall items: seq<Value>, b: Bytes
        ensures InverseAt(f, items, b)
      {
        FitsIsInverse(f, items, b);
      }
    }
    if Inverse(f) {
      var width := BytesFor(f.kind.max);
      forall c: nat
        ensures Within(c, width, f.kind.minTotal, f.kind.maxTotal) <==> Readable(f, c, width)
      {
        InverseIsFit(f, n, c);
      }
      if c: nat :| Readable(f, c, width) {
        InverseIsFit(f, n, c);
      }
    }
  }

  lemma FitsIsInverse(f: Field, items: seq<Value>, b: Bytes)
    requires f.repeated && f.kind.Enum? && EnumFits(f)
    ensures InverseAt(f, items, b)
  {
    hide WriteItems, ReadItems, WriteVar, ReadVar, BytesFor;
    if WriteField(f, List(items)) == Some(b) {
      EnumAgrees(f.kind, items);
      FieldRoundTrip(f, List([]), List(items), []);
      assert b + [] == b;
    }
    if ReadField(f, List([]), b) == Some((List(items), [])) {
      FieldCanonical(f, List([]), b);
      var w := WriteField(f, List(items)).value;
      assert w + [] == w;
    }
  }

  lemma {:induction false} EnumAgrees(kind: Kind, items: seq<Value>)
    requires kind.Enum? && WriteItems(kind, items).Some?
    ensures ItemsAgree(kind, items)
  {
    if items != [] {
      EnumAgrees(kind, items[1..]);
    }
  }

  /** Any other repeated field without a length limit is written and not read when it is empty. */
  lemma RepeatedNeedsLimit(f: Field)
    requires f.repeated && !f.kind.Enum? && !LimitsFit(f)
    ensures WriteField(f, List([])) == Some([]) && ReadField(f, List([]), []) == None
  {
    assert WriteItems(f.kind, []) == Some([]);
    assert ToBytes(0, 0) + [] == [] && BytesFor(0) == 0;
  }

  /** Some copies of one value. */
  function Copies(n: nat, count: nat): (items: seq<Value>)
    ensures |items| == count
  {
    if count == 0 then [] else [Num(n)] + Copies(n, count - 1)
  }

  lemma {:induction false} CopiesWrite(kind: Kind, n: nat, count: nat)
    requires Writable(kind, n)
    ensures WriteItems(kind, Copies(n, count)).Some?
  {
    if count > 0 {
      CopiesWrite(kind, n, count - 1);
      assert Copies(n, count)[1..] == Copies(n, count - 1);
      BytesForHolds(kind.max, n);
    }
  }

  /** A number of items that one side allows is one that the other allows, with the same width of the prefix. */
  lemma InverseIsFit(f: Field, n: nat, c: nat)
    requires f.repeated && Writable(f.kind, n) && Inverse(f)
    ensures var width := BytesFor(f.kind.max);
      && (Within(c, width, f.kind.minTotal, f.kind.maxTotal) <==> Readable(f, c, width))
      && (Readable(f, c, width) ==> BytesFor(f.kind.maxTotal) == BytesFor(f.maxTotal))
  {
    hide WriteItems, ReadItems, ReadVar, BytesFor, ToBytes, Pow256;
    var items := Copies(n, c);
    CopiesWrite(f.kind, n, c);
    EnumWidth(f.kind, items);
    EnumAgrees(f.kind, items);
    ItemsRoundTrip(f.kind, items);
    var body := WriteItems(f.kind, items).value;
    var width := BytesFor(f.kind.max);
    if Readable(f, c, width) {
      BytesForHolds(f.maxTotal, |body|);
      var b := WriteVar(body, f.minTotal, f.maxTotal).value;
      VarRoundTrip(body, f.minTotal, f.maxTotal, []);
      assert b + [] == b && [] + items == items;
      assert InverseAt(f, items, b);
    }
    if Within(c, width, f.kind.minTotal, f.kind.maxTotal) {
      BytesForHolds(f.kind.maxTotal, |body|);
      var b := WriteVar(body, f.kind.minTotal, f.kind.maxTotal).value;
      assert InverseAt(f, items, b);
      var read := ReadVar(f.minTotal, f.maxTotal, b).value.0;
      VarCanonical(f.minTotal, f.maxTotal, b);
      ItemsCanonical(f.kind, read);
      assert [] + ReadItems(f.kind, read).value == ReadItems(f.kind, read).value;
      assert read == body;
    }
  }

  /** One repeated enum field whose own options give no total length, as the options of the schema do. */
  const FLAGS := Cons(Field(Enum(1, {0, 1}, 0, 0, 0), true, 0, 255, None, false), Nil)

  /** Such a field breaks the second half: it can be read, but what was read cannot be written. */
  lemma RepeatedEnumIsLost()
    ensures Decode(FLAGS, [List([])], [1, 1]) == Some([List([Num(1)])]) && Encode(FLAGS, [List([Num(1)])]) == None
  {
    var kind := FLAGS.head.kind;
    var one: Bytes := [1];
    assert FromBytes(one) == 1 by { assert one[..0] == []; }
    assert one[..1] == one && one[1..] == [];
    var b: Bytes := [1, 1];
    assert b[..1] == [1] && b[1..] == [1];
    assert BytesFor(255) == 1 && BytesFor(1) == 1;
    assert ReadVar(0, 255, b) == Some(([1], []));
    assert ReadOne(kind, Default(kind), [1]) == Some((Num(1), []));
    assert ReadItems(kind, []) == Some([]);
    assert ReadItems(kind, one) == Some([Num(1)]) by { assert [Num(1)] + [] == [Num(1)]; }
    var items: seq<Value> := [Num(1)];
    assert ReadField(FLAGS.head, List([]), b) == Some((List(items), [])) by { assert [] + items == items; }
    var m0: Message := [List([])];
    assert m0[0 := List(items)] == [List(items)];
    assert ReadFields(FLAGS, 0, m0, b) == Some(([List(items)], []));
    assert items[1..] == [];
    assert WriteOne(kind, Num(1)) == Some([1]) by { assert ToBytes(1, 1) == [1]; }
    assert WriteItems(kind, items[1..]) == Some([]);
  }
}
