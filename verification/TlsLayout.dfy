/**
 What the bytes of a message are, field by field: which fields are on the wire, in what order, and how each value lies
 there. `TlsSchema` shows that reader and writer agree; here both are tied to the options of the fields.
 */
module TlsLayout {
  import opened Options
  import opened TreeHashing
  import opened BigEndian
  import opened TlsSchema

  // ---------- Fields by number ----------

  function FieldAt(fs: Fields, i: nat): Field
    requires i < Count(fs)
  {
    if i == 0 then fs.head else FieldAt(fs.tail, i - 1)
  }

  function Take(fs: Fields, k: nat): (first: Fields)
    requires k <= Count(fs)
    ensures Count(first) == k
  {
    if k == 0 then Nil else Cons(fs.head, Take(fs.tail, k - 1))
  }

  function Drop(fs: Fields, k: nat): (rest: Fields)
    requires k <= Count(fs)
    ensures Count(rest) == Count(fs) - k
  {
    if k == 0 then fs else Drop(fs.tail, k - 1)
  }

  lemma {:induction false} DropHead(fs: Fields, k: nat)
    requires k < Count(fs)
    ensures Drop(fs, k) == Cons(FieldAt(fs, k), Drop(fs, k + 1))
  {
    if k > 0 {
      DropHead(fs.tail, k - 1);
    }
  }

  function Joined(a: Option<Bytes>, b: Option<Bytes>): Option<Bytes> {
    if a.None? || b.None? then None else Some(a.value + b.value)
  }

  // ---------- Which fields are written, and where ----------

  lemma HeadField(f: Field, rest: Fields, i: nat, m: Message)
    requires i < |m|
    ensures var behind := WriteFields(rest, i + 1, m);
      WriteFields(Cons(f, rest), i, m) == if Present(f, m) then Joined(WriteField(f, m[i]), behind) else behind
  {
  }

  lemma JoinedTwice(a: Option<Bytes>, b: Option<Bytes>, c: Option<Bytes>)
    ensures Joined(a, Joined(b, c)) == Joined(Joined(a, b), c) && Joined(Some([]), c) == c
  {
    if a.Some? && b.Some? && c.Some? {
      assert a.value + (b.value + c.value) == a.value + b.value + c.value;
    }
    if c.Some? {
      assert [] + c.value == c.value;
    }
  }

  lemma {:induction false} FieldsSplit(fs: Fields, i: nat, m: Message, k: nat)
    requires k <= Count(fs) && i + Count(fs) <= |m|
    ensures WriteFields(fs, i, m) == Joined(WriteFields(Take(fs, k), i, m), WriteFields(Drop(fs, k), i + k, m))
    decreases k
  {
    hide WriteFields, WriteField, Present, Joined;
    var rest := WriteFields(Drop(fs, k), i + k, m);
    if k == 0 {
      NoFields(i, m);
      JoinedTwice(None, None, rest);
    } else {
      FieldsSplit(fs.tail, i + 1, m, k - 1);
      HeadField(fs.head, fs.tail, i, m);
      HeadField(fs.head, Take(fs.tail, k - 1), i, m);
      JoinedTwice(WriteField(fs.head, m[i]), WriteFields(Take(fs.tail, k - 1), i + 1, m), rest);
    }
  }

  lemma NoFields(i: nat, m: Message)
    ensures WriteFields(Nil, i, m) == Some([])
  {
  }

  /** For every schema and every field: the bytes are those of the fields before, then those of the field if it is not
      skipped and has no selector or the value that its selector asks for, then those of the fields behind. */
  lemma FieldAtItsPlace(fs: Fields, m: Message, i: nat)
    requires |m| == Count(fs) && i < |m|
    ensures var f := FieldAt(fs, i);
      var before, behind := WriteFields(Take(fs, i), 0, m), WriteFields(Drop(fs, i + 1), i + 1, m);
      && (!f.skip && f.select.None? ==> Encode(fs, m) == Joined(Joined(before, WriteField(f, m[i])), behind))
      && (!f.skip && f.select.Some? && f.select.value.0 < |m| && m[f.select.value.0] == Num(f.select.value.1) ==>
            Encode(fs, m) == Joined(Joined(before, WriteField(f, m[i])), behind))
      && (f.select.Some? && f.select.value.0 < |m| && m[f.select.value.0] != Num(f.select.value.1) ==>
            Encode(fs, m) == Joined(before, behind))
      && (f.skip ==> Encode(fs, m) == Joined(before, behind))
  {
    hide WriteField, WriteFields;
    FieldsSplit(fs, 0, m, i);
    DropHead(fs, i);
    HeadField(FieldAt(fs, i), Drop(fs, i + 1), i, m);
    var f := FieldAt(fs, i);
    var before, behind := WriteFields(Take(fs, i), 0, m), WriteFields(Drop(fs, i + 1), i + 1, m);
    if before.Some? && behind.Some? && WriteField(f, m[i]).Some? {
      var x := WriteField(f, m[i]).value;
      assert before.value + (x + behind.value) == before.value + x + behind.value;
    }
  }

  /** The value of a field decides about no other field in another way than x does. */
  ghost predicate SameChoices(fs: Fields, i: nat, v: Value, x: Value) {
    forall k, n :: 0 <= k < Count(fs) && FieldAt(fs, k).select == Some((i, n)) ==> (v == Num(n) <==> x == Num(n))
  }

  /** A field that is skipped, or whose selector has another value, does not matter to the bytes. */
  lemma UnselectedIsIgnored(fs: Fields, m: Message, i: nat, x: Value)
    requires |m| == Count(fs) && i < |m| && SameChoices(fs, i, m[i], x)
    requires var f := FieldAt(fs, i);
      f.skip || (f.select.Some? && f.select.value.0 < |m| && m[f.select.value.0] != Num(f.select.value.1))
    ensures Encode(fs, m) == Encode(fs, m[i := x])
  {
    hide WriteFields, Present, SameChoices, FieldAt;
    var m' := m[i := x];
    forall k | 0 <= k < Count(fs)
      ensures Present(FieldAt(fs, k), m) == Present(FieldAt(fs, k), m')
    {
      SamePresence(fs, m, i, x, k);
    }
    NotPresent(FieldAt(fs, i), m);
    SameFields(fs, 0, m, m');
  }

  lemma SamePresence(fs: Fields, m: Message, i: nat, x: Value, k: nat)
    requires i < |m| && SameChoices(fs, i, m[i], x) && k < Count(fs)
    ensures Present(FieldAt(fs, k), m) == Present(FieldAt(fs, k), m[i := x])
  {
    hide FieldAt;
    var f := FieldAt(fs, k);
    if f.select.Some? && f.select.value.0 == i {
      assert f.select == Some((i, f.select.value.1));
    }
  }

  lemma NotPresent(f: Field, m: Message)
    requires f.skip || (f.select.Some? && f.select.value.0 < |m| && m[f.select.value.0] != Num(f.select.value.1))
    ensures !Present(f, m)
  {
  }

  lemma {:induction false} SameFields(fs: Fields, i: nat, m: Message, m': Message)
    requires i + Count(fs) == |m| == |m'|
    requires forall k :: 0 <= k < Count(fs) ==>
      && Present(FieldAt(fs, k), m) == Present(FieldAt(fs, k), m')
      && (Present(FieldAt(fs, k), m) ==> m[i + k] == m'[i + k])
    ensures WriteFields(fs, i, m) == WriteFields(fs, i, m')
    decreases fs
  {
    hide WriteField, Present;
    if fs.Cons? {
      assert FieldAt(fs, 0) == fs.head;
      forall k | 0 <= k < Count(fs.tail)
        ensures Present(FieldAt(fs.tail, k), m) == Present(FieldAt(fs.tail, k), m')
        ensures Present(FieldAt(fs.tail, k), m) ==> m[i + 1 + k] == m'[i + 1 + k]
      {
        assert FieldAt(fs, k + 1) == FieldAt(fs.tail, k);
      }
      SameFields(fs.tail, i + 1, m, m');
    }
  }

  /** A field that was not on the wire keeps the value that it had before decoding. */
  lemma UnselectedIsKept(fs: Fields, m0: Message, m: Message, b: Bytes, i: nat)
    requires Sound(fs, 0) && |m0| == Count(fs) && Blank(fs, 0, m0) && Decode(fs, m0, b) == Some(m) && i < |m0|
    requires var f := FieldAt(fs, i);
      f.skip || (f.select.Some? && f.select.value.0 < |m| && m[f.select.value.0] != Num(f.select.value.1))
    ensures i < |m| && m[i] == m0[i]
  {
    hide Sound, Blank, Decode;
    DecodeInvertsEncode(fs, m0, m, b);
    AgreesAt(fs, 0, m0, m, i);
  }

  lemma {:induction false} AgreesAt(fs: Fields, i: nat, m0: Message, m: Message, k: nat)
    requires Agrees(fs, i, m0, m) && k < Count(fs)
    ensures i + k < |m0| == |m| && (!Present(FieldAt(fs, k), m) ==> m[i + k] == m0[i + k])
    decreases k
  {
    if k > 0 {
      AgreesAt(fs.tail, i + 1, m0, m, k - 1);
    }
  }

  // ---------- How a value lies on the wire ----------

  /** A string behind its length, in the least number of bytes for the largest length. */
  ghost predicate StringIs(b: Bytes, s: Bytes, min: nat, max: nat) {
    var width := BytesFor(max);
    min <= |s| <= max && |b| == width + |s| && FromBytes(b[..width]) == |s| && b[width..] == s
  }

  lemma WriteVarIs(s: Bytes, min: nat, max: nat, b: Bytes)
    ensures WriteVar(s, min, max) == Some(b) <==> StringIs(b, s, min, max)
  {
    hide FromBytes, ToBytes, Pow256, BytesFor;
    var width := BytesFor(max);
    if WriteVar(s, min, max).Some? {
      var p := WriteUint(|s|, width).value;
      NumberIs(p, |s|, width);
      assert (p + s)[..width] == p && (p + s)[width..] == s;
    }
    if StringIs(b, s, min, max) {
      NumberIs(b[..width], |s|, width);
      assert b == b[..width] + b[width..];
    }
  }

  /** Numbers are big-endian in the width of the field, enums in the least width for their largest value, both only
      within their limits; strings have their fixed length, or a length prefix and a length within the limits. */
  lemma ValueLayout(kind: Kind, v: Value, b: Bytes)
    ensures kind.Uint? ==>
      (WriteOne(kind, v) == Some(b) <==>
         v.Num? && v.n <= kind.limit && |b| == kind.width && FromBytes(b) == v.n)
    ensures kind.Enum? ==>
      (WriteOne(kind, v) == Some(b) <==>
         v.Num? && v.n in kind.values && v.n <= kind.max && kind.max > 0 && |b| == BytesFor(kind.max)
         && FromBytes(b) == v.n)
    ensures kind.Raw? && kind.fixed > 0 ==> (WriteOne(kind, v) == Some(b) <==> v == Str(b) && |b| == kind.fixed)
    ensures kind.Raw? && kind.fixed == 0 ==>
      (WriteOne(kind, v) == Some(b) <==> v.Str? && kind.max > 0 && StringIs(b, v.s, kind.min, kind.max))
    ensures kind.Sub? ==> (WriteOne(kind, v) == Some(b) <==> v.Msg? && Encode(kind.fields, v.fields) == Some(b))
  {
    hide FromBytes, ToBytes, Pow256, BytesFor, WriteVar, StringIs, WriteFields;
    match kind
    case Uint(width, _) => if v.Num? { NumberIs(b, v.n, width); }
    case Enum(max, _, _, _, _) => if v.Num? { NumberIs(b, v.n, BytesFor(max)); }
    case Raw(_, min, max) => if v.Str? { WriteVarIs(v.s, min, max, b); }
    case Sub(_) =>
  }

  /** Items lie one after the other. */
  lemma {:induction false} ItemsJoin(kind: Kind, a: seq<Value>, c: seq<Value>)
    ensures WriteItems(kind, a + c) == Joined(WriteItems(kind, a), WriteItems(kind, c))
    decreases |a|
  {
    hide WriteOne;
    if a == [] {
      assert a + c == c && forall s: Bytes :: [] + s == s;
    } else {
      ItemsJoin(kind, a[1..], c);
      assert (a + c)[1..] == a[1..] + c;
      if WriteOne(kind, a[0]).Some? && WriteItems(kind, a[1..]).Some? && WriteItems(kind, c).Some? {
        var x, y, z := WriteOne(kind, a[0]).value, WriteItems(kind, a[1..]).value, WriteItems(kind, c).value;
        assert x + (y + z) == x + y + z;
      }
    }
  }

  /** A repeated field is the length of all items, then the items in order; the limits are those of the enum for enums
      and those of the field otherwise. A single item is written as a value. */
  lemma RepeatedLayout(f: Field, v: Value, b: Bytes, one: Value)
    requires f.repeated
    ensures WriteField(f, v) == Some(b) <==>
      && v.List? && WriteItems(f.kind, v.items).Some?
      && (if f.kind.Enum? then StringIs(b, WriteItems(f.kind, v.items).value, f.kind.minTotal, f.kind.maxTotal)
          else StringIs(b, WriteItems(f.kind, v.items).value, f.minTotal, f.maxTotal))
    ensures WriteItems(f.kind, [one]) == WriteOne(f.kind, one) && WriteItems(f.kind, []) == Some([])
  {
    hide StringIs, WriteVar, WriteOne;
    if v.List? && WriteItems(f.kind, v.items).Some? {
      var body := WriteItems(f.kind, v.items).value;
      if f.kind.Enum? {
        WriteVarIs(body, f.kind.minTotal, f.kind.maxTotal, b);
      }
      WriteVarIs(body, f.minTotal, f.maxTotal, b);
    }
    assert [one][1..] == [];
    if WriteOne(f.kind, one).Some? {
      assert WriteOne(f.kind, one).value + [] == WriteOne(f.kind, one).value;
    }
  }
}
