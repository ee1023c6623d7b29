/**
 Where each part of a serialized timestamp is: the formats of cpp/proto/serializer.cc and cpp/proto/tls_encoding.cc
 by position, with their constants, and the proof that `CppSct` writes exactly these bytes.
 */
module SctLayout {
  import opened Options
  import opened TreeHashing
  import opened BigEndian
  import opened TlsSchema
  import opened CppLists
  import opened CppSct

  /** A string behind its length in two bytes. */
  ghost predicate StringIs(b: Bytes, s: Bytes) {
    |b| == 2 + |s| && FromBytes(b[..2]) == |s| && b[2..] == s
  }

  /** Extensions one after the other: a type in two bytes, a length in two bytes, and the data. */
  ghost predicate ExtensionsAre(b: Bytes, list: seq<Extension>) {
    if list == [] then b == []
    else
      var n := |list[0].data|;
      && |b| >= 4 + n && FromBytes(b[..2]) == list[0].kind && FromBytes(b[2..4]) == n && b[4..4 + n] == list[0].data
      && ExtensionsAre(b[4 + n..], list[1..])
  }

  /** A byte for each algorithm, and the signature behind its length. */
  ghost predicate SignatureIs(b: Bytes, s: Signed) {
    |b| == 4 + |s.signature| && b[0] as nat == s.hash && b[1] as nat == s.sig && StringIs(b[2..], s.signature)
  }

  /** The version, the key id, the timestamp, then the extensions, and the signature at the end. */
  ghost predicate SctIs(b: Bytes, sct: Sct) {
    var end := |b| - 4 - |sct.signature.signature|;
    && 43 <= end
    && b[0] == (if sct.V1? then 0 else 1) && b[1..33] == sct.keyId && FromBytes(b[33..41]) == sct.timestamp
    && (if sct.V1? then StringIs(b[41..end], sct.extensions)
        else FromBytes(b[41..43]) == |sct.list| && ExtensionsAre(b[43..end], sct.list))
    && SignatureIs(b[end..], sct.signature)
  }

  /** Extensions that may be written: few enough, small enough, and in ascending order of type. */
  ghost predicate Ordered(list: seq<Extension>) {
    && |list| <= 65534
    && (forall i :: 0 <= i < |list| ==> list[i].kind <= 65535 && |list[i].data| <= 65535)
    && (forall i, j :: 0 <= i < j < |list| ==> list[i].kind <= list[j].kind)
  }

  ghost predicate Serializable(sct: Sct) {
    && |sct.keyId| == 32
    && (if sct.V1? then |sct.extensions| <= 65535 else Ordered(sct.list))
    && sct.signature.hash <= 6 && sct.signature.sig <= 3 && |sct.signature.signature| <= 65535
  }

  // ---------- Parts ----------

  lemma ByteIs(b: byte)
    ensures FromBytes([b]) == b as nat
  {
    assert [b][..0] == [];
  }

  lemma WriteVarIs(s: Bytes, b: Bytes)
    ensures WriteVar(s, 0, MAX_16) == Some(b) <==> |s| <= 65535 && StringIs(b, s)
  {
    Widths();
    if |b| >= 2 {
      NumberIs(b[..2], |s|, 2);
      assert b == b[..2] + b[2..];
    }
    if |s| <= 65535 {
      var p := ToBytes(|s|, 2);
      NumberIs(p, |s|, 2);
      assert (p + s)[..2] == p && (p + s)[2..] == s;
    }
  }

  lemma {:induction false} ExtensionBytesAre(list: seq<Extension>, b: Bytes)
    requires Small(list)
    ensures ExtensionBytes(list) == b <==> ExtensionsAre(b, list)
  {
    hide ToBytes, FromBytes, Pow256, BytesFor, WriteVar, ExtensionBytes;
    if list == [] {
      NoExtensionBytes();
    } else {
      Widths();
      ExtensionBytesUnfold(list);
      var n := |list[0].data|;
      var kind, data := ToBytes(list[0].kind, 2), WriteVar(list[0].data, 0, MAX_16).value;
      var rest := ExtensionBytes(list[1..]);
      NumberIs(kind, list[0].kind, 2);
      WriteVarIs(list[0].data, data);
      ExtensionBytesAre(list[1..], rest);
      FirstExtension(kind, data, rest, list);
      if ExtensionsAre(b, list) {
        NumberIs(b[..2], list[0].kind, 2);
        assert b[2..4 + n][..2] == b[2..4] && b[2..4 + n][2..] == b[4..4 + n];
        WriteVarIs(list[0].data, b[2..4 + n]);
        ExtensionBytesAre(list[1..], b[4 + n..]);
        assert b == b[..2] + b[2..4 + n] + b[4 + n..];
      }
    }
  }

  lemma FirstExtension(kind: Bytes, data: Bytes, rest: Bytes, list: seq<Extension>)
    requires list != [] && |kind| == 2 && FromBytes(kind) == list[0].kind && StringIs(data, list[0].data)
    requires ExtensionsAre(rest, list[1..])
    ensures ExtensionsAre(kind + data + rest, list)
  {
    hide FromBytes;
    var b, n := kind + data + rest, |list[0].data|;
    assert b[..2] == kind && b[2..4] == data[..2] && b[4..4 + n] == data[2..] && b[4 + n..] == rest;
  }

  lemma SignedBytesAre(s: Signed, b: Bytes)
    ensures SignedBytes(s) == Good(b) <==>
      s.hash <= 6 && s.sig <= 3 && |s.signature| <= 65535 && SignatureIs(b, s)
  {
    hide ToBytes, FromBytes, Pow256, BytesFor, WriteVar, StringIs;
    Widths();
    if s.hash <= 6 && s.sig <= 3 && |s.signature| <= 65535 {
      WroteVar(s.signature);
      var x, y, z := ToBytes(s.hash, 1), ToBytes(s.sig, 1), WriteVar(s.signature, 0, MAX_16).value;
      OneByte(x, s.hash);
      OneByte(y, s.sig);
      WriteVarIs(s.signature, z);
      StringLength(z, s.signature);
      assert (x + y + z)[2..] == z;
      if SignatureIs(b, s) {
        OneByte([b[0]], s.hash);
        OneByte([b[1]], s.sig);
        WriteVarIs(s.signature, b[2..]);
        assert b == [b[0]] + [b[1]] + b[2..];
      }
    }
  }

  lemma OneByte(b: Bytes, n: nat)
    requires |b| == 1 && n <= 6
    ensures n < Pow256(1) && (b == ToBytes(n, 1) <==> b[0] as nat == n)
  {
    ByteIs(b[0]);
    assert b == [b[0]];
    NumberIs(b, n, 1);
  }

  lemma StringLength(b: Bytes, s: Bytes)
    requires StringIs(b, s)
    ensures |b| == 2 + |s|
  {
  }

  // ---------- The whole timestamp ----------

  lemma MiddleAre(sct: Sct, b: Bytes)
    ensures MiddleBytes(sct) == Good(b) <==>
      if sct.V1? then |sct.extensions| <= 65535 && StringIs(b, sct.extensions)
      else Ordered(sct.list) && |b| >= 2 && FromBytes(b[..2]) == |sct.list| && ExtensionsAre(b[2..], sct.list)
  {
    hide ToBytes, FromBytes, Pow256, BytesFor, WriteVar, StringIs, ExtensionsAre, ExtensionBytes, FirstWrong;
    Widths();
    if sct.V1? {
      WriteVarIs(sct.extensions, b);
      if |sct.extensions| <= 65535 {
        WroteVar(sct.extensions);
      }
    } else {
      FirstWrongExactly(sct.list, 0);
      if Ordered(sct.list) {
        var x, y := ToBytes(|sct.list|, 2), ExtensionBytes(sct.list);
        NumberIs(x, |sct.list|, 2);
        ExtensionBytesAre(sct.list, y);
        assert (x + y)[..2] == x && (x + y)[2..] == y;
        if |b| >= 2 {
          NumberIs(b[..2], |sct.list|, 2);
          ExtensionBytesAre(sct.list, b[2..]);
          assert b == b[..2] + b[2..];
        }
      }
    }
  }

  /** A timestamp is written as b exactly when it may be written and b has its parts at their positions. */
  lemma LayoutExactly(sct: Sct, b: Bytes)
    ensures SctBytes(sct) == Good(b) <==> Serializable(sct) && SctIs(b, sct)
  {
    hide ToBytes, FromBytes, Pow256, MiddleBytes, SignedBytes, StringIs, ExtensionsAre, SignatureIs, Ordered;
    if SctBytes(sct).Good? {
      WrittenIs(sct);
    }
    if Serializable(sct) && SctIs(b, sct) {
      Widths();
      var end := |b| - 4 - |sct.signature.signature|;
      CutMiddle(b, end);
      MiddleAre(sct, b[41..end]);
      SignedBytesAre(sct.signature, b[end..]);
      OneByte([b[0]], Version(sct));
      NumberIs(b[33..41], sct.timestamp, 8);
      assert b == [b[0]] + b[1..33] + b[33..41] + b[41..end] + b[end..];
    }
  }

  lemma CutMiddle(b: Bytes, end: nat)
    requires 43 <= end <= |b|
    ensures b[41..end][..2] == b[41..43] && b[41..end][2..] == b[43..end]
  {
  }

  lemma WrittenIs(sct: Sct)
    requires SctBytes(sct).Good?
    ensures Serializable(sct) && SctIs(SctBytes(sct).value, sct)
  {
    hide ToBytes, FromBytes, Pow256, MiddleBytes, SignedBytes, StringIs, ExtensionsAre;
    Widths();
    var v, t := ToBytes(Version(sct), 1), ToBytes(sct.timestamp, 8);
    var m, s := MiddleBytes(sct).value, SignedBytes(sct.signature).value;
    MiddleAre(sct, m);
    SignedBytesAre(sct.signature, s);
    if sct.V1? {
      StringLength(m, sct.extensions);
    }
    OneByte(v, Version(sct));
    NumberIs(t, sct.timestamp, 8);
    Positions(v, sct.keyId, t, m, s);
    CutMiddle(SctBytes(sct).value, 41 + |m|);
  }

  lemma Positions(v: Bytes, id: Bytes, t: Bytes, m: Bytes, s: Bytes)
    requires |v| == 1 && |id| == 32 && |t| == 8
    ensures var b := v + id + t + m + s;
      && |b| == 41 + |m| + |s| && b[0] == v[0] && b[1..33] == id && b[33..41] == t
      && b[41..41 + |m|] == m && b[41 + |m|..] == s
  {
  }

  // ---------- What is refused, and why ----------

  /** What is wrong with the extension at an index, when nothing is wrong before it. */
  function WrongAt(list: seq<Extension>, i: nat): Option<Error>
    requires i < |list|
  {
    if |list[i].data| > 65535 then Some(EXTENSIONS_TOO_LONG)
    else if list[i].kind > 65535 then Some(INVALID_ENTRY_TYPE)
    else if i > 0 && list[i].kind < list[i - 1].kind then Some(EXTENSIONS_NOT_ORDERED)
    else None
  }

  /** The error is that of the first extension with one. */
  lemma {:induction false} FirstWrongIs(list: seq<Extension>, i: nat)
    requires i <= |list|
    ensures var e := FirstWrong(list[i..], if i == 0 then 0 else list[i - 1].kind);
      if e.None? then forall k :: i <= k < |list| ==> WrongAt(list, k).None?
      else exists k :: i <= k < |list| && WrongAt(list, k) == e && forall j :: i <= j < k ==> WrongAt(list, j).None?
    decreases |list| - i
  {
    if i < |list| {
      assert list[i..][1..] == list[i + 1..];
      FirstWrongIs(list, i + 1);
      if WrongAt(list, i).None? {
        var e := FirstWrong(list[i + 1..], list[i].kind);
        if e.Some? {
          var k :| i + 1 <= k < |list| && WrongAt(list, k) == e
                   && forall j :: i + 1 <= j < k ==> WrongAt(list, j).None?;
          assert i <= k && forall j :: i <= j < k ==> WrongAt(list, j).None?;
        }
      }
    }
  }

  /** A timestamp that may not be written is refused for its extensions, then for its key id, then for the hash
      algorithm, the signature algorithm or the length of its signature. */
  lemma RefusedFor(sct: Sct)
    ensures SctBytes(sct).Good? <==> Serializable(sct)
    ensures sct.V2? ==> (Wrong(sct.list).Some? <==> !Ordered(sct.list))
    ensures !Serializable(sct) ==>
      SctBytes(sct) ==
        if sct.V1? && |sct.extensions| > 65535 then Bad(EXTENSIONS_TOO_LONG)
        else if sct.V2? && Wrong(sct.list).Some? then Bad(Wrong(sct.list).value)
        else if |sct.keyId| != 32 then Bad(INVALID_KEYID_LENGTH)
        else if sct.signature.hash > 6 then Bad(INVALID_HASH_ALGORITHM)
        else if sct.signature.sig > 3 then Bad(INVALID_SIGNATURE_ALGORITHM)
        else Bad(SIGNATURE_TOO_LONG)
  {
    hide ToBytes, Pow256, BytesFor, WriteVar, ExtensionBytes, FirstWrong;
    if sct.V2? {
      FirstWrongExactly(sct.list, 0);
    }
  }

  // ---------- Too short and too long ----------

  /** With more bytes a reader gives the same value or the same error, unless it was for want of bytes. */
  ghost predicate SameWithMore<T(!new)>(r: Result<(T, Bytes)>, more: Result<(T, Bytes)>, x: Bytes) {
    match r
    case Good(v) => more == Good((v.0, v.1 + x))
    case Bad(e) => e != INPUT_TOO_SHORT ==> more == Bad(e)
  }

  lemma FixedMore(width: nat, buf: Bytes, x: Bytes)
    requires ReadFixed(width, buf).Some?
    ensures var r := ReadFixed(width, buf).value; ReadFixed(width, buf + x) == Some((r.0, r.1 + x))
  {
    assert (buf + x)[..width] == buf[..width] && (buf + x)[width..] == buf[width..] + x;
  }

  lemma UintMore(width: nat, buf: Bytes, x: Bytes)
    requires ReadUint(width, buf).Some?
    ensures var r := ReadUint(width, buf).value; ReadUint(width, buf + x) == Some((r.0, r.1 + x))
  {
    hide FromBytes;
    FixedMore(width, buf, x);
  }

  lemma VarMore(min: nat, max: nat, buf: Bytes, x: Bytes)
    requires ReadVar(min, max, buf).Some?
    ensures var r := ReadVar(min, max, buf).value; ReadVar(min, max, buf + x) == Some((r.0, r.1 + x))
  {
    hide ReadUint, BytesFor, ReadFixed;
    UintMore(BytesFor(max), buf, x);
    var n := ReadUint(BytesFor(max), buf).value;
    FixedMore(n.0, n.1, x);
  }

  lemma SignedMore(buf: Bytes, x: Bytes)
    ensures SameWithMore(ParseSigned(buf), ParseSigned(buf + x), x)
  {
    hide ReadUint, ReadVar;
    if ReadUint(1, buf).Some? {
      UintMore(1, buf, x);
      var a := ReadUint(1, buf).value;
      if a.0 <= 6 && ReadUint(1, a.1).Some? {
        UintMore(1, a.1, x);
        var b := ReadUint(1, a.1).value;
        if b.0 <= 3 && ReadVar(0, MAX_16, b.1).Some? {
          VarMore(0, MAX_16, b.1, x);
        }
      }
    }
  }

  lemma {:induction false} ExtensionsMore(count: nat, buf: Bytes, x: Bytes)
    requires ParseExtensions(count, buf).Some?
    ensures var r := ParseExtensions(count, buf).value; ParseExtensions(count, buf + x) == Some((r.0, r.1 + x))
  {
    hide ReadUint, ReadVar;
    if count > 0 {
      var a := ReadUint(2, buf).value;
      var b := ReadVar(0, MAX_16, a.1).value;
      UintMore(2, buf, x);
      VarMore(0, MAX_16, a.1, x);
      ExtensionsMore(count - 1, b.1, x);
    }
  }

  lemma ListMore(buf: Bytes, x: Bytes)
    ensures SameWithMore(ParseList2(buf), ParseList2(buf + x), x)
  {
    hide ReadUint, ParseExtensions, Wrong;
    if ReadUint(2, buf).Some? {
      UintMore(2, buf, x);
      var n := ReadUint(2, buf).value;
      if ParseExtensions(n.0, n.1).Some? {
        ExtensionsMore(n.0, n.1, x);
      }
    }
  }

  lemma BodyMore(version: nat, buf: Bytes, x: Bytes)
    ensures SameWithMore(ParseBody(version, buf), ParseBody(version, buf + x), x)
  {
    hide ReadUint, ReadVar, ReadFixed, ParseList2, ParseSigned;
    if ReadFixed(KEY_ID_LENGTH, buf).Some? {
      FixedMore(KEY_ID_LENGTH, buf, x);
      var id := ReadFixed(KEY_ID_LENGTH, buf).value;
      if ReadUint(8, id.1).Some? {
        UintMore(8, id.1, x);
        var time := ReadUint(8, id.1).value;
        if version == 0 {
          if ReadVar(0, MAX_16, time.1).Some? {
            VarMore(0, MAX_16, time.1, x);
            SignedMore(ReadVar(0, MAX_16, time.1).value.1, x);
          }
        } else {
          ListMore(time.1, x);
          if ParseList2(time.1).Good? {
            SignedMore(ParseList2(time.1).value.1, x);
          }
        }
      }
    }
  }

  /** Of a serialized timestamp every part at the front is too short, and everything that goes on is too long. */
  lemma ShortAndLong(sct: Sct, k: nat, x: Bytes)
    requires SctBytes(sct).Good? && x != []
    ensures var b := SctBytes(sct).value;
      && (k < |b| ==> ParseSct(b[..k]) == Bad(INPUT_TOO_SHORT)) && ParseSct(b + x) == Bad(INPUT_TOO_LONG)
  {
    hide SctBytes, ParseBody, ReadUint;
    var b := SctBytes(sct).value;
    SctBack(sct);
    UintMore(1, b, x);
    BodyMore(ReadUint(1, b).value.0, ReadUint(1, b).value.1, x);
    if k < |b| && ReadUint(1, b[..k]).Some? {
      var rest := b[k..];
      assert b == b[..k] + rest;
      UintMore(1, b[..k], rest);
      var v := ReadUint(1, b[..k]).value;
      BodyMore(v.0, v.1, rest);
    }
  }

  /** Any other version is refused before anything else is looked at. */
  lemma OtherVersions(b: Bytes)
    ensures ParseSct(b) == Bad(UNSUPPORTED_VERSION) <==> b != [] && b[0] > 1
  {
    hide ParseBody;
    if b != [] {
      ByteIs(b[0]);
      assert b[..1] == [b[0]];
      NotTheVersion(1, b[1..]);
      NotTheVersion(0, b[1..]);
    }
  }

  lemma NotTheVersion(version: nat, buf: Bytes)
    ensures ParseBody(version, buf) != Bad(UNSUPPORTED_VERSION)
  {
  }

  /** The reader refuses a count above 65534, and extensions that are out of order. */
  lemma ListRefused(buf: Bytes, list: seq<Extension>, suffix: Bytes)
    requires Small(list) && |list| <= 65534
    ensures ParseList2(buf) == Bad(EXTENSIONS_TOO_LONG) <==> |buf| >= 2 && FromBytes(buf[..2]) > 65534
    ensures |list| < Pow256(2)
    ensures !Ordered(list) ==>
      ParseList2(ToBytes(|list|, 2) + ExtensionBytes(list) + suffix) == Bad(EXTENSIONS_NOT_ORDERED)
  {
    hide FromBytes, ToBytes, Pow256, BytesFor, ExtensionBytes, ParseExtensions, FirstWrong;
    Widths();
    var a, b := ToBytes(|list|, 2), ExtensionBytes(list);
    UintRoundTrip(|list|, 2, b + suffix);
    assert a + b + suffix == a + (b + suffix);
    ExtensionsBack(list, suffix);
    FirstWrongExactly(list, 0);
  }

  /** The reader of a signature refuses algorithms above 6 and 3, in this order, and otherwise only what is short. */
  lemma SignatureRefused(buf: Bytes)
    ensures ParseSigned(buf) == Bad(INVALID_HASH_ALGORITHM) <==> |buf| >= 1 && buf[0] > 6
    ensures ParseSigned(buf) == Bad(INVALID_SIGNATURE_ALGORITHM) <==> |buf| >= 2 && buf[0] <= 6 && buf[1] > 3
    ensures ParseSigned(buf).Bad? ==>
      ParseSigned(buf).error in {INPUT_TOO_SHORT, INVALID_HASH_ALGORITHM, INVALID_SIGNATURE_ALGORITHM}
  {
    hide ReadVar;
    if |buf| >= 1 {
      ByteIs(buf[0]);
      assert buf[..1] == [buf[0]];
    }
    if |buf| >= 2 {
      ByteIs(buf[1]);
      assert buf[1..][..1] == [buf[1]];
    }
  }
}
