/**
 Signed certificate timestamps on the wire: cpp/proto/serializer.cc and the signature part of cpp/proto/tls_encoding.cc.
 A timestamp is an unsigned 64-bit number; algorithms are the numbers of section 7.4.1.4.1 of RFC 5246.
 */
module CppSct {
  import opened Options
  import opened TreeHashing
  import opened BigEndian
  import opened TlsSchema
  import opened CppLists

  const MAX_16 := 65535

  const MAX_EXTENSIONS := 65534

  const KEY_ID_LENGTH := 32

  type Uint64 = n: int | 0 <= n < 0x1_0000_0000_0000_0000

  datatype Signed = Signed(hash: nat, sig: nat, signature: Bytes)

  datatype Extension = Extension(kind: nat, data: Bytes)

  datatype Sct =
    | V1(keyId: Bytes, timestamp: Uint64, extensions: Bytes, signature: Signed)
    | V2(keyId: Bytes, timestamp: Uint64, list: seq<Extension>, signature: Signed)

  lemma Widths()
    ensures Pow256(1) == 256 && Pow256(2) == 65536 && Pow256(8) == 0x1_0000_0000_0000_0000
    ensures BytesFor(MAX_16) == 2 && Limit(MAX_16)
  {
    assert Pow256(2) == 256 * Pow256(1) && Pow256(4) == 256 * (256 * Pow256(2)) && Pow256(6) == 256 * (256 * Pow256(4));
    assert Pow256(8) == 256 * (256 * Pow256(6));
    assert BytesFor(255) == 1 && BytesFor(65535) == 2 && BytesFor(65534) == 2;
  }

  lemma WroteVar(s: Bytes)
    requires |s| <= MAX_16
    ensures WriteVar(s, 0, MAX_16).Some?
  {
    Widths();
  }

  // ---------- Signatures ----------

  /** `CheckSignatureFormat` and `WriteDigitallySigned`. */
  function SignedBytes(s: Signed): Result<Bytes> {
    Widths();
    if s.hash > 6 then Bad(INVALID_HASH_ALGORITHM)
    else if s.sig > 3 then Bad(INVALID_SIGNATURE_ALGORITHM)
    else if |s.signature| > MAX_16 then Bad(SIGNATURE_TOO_LONG)
    else Good(ToBytes(s.hash, 1) + ToBytes(s.sig, 1) + WriteVar(s.signature, 0, MAX_16).value)
  }

  /** `ReadDigitallySigned`. */
  function ParseSigned(buf: Bytes): Result<(Signed, Bytes)> {
    var a := ReadUint(1, buf);
    if a.None? then Bad(INPUT_TOO_SHORT)
    else if a.value.0 > 6 then Bad(INVALID_HASH_ALGORITHM)
    else
      var b := ReadUint(1, a.value.1);
      if b.None? then Bad(INPUT_TOO_SHORT)
      else if b.value.0 > 3 then Bad(INVALID_SIGNATURE_ALGORITHM)
      else
        var c := ReadVar(0, MAX_16, b.value.1);
        if c.None? then Bad(INPUT_TOO_SHORT) else Good((Signed(a.value.0, b.value.0, c.value.0), c.value.1))
  }

  lemma SignedBack(s: Signed, suffix: Bytes)
    requires SignedBytes(s).Good?
    ensures ParseSigned(SignedBytes(s).value + suffix) == Good((s, suffix))
  {
    hide ToBytes, ReadUint, ReadVar, WriteVar, Pow256, BytesFor;
    Widths();
    WroteVar(s.signature);
    var a, b, c := ToBytes(s.hash, 1), ToBytes(s.sig, 1), WriteVar(s.signature, 0, MAX_16).value;
    UintRoundTrip(s.hash, 1, b + c + suffix);
    UintRoundTrip(s.sig, 1, c + suffix);
    VarRoundTrip(s.signature, 0, MAX_16, suffix);
    assert a + b + c + suffix == a + (b + c + suffix);
    assert b + c + suffix == b + (c + suffix);
  }

  lemma SignedCanonical(buf: Bytes)
    requires ParseSigned(buf).Good?
    ensures var r := ParseSigned(buf).value; SignedBytes(r.0).Good? && buf == SignedBytes(r.0).value + r.1
  {
    hide ToBytes, ReadUint, ReadVar, Pow256, BytesFor;
    Widths();
    var a := ReadUint(1, buf).value;
    var b := ReadUint(1, a.1).value;
    var c := ReadVar(0, MAX_16, b.1).value;
    UintCanonical(1, buf);
    UintCanonical(1, a.1);
    VarCanonical(0, MAX_16, b.1);
    var x, y, z := ToBytes(a.0, 1), ToBytes(b.0, 1), WriteVar(c.0, 0, MAX_16).value;
    assert x + (y + (z + c.1)) == x + y + z + c.1;
  }

  // ---------- Extensions ----------

  /** `CheckSctExtensionsFormat`, from one extension on. */
  function FirstWrong(list: seq<Extension>, last: nat): Option<Error> {
    if list == [] then None
    else if |list[0].data| > MAX_16 then Some(EXTENSIONS_TOO_LONG)
    else if list[0].kind > MAX_16 then Some(INVALID_ENTRY_TYPE)
    else if list[0].kind < last then Some(EXTENSIONS_NOT_ORDERED)
    else FirstWrong(list[1..], list[0].kind)
  }

  /** What is wrong with a list of extensions. */
  function Wrong(list: seq<Extension>): Option<Error> {
    if |list| > MAX_EXTENSIONS then Some(EXTENSIONS_TOO_LONG) else FirstWrong(list, 0)
  }

  ghost predicate Small(list: seq<Extension>) {
    forall i :: 0 <= i < |list| ==> list[i].kind <= MAX_16 && |list[i].data| <= MAX_16
  }

  /** Nothing is wrong exactly with a short list of small extensions in ascending order. */
  lemma {:induction false} FirstWrongExactly(list: seq<Extension>, last: nat)
    ensures FirstWrong(list, last).None? <==>
      && Small(list) && (forall i :: 0 <= i < |list| ==> last <= list[i].kind)
      && (forall i, j :: 0 <= i < j < |list| ==> list[i].kind <= list[j].kind)
  {
    if list != [] {
      FirstWrongExactly(list[1..], list[0].kind);
      assert forall i :: 0 < i < |list| ==> list[i] == list[1..][i - 1];
      assert forall i :: 0 <= i < |list[1..]| ==> list[1..][i] == list[i + 1];
    }
  }

  function ExtensionBytes(list: seq<Extension>): Bytes
    requires Small(list)
  {
    Widths();
    if list == [] then []
    else ToBytes(list[0].kind, 2) + WriteVar(list[0].data, 0, MAX_16).value + ExtensionBytes(list[1..])
  }

  /** The loop of `ReadSctExtension`. */
  function ParseExtensions(count: nat, buf: Bytes): Option<(seq<Extension>, Bytes)> {
    if count == 0 then Some(([], buf))
    else
      var a := ReadUint(2, buf);
      if a.None? then None
      else
        var b := ReadVar(0, MAX_16, a.value.1);
        if b.None? then None
        else
          var rest := ParseExtensions(count - 1, b.value.1);
          if rest.None? then None else Some(([Extension(a.value.0, b.value.0)] + rest.value.0, rest.value.1))
  }

  lemma {:induction false} ExtensionsBack(list: seq<Extension>, suffix: Bytes)
    requires Small(list)
    ensures ParseExtensions(|list|, ExtensionBytes(list) + suffix) == Some((list, suffix))
  {
    hide ToBytes, ReadUint, ReadVar, WriteVar, Pow256, BytesFor;
    Widths();
    if list == [] {
      assert [] + suffix == suffix;
    } else {
      WroteVar(list[0].data);
      var a, b, c := ToBytes(list[0].kind, 2), WriteVar(list[0].data, 0, MAX_16).value, ExtensionBytes(list[1..]);
      UintRoundTrip(list[0].kind, 2, b + (c + suffix));
      VarRoundTrip(list[0].data, 0, MAX_16, c + suffix);
      assert a + b + c + suffix == a + (b + (c + suffix));
      ExtensionsBack(list[1..], suffix);
      assert list == [list[0]] + list[1..];
    }
  }

  lemma OneCanonical(buf: Bytes)
    requires ReadUint(2, buf).Some? && ReadVar(0, MAX_16, ReadUint(2, buf).value.1).Some?
    ensures var a := ReadUint(2, buf).value; var b := ReadVar(0, MAX_16, a.1).value;
      && a.0 < Pow256(2) && Small([Extension(a.0, b.0)]) && WriteVar(b.0, 0, MAX_16).Some?
      && buf == ToBytes(a.0, 2) + WriteVar(b.0, 0, MAX_16).value + b.1
  {
    hide ToBytes, ReadUint, ReadVar, Pow256, BytesFor;
    Widths();
    var a := ReadUint(2, buf).value;
    var b := ReadVar(0, MAX_16, a.1).value;
    UintCanonical(2, buf);
    VarCanonical(0, MAX_16, a.1);
    var x, y := ToBytes(a.0, 2), WriteVar(b.0, 0, MAX_16).value;
    assert x + (y + b.1) == x + y + b.1;
  }

  lemma ExtensionBytesUnfold(list: seq<Extension>)
    requires Small(list) && list != []
    ensures WriteVar(list[0].data, 0, MAX_16).Some?
    ensures ExtensionBytes(list)
         == ToBytes(list[0].kind, 2) + WriteVar(list[0].data, 0, MAX_16).value + ExtensionBytes(list[1..])
  {
    hide ToBytes, Pow256, BytesFor;
    Widths();
  }

  lemma NoExtensionBytes()
    ensures ExtensionBytes([]) == []
  {
  }

  lemma {:induction false} ExtensionsCanonical(count: nat, buf: Bytes)
    requires ParseExtensions(count, buf).Some?
    ensures var r := ParseExtensions(count, buf).value;
      |r.0| == count && Small(r.0) && buf == ExtensionBytes(r.0) + r.1
  {
    hide ToBytes, ReadUint, ReadVar, WriteVar, Pow256, BytesFor, ExtensionBytes;
    if count > 0 {
      var a := ReadUint(2, buf).value;
      var b := ReadVar(0, MAX_16, a.1).value;
      OneCanonical(buf);
      ExtensionsCanonical(count - 1, b.1);
      var r := ParseExtensions(count, buf).value;
      assert Small([Extension(a.0, b.0)]) && [Extension(a.0, b.0)][0] == r.0[0];
      assert r.0[1..] == ParseExtensions(count - 1, b.1).value.0;
      ExtensionBytesUnfold(r.0);
      var x, z := ToBytes(a.0, 2) + WriteVar(b.0, 0, MAX_16).value, ExtensionBytes(r.0[1..]);
      assert x + (z + r.1) == x + z + r.1;
    } else {
      NoExtensionBytes();
    }
  }

  // ---------- Timestamps ----------

  /** The middle part: after the log id and the timestamp, before the signature. */
  function MiddleBytes(sct: Sct): Result<Bytes> {
    Widths();
    if sct.V1? then
      if |sct.extensions| > MAX_16 then Bad(EXTENSIONS_TOO_LONG) else Good(WriteVar(sct.extensions, 0, MAX_16).value)
    else
      FirstWrongExactly(sct.list, 0);
      var w := Wrong(sct.list);
      if w.Some? then Bad(w.value) else Good(ToBytes(|sct.list|, 2) + ExtensionBytes(sct.list))
  }

  function Version(sct: Sct): nat {
    if sct.V1? then 0 else 1
  }

  /** `SerializeSCT`. */
  function SctBytes(sct: Sct): Result<Bytes> {
    Widths();
    var middle := MiddleBytes(sct);
    if middle.Bad? then middle
    else if |sct.keyId| != KEY_ID_LENGTH then Bad(INVALID_KEYID_LENGTH)
    else
      var signed := SignedBytes(sct.signature);
      if signed.Bad? then signed
      else Good(ToBytes(Version(sct), 1) + sct.keyId + ToBytes(sct.timestamp, 8) + middle.value + signed.value)
  }

  /** `ReadSctExtension`. */
  function ParseList2(buf: Bytes): Result<(seq<Extension>, Bytes)> {
    var n := ReadUint(2, buf);
    if n.None? then Bad(INPUT_TOO_SHORT)
    else if n.value.0 > MAX_EXTENSIONS then Bad(EXTENSIONS_TOO_LONG)
    else
      var list := ParseExtensions(n.value.0, n.value.1);
      if list.None? then Bad(INPUT_TOO_SHORT)
      else if Wrong(list.value.0).Some? then Bad(EXTENSIONS_NOT_ORDERED)
      else Good(list.value)
  }

  /** `ReadSCTV1` and `ReadSCTV2`, after the version. The extensions of a V1 timestamp are read and dropped. */
  function ParseBody(version: nat, buf: Bytes): Result<(Sct, Bytes)> {
    var id := ReadFixed(KEY_ID_LENGTH, buf);
    if id.None? then Bad(INPUT_TOO_SHORT)
    else
      var time := ReadUint(8, id.value.1);
      if time.None? then Bad(INPUT_TOO_SHORT)
      else
        TimeFits(id.value.1);
        if version == 0 then
          var ext := ReadVar(0, MAX_16, time.value.1);
          if ext.None? then Bad(INPUT_TOO_SHORT)
          else
            var s := ParseSigned(ext.value.1);
            if s.Bad? then Bad(s.error) else Good((V1(id.value.0, time.value.0, [], s.value.0), s.value.1))
        else
          var list := ParseList2(time.value.1);
          if list.Bad? then Bad(list.error)
          else
            var s := ParseSigned(list.value.1);
            if s.Bad? then Bad(s.error) else Good((V2(id.value.0, time.value.0, list.value.0, s.value.0), s.value.1))
  }

  lemma TimeFits(buf: Bytes)
    requires ReadUint(8, buf).Some?
    ensures ReadUint(8, buf).value.0 < 0x1_0000_0000_0000_0000
  {
    Widths();
    ToFrom(buf[..8]);
  }

  /** `DeserializeSCT`. */
  function ParseSct(buf: Bytes): Result<Sct> {
    var v := ReadUint(1, buf);
    if v.None? then Bad(INPUT_TOO_SHORT)
    else if v.value.0 > 1 then Bad(UNSUPPORTED_VERSION)
    else
      var r := ParseBody(v.value.0, v.value.1);
      if r.Bad? then Bad(r.error)
      else if r.value.1 != [] then Bad(INPUT_TOO_LONG)
      else Good(r.value.0)
  }

  lemma ListBack(list: seq<Extension>, suffix: Bytes)
    requires Wrong(list).None? && Small(list)
    ensures |list| < Pow256(2) && ParseList2(ToBytes(|list|, 2) + ExtensionBytes(list) + suffix) == Good((list, suffix))
  {
    hide ToBytes, ReadUint, Pow256, BytesFor, ExtensionBytes, ParseExtensions, FirstWrong;
    Widths();
    var a, b := ToBytes(|list|, 2), ExtensionBytes(list);
    UintRoundTrip(|list|, 2, b + suffix);
    assert a + b + suffix == a + (b + suffix);
    ExtensionsBack(list, suffix);
  }

  lemma ListCanonical(buf: Bytes)
    requires ParseList2(buf).Good?
    ensures var r := ParseList2(buf).value;
      && Wrong(r.0).None? && Small(r.0) && |r.0| < Pow256(2)
      && buf == ToBytes(|r.0|, 2) + ExtensionBytes(r.0) + r.1
  {
    hide ToBytes, ReadUint, Pow256, BytesFor, ExtensionBytes, ParseExtensions, FirstWrong;
    Widths();
    var n := ReadUint(2, buf).value;
    UintCanonical(2, buf);
    ExtensionsCanonical(n.0, n.1);
  }

  /** What a reader gets back: the extensions of a V1 timestamp are lost. */
  function Kept(sct: Sct): Sct {
    if sct.V1? then sct.(extensions := []) else sct
  }

  lemma BodyBack(sct: Sct, middle: Bytes, signed: Bytes)
    requires |sct.keyId| == KEY_ID_LENGTH && MiddleBytes(sct) == Good(middle)
    requires SignedBytes(sct.signature) == Good(signed)
    ensures sct.timestamp < Pow256(8)
    ensures ParseBody(Version(sct), sct.keyId + (ToBytes(sct.timestamp, 8) + (middle + (signed + []))))
      == Good((Kept(sct), []))
  {
    hide ToBytes, ReadUint, ReadVar, ReadFixed, Pow256, BytesFor, ExtensionBytes;
    hide ParseSigned, SignedBytes, ParseList2, WriteVar, FirstWrong;
    Widths();
    var rest := middle + (signed + []);
    FixedRoundTrip(sct.keyId, ToBytes(sct.timestamp, 8) + rest);
    UintRoundTrip(sct.timestamp, 8, rest);
    SignedBack(sct.signature, []);
    if sct.V1? {
      WroteVar(sct.extensions);
      VarRoundTrip(sct.extensions, 0, MAX_16, signed + []);
    } else {
      FirstWrongExactly(sct.list, 0);
      ListBack(sct.list, signed + []);
    }
  }

  /** Reading back what was written gives the timestamp, except for the extensions of version 1. */
  lemma SctBack(sct: Sct)
    requires SctBytes(sct).Good?
    ensures ParseSct(SctBytes(sct).value) == Good(Kept(sct))
  {
    hide ToBytes, ReadUint, Pow256, BytesFor, SignedBytes, MiddleBytes, ParseBody;
    Widths();
    var middle, signed := MiddleBytes(sct).value, SignedBytes(sct.signature).value;
    BodyBack(sct, middle, signed);
    var v, t := ToBytes(Version(sct), 1), ToBytes(sct.timestamp, 8);
    var rest := sct.keyId + (t + (middle + (signed + [])));
    assert v + sct.keyId + t + middle + signed == v + rest;
    UintRoundTrip(Version(sct), 1, rest);
  }

  /** The round trip for version 1 is exact exactly without extensions. */
  lemma V1DropsExtensions(sct: Sct)
    requires sct.V1? && SctBytes(sct).Good?
    ensures ParseSct(SctBytes(sct).value) == Good(sct) <==> sct.extensions == []
  {
    hide SctBytes, ParseSct;
    SctBack(sct);
  }

  lemma BodyCanonical(buf: Bytes)
    requires ParseBody(1, buf).Good? && ParseBody(1, buf).value.1 == []
    ensures var sct := ParseBody(1, buf).value.0;
      && sct.V2? && |sct.keyId| == KEY_ID_LENGTH && MiddleBytes(sct).Good? && SignedBytes(sct.signature).Good?
      && sct.timestamp < Pow256(8)
      && buf == sct.keyId + ToBytes(sct.timestamp, 8) + MiddleBytes(sct).value + SignedBytes(sct.signature).value
  {
    hide ToBytes, ReadUint, ReadVar, Pow256, BytesFor, ExtensionBytes, ParseSigned, SignedBytes, ParseList2, FirstWrong;
    Widths();
    var id := ReadFixed(KEY_ID_LENGTH, buf).value;
    assert buf == id.0 + id.1;
    UintCanonical(8, id.1);
    var time := ReadUint(8, id.1).value;
    ListCanonical(time.1);
    var list := ParseList2(time.1).value;
    SignedCanonical(list.1);
    var signed := ParseSigned(list.1).value;
    var t, m, s := ToBytes(time.0, 8), ToBytes(|list.0|, 2) + ExtensionBytes(list.0), SignedBytes(signed.0).value;
    assert signed.1 == [];
    assert id.0 + (t + (m + (s + []))) == id.0 + t + m + s;
  }

  /** Version 2: a timestamp is read from exactly the bytes that it is written as. */
  lemma SctInverse(sct: Sct, b: Bytes)
    requires sct.V2?
    ensures ParseSct(b) == Good(sct) <==> SctBytes(sct) == Good(b)
  {
    hide ToBytes, ReadUint, Pow256, BytesFor, SignedBytes, MiddleBytes, ParseBody;
    if SctBytes(sct) == Good(b) {
      SctBack(sct);
    }
    if ParseSct(b) == Good(sct) {
      var v := ReadUint(1, b).value;
      UintCanonical(1, b);
      VersionOf(v.0, v.1);
      BodyCanonical(v.1);
      Widths();
      var t, m, s := ToBytes(sct.timestamp, 8), MiddleBytes(sct).value, SignedBytes(sct.signature).value;
      assert ToBytes(1, 1) + (sct.keyId + t + m + s) == ToBytes(1, 1) + sct.keyId + t + m + s;
    }
  }

  /** Each version is read as itself. */
  lemma VersionOf(version: nat, buf: Bytes)
    ensures ParseBody(version, buf).Good? ==> ParseBody(version, buf).value.0.V1? == (version == 0)
  {
  }
}
